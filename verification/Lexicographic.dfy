/** The order of `std::string`: byte by byte, a proper prefix first. */
module Lexicographic {

  predicate Less(s: string, t: string) {
    t != [] && (s == [] || s[0] < t[0] || (s[0] == t[0] && Less(s[1..], t[1..])))
  }

  lemma {:induction false} LessIrreflexive(s: string)
    ensures !Less(s, s)
  {
    if s != [] { LessIrreflexive(s[1..]); }
  }

  lemma {:induction false} LessTransitive(s: string, t: string, u: string)
    requires Less(s, t) && Less(t, u)
    ensures Less(s, u)
  {
    if s != [] && s[0] == t[0] == u[0] { LessTransitive(s[1..], t[1..], u[1..]); }
  }

  lemma {:induction false} LessTotal(s: string, t: string)
    ensures s == t || Less(s, t) || Less(t, s)
  {
    if s != [] && t != [] && s[0] == t[0] {
      LessTotal(s[1..], t[1..]);
      assert s == [s[0]] + s[1..] && t == [t[0]] + t[1..];
    }
  }

  /** The texts agree up to `k`, where the first ends or has the smaller character. */
  ghost predicate DiffersAt(s: string, t: string, k: int) {
    && 0 <= k <= |s| && k < |t| && s[..k] == t[..k]
    && (k == |s| || s[k] < t[k])
  }

  lemma {:induction false} LessIff(s: string, t: string)
    ensures Less(s, t) <==> exists k :: DiffersAt(s, t, k)
  {
    if t == [] {
      return;
    }
    if s == [] {
      assert DiffersAt(s, t, 0);
      return;
    }
    LessIff(s[1..], t[1..]);
    if Less(s, t) {
      if s[0] < t[0] {
        assert DiffersAt(s, t, 0);
      } else {
        var k :| DiffersAt(s[1..], t[1..], k);
        assert s[..k + 1] == [s[0]] + s[1..][..k] && t[..k + 1] == [t[0]] + t[1..][..k];
        assert DiffersAt(s, t, k + 1);
      }
    }
    if k :| DiffersAt(s, t, k) && k > 0 {
      assert s[0] == s[..k][0] == t[0];
      assert s[1..][..k - 1] == s[..k][1..] == t[1..][..k - 1];
      assert DiffersAt(s[1..], t[1..], k - 1);
    }
  }
}
