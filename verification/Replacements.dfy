/** Replacements, their order and what applying them means
    (thrift/compiler/codemod/file_manager.h and file_manager.cc). */
module Replacements {
  import Lexicographic

  datatype Replacement = Replacement(begin: nat, end: nat, text: string, isInclude: bool)

  /** `replacement::operator<`. */
  predicate Less(a: Replacement, b: Replacement) {
    if a.begin != b.begin then a.begin < b.begin
    else if a.end != b.end then a.end < b.end
    else if a.isInclude != b.isInclude then a.isInclude
    else Lexicographic.Less(a.text, b.text)
  }

  lemma LessIsStrictTotalOrder(a: Replacement, b: Replacement, c: Replacement)
    ensures !Less(a, a)
    ensures a == b || Less(a, b) || Less(b, a)
    ensures Less(a, b) && Less(b, c) ==> Less(a, c)
  {
    Lexicographic.LessIrreflexive(a.text);
    Lexicographic.LessTotal(a.text, b.text);
    if Less(a, b) && Less(b, c) && Lexicographic.Less(a.text, b.text) && Lexicographic.Less(b.text, c.text) {
      Lexicographic.LessTransitive(a.text, b.text, c.text);
    }
  }

  /** The iteration order of a `std::set<replacement>`: strictly increasing. */
  ghost predicate Sorted(rs: seq<Replacement>) {
    forall i, j :: 0 <= i < j < |rs| ==> Less(rs[i], rs[j])
  }

  ghost function Elements(rs: seq<Replacement>): set<Replacement> {
    set r | r in rs
  }

  /** A set of replacements has one iteration order, so it does not matter in
      which order its members were added. */
  lemma {:induction false} OrderIsDetermined(rs: seq<Replacement>, ss: seq<Replacement>)
    requires Sorted(rs) && Sorted(ss) && Elements(rs) == Elements(ss)
    ensures rs == ss
    decreases |rs|
  {
    assert ss != [] ==> ss[0] in Elements(ss);
    if rs != [] {
      assert rs[0] in Elements(ss) && ss != [];
      assert ss[0] in Elements(rs);
      LessIsStrictTotalOrder(rs[0], ss[0], rs[0]);
      assert rs[0] == ss[0];
      assert Elements(rs[1..]) == Elements(rs) - {rs[0]} by { TailElements(rs); }
      assert Elements(ss[1..]) == Elements(ss) - {ss[0]} by { TailElements(ss); }
      OrderIsDetermined(rs[1..], ss[1..]);
      assert rs == [rs[0]] + rs[1..] && ss == [ss[0]] + ss[1..];
    }
  }

  lemma TailElements(rs: seq<Replacement>)
    requires Sorted(rs) && rs != []
    ensures Elements(rs[1..]) == Elements(rs) - {rs[0]}
  {
    LessIsStrictTotalOrder(rs[0], rs[0], rs[0]);
    assert rs == [rs[0]] + rs[1..];
    forall i | 1 <= i < |rs| ensures rs[i] != rs[0] {
      assert Less(rs[0], rs[i]);
    }
  }

  /** What the fields of `replacement` are documented to satisfy. */
  ghost predicate InBounds(length: nat, rs: seq<Replacement>) {
    forall i :: 0 <= i < |rs| ==> rs[i].begin <= rs[i].end <= length
  }

  /** No replacement starts before an earlier one has ended. */
  ghost predicate NonCrossing(rs: seq<Replacement>) {
    forall i, j :: 0 <= i < j < |rs| ==> rs[i].end <= rs[j].begin
  }

  function Splice(s: string, r: Replacement): string
    requires r.begin <= r.end <= |s|
  {
    s[..r.begin] + r.text + s[r.end..]
  }

  /** Reference meaning: apply the replacements to the text one at a time, the last one first. */
  ghost function SpliceFromLast(s: string, rs: seq<Replacement>): string
    requires InBounds(|s|, rs) && NonCrossing(rs)
    decreases |rs|
  {
    if rs == [] then s else
      var r := rs[|rs| - 1];
      SpliceFromLast(Splice(s, r), rs[..|rs| - 1])
  }

  ghost function End(rs: seq<Replacement>): nat {
    if rs == [] then 0 else rs[|rs| - 1].end
  }

  /** The text built up by the pass once `rs` have been handled. */
  ghost function Passed(s: string, rs: seq<Replacement>): string
    requires InBounds(|s|, rs) && NonCrossing(rs)
  {
    if rs == [] then [] else
      var r := rs[|rs| - 1];
      Passed(s, rs[..|rs| - 1]) + s[End(rs[..|rs| - 1])..r.begin] + r.text
  }

  lemma {:induction false} PassedLooksBackOnly(s: string, t: string, rs: seq<Replacement>, n: nat)
    requires InBounds(|s|, rs) && InBounds(|t|, rs) && NonCrossing(rs)
    requires End(rs) <= n <= |s| && n <= |t| && s[..n] == t[..n]
    ensures Passed(s, rs) == Passed(t, rs)
  {
    if rs != [] {
      var init, r := rs[..|rs| - 1], rs[|rs| - 1];
      PassedLooksBackOnly(s, t, init, n);
      assert s[End(init)..r.begin] == s[..n][End(init)..r.begin] == t[End(init)..r.begin];
    }
  }

  lemma {:induction false} PassIsSplicing(s: string, rs: seq<Replacement>)
    requires InBounds(|s|, rs) && NonCrossing(rs)
    ensures SpliceFromLast(s, rs) == Passed(s, rs) + s[End(rs)..]
    decreases |rs|
  {
    if rs != [] {
      var init, r := rs[..|rs| - 1], rs[|rs| - 1];
      var t := Splice(s, r);
      assert End(init) <= r.begin;
      PassIsSplicing(t, init);
      PassedLooksBackOnly(s, t, init, r.begin);
      assert SpliceFromLast(s, rs) == SpliceFromLast(t, init);
      assert Passed(s, rs) == Passed(s, init) + s[End(init)..r.begin] + r.text;
      hide SpliceFromLast, Passed, NonCrossing;
      SplicedTail(s, r, End(init), Passed(s, init));
    }
  }

  lemma SplicedTail(s: string, r: Replacement, from: nat, lead: string)
    requires from <= r.begin <= r.end <= |s|
    ensures lead + Splice(s, r)[from..] == lead + s[from..r.begin] + r.text + s[r.end..]
  {
    assert Splice(s, r)[from..] == s[from..r.begin] + r.text + s[r.end..];
  }

  lemma NothingPassed(s: string)
    ensures End([]) == 0 && Passed(s, []) == ""
  {}

  /** One step of the pass: a replacement that starts where the one before has ended,
      or later, is added; any other crosses. */
  lemma PassAdvances(s: string, rs: seq<Replacement>, i: nat)
    requires InBounds(|s|, rs) && i < |rs| && NonCrossing(rs[..i])
    ensures End(rs[..i]) <= |s| && rs[i].begin <= rs[i].end <= |s|
    ensures End(rs[..i]) > rs[i].begin ==> !NonCrossing(rs)
    ensures End(rs[..i]) <= rs[i].begin ==>
      && NonCrossing(rs[..i + 1]) && End(rs[..i + 1]) == rs[i].end
      && Passed(s, rs[..i + 1]) == Passed(s, rs[..i]) + s[End(rs[..i])..rs[i].begin] + rs[i].text
  {
    assert rs[..i + 1][..i] == rs[..i];
  }

  /** By how much the replacements change the length of the text. */
  ghost function Growth(rs: seq<Replacement>): int {
    if rs == [] then 0 else
      var r := rs[|rs| - 1];
      Growth(rs[..|rs| - 1]) + |r.text| - (r.end - r.begin)
  }

  lemma {:induction false} SplicedLength(s: string, rs: seq<Replacement>)
    requires InBounds(|s|, rs) && NonCrossing(rs)
    ensures |SpliceFromLast(s, rs)| == |s| + Growth(rs)
    decreases |rs|
  {
    if rs != [] {
      SplicedLength(Splice(s, rs[|rs| - 1]), rs[..|rs| - 1]);
    }
  }

  lemma InsertedElements(rs: seq<Replacement>, i: nat, r: Replacement)
    requires i <= |rs|
    ensures Elements(rs[..i] + [r] + rs[i..]) == Elements(rs) + {r}
  {
    assert rs == rs[..i] + rs[i..];
  }
}
