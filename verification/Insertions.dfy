/** Where the texts of replacements end up in the new content, told by the set of
    replacements alone (thrift/compiler/codemod/file_manager.h). */
module Insertions {
  import Lexicographic
  import opened Replacements

  function Texts(rs: seq<Replacement>): string {
    if rs == [] then "" else rs[0].text + Texts(rs[1..])
  }

  /** Each text stands before the next in the order of strings. */
  ghost predicate RisingTexts(rs: seq<Replacement>) {
    forall i, j :: 0 <= i < j < |rs| ==> Lexicographic.Less(rs[i].text, rs[j].text)
  }

  /** The old text from `begin` up to `end`, as far as there is any. */
  function Kept(s: string, begin: nat, end: nat): string {
    if begin <= end <= |s| then s[begin..end] else ""
  }

  /** The text from offset `from` on with the replacements applied first to last. */
  function Forward(s: string, rs: seq<Replacement>, from: nat): string {
    if rs == [] then Kept(s, from, |s|)
    else Kept(s, from, rs[0].begin) + rs[0].text + Forward(s, rs[1..], rs[0].end)
  }

  /** The replacements around offset `k`: those that end there at the latest, the
      includes inserted there and the other insertions, both by text, the one that
      replaces what starts there, and those that start later. */
  datatype Parts = Parts(
    before: seq<Replacement>, includes: seq<Replacement>, others: seq<Replacement>, starting: seq<Replacement>,
    after: seq<Replacement>)
  {
    ghost function All(): seq<Replacement> {
      before + (includes + (others + (starting + after)))
    }

    ghost predicate At(k: nat) {
      && (forall r :: r in before ==> r.begin < k && r.end <= k)
      && (forall r :: r in includes ==> r.begin == r.end == k && r.isInclude) && RisingTexts(includes)
      && (forall r :: r in others ==> r.begin == r.end == k && !r.isInclude) && RisingTexts(others)
      && |starting| <= 1 && (forall r :: r in starting ==> r.begin == k < r.end)
      && forall r :: r in after ==> r.begin > k
    }

    /** The old text up to `k` with what comes before, the insertions in their order,
        the replacement that starts at `k`, and the rest. */
    ghost function Shown(s: string, k: nat): string
      requires k <= |s|
    {
      Forward(s[..k], before, 0) + Texts(includes) + Texts(others) + Texts(starting)
      + Forward(s, after, if starting == [] then k else starting[0].end)
    }
  }

  /** At offset `k` the text shows the set of replacements in that order. */
  ghost predicate ShownAt(s: string, rs: set<Replacement>, k: nat, text: string)
    requires k <= |s|
  {
    exists p: Parts :: p.At(k) && Elements(p.All()) == rs && text == p.Shown(s, k)
  }

  /** No replacement stretches across the offset. */
  ghost predicate Uncovered(rs: set<Replacement>, k: nat) {
    forall r :: r in rs ==> !(r.begin < k < r.end)
  }

  // The parts of a sorted list.

  ghost predicate Inserted(rs: seq<Replacement>, k: nat, isInclude: bool) {
    forall r :: r in rs ==> r.begin == r.end == k && r.isInclude == isInclude
  }

  ghost predicate StartFrom(rs: seq<Replacement>, k: nat) {
    forall r :: r in rs ==> k <= r.begin <= r.end
  }

  ghost predicate Starting(rs: seq<Replacement>, k: nat) {
    forall r :: r in rs ==> r.begin == k < r.end
  }

  ghost predicate After(rs: seq<Replacement>, k: nat) {
    forall r :: r in rs ==> r.begin > k
  }

  lemma SortedTail(rs: seq<Replacement>, n: nat)
    requires Sorted(rs) && n <= |rs|
    ensures Sorted(rs[..n]) && Sorted(rs[n..]) && rs == rs[..n] + rs[n..]
  {}

  /** A sorted list falls in two where a property that is lost only once is lost. */
  lemma Cut(rs: seq<Replacement>, p: Replacement -> bool) returns (n: nat)
    requires Sorted(rs) && forall x, y :: x in rs && y in rs && Less(x, y) && p(y) ==> p(x)
    ensures n <= |rs| && Sorted(rs[..n]) && Sorted(rs[n..]) && rs == rs[..n] + rs[n..]
    ensures forall r :: r in rs[..n] ==> p(r) && r in rs
    ensures forall r :: r in rs[n..] ==> !p(r) && r in rs
  {
    n := 0;
    while n < |rs| && p(rs[n])
      invariant 0 <= n <= |rs| && forall i :: 0 <= i < n ==> p(rs[i])
    {
      n := n + 1;
    }
    SortedTail(rs, n);
    hide Sorted, Less;
    forall i | n <= i < |rs| ensures !p(rs[i]) {
      if i > n {
        SortedAt(rs, n, i);
      }
    }
  }

  lemma SortedAt(rs: seq<Replacement>, i: nat, j: nat)
    requires Sorted(rs) && i < j < |rs|
    ensures Less(rs[i], rs[j]) && rs[i] in rs && rs[j] in rs
  {
    hide Less;
  }

  lemma CutIncludes(rs: seq<Replacement>, k: nat) returns (n: nat)
    requires Sorted(rs) && StartFrom(rs, k)
    ensures n <= |rs| && Sorted(rs[..n]) && Sorted(rs[n..]) && rs == rs[..n] + rs[n..]
    ensures Inserted(rs[..n], k, true) && StartFrom(rs[n..], k)
    ensures forall r :: r in rs[n..] ==> !(r.begin == r.end == k && r.isInclude)
  {
    hide Sorted;
    n := Cut(rs, (r: Replacement) => r.begin == k && r.end == k && r.isInclude);
  }

  lemma CutInsertions(rs: seq<Replacement>, k: nat) returns (n: nat)
    requires Sorted(rs) && StartFrom(rs, k)
    requires forall r :: r in rs ==> !(r.begin == r.end == k && r.isInclude)
    ensures n <= |rs| && Sorted(rs[..n]) && Sorted(rs[n..]) && rs == rs[..n] + rs[n..]
    ensures Inserted(rs[..n], k, false) && StartFrom(rs[n..], k)
    ensures forall r :: r in rs[n..] ==> !(r.begin == r.end == k)
  {
    hide Sorted;
    n := Cut(rs, (r: Replacement) => r.begin == k && r.end == k);
  }

  lemma CutStarting(rs: seq<Replacement>, k: nat) returns (n: nat)
    requires Sorted(rs) && StartFrom(rs, k)
    requires forall r :: r in rs ==> !(r.begin == r.end == k)
    ensures n <= |rs| && rs == rs[..n] + rs[n..] && Starting(rs[..n], k) && After(rs[n..], k)
  {
    hide Sorted;
    n := Cut(rs, (r: Replacement) => r.begin == k);
  }

  lemma RisingWhenSorted(rs: seq<Replacement>, k: nat, isInclude: bool)
    requires Sorted(rs) && Inserted(rs, k, isInclude)
    ensures RisingTexts(rs)
  {
    forall i, j | 0 <= i < j < |rs| ensures Lexicographic.Less(rs[i].text, rs[j].text) {
      assert rs[i] in rs && rs[j] in rs && Less(rs[i], rs[j]);
    }
  }

  lemma OneStarts(rs: seq<Replacement>, k: nat)
    requires NonCrossing(rs) && Starting(rs, k)
    ensures |rs| <= 1
  {
    assert |rs| > 1 ==> rs[0] in rs && rs[1] in rs && rs[0].end <= rs[1].begin;
  }

  lemma NonCrossingPart(rs: seq<Replacement>, a: seq<Replacement>, b: seq<Replacement>, c: seq<Replacement>)
    requires NonCrossing(rs) && rs == a + (b + c)
    ensures NonCrossing(b)
  {
    forall i, j | 0 <= i < j < |b| ensures b[i].end <= b[j].begin {
      assert rs[|a| + i] == b[i] && rs[|a| + j] == b[j];
    }
  }

  /** The insertions at `k` come first of what does not start before `k`, the includes
      before the others. */
  lemma PartsFrom(rs: seq<Replacement>, k: nat) returns (p: Parts)
    requires Sorted(rs) && NonCrossing(rs) && StartFrom(rs, k)
    ensures p.At(k) && p.before == [] && p.includes + (p.others + (p.starting + p.after)) == rs
  {
    hide Sorted, NonCrossing, Inserted, StartFrom, Starting, After, RisingTexts, Parts.At;
    var m := CutIncludes(rs, k);
    var l := CutInsertions(rs[m..], k);
    var later := rs[m..][l..];
    var o := CutStarting(later, k);
    p := Parts([], rs[..m], rs[m..][..l], later[..o], later[o..]);
    RisingWhenSorted(p.includes, k, true);
    RisingWhenSorted(p.others, k, false);
    assert rs == (p.includes + p.others) + (p.starting + p.after);
    NonCrossingPart(rs, p.includes + p.others, p.starting, p.after);
    OneStarts(p.starting, k);
    PartsAreAt(p, k);
  }

  lemma PartsAreAt(p: Parts, k: nat)
    requires forall r :: r in p.before ==> r.begin < k && r.end <= k
    requires Inserted(p.includes, k, true) && RisingTexts(p.includes)
    requires Inserted(p.others, k, false) && RisingTexts(p.others)
    requires |p.starting| <= 1 && Starting(p.starting, k) && After(p.after, k)
    ensures p.At(k)
  {}

  lemma WithBefore(p: Parts, before: seq<Replacement>, k: nat)
    requires p.At(k) && forall r :: r in before ==> r.begin < k && r.end <= k
    ensures p.(before := before).At(k)
  {}

  /** The iteration order of the set falls into the parts. */
  lemma PartsOf(rs: seq<Replacement>, k: nat) returns (p: Parts)
    requires Sorted(rs) && NonCrossing(rs) && StartFrom(rs, 0) && Uncovered(Elements(rs), k)
    ensures p.At(k) && p.All() == rs
  {
    hide Sorted, NonCrossing, Parts.At;
    var n := Cut(rs, (r: Replacement) => r.begin < k);
    assert rs[n..] == rs[n..] + [] && rs == rs[..n] + (rs[n..] + []);
    NonCrossingPart(rs, rs[..n], rs[n..], []);
    assert forall r :: r in rs[..n] ==> r in Elements(rs);
    var q := PartsFrom(rs[n..], k);
    WithBefore(q, rs[..n], k);
    p := q.(before := rs[..n]);
  }

  // The text.

  lemma PassedStep(s: string, done: seq<Replacement>, r: Replacement)
    requires InBounds(|s|, done + [r]) && NonCrossing(done + [r])
    ensures InBounds(|s|, done) && NonCrossing(done) && End(done) <= r.begin <= r.end <= |s| && End(done + [r]) == r.end
    ensures Passed(s, done + [r]) == Passed(s, done) + Kept(s, End(done), r.begin) + r.text
  {
    var more := done + [r];
    assert more[..|done|] == done && more[|done|] == r;
    if done != [] {
      assert more[|done| - 1] == done[|done| - 1];
    }
  }

  lemma PassedSoFar(s: string, done: seq<Replacement>, rs: seq<Replacement>)
    requires InBounds(|s|, done + rs) && NonCrossing(done + rs)
    ensures InBounds(|s|, done) && NonCrossing(done)
  {
    assert done == (done + rs)[..|done|];
  }

  lemma {:induction false} ForwardIsPassed(s: string, done: seq<Replacement>, rs: seq<Replacement>)
    requires InBounds(|s|, done + rs) && NonCrossing(done + rs) && InBounds(|s|, done) && NonCrossing(done)
    ensures SpliceFromLast(s, done + rs) == Passed(s, done) + Forward(s, rs, End(done))
    decreases |rs|
  {
    hide Passed, SpliceFromLast, NonCrossing;
    if rs == [] {
      assert done + rs == done;
      PassIsSplicing(s, done);
      assert End(done) <= |s|;
      return;
    }
    hide InBounds, End;
    var r, later := rs[0], rs[1..];
    assert done + [r] + later == done + rs;
    PassedSoFar(s, done + [r], later);
    PassedStep(s, done, r);
    ForwardIsPassed(s, done + [r], later);
    Reassociated(Passed(s, done), Kept(s, End(done), r.begin), r.text, Forward(s, later, r.end));
  }

  lemma Reassociated(a: string, b: string, c: string, d: string)
    ensures a + b + c + d == a + (b + c + d)
  {}

  /** Applying the replacements first to last gives what applying them last to first does. */
  lemma ForwardIsSplicing(s: string, rs: seq<Replacement>)
    requires InBounds(|s|, rs) && NonCrossing(rs)
    ensures SpliceFromLast(s, rs) == Forward(s, rs, 0)
  {
    assert [] + rs == rs;
    ForwardIsPassed(s, [], rs);
    assert Passed(s, []) == "";
  }

  lemma {:induction false} ForwardSplits(s: string, a: seq<Replacement>, b: seq<Replacement>, from: nat, k: nat)
    requires InBounds(k, a) && InBounds(|s|, b) && from <= k <= |s| && NonCrossing(a)
    requires (forall r :: r in a ==> from <= r.begin) && forall r :: r in b ==> k <= r.begin
    ensures Forward(s, a + b, from) == Forward(s[..k], a, from) + Forward(s, b, k)
    decreases |a|
  {
    if a == [] {
      assert a + b == b;
      ForwardFromEarlier(s, b, from, k);
      return;
    }
    var r, rest := a[0], a[1..];
    LaterStart(a, k);
    assert r in a && a + b == [r] + (rest + b) && a == [r] + rest;
    hide NonCrossing, InBounds, Forward;
    assert s[..k][from..r.begin] == s[from..r.begin];
    assert Kept(s, from, r.begin) == Kept(s[..k], from, r.begin);
    hide Kept;
    ForwardSplits(s, rest, b, r.end, k);
    ForwardHead(s, r, rest + b, from);
    ForwardHead(s[..k], r, rest, from);
    AppendedLast(Kept(s, from, r.begin) + r.text, Forward(s[..k], rest, r.end), Forward(s, b, k));
  }

  lemma ForwardHead(s: string, r: Replacement, rest: seq<Replacement>, from: nat)
    ensures Forward(s, [r] + rest, from) == Kept(s, from, r.begin) + r.text + Forward(s, rest, r.end)
  {
    assert ([r] + rest)[1..] == rest;
  }

  lemma AppendedLast(a: string, b: string, c: string)
    ensures a + (b + c) == a + b + c
  {}

  lemma KeptSplits(s: string, from: nat, k: nat, to: nat)
    requires from <= k <= to <= |s|
    ensures Kept(s, from, to) == Kept(s[..k], from, k) + Kept(s, k, to)
  {}

  lemma LaterStart(a: seq<Replacement>, k: nat)
    requires a != [] && NonCrossing(a) && InBounds(k, a)
    ensures InBounds(k, a[1..]) && NonCrossing(a[1..]) && a[0].begin <= a[0].end <= k
    ensures forall r :: r in a[1..] ==> a[0].end <= r.begin
  {
    forall r | r in a[1..] ensures a[0].end <= r.begin {
      var i :| 0 <= i < |a[1..]| && a[1..][i] == r;
      assert a[i + 1] == r;
    }
  }

  lemma ForwardFromEarlier(s: string, b: seq<Replacement>, from: nat, k: nat)
    requires InBounds(|s|, b) && from <= k <= |s| && forall r :: r in b ==> k <= r.begin
    ensures Forward(s, b, from) == Forward(s[..k], [], from) + Forward(s, b, k)
  {
    if b == [] {
      KeptSplits(s, from, k, |s|);
      return;
    }
    var r, rest := b[0], b[1..];
    assert r in b && b == [r] + rest;
    assert Forward(s[..k], [], from) == Kept(s[..k], from, k);
    KeptSplits(s, from, k, r.begin);
    hide Forward, Kept;
    ForwardHead(s, r, rest, from);
    ForwardHead(s, r, rest, k);
    Reassociated(Kept(s[..k], from, k), Kept(s, k, r.begin), r.text, Forward(s, rest, r.end));
  }

  lemma {:induction false} ForwardInserts(s: string, c: seq<Replacement>, d: seq<Replacement>, k: nat)
    requires k <= |s| && forall r :: r in c ==> r.begin == r.end == k
    ensures Forward(s, c + d, k) == Texts(c) + Forward(s, d, k)
    decreases |c|
  {
    if c == [] {
      assert c + d == d;
      return;
    }
    var r, rest := c[0], c[1..];
    assert r in c && c + d == [r] + (rest + d) && Texts(c) == r.text + Texts(rest);
    hide Forward, Texts;
    ForwardHead(s, r, rest + d, k);
    ForwardInserts(s, rest, d, k);
    assert Kept(s, k, k) == "";
    AppendedLast(r.text, Texts(rest), Forward(s, d, k));
  }

  /** The parts shown one after the other are the whole. */
  lemma ForwardIsShown(s: string, p: Parts, k: nat)
    requires p.At(k) && k <= |s| && InBounds(|s|, p.All()) && NonCrossing(p.All())
    ensures Forward(s, p.All(), 0) == p.Shown(s, k)
  {
    hide Parts.At, NonCrossing, InBounds, Forward, Texts;
    PartsInBounds(s, p, k);
    InsertionsAt(p, k);
    var fourth := p.starting + p.after;
    var third := p.others + fourth;
    ForwardSplits(s, p.before, p.includes + third, 0, k);
    ForwardInserts(s, p.includes, third, k);
    ForwardInserts(s, p.others, fourth, k);
    StartsHere(s, p, k);
    FourAppended(Forward(s[..k], p.before, 0), Texts(p.includes), Texts(p.others), Texts(p.starting),
      Forward(s, p.after, if p.starting == [] then k else p.starting[0].end));
  }

  lemma FourAppended(a: string, b: string, c: string, d: string, e: string)
    ensures a + (b + (c + (d + e))) == a + b + c + d + e
  {}

  lemma InsertionsAt(p: Parts, k: nat)
    requires p.At(k)
    ensures forall r :: r in p.includes ==> r.begin == r.end == k
    ensures forall r :: r in p.others ==> r.begin == r.end == k
  {}

  lemma StartsHere(s: string, p: Parts, k: nat)
    requires p.At(k) && k <= |s|
    ensures Forward(s, p.starting + p.after, k) ==
      Texts(p.starting) + Forward(s, p.after, if p.starting == [] then k else p.starting[0].end)
  {
    if p.starting == [] {
      assert p.starting + p.after == p.after;
    } else {
      var r := p.starting[0];
      assert r in p.starting && p.starting == [r];
      assert (p.starting + p.after)[0] == r && (p.starting + p.after)[1..] == p.after;
      assert Texts(p.starting[1..]) == "";
    }
  }

  lemma PartsInBounds(s: string, p: Parts, k: nat)
    requires p.At(k) && k <= |s| && InBounds(|s|, p.All()) && NonCrossing(p.All())
    ensures InBounds(k, p.before) && NonCrossing(p.before)
    ensures var second := p.includes + (p.others + (p.starting + p.after));
      InBounds(|s|, second) && forall r :: r in second ==> k <= r.begin
  {
    var second := p.includes + (p.others + (p.starting + p.after));
    assert p.All() == p.before + second;
    forall i | 0 <= i < |p.before| ensures p.before[i].begin <= p.before[i].end <= k {
      assert p.All()[i] == p.before[i] && p.before[i] in p.before;
    }
    assert p.before == p.All()[..|p.before|];
    forall i | 0 <= i < |second| ensures second[i].begin <= second[i].end <= |s| {
      assert p.All()[|p.before| + i] == second[i];
    }
  }

  /** So the new content shows the replacements in order at every offset. */
  lemma SplicedIsShown(s: string, rs: seq<Replacement>, k: nat)
    requires Sorted(rs) && InBounds(|s|, rs) && NonCrossing(rs) && k <= |s| && Uncovered(Elements(rs), k)
    ensures ShownAt(s, Elements(rs), k, SpliceFromLast(s, rs))
  {
    AllStart(rs, |s|);
    hide Sorted, NonCrossing, InBounds, Forward, SpliceFromLast, Uncovered, Parts.At;
    var p := PartsOf(rs, k);
    ForwardIsSplicing(s, rs);
    ForwardIsShown(s, p, k);
  }

  lemma AllStart(rs: seq<Replacement>, length: nat)
    requires InBounds(length, rs)
    ensures StartFrom(rs, 0)
  {
    forall r | r in rs ensures r.begin <= r.end {
      var i :| 0 <= i < |rs| && rs[i] == r;
    }
  }

  /** The text shows the replacements in order at every offset that none covers. */
  ghost predicate InOrder(s: string, rs: set<Replacement>, text: string) {
    forall k :: 0 <= k <= |s| && Uncovered(rs, k) ==> ShownAt(s, rs, k, text)
  }

  lemma SplicedInOrder(s: string, rs: seq<Replacement>)
    requires Sorted(rs) && InBounds(|s|, rs) && NonCrossing(rs)
    ensures InOrder(s, Elements(rs), SpliceFromLast(s, rs))
  {
    hide Sorted, InBounds, NonCrossing, Uncovered, ShownAt, SpliceFromLast;
    forall k | 0 <= k <= |s| && Uncovered(Elements(rs), k)
      ensures ShownAt(s, Elements(rs), k, SpliceFromLast(s, rs))
    {
      SplicedIsShown(s, rs, k);
    }
  }
}
