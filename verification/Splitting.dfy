/** Texts cut at a delimiter and put together again. */
module Splitting {

  /** The parts between the delimiters; one more part than there are delimiters. */
  function Split(s: string, d: char): (r: seq<string>)
    ensures r != []
  {
    if s == "" then [""]
    else
      var rest := Split(s[1..], d);
      if s[0] == d then [""] + rest else [[s[0]] + rest[0]] + rest[1..]
  }

  function Join(parts: seq<string>, d: char): string {
    if parts == [] then "" else if |parts| == 1 then parts[0] else parts[0] + [d] + Join(parts[1..], d)
  }

  ghost predicate Free(parts: seq<string>, d: char) {
    forall i :: 0 <= i < |parts| ==> d !in parts[i]
  }

  lemma {:induction false} SplitIsFree(s: string, d: char)
    ensures Free(Split(s, d), d)
  {
    if s != "" { SplitIsFree(s[1..], d); }
  }

  /** A text without the delimiter at the front stays in one piece. */
  lemma {:induction false} SplitAfter(part: string, rest: string, d: char)
    requires d !in part
    ensures Split(part, d) == [part]
    ensures Split(part + [d] + rest, d) == [part] + Split(rest, d)
  {
    var s := part + [d] + rest;
    if part == "" {
      assert s[1..] == rest;
    } else {
      assert s[1..] == part[1..] + [d] + rest;
      SplitAfter(part[1..], rest, d);
      assert [part[0]] + part[1..] == part;
    }
  }

  lemma {:induction false} SplitJoin(parts: seq<string>, d: char)
    requires parts != [] && Free(parts, d)
    ensures Split(Join(parts, d), d) == parts
  {
    if |parts| == 1 {
      SplitAfter(parts[0], "", d);
    } else {
      SplitJoin(parts[1..], d);
      SplitAfter(parts[0], Join(parts[1..], d), d);
    }
  }

  lemma {:induction false} JoinAppend(parts: seq<string>, last: string, d: char)
    requires parts != []
    ensures Join(parts + [last], d) == Join(parts, d) + [d] + last
  {
    var more := parts + [last];
    assert more[1..] == parts[1..] + [last];
    if |parts| == 1 {
      assert more[1..] == [last];
    } else {
      JoinAppend(parts[1..], last, d);
    }
  }

  lemma {:induction false} JoinHolds(parts: seq<string>, d: char, c: char)
    requires c != d && Free(parts, c)
    ensures c !in Join(parts, d)
  {
    if |parts| > 1 { JoinHolds(parts[1..], d, c); }
  }

  lemma {:induction false} SplitHolds(s: string, d: char, c: char)
    requires c !in s
    ensures Free(Split(s, d), c)
  {
    if s != "" { SplitHolds(s[1..], d, c); }
  }

  lemma {:induction false} SplitConcat(a: string, b: string, d: char)
    ensures Split(a + [d] + b, d) == Split(a, d) + Split(b, d)
  {
    var s := a + [d] + b;
    if a == "" {
      assert s[1..] == b;
    } else {
      assert s[0] == a[0] && s[1..] == a[1..] + [d] + b;
      SplitConcat(a[1..], b, d);
    }
  }

  lemma LastOfLonger(s: string, d: char)
    requires s != ""
    ensures var all, rest := Split(s, d), Split(s[1..], d);
      |all| >= |rest| && if all[|all| - 1] == "" then rest[|rest| - 1] == "" else true
  {}

  /** The last part is empty only at the end of a text that ends in the delimiter. */
  lemma {:induction false} LastPart(s: string, d: char)
    requires s != "" && s[|s| - 1] != d
    ensures Split(s, d)[|Split(s, d)| - 1] != ""
  {
    if |s| == 1 {
      return;
    }
    LastPart(s[1..], d);
    LastOfLonger(s, d);
  }
}
