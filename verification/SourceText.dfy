/** Line offsets and the resolution of an offset to line and column
    (thrift/compiler/source_location.cc). A text includes its terminating NUL. */
module SourceText {

  const WORD := 0x1_0000_0000

  /** Newlines among the first `n` characters. */
  function Newlines(text: string, n: nat): nat
    requires n <= |text|
  {
    if n == 0 then 0 else Newlines(text, n - 1) + if text[n - 1] == '\n' then 1 else 0
  }

  /** Where the line that holds position `n` starts. */
  function LineStart(text: string, n: nat): (r: nat)
    requires n <= |text|
    ensures r <= n && '\n' !in text[r..n]
    ensures r > 0 ==> text[r - 1] == '\n'
  {
    if n == 0 || text[n - 1] == '\n' then n else
      var r := LineStart(text, n - 1);
      assert text[r..n] == text[r..n - 1] + [text[n - 1]];
      r
  }

  /** The starts of the lines that begin at or before position `n`. */
  ghost function Starts(text: string, n: nat): seq<nat>
    requires n <= |text|
  {
    if n == 0 then [0] else Starts(text, n - 1) + if text[n - 1] == '\n' then [n] else []
  }

  lemma {:induction false} StartsShape(text: string, n: nat)
    requires n <= |text|
    ensures var s := Starts(text, n);
      && |s| == 1 + Newlines(text, n) && s[|s| - 1] == LineStart(text, n)
      && (forall i :: 0 <= i < |s| ==> s[i] <= n)
      && forall i, j :: 0 <= i < j < |s| ==> s[i] < s[j]
  {
    if n > 0 { StartsShape(text, n - 1); }
  }

  /** The starts known at `m` are a first part of those known at `n`; the others lie beyond `m`. */
  lemma {:induction false} StartsSplit(text: string, m: nat, n: nat)
    requires m <= n <= |text|
    ensures Starts(text, m) <= Starts(text, n)
    ensures forall i :: |Starts(text, m)| <= i < |Starts(text, n)| ==> m < Starts(text, n)[i]
    decreases n
  {
    if m < n { StartsSplit(text, m, n - 1); }
  }

  /** `memchr` from `from` up to `end`. */
  method FindNewline(text: string, from: nat, end: nat) returns (found: bool, pos: nat)
    requires from <= end <= |text|
    ensures found ==> from <= pos < end && text[pos] == '\n' && '\n' !in text[from..pos]
    ensures !found ==> '\n' !in text[from..end]
  {
    pos := from;
    while pos < end && text[pos] != '\n'
      invariant from <= pos <= end && '\n' !in text[from..pos]
    {
      assert text[from..pos + 1] == text[from..pos] + [text[pos]];
      pos := pos + 1;
    }
    found := pos < end;
  }

  lemma {:induction false} NoNewStart(text: string, m: nat, n: nat)
    requires m <= n <= |text| && '\n' !in text[m..n]
    ensures Starts(text, n) == Starts(text, m)
    decreases n
  {
    if m < n {
      assert text[m..n] == text[m..n - 1] + [text[n - 1]];
      NoNewStart(text, m, n - 1);
    }
  }

  method GetLineOffsets(text: string) returns (offsets: seq<nat>)
    requires 0 < |text| <= WORD
    ensures offsets == Starts(text, |text| - 1)
  {
    offsets := [0];
    var end := |text| - 1;
    var ptr := 0;
    while true
      invariant 0 <= ptr <= end && offsets == Starts(text, ptr)
      decreases end - ptr
    {
      var found, pos := FindNewline(text, ptr, end);
      if !found {
        NoNewStart(text, ptr, end);
        break;
      }
      NoNewStart(text, ptr, pos);
      ptr := pos + 1;
      offsets := offsets + [ptr % WORD];
    }
  }

  /** `std::upper_bound`: the first position whose element is greater than `x`. */
  method UpperBound(a: seq<nat>, x: nat) returns (r: nat)
    requires forall i, j :: 0 <= i < j < |a| ==> a[i] <= a[j]
    ensures r <= |a| && (forall i :: 0 <= i < r ==> a[i] <= x) && forall i :: r <= i < |a| ==> x < a[i]
  {
    r := 0;
    var hi := |a|;
    while r < hi
      invariant 0 <= r <= hi <= |a|
      invariant (forall i :: 0 <= i < r ==> a[i] <= x) && forall i :: hi <= i < |a| ==> x < a[i]
    {
      var mid := (r + hi) / 2;
      if a[mid] <= x {
        r := mid + 1;
      } else {
        hi := mid;
      }
    }
  }

  function Line(text: string, offset: nat): nat
    requires offset <= |text|
  {
    1 + Newlines(text, offset)
  }

  function Column(text: string, offset: nat): nat
    requires offset <= |text|
  {
    1 + offset - LineStart(text, offset)
  }

  /** The lookup of `resolve_location` in the line offsets of a text. */
  method LineAndColumn(ghost text: string, offsets: seq<nat>, offset: nat) returns (line: nat, column: nat)
    requires 0 < |text| && offsets == Starts(text, |text| - 1)
    ensures offset < |text| ==> line == Line(text, offset) && column == Column(text, offset)
  {
    StartsShape(text, |text| - 1);
    var it := UpperBound(offsets, offset);
    line := if it != |offsets| then it else |offsets|;
    if offset < |text| {
      StartsShape(text, offset);
      StartsSplit(text, offset, |text| - 1);
      ghost var known := Starts(text, offset);
      assert forall i :: 0 <= i < |known| ==> offsets[i] == known[i];
      assert it == |offsets| || offset < offsets[it];
      assert it == 0 || offsets[it - 1] <= offset;
      assert |known| == |offsets| || offset < offsets[|known|];
      assert offsets[|known| - 1] <= offset;
      assert it == |known|;
    }
    assert offsets[0] == 0 by { StartsSplit(text, 0, |text| - 1); }
    assert line > 0 && offsets[line - 1] <= offset;
    column := offset - offsets[line - 1] + 1;
  }

  lemma {:induction false} NewlinesGrow(text: string, m: nat, n: nat)
    requires m <= n <= |text|
    ensures Newlines(text, m) <= Newlines(text, n)
    ensures Newlines(text, m) == Newlines(text, n) <==> LineStart(text, m) == LineStart(text, n)
    ensures Newlines(text, m) < Newlines(text, n) ==> m < LineStart(text, n)
    decreases n
  {
    if m < n { NewlinesGrow(text, m, n - 1); }
  }

  /** Line and column, compared lexicographically, order locations as their offsets
      do; so they determine the offset. */
  lemma LocationsOrderedLikeOffsets(text: string, m: nat, n: nat)
    requires m <= |text| && n <= |text|
    ensures m < n <==>
      || Line(text, m) < Line(text, n)
      || (Line(text, m) == Line(text, n) && Column(text, m) < Column(text, n))
    ensures Line(text, m) == Line(text, n) && Column(text, m) == Column(text, n) ==> m == n
  {
    if m <= n { NewlinesGrow(text, m, n); } else { NewlinesGrow(text, n, m); }
  }
}
