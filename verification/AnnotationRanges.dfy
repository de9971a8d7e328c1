/** Which part of the text is deleted along with an annotation
    (`remove`, `remove_all_annotations` and `expand_over_whitespaces` in
    thrift/compiler/codemod/file_manager.cc). */
module AnnotationRanges {

  datatype Range = Range(begin: nat, end: nat)

  /** `isspace` in the C locale. */
  predicate IsSpace(c: char) {
    c == ' ' || c == '\t' || c == '\n' || c == '\r' || c == '\U{0B}' || c == '\U{0C}'
  }

  predicate IsSpaceOrComma(c: char) { IsSpace(c) || c == ',' }

  ghost predicate AllIn(t: string, from: nat, to: nat, p: char -> bool) {
    forall k :: from <= k < to && k < |t| ==> p(t[k])
  }

  /** Start of the run of whitespace that ends at `pos`. */
  function SkipBack(t: string, pos: nat): (r: nat)
    requires pos <= |t|
    ensures r <= pos && AllIn(t, r, pos, IsSpace)
    ensures r > 0 ==> !IsSpace(t[r - 1])
  {
    if pos > 0 && IsSpace(t[pos - 1]) then SkipBack(t, pos - 1) else pos
  }

  /** End of the run of characters satisfying `p` that starts at `pos`. */
  function SkipForward(t: string, pos: nat, p: char -> bool): (r: nat)
    requires pos <= |t|
    ensures pos <= r <= |t| && AllIn(t, pos, r, p)
    ensures r < |t| ==> !p(t[r])
    decreases |t| - pos
  {
    if pos < |t| && p(t[pos]) then SkipForward(t, pos + 1, p) else pos
  }

  function SkipComma(t: string, pos: nat): (r: nat)
    requires pos <= |t|
    ensures pos <= r <= |t|
  {
    if pos < |t| && t[pos] == ',' then pos + 1 else pos
  }

  /** The range `expand_over_whitespaces` leaves behind. */
  function Expanded(t: string, a: Range, oneSided: bool): (r: Range)
    requires a.begin <= a.end <= |t|
    ensures r.begin <= a.begin && a.end <= r.end <= |t|
  {
    var end := SkipComma(t, SkipForward(t, a.end, IsSpace));
    Range(SkipBack(t, a.begin), if oneSided then end else SkipForward(t, end, IsSpaceOrComma))
  }

  predicate Parenthesised(t: string, r: Range)
    requires r.begin <= r.end <= |t|
  {
    r.begin >= 1 && r.end < |t| && t[r.begin - 1] == '(' && t[r.end] == ')'
  }

  /** The range that `remove` deletes for the annotation at `a`. */
  function Removal(t: string, a: Range): (r: Range)
    requires a.begin <= a.end <= |t|
    ensures r.begin <= a.begin && a.end <= r.end <= |t|
  {
    var r := Expanded(t, a, true);
    if r.end < |t| && t[r.end] == ',' then Range(r.begin, r.end + 1)
    else if Parenthesised(t, r) then Range(r.begin - 1, r.end + 1)
    else r
  }

  /** An annotation as the parser delimits it: non-empty, from the first
      character of its identifier to the last of its value. */
  ghost predicate IsAnnotation(t: string, a: Range) {
    && a.begin < a.end <= |t|
    && !IsSpace(t[a.begin]) && t[a.begin] != ',' && t[a.begin] != ')'
    && !IsSpace(t[a.end - 1]) && t[a.end - 1] != '('
  }

  /** Some separator stands between the two annotations. */
  ghost predicate Separated(t: string, a: Range, b: Range) {
    exists k :: a.end <= k < b.begin && k < |t| && !IsSpace(t[k])
  }

  lemma SeparatedStayApart(t: string, a: Range, b: Range)
    requires IsAnnotation(t, a) && IsAnnotation(t, b) && a.end <= b.begin && Separated(t, a, b)
    ensures Removal(t, a).end <= Removal(t, b).begin
  {
    var first := SkipForward(t, a.end, IsSpace);
    var last := SkipBack(t, b.begin);
    assert first < last && !IsSpace(t[first]) && !IsSpace(t[last - 1]);
    hide SkipForward, SkipBack, Separated;
    var end := Removal(t, a).end;
    assert first <= end <= last;
    assert end > first ==> t[end - 1] == ',' || t[end - 1] == ')';
  }

  /** The ranges of two successive annotations stay apart exactly when the text
      between them is empty or holds something other than whitespace. */
  lemma RemovalsApartIff(t: string, a: Range, b: Range)
    requires IsAnnotation(t, a) && IsAnnotation(t, b) && a.end <= b.begin
    ensures Removal(t, a).end <= Removal(t, b).begin <==> a.end == b.begin || Separated(t, a, b)
  {
    if Separated(t, a, b) {
      SeparatedStayApart(t, a, b);
    }
  }

  /** The deleted range starts and ends with a pair of parentheses around the annotation. */
  ghost predicate TakesPair(t: string, a: Range)
    requires a.begin <= a.end <= |t|
  {
    var r := Removal(t, a);
    r.begin < a.begin && a.end < r.end && t[r.begin] == '(' && t[r.end - 1] == ')'
  }

  /** Beyond the annotation itself only whitespace, commas and one enclosing pair
      of parentheses are deleted. */
  lemma RemovalCoversOnly(t: string, a: Range, k: nat)
    requires a.begin <= a.end <= |t|
    requires Removal(t, a).begin <= k < Removal(t, a).end && !(a.begin <= k < a.end)
    ensures IsSpaceOrComma(t[k]) || (TakesPair(t, a) && (k == Removal(t, a).begin || k == Removal(t, a).end - 1))
  {}

  /** A list of annotations in text order, with a separator between any two neighbours. */
  ghost predicate IsList(t: string, anns: seq<Range>) {
    && (forall i :: 0 <= i < |anns| ==> IsAnnotation(t, anns[i]))
    && forall i :: 0 <= i < |anns| - 1 ==> SeparatedNext(t, anns, i)
  }

  ghost predicate SeparatedNext(t: string, anns: seq<Range>, i: nat)
    requires i < |anns| - 1
  {
    anns[i].end <= anns[i + 1].begin && Separated(t, anns[i], anns[i + 1])
  }

  lemma {:induction false} ListIsOrdered(t: string, anns: seq<Range>, i: nat, j: nat)
    requires IsList(t, anns) && i < j < |anns|
    ensures Removal(t, anns[i]).end <= Removal(t, anns[j]).begin
    decreases j - i
  {
    hide Removal;
    assert IsAnnotation(t, anns[i]) && IsAnnotation(t, anns[i + 1]) && SeparatedNext(t, anns, i);
    RemovalsApartIff(t, anns[i], anns[i + 1]);
    if i + 1 < j {
      ListIsOrdered(t, anns, i + 1, j);
    }
  }

  /** A list between the parentheses at `open` and `close`, with none in the gaps. */
  ghost predicate IsParenthesised(t: string, anns: seq<Range>, open: nat, close: nat) {
    && IsEnclosed(t, anns, open, close)
    && forall k :: open < k < close && Outside(anns, k) ==> t[k] != '(' && t[k] != ')'
  }

  ghost predicate IsEnclosed(t: string, anns: seq<Range>, open: nat, close: nat) {
    && IsList(t, anns) && anns != []
    && open < anns[0].begin && anns[|anns| - 1].end <= close < |t|
    && t[open] == '(' && t[close] == ')'
  }

  /** The position belongs to no annotation of the list. */
  ghost predicate Outside(anns: seq<Range>, k: nat) {
    forall i :: 0 <= i < |anns| ==> !(anns[i].begin <= k < anns[i].end)
  }

  /** Removing any annotations of a parenthesised list leaves every other one
      whole, and beyond those removed deletes only whitespace, commas and, when the
      list has but one member, its pair of parentheses. */
  lemma RemovalStaysInList(t: string, anns: seq<Range>, open: nat, close: nat, i: nat, k: nat)
    requires IsParenthesised(t, anns, open, close) && i < |anns|
    requires Removal(t, anns[i]).begin <= k < Removal(t, anns[i]).end && !(anns[i].begin <= k < anns[i].end)
    ensures Outside(anns, k)
    ensures IsSpaceOrComma(t[k]) || (|anns| == 1 && (k == open || k == close))
  {
    assert IsAnnotation(t, anns[i]);
    RemovalCoversOnly(t, anns[i], k);
    OthersStay(t, anns, i, k);
    hide Removal, IsSpaceOrComma, TakesPair, IsParenthesised, Outside, IsAnnotation;
    if TakesPair(t, anns[i]) {
      TakenPairIsWhole(t, anns, open, close, i);
    }
  }

  lemma OthersStay(t: string, anns: seq<Range>, i: nat, k: nat)
    requires IsList(t, anns) && i < |anns| && IsAnnotation(t, anns[i])
    requires Removal(t, anns[i]).begin <= k < Removal(t, anns[i]).end && !(anns[i].begin <= k < anns[i].end)
    ensures Outside(anns, k)
  {
    hide Removal, IsList;
    forall j | 0 <= j < |anns| ensures !(anns[j].begin <= k < anns[j].end) {
      if j < i { Apart(t, anns, j, i); }
      if i < j { Apart(t, anns, i, j); }
    }
  }

  lemma Apart(t: string, anns: seq<Range>, i: nat, j: nat)
    requires IsList(t, anns) && i < j < |anns|
    ensures IsAnnotation(t, anns[i]) && IsAnnotation(t, anns[j])
    ensures anns[i].end <= Removal(t, anns[j]).begin && Removal(t, anns[i]).end <= anns[j].begin
  {
    hide Removal;
    ListIsOrdered(t, anns, i, j);
    assert IsAnnotation(t, anns[i]) && IsAnnotation(t, anns[j]);
  }

  /** Only the sole member of a list takes parentheses along, and they are those of the list. */
  lemma TakenPairIsWhole(t: string, anns: seq<Range>, open: nat, close: nat, i: nat)
    requires IsParenthesised(t, anns, open, close) && i < |anns| && IsAnnotation(t, anns[i]) && TakesPair(t, anns[i])
    ensures |anns| == 1 && Removal(t, anns[i]) == Range(open, close + 1)
  {
    assert anns[i].begin <= anns[i].end <= |t|;
    hide Removal, IsAnnotation, IsList;
    var r, last := Removal(t, anns[i]), |anns| - 1;
    OthersStay(t, anns, i, r.begin);
    OthersStay(t, anns, i, r.end - 1);
    MembersEnclosed(t, anns, open, close, i);
    RemovalEnclosed(t, anns[i], open, close);
    assert r == Range(open, close + 1);
    if 0 < i { Apart(t, anns, 0, i); }
    if i < last { Apart(t, anns, i, last); }
    MembersEnclosed(t, anns, open, close, 0);
    MembersEnclosed(t, anns, open, close, last);
  }

  lemma MembersEnclosed(t: string, anns: seq<Range>, open: nat, close: nat, i: nat)
    requires IsEnclosed(t, anns, open, close) && i < |anns|
    ensures open < anns[i].begin < anns[i].end <= close < |t|
  {
    hide IsList;
    var last := |anns| - 1;
    Member(t, anns, i);
    if 0 < i {
      Member(t, anns, 0);
      Before(t, anns, 0, i);
    }
    if i < last {
      Member(t, anns, last);
      Before(t, anns, i, last);
    }
  }

  lemma Member(t: string, anns: seq<Range>, i: nat)
    requires IsList(t, anns) && i < |anns|
    ensures anns[i].begin < anns[i].end <= |t|
  {
    assert IsAnnotation(t, anns[i]);
  }

  lemma Before(t: string, anns: seq<Range>, i: nat, j: nat)
    requires IsList(t, anns) && i < j < |anns|
    ensures anns[i].end <= anns[j].begin
  {
    hide Removal, IsList;
    Apart(t, anns, i, j);
    Member(t, anns, j);
  }

  lemma RemovalEnclosed(t: string, a: Range, open: nat, close: nat)
    requires open < a.begin < a.end <= close < |t| && t[open] == '(' && t[close] == ')'
    ensures open <= Removal(t, a).begin && Removal(t, a).end <= close + 1
  {
    assert open < SkipBack(t, a.begin) && SkipForward(t, a.end, IsSpace) <= close;
  }

  // What exactly is taken.

  lemma SpacesAre(c: char)
    ensures IsSpace(c) <==> c as int == 32 || 9 <= c as int <= 13
  {}

  /** The whitespace around the annotation reaches from `p` to `q`. */
  ghost predicate SpaceAround(t: string, a: Range, p: nat, q: nat) {
    && p <= a.begin <= a.end <= q <= |t| && AllIn(t, p, a.begin, IsSpace) && AllIn(t, a.end, q, IsSpace)
    && (p == 0 || !IsSpace(t[p - 1])) && (q == |t| || !IsSpace(t[q]))
  }

  /** With the whitespace go up to two commas behind it or, when there are not two,
      the parentheses that stand directly around what is taken so far. */
  lemma RemovalIs(t: string, a: Range, p: nat, q: nat)
    requires SpaceAround(t, a, p, q)
    ensures Removal(t, a) ==
      if ",," <= t[q..] then Range(p, q + 2)
      else if 0 < p && t[p - 1] == '(' && ",)" <= t[q..] then Range(p - 1, q + 2)
      else if 0 < p && t[p - 1] == '(' && ")" <= t[q..] then Range(p - 1, q + 1)
      else if "," <= t[q..] then Range(p, q + 1)
      else Range(p, q)
  {
    SkipsAre(t, a, p, q);
    hide SkipBack, SkipForward, SpaceAround;
    assert a.begin <= a.end <= |t| && p <= q <= |t|;
    assert forall i :: 0 <= i < |t| - q ==> t[q..][i] == t[q + i];
  }

  lemma SkipsAre(t: string, a: Range, p: nat, q: nat)
    requires SpaceAround(t, a, p, q)
    ensures p <= a.begin <= a.end <= q <= |t|
    ensures SkipBack(t, a.begin) == p && SkipForward(t, a.end, IsSpace) == q
  {}

  /** The sole member takes the whole list exactly when nothing else stands in it but
      whitespace and, directly before the closing parenthesis, at most one comma. */
  lemma SoleMemberTakesListIff(t: string, a: Range, open: nat, close: nat)
    requires open < a.begin < a.end <= close < |t| && t[open] == '(' && t[close] == ')'
    ensures Removal(t, a) == Range(open, close + 1) <==>
      && AllIn(t, open + 1, a.begin, IsSpace)
      && (AllIn(t, a.end, close, IsSpace) ||
          (a.end < close && t[close - 1] == ',' && AllIn(t, a.end, close - 1, IsSpace)))
  {
    var p, q := SkipBack(t, a.begin), SkipForward(t, a.end, IsSpace);
    assert SpaceAround(t, a, p, q);
    RemovalIs(t, a, p, q);
    assert open < p && q <= close;
    hide Removal, SkipBack, SkipForward;
    assert forall i :: 0 <= i < |t| - q ==> t[q..][i] == t[q + i];
  }

  // Separators.

  /** The gap between two annotations holds one separator at `k` and whitespace. */
  ghost predicate SeparatedAt(t: string, a: Range, b: Range, k: nat) {
    && a.end <= k < b.begin && k < |t| && (t[k] == ',' || t[k] == ';')
    && AllIn(t, a.end, k, IsSpace) && AllIn(t, k + 1, b.begin, IsSpace)
  }

  /** Both separators keep the ranges of neighbours apart, but the one behind an
      annotation is deleted along with it exactly when it is a comma. */
  lemma SeparatorTakenIff(t: string, a: Range, b: Range, k: nat)
    requires IsAnnotation(t, a) && IsAnnotation(t, b) && SeparatedAt(t, a, b, k)
    ensures Separated(t, a, b)
    ensures Removal(t, a).begin <= k < Removal(t, a).end <==> t[k] == ','
    ensures !(Removal(t, b).begin <= k < Removal(t, b).end)
  {
    assert !IsSpace(t[k]);
    assert SkipForward(t, a.end, IsSpace) == k && SkipBack(t, b.begin) == k + 1;
  }

  /** Taking the first of two annotations away leaves its semicolon behind the
      parenthesis, where the grammar allows none. */
  lemma SemicolonRemains()
    ensures var t, a, b := "(a; b)", Range(1, 2), Range(4, 5);
      && IsParenthesised(t, [a, b], 0, 5) && SeparatedAt(t, a, b, 2)
      && t[..Removal(t, a).begin] + t[Removal(t, a).end..] == "(; b)"
  {
    var t, a, b := "(a; b)", Range(1, 2), Range(4, 5);
    assert SkipBack(t, 1) == 1 && SkipForward(t, 2, IsSpace) == 2;
    assert t[..1] == "(" && t[2..] == "; b)";
    assert t[2] == ';' && SeparatedNext(t, [a, b], 0);
    assert forall k :: 0 < k < 5 ==> t[k] != '(' && t[k] != ')';
  }

  /** The range that `remove_all_annotations` deletes, from the least begin to
      the greatest end of the annotations. */
  function RemovalOfAll(t: string, span: Range): (r: Range)
    requires span.begin <= span.end <= |t|
    ensures r.begin <= span.begin && span.end <= r.end <= |t|
  {
    var r := Expanded(t, span, false);
    if Parenthesised(t, r) then Range(r.begin - 1, r.end + 1) else r
  }

  /** Removing all annotations takes the parentheses at `open` and `close` along
      exactly when only whitespace precedes the first annotation and only
      whitespace and commas follow the last. */
  lemma RemovalOfAllTakesParentheses(t: string, span: Range, open: nat, close: nat)
    requires open < span.begin <= span.end <= close < |t| && t[open] == '(' && t[close] == ')'
    ensures RemovalOfAll(t, span) == Range(open, close + 1) <==>
      AllIn(t, open + 1, span.begin, IsSpace) && AllIn(t, span.end, close, IsSpaceOrComma)
  {
    var r := Expanded(t, span, false);
    ExpandedBothSides(t, span);
  }

  /** With the annotations go the whitespace before them, the whitespace and commas
      behind them, and the parentheses directly around all that. */
  lemma RemovalOfAllIs(t: string, span: Range, p: nat, q: nat)
    requires p <= span.begin <= span.end <= q <= |t|
    requires AllIn(t, p, span.begin, IsSpace) && (p == 0 || !IsSpace(t[p - 1]))
    requires AllIn(t, span.end, q, IsSpaceOrComma) && (q == |t| || !IsSpaceOrComma(t[q]))
    ensures RemovalOfAll(t, span) ==
      if 0 < p && t[p - 1] == '(' && q < |t| && t[q] == ')' then Range(p - 1, q + 1) else Range(p, q)
  {
    var r := Expanded(t, span, false);
    ExpandedBothSides(t, span);
    assert r.begin == p;
    assert r.end == q;
  }

  lemma ExpandedBothSides(t: string, span: Range)
    requires span.begin <= span.end <= |t|
    ensures var r := Expanded(t, span, false);
      AllIn(t, span.end, r.end, IsSpaceOrComma) && (r.end < |t| ==> !IsSpaceOrComma(t[r.end]))
  {}
}
