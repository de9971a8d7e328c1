/** The edit engine of the codemods (thrift/compiler/codemod/file_manager.h and
    file_manager.cc): an ordered set of replacements applied in one pass. */
module FileManager {
  import opened AnnotationRanges
  import opened Replacements
  import opened Insertions

  /** `Crossing` stands for the failed check that ends the process. */
  datatype NewContent = Content(text: string) | Crossing

  class Manager {
    const oldContent: string
    var replacements: seq<Replacement>

    constructor (oldContent: string)
      ensures this.oldContent == oldContent && replacements == []
    {
      this.oldContent := oldContent;
      replacements := [];
    }

    /** Insertion into the ordered set; an equal replacement is not added again. */
    method Add(r: Replacement)
      requires Sorted(replacements)
      modifies this`replacements
      ensures Sorted(replacements)
      ensures Elements(replacements) == Elements(old(replacements)) + {r}
    {
      var i := 0;
      while i < |replacements| && Less(replacements[i], r)
        invariant 0 <= i <= |replacements|
        invariant forall j :: 0 <= j < i ==> Less(replacements[j], r)
      {
        i := i + 1;
      }
      if i < |replacements| && replacements[i] == r {
        return;
      }
      forall j | i <= j < |replacements| ensures Less(r, replacements[j]) {
        LessIsStrictTotalOrder(r, replacements[i], replacements[j]);
      }
      replacements := replacements[..i] + [r] + replacements[i..];
      InsertedElements(old(replacements), i, r);
    }

    method GetNewContent() returns (result: NewContent)
      requires Sorted(replacements) && InBounds(|oldContent|, replacements)
      ensures result.Content? <==> NonCrossing(replacements)
      ensures result.Content? ==> result.text == SpliceFromLast(oldContent, replacements)
      ensures result.Content? ==> |result.text| == |oldContent| + Growth(replacements)
      ensures result.Content? ==> InOrder(oldContent, Elements(replacements), result.text)
    {
      if NonCrossing(replacements) {
        SplicedInOrder(oldContent, replacements);
      }
      if replacements == [] {
        return Content(oldContent);
      }
      hide InOrder, SpliceFromLast, Passed, Growth, Sorted, End;
      NothingPassed(oldContent);
      assert replacements[..0] == [];
      var prevEnd: nat := 0;
      var text := "";
      var i := 0;
      while i < |replacements|
        invariant 0 <= i <= |replacements|
        invariant NonCrossing(replacements[..i])
        invariant prevEnd == End(replacements[..i]) <= |oldContent|
        invariant text == Passed(oldContent, replacements[..i])
      {
        var r := replacements[i];
        PassAdvances(oldContent, replacements, i);
        if prevEnd > r.begin {
          return Crossing;
        }
        text := text + oldContent[prevEnd..r.begin];
        text := text + r.text;
        prevEnd := r.end;
        i := i + 1;
      }
      assert replacements[..i] == replacements;
      text := text + oldContent[prevEnd..];
      PassIsSplicing(oldContent, replacements);
      SplicedLength(oldContent, replacements);
      return Content(text);
    }

    /** Also expands over trailing commas. */
    method ExpandOverWhitespaces(begin: nat, end: nat, oneSided: bool) returns (begin': nat, end': nat)
      requires begin <= end <= |oldContent|
      ensures Range(begin', end') == Expanded(oldContent, Range(begin, end), oneSided)
    {
      begin', end' := begin, end;
      while begin' >= 1 && IsSpace(oldContent[begin' - 1])
        invariant begin' <= |oldContent| && SkipBack(oldContent, begin') == SkipBack(oldContent, begin)
      {
        begin' := begin' - 1;
      }
      while end' < |oldContent| && IsSpace(oldContent[end'])
        invariant end' <= |oldContent|
        invariant SkipForward(oldContent, end', IsSpace) == SkipForward(oldContent, end, IsSpace)
      {
        end' := end' + 1;
      }
      if end' < |oldContent| && oldContent[end'] == ',' {
        end' := end' + 1;
      }
      if oneSided {
        return;
      }
      ghost var from := end';
      while end' < |oldContent| && (IsSpace(oldContent[end']) || oldContent[end'] == ',')
        invariant end' <= |oldContent|
        invariant SkipForward(oldContent, end', IsSpaceOrComma) == SkipForward(oldContent, from, IsSpaceOrComma)
      {
        end' := end' + 1;
      }
    }

    method Remove(annotation: Range)
      requires Sorted(replacements) && annotation.begin <= annotation.end <= |oldContent|
      modifies this`replacements
      ensures Sorted(replacements)
      ensures Elements(replacements) == Elements(old(replacements)) + {Deletion(Removal(oldContent, annotation))}
    {
      var begin, end := ExpandOverWhitespaces(annotation.begin, annotation.end, true);
      if end < |oldContent| && oldContent[end] == ',' {
        end := end + 1;
      } else if begin >= 1 && end < |oldContent| && oldContent[begin - 1] == '(' && oldContent[end] == ')' {
        begin, end := begin - 1, end + 1;
      }
      Add(Replacement(begin, end, "", false));
    }

    /** The annotations come in no particular order. Without any, the source reads
        beyond the text, so nothing is defined. */
    method RemoveAllAnnotations(annotations: seq<Range>) returns (defined: bool, ghost span: Range)
      requires Sorted(replacements)
      requires forall a :: a in annotations ==> a.begin <= a.end <= |oldContent|
      modifies this`replacements
      ensures defined <==> annotations != []
      ensures defined ==> Sorted(replacements)
      ensures defined ==> SpanOf(span, annotations) && span.begin <= span.end <= |oldContent|
      ensures defined ==>
        Elements(replacements) == Elements(old(replacements)) + {Deletion(RemovalOfAll(oldContent, span))}
    {
      defined := annotations != [];
      if !defined {
        span := Range(0, 0);
        return;
      }
      var begin, end := Extent(annotations);
      span := Range(begin, end);
      begin, end := ExpandOverWhitespaces(begin, end, false);
      if begin >= 1 && end < |oldContent| && oldContent[begin - 1] == '(' && oldContent[end] == ')' {
        begin, end := begin - 1, end + 1;
      }
      Add(Replacement(begin, end, "", false));
    }

    method Extent(annotations: seq<Range>) returns (begin: nat, end: nat)
      requires annotations != []
      requires forall a :: a in annotations ==> a.begin <= a.end <= |oldContent|
      ensures SpanOf(Range(begin, end), annotations) && begin <= end <= |oldContent|
    {
      begin, end := annotations[0].begin, annotations[0].end;
      var i := 1;
      while i < |annotations|
        invariant 1 <= i <= |annotations|
        invariant SpanOf(Range(begin, end), annotations[..i]) && begin <= end <= |oldContent|
      {
        var a := annotations[i];
        assert annotations[..i + 1] == annotations[..i] + [a];
        begin := if a.begin < begin then a.begin else begin;
        end := if a.end > end then a.end else end;
        i := i + 1;
      }
      assert annotations[..i] == annotations;
    }
  }

  function Deletion(r: Range): Replacement {
    Replacement(r.begin, r.end, "", false)
  }

  /** `span` reaches from the least begin to the greatest end. */
  ghost predicate SpanOf(span: Range, anns: seq<Range>) {
    && (forall a :: a in anns ==> span.begin <= a.begin && a.end <= span.end)
    && (exists a :: a in anns && a.begin == span.begin)
    && exists a :: a in anns && a.end == span.end
  }

  ghost predicate DeletesOneOf(t: string, anns: seq<Range>, r: Replacement, i: int)
    requires IsList(t, anns)
  {
    0 <= i < |anns| && r == Deletion(Removal(t, anns[i]))
  }

  /** Whatever annotations of a list are removed, one by one and in whatever order,
      the deletions never cross, so applying them cannot fail. */
  lemma RemovalsNeverCross(t: string, anns: seq<Range>, rs: seq<Replacement>)
    requires IsList(t, anns) && Sorted(rs)
    requires forall r :: r in rs ==> exists i :: DeletesOneOf(t, anns, r, i)
    ensures InBounds(|t|, rs) && NonCrossing(rs)
  {
    hide IsList, Removal, Less, Separated;
    forall k | 0 <= k < |rs| ensures rs[k].begin < rs[k].end <= |t| {
      assert rs[k] in rs;
      var i :| DeletesOneOf(t, anns, rs[k], i);
      Member(t, anns, i);
    }
    forall k, l | 0 <= k < l < |rs| ensures rs[k].end <= rs[l].begin {
      assert rs[k] in rs && rs[l] in rs;
      var i :| DeletesOneOf(t, anns, rs[k], i);
      var j :| DeletesOneOf(t, anns, rs[l], j);
      DeletionsApart(t, anns, rs[k], rs[l], i, j);
    }
  }

  lemma DeletionsApart(t: string, anns: seq<Range>, r: Replacement, s: Replacement, i: nat, j: nat)
    requires IsList(t, anns) && DeletesOneOf(t, anns, r, i) && DeletesOneOf(t, anns, s, j) && Less(r, s)
    ensures r.end <= s.begin
  {
    hide IsList, Removal;
    LessIsStrictTotalOrder(r, s, r);
    Member(t, anns, i);
    Member(t, anns, j);
    if i < j {
      ListIsOrdered(t, anns, i, j);
    } else if j < i {
      ListIsOrdered(t, anns, j, i);
    }
  }
}
