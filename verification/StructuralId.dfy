/** The text hashed for the structural id of a type
    (thrift/compiler/generate/t_concat_generator.cc). */
module StructuralId {
  import Lexicographic
  import opened DecimalText
  import opened Splitting
  import opened Permutations
  import opened StructuredFields

  /** `t_type::name`: unscoped, and empty for every container. */
  function TypeName(t: Type): string {
    if t.Named? then t.name else ""
  }

  /** What the text tells about a field. */
  datatype Outline = Outline(id: int, name: string, typeName: string, qualifier: int)

  function OutlineOf(f: Field): Outline {
    Outline(f.id, f.name, TypeName(f.fieldType), f.qualifier)
  }

  function Describe(o: Outline): string {
    Decimal(o.id) + "," + o.name + "," + o.typeName + "," + Decimal(o.qualifier)
  }

  function Outlines(fields: seq<Field>): seq<Outline> {
    Mapped(OutlineOf, fields)
  }

  function Descriptions(fields: seq<Field>): seq<string> {
    Mapped(Describe, Outlines(fields))
  }

  ghost predicate SortedTexts(texts: seq<string>) {
    forall i, j :: 0 <= i < j < |texts| ==> !Lexicographic.Less(texts[j], texts[i])
  }

  /** A multiset of texts has one sorted order. */
  lemma {:induction false} SortedOrderIsDetermined(a: seq<string>, b: seq<string>)
    requires SortedTexts(a) && SortedTexts(b) && multiset(a) == multiset(b)
    ensures a == b
    decreases |a|
  {
    assert |a| == |multiset(a)| && |b| == |multiset(b)|;
    if a != [] {
      assert a[0] in multiset(b) && b[0] in multiset(a);
      Lexicographic.LessTotal(a[0], b[0]);
      assert a[0] == b[0];
      TailMultiset(a);
      TailMultiset(b);
      SortedOrderIsDetermined(a[1..], b[1..]);
      assert a == [a[0]] + a[1..] && b == [b[0]] + b[1..];
    }
  }

  lemma TailMultiset(a: seq<string>)
    requires a != []
    ensures multiset(a[1..]) == multiset(a) - multiset{a[0]}
  {
    assert a == [a[0]] + a[1..];
  }

  /** Stands for `std::sort`. */
  method Sort(texts: seq<string>) returns (r: seq<string>)
    ensures SortedTexts(r) && multiset(r) == multiset(texts)
  {
    r := [];
    var i := 0;
    while i < |texts|
      invariant 0 <= i <= |texts|
      invariant SortedTexts(r) && multiset(r) == multiset(texts[..i])
    {
      r := InsertText(r, texts[i]);
      assert texts[..i + 1] == texts[..i] + [texts[i]];
      i := i + 1;
    }
    assert texts[..i] == texts;
  }

  method InsertText(texts: seq<string>, t: string) returns (r: seq<string>)
    requires SortedTexts(texts)
    ensures SortedTexts(r) && multiset(r) == multiset(texts) + multiset{t}
  {
    var k := 0;
    while k < |texts| && !Lexicographic.Less(t, texts[k])
      invariant 0 <= k <= |texts|
      invariant forall i :: 0 <= i < k ==> !Lexicographic.Less(t, texts[i])
    {
      k := k + 1;
    }
    TextsInserted(texts, k, t);
    hide SortedTexts;
    r := texts[..k] + [t] + texts[k..];
  }

  lemma TextsInserted(texts: seq<string>, k: nat, t: string)
    requires SortedTexts(texts) && k <= |texts|
    requires forall i :: 0 <= i < k ==> !Lexicographic.Less(t, texts[i])
    requires k < |texts| ==> Lexicographic.Less(t, texts[k])
    ensures SortedTexts(texts[..k] + [t] + texts[k..])
    ensures multiset(texts[..k] + [t] + texts[k..]) == multiset(texts) + multiset{t}
  {
    InsertedTexts(texts, k, t);
    hide Lexicographic.Less;
    forall i | k <= i < |texts| ensures !Lexicographic.Less(texts[i], t) {
      if Lexicographic.Less(texts[i], t) {
        Lexicographic.LessTransitive(texts[i], t, texts[k]);
        Lexicographic.LessIrreflexive(texts[k]);
      }
    }
  }

  lemma InsertedTexts(texts: seq<string>, k: nat, t: string)
    requires k <= |texts|
    ensures multiset(texts[..k] + [t] + texts[k..]) == multiset(texts) + multiset{t}
  {
    assert texts == texts[..k] + texts[k..];
  }

  function Terminated(texts: seq<string>): string {
    if texts == [] then "" else texts[0] + ":" + Terminated(texts[1..])
  }

  /** The texts are the descriptions of the fields in sorted order. */
  ghost predicate AreTextsOf(texts: seq<string>, fields: seq<Field>) {
    SortedTexts(texts) && multiset(texts) == multiset(Descriptions(fields))
  }

  /** `generate_structural_id` up to the hash. */
  method HashableKeys(fields: seq<Field>) returns (r: string)
    ensures exists texts :: AreTextsOf(texts, fields) && r == Terminated(texts)
  {
    var texts := Sort(Descriptions(fields));
    assert AreTextsOf(texts, fields);
    r := Terminated(texts);
  }

  /** The hashed text does not depend on the order of the fields. */
  lemma FieldOrderIrrelevant(
    fields: seq<Field>, others: seq<Field>, texts: seq<string>, texts': seq<string>)
    requires multiset(fields) == multiset(others) && AreTextsOf(texts, fields) && AreTextsOf(texts', others)
    ensures Terminated(texts) == Terminated(texts')
  {
    MappedPermutes(OutlineOf, fields, others);
    MappedPermutes(Describe, Outlines(fields), Outlines(others));
    SortedOrderIsDetermined(texts, texts');
  }

  // What the hashed text tells about the fields.

  /** Neither name holds a delimiter of the text. */
  ghost predicate Clean(o: Outline) {
    ',' !in o.name && ':' !in o.name && ',' !in o.typeName && ':' !in o.typeName
  }

  ghost predicate AllClean(fields: seq<Field>) {
    forall o :: o in Outlines(fields) ==> Clean(o)
  }

  ghost function Parts(o: Outline): seq<string> {
    [Decimal(o.id), o.name, o.typeName, Decimal(o.qualifier)]
  }

  lemma DescribeIsJoin(o: Outline)
    ensures Describe(o) == Join(Parts(o), ',')
  {
    var a, b, c, d := Decimal(o.id), o.name, o.typeName, Decimal(o.qualifier);
    hide Decimal;
    assert Join([d], ',') == d;
    assert [c, d][1..] == [d] && Join([c, d], ',') == c + "," + d;
    assert [b, c, d][1..] == [c, d] && Join([b, c, d], ',') == b + "," + (c + "," + d);
    assert Parts(o)[1..] == [b, c, d];
    assert a + "," + (b + "," + (c + "," + d)) == a + "," + b + "," + c + "," + d;
  }

  lemma DescribeInjective(o: Outline, o': Outline)
    requires Clean(o) && Clean(o') && Describe(o) == Describe(o')
    ensures o == o'
  {
    PartsAreFree(o);
    PartsAreFree(o');
    DescribeIsJoin(o);
    DescribeIsJoin(o');
    SplitJoin(Parts(o), ',');
    SplitJoin(Parts(o'), ',');
    hide Decimal, Describe, Split, Join;
    assert Parts(o)[0] == Parts(o')[0] && Parts(o)[1] == Parts(o')[1];
    assert Parts(o)[2] == Parts(o')[2] && Parts(o)[3] == Parts(o')[3];
    DecimalInjective(o.id, o'.id);
    DecimalInjective(o.qualifier, o'.qualifier);
  }

  lemma PartsAreFree(o: Outline)
    requires Clean(o)
    ensures Free(Parts(o), ',') && ':' !in Describe(o)
  {
    DecimalHolds(o.id, ',');
    DecimalHolds(o.qualifier, ',');
    DecimalHolds(o.id, ':');
    DecimalHolds(o.qualifier, ':');
    hide Decimal;
  }

  lemma {:induction false} TerminatedIsJoin(texts: seq<string>)
    ensures Terminated(texts) == Join(texts + [""], ':')
  {
    if texts != [] {
      TerminatedIsJoin(texts[1..]);
      assert (texts + [""])[1..] == texts[1..] + [""];
    }
  }

  lemma TerminatedInjective(a: seq<string>, b: seq<string>)
    requires Free(a, ':') && Free(b, ':') && Terminated(a) == Terminated(b)
    ensures a == b
  {
    TerminatedIsJoin(a);
    TerminatedIsJoin(b);
    SplitJoin(a + [""], ':');
    SplitJoin(b + [""], ':');
    hide Split, Join, Terminated;
    assert a == (a + [""])[..|a + [""]| - 1] && b == (b + [""])[..|b + [""]| - 1];
  }

  lemma TextsAreFree(fields: seq<Field>, texts: seq<string>)
    requires AllClean(fields) && AreTextsOf(texts, fields)
    ensures Free(texts, ':')
  {
    hide Describe, SortedTexts;
    forall i | 0 <= i < |texts| ensures ':' !in texts[i] {
      assert texts[i] in multiset(Descriptions(fields));
      var k :| 0 <= k < |fields| && Descriptions(fields)[k] == texts[i];
      var o := Outlines(fields)[k];
      assert o in Outlines(fields);
      PartsAreFree(o);
    }
  }

  /** With names free of delimiters the hashed texts are equal exactly when the
      outlines of the fields are the same but for their order. */
  lemma HashedTextTellsOutlines(fields: seq<Field>, others: seq<Field>, texts: seq<string>, texts': seq<string>)
    requires AllClean(fields) && AllClean(others) && AreTextsOf(texts, fields) && AreTextsOf(texts', others)
    ensures Terminated(texts) == Terminated(texts') <==> multiset(Outlines(fields)) == multiset(Outlines(others))
  {
    var a, b := Outlines(fields), Outlines(others);
    if multiset(a) == multiset(b) {
      MappedPermutes(Describe, a, b);
      SortedOrderIsDetermined(texts, texts');
    }
    if Terminated(texts) == Terminated(texts') {
      TextsAreFree(fields, texts);
      TextsAreFree(others, texts');
      TerminatedInjective(texts, texts');
      OutlinesTold(a, b);
      MappedReflects(Describe, a, b);
    }
  }

  lemma OutlinesTold(a: seq<Outline>, b: seq<Outline>)
    requires (forall o :: o in a ==> Clean(o)) && forall o :: o in b ==> Clean(o)
    ensures Tells(Describe, a, b)
  {
    hide Describe;
    forall o, o' | o in a && o' in b && Describe(o) == Describe(o') ensures o == o' {
      DescribeInjective(o, o');
    }
  }

  /** So the text determines the fields, up to order, as far as the outlines do:
      among fields of which no two differ in nothing but their types. */
  lemma HashedTextDeterminesFields(fields: seq<Field>, others: seq<Field>, texts: seq<string>, texts': seq<string>)
    requires AllClean(fields) && AllClean(others) && AreTextsOf(texts, fields) && AreTextsOf(texts', others)
    requires Tells(OutlineOf, fields, others)
    ensures Terminated(texts) == Terminated(texts') <==> multiset(fields) == multiset(others)
  {
    HashedTextTellsOutlines(fields, others, texts, texts');
    if multiset(fields) == multiset(others) {
      MappedPermutes(OutlineOf, fields, others);
    }
    if multiset(Outlines(fields)) == multiset(Outlines(others)) {
      MappedReflects(OutlineOf, fields, others);
    }
  }

  /** A different type of the same name. */
  function Disguised(t: Type): (r: Type)
    ensures r != t && TypeName(r) == TypeName(t)
  {
    if t.Named? then
      assert |t.program + "_"| > |t.program|;
      Named(t.program + "_", t.name)
    else if t.ListOf? then SetOf(t.element)
    else ListOf(t)
  }

  /** The type of any field can be exchanged without a trace in the text. */
  lemma TypeIsNotTold(fields: seq<Field>, i: nat)
    requires i < |fields|
    ensures var f := fields[i].(fieldType := Disguised(fields[i].fieldType));
      f != fields[i] && Descriptions(fields[i := f]) == Descriptions(fields)
  {
    var f := fields[i].(fieldType := Disguised(fields[i].fieldType));
    assert OutlineOf(f) == OutlineOf(fields[i]);
    assert Outlines(fields[i := f]) == Outlines(fields);
  }

  /** `list<i32>` and `map<string, string>` are the same to it. */
  lemma ContainersConfused(id: int, name: string, qualifier: int)
    ensures var number, text := Named("", "i32"), Named("", "string");
      Descriptions([Field(id, name, ListOf(number), qualifier)]) ==
      Descriptions([Field(id, name, MapOf(text, text), qualifier)])
  {}

  /** With a delimiter in a name, different fields can have one description. */
  lemma DelimiterConfuses(id: int, qualifier: int)
    ensures Describe(Outline(id, "a,b", "c", qualifier)) == Describe(Outline(id, "a", "b,c", qualifier))
  {
    hide Decimal;
    var d, e := Decimal(id), Decimal(qualifier);
    assert d + "," + "a,b" + "," + "c" + "," + e == d + "," + "a" + "," + "b,c" + "," + e;
  }

  /** What a small type looks like. */
  lemma SmallTypeDescribed()
    ensures var fields := [Field(2, "b", Named("p", "T"), 1), Field(-1, "a", Named("", "i32"), 0)];
      Descriptions(fields) == ["2,b,T,1", "-1,a,i32,0"]
  {
    assert Digits(0) == "0" && Digits(1) == "1" && Digits(2) == "2";
    assert Decimal(2) == "2" && Decimal(1) == "1" && Decimal(0) == "0" && Decimal(-1) == "-1";
    hide Decimal;
    assert Describe(Outline(2, "b", "T", 1)) == "2,b,T,1";
    assert Describe(Outline(-1, "a", "i32", 0)) == "-1,a,i32,0";
  }
}
