/** The fields of a structured type with their id-ordered index
    (thrift/compiler/ast/t_structured.cc). */
module StructuredFields {
  import opened Wrappers

  /** A named type, with the program that it belongs to, or a container. */
  datatype Type =
    | Named(program: string, name: string)
    | ListOf(element: Type)
    | SetOf(element: Type)
    | MapOf(key: Type, value: Type)

  datatype Field = Field(id: int, name: string, fieldType: Type, qualifier: int)

  ghost predicate StrictlyById(fields: seq<Field>) {
    forall i, j :: 0 <= i < j < |fields| ==> fields[i].id < fields[j].id
  }

  /** Reference meaning of `get_field_by_id`: a scan in declaration order. */
  ghost function FirstWithId(fields: seq<Field>, id: int): Option<Field> {
    if fields == [] then None
    else if fields[0].id == id then Some(fields[0])
    else FirstWithId(fields[1..], id)
  }

  lemma {:induction false} ScanFinds(fields: seq<Field>, id: int)
    ensures match FirstWithId(fields, id)
      case Some(f) => f in fields && f.id == id
      case None => forall f :: f in fields ==> f.id != id
  {
    if fields != [] && fields[0].id != id {
      ScanFinds(fields[1..], id);
      assert fields == [fields[0]] + fields[1..];
    }
  }

  class Structured {
    var fields: seq<Field>
    var fieldsIdOrder: seq<Field>
    var fieldsByName: map<string, Field>

    /** The index is in strictly rising id order and a permutation of the fields. */
    ghost predicate Valid()
      reads this
    {
      StrictlyById(fieldsIdOrder) && multiset(fieldsIdOrder) == multiset(fields)
    }

    constructor ()
      ensures Valid() && fields == [] && fieldsByName == map[]
    {
      fields, fieldsIdOrder, fieldsByName := [], [], map[];
    }

    /** `std::partition_point` for ids below the given one, and whether the id is there. */
    method FindById(id: int) returns (lower: nat, found: bool)
      requires StrictlyById(fieldsIdOrder)
      ensures lower <= |fieldsIdOrder|
      ensures forall i :: 0 <= i < lower ==> fieldsIdOrder[i].id < id
      ensures forall i :: lower <= i < |fieldsIdOrder| ==> id <= fieldsIdOrder[i].id
      ensures found <==> lower < |fieldsIdOrder| && fieldsIdOrder[lower].id == id
    {
      lower := 0;
      var hi := |fieldsIdOrder|;
      while lower < hi
        invariant 0 <= lower <= hi <= |fieldsIdOrder|
        invariant forall i :: 0 <= i < lower ==> fieldsIdOrder[i].id < id
        invariant forall i :: hi <= i < |fieldsIdOrder| ==> id <= fieldsIdOrder[i].id
      {
        var mid := (lower + hi) / 2;
        if fieldsIdOrder[mid].id < id {
          lower := mid + 1;
        } else {
          hi := mid;
        }
      }
      found := lower < |fieldsIdOrder| && fieldsIdOrder[lower].id == id;
    }

    /** Fails exactly on an id already used, and then changes nothing. */
    method TryAppendField(field: Field) returns (ok: bool)
      requires Valid()
      modifies this
      ensures Valid()
      ensures ok <==> forall f :: f in old(fields) ==> f.id != field.id
      ensures ok ==> fields == old(fields) + [field]
      ensures ok ==>
        fieldsByName == if field.name == "" then old(fieldsByName) else old(fieldsByName)[field.name := field]
      ensures !ok ==> fields == old(fields) && fieldsIdOrder == old(fieldsIdOrder) && fieldsByName == old(fieldsByName)
    {
      var lower, found := FindById(field.id);
      SameMembers(fieldsIdOrder, fields);
      if found {
        assert fieldsIdOrder[lower] in fields;
        return false;
      }
      NoneWithId(fieldsIdOrder, lower, field.id);
      InsertedInOrder(fieldsIdOrder, lower, field);
      hide StrictlyById;
      if field.name != "" {
        fieldsByName := fieldsByName[field.name := field];
      }
      fieldsIdOrder := fieldsIdOrder[..lower] + [field] + fieldsIdOrder[lower..];
      fields := fields + [field];
      return true;
    }

    /** The binary search answers as a scan of the fields would. */
    method GetFieldById(id: int) returns (r: Option<Field>)
      requires Valid()
      ensures r == FirstWithId(fields, id)
    {
      var lower, found := FindById(id);
      SameMembers(fieldsIdOrder, fields);
      ScanFinds(fields, id);
      if found {
        assert fieldsIdOrder[lower] in fields;
        ghost var scanned := FirstWithId(fields, id).value;
        ghost var i :| 0 <= i < |fieldsIdOrder| && fieldsIdOrder[i] == scanned;
        return Some(fieldsIdOrder[lower]);
      }
      assert forall f :: f in fields ==> f.id != id;
      return None;
    }
  }

  lemma InsertedInOrder(order: seq<Field>, lower: nat, field: Field)
    requires StrictlyById(order) && lower <= |order|
    requires forall i :: 0 <= i < lower ==> order[i].id < field.id
    requires forall i :: lower <= i < |order| ==> field.id < order[i].id
    ensures StrictlyById(order[..lower] + [field] + order[lower..])
    ensures multiset(order[..lower] + [field] + order[lower..]) == multiset(order) + multiset{field}
  {
    assert order == order[..lower] + order[lower..];
  }

  lemma NoneWithId(order: seq<Field>, lower: nat, id: int)
    requires lower <= |order| && StrictlyById(order)
    requires forall i :: 0 <= i < lower ==> order[i].id < id
    requires forall i :: lower <= i < |order| ==> id <= order[i].id
    requires lower < |order| ==> order[lower].id != id
    ensures forall f :: f in order ==> f.id != id
    ensures forall i :: lower <= i < |order| ==> id < order[i].id
  {}

  lemma SameMembers(a: seq<Field>, b: seq<Field>)
    requires multiset(a) == multiset(b)
    ensures forall f :: f in a <==> f in b
  {
    assert forall f :: f in a <==> f in multiset(a);
    assert forall f :: f in b <==> f in multiset(b);
  }
}
