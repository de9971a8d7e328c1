/** Enum values, their lookup and the tracking of an unused one
    (thrift/compiler/ast/t_enum.h and t_enum.cc). */
module EnumValues {
  import opened Wrappers

  const DEFAULT_UNUSED := 113
  const INT32_MAX := 0x7FFF_FFFF

  /** A value as written, where the number may be left out, and as recorded. */
  datatype Declared = Declared(name: string, number: Option<int>)
  datatype EnumValue = EnumValue(name: string, number: int)

  /** The least number from the default on that is not in `used`. */
  ghost predicate LeastUnused(used: set<int>, n: int) {
    DEFAULT_UNUSED <= n && n !in used && forall k :: DEFAULT_UNUSED <= k < n ==> k in used
  }

  /** Reference meaning of `find_value`: the first value in declaration order with that number. */
  ghost function FirstWith(values: seq<EnumValue>, number: int): Option<EnumValue> {
    if values == [] then None
    else if values[0].number == number then Some(values[0])
    else FirstWith(values[1..], number)
  }

  lemma {:induction false} FirstWithAppend(values: seq<EnumValue>, v: EnumValue, number: int)
    ensures FirstWith(values + [v], number) ==
      if FirstWith(values, number).Some? then FirstWith(values, number)
      else if v.number == number then Some(v) else None
  {
    if values != [] {
      assert (values + [v])[1..] == values[1..] + [v];
      FirstWithAppend(values[1..], v, number);
    }
  }

  ghost function Numbers(values: seq<EnumValue>): set<int> {
    set v | v in values :: v.number
  }

  /** The unused number cannot run far ahead: it is bounded by how many numbers are taken. */
  lemma UnusedIsSmall(used: set<int>, n: int)
    requires LeastUnused(used, n)
    ensures n <= DEFAULT_UNUSED + |used|
  {
    RangeFits(used, n);
  }

  lemma {:induction false} RangeFits(used: set<int>, n: int)
    requires DEFAULT_UNUSED <= n && forall k :: DEFAULT_UNUSED <= k < n ==> k in used
    ensures n - DEFAULT_UNUSED <= |used|
    decreases n
  {
    if n > DEFAULT_UNUSED {
      RangeFits(used - {n - 1}, n - 1);
    }
  }

  /** The values are the first of those declared, each with its own number or,
      failing that, one more than its predecessor's, starting from zero. */
  ghost predicate NumberedAs(values: seq<EnumValue>, declared: seq<Declared>) {
    |values| <= |declared| && forall i :: 0 <= i < |values| ==> NumberedAt(values, declared, i)
  }

  ghost predicate NumberedAt(values: seq<EnumValue>, declared: seq<Declared>, i: nat)
    requires i < |values| <= |declared|
  {
    && values[i].name == declared[i].name
    && (declared[i].number.Some? ==> values[i].number == declared[i].number.value)
    && (declared[i].number.None? && i == 0 ==> values[i].number == 0)
    && (declared[i].number.None? && i > 0 ==> values[i].number == values[i - 1].number + 1)
  }

  /** The value that a declaration adds behind the given ones. */
  function Follower(values: seq<EnumValue>, declared: Declared): EnumValue {
    EnumValue(declared.name, match declared.number
      case Some(n) => n
      case None => if values == [] then 0 else values[|values| - 1].number + 1)
  }

  lemma NumberedExtends(values: seq<EnumValue>, declared: seq<Declared>)
    requires NumberedAs(values, declared) && |values| < |declared|
    ensures NumberedAs(values + [Follower(values, declared[|values|])], declared)
  {
    var more := values + [Follower(values, declared[|values|])];
    forall i | 0 <= i < |more| ensures NumberedAt(more, declared, i) {
      if i < |values| {
        assert NumberedAt(values, declared, i);
      }
    }
  }

  /** Position in the ordered map: the least key above `k`. */
  ghost predicate IsUpperBound(keys: set<int>, k: int, it: Option<int>) {
    match it
    case None => forall x :: x in keys ==> x <= k
    case Some(n) => n in keys && n > k && forall x :: x in keys && x > k ==> n <= x
  }

  /** `std::map::upper_bound`; the keys of the map are the numbers of the values. */
  method UpperBound(values: seq<EnumValue>, k: int) returns (it: Option<int>)
    ensures IsUpperBound(Numbers(values), k, it)
  {
    it := None;
    var i := 0;
    while i < |values|
      invariant 0 <= i <= |values| && IsUpperBound(Numbers(values[..i]), k, it)
    {
      var n := values[i].number;
      if n > k && (it.None? || n < it.value) {
        it := Some(n);
      }
      NumbersAppend(values[..i], values[i]);
      assert values[..i + 1] == values[..i] + [values[i]];
      i := i + 1;
    }
    assert values[..i] == values;
  }

  lemma NumbersAppend(values: seq<EnumValue>, v: EnumValue)
    ensures Numbers(values + [v]) == Numbers(values) + {v.number}
  {}

  /** The map answers as a scan of the values would, and the unused number is the least one. */
  ghost predicate Tracks(values: seq<EnumValue>, valueMap: map<int, EnumValue>, unused: int) {
    && valueMap.Keys == Numbers(values)
    && (forall n :: Get(valueMap, n) == FirstWith(values, n))
    && LeastUnused(Numbers(values), unused)
  }

  lemma NothingTracked()
    ensures Tracks([], map[], DEFAULT_UNUSED) && forall declared :: NumberedAs([], declared)
  {}

  class Enum {
    var values: seq<EnumValue>
    var valueMap: map<int, EnumValue>
    var unused: int

    ghost predicate Valid()
      reads this
    {
      Tracks(values, valueMap, unused)
    }

    constructor ()
      ensures Valid() && values == []
    {
      values, valueMap, unused := [], map[], DEFAULT_UNUSED;
    }

    /** Runs before the new number enters the map. */
    method UpdateUnused(number: int)
      requires LeastUnused(Numbers(values), unused)
      modifies this`unused
      ensures LeastUnused(Numbers(values) + {number}, unused)
    {
      if unused != number {
        return;
      }
      var it := UpperBound(values, unused);
      unused := unused + 1;
      while it.Some? && it.value == unused
        invariant number < unused && IsUpperBound(Numbers(values), unused - 1, it)
        invariant forall k :: DEFAULT_UNUSED <= k < unused ==> k in Numbers(values) + {number}
        decreases set k | k in Numbers(values) && k >= unused
      {
        ghost var before := set k | k in Numbers(values) && k >= unused;
        it := UpperBound(values, it.value);
        assert unused in before;
        unused := unused + 1;
      }
    }

    /** Fails, as the source throws, when an implicit number would pass the 32-bit range. */
    method AppendValue(declared: Declared) returns (ok: bool)
      requires Valid()
      modifies this
      ensures Valid()
      ensures ok <==> declared.number.Some? || old(values) == [] || old(values)[|old(values)| - 1].number != INT32_MAX
      ensures !ok ==> values == old(values)
      ensures ok ==> values == old(values) + [Follower(old(values), declared)]
      ensures ok ==>
        var v := values[|old(values)|];
        && v.name == declared.name
        && (declared.number.Some? ==> v.number == declared.number.value)
        && (declared.number.None? && old(values) == [] ==> v.number == 0)
        && (declared.number.None? && old(values) != [] ==> v.number == old(values)[|old(values)| - 1].number + 1)
    {
      var number;
      if declared.number.None? {
        var last := if values == [] then -1 else values[|values| - 1].number;
        if last == INT32_MAX {
          return false;
        }
        number := last + 1;
      } else {
        number := declared.number.value;
      }
      var value := EnumValue(declared.name, number);
      UpdateUnused(number);
      if number !in valueMap {
        valueMap := valueMap[number := value];
      }
      forall n ensures Get(valueMap, n) == FirstWith(values + [value], n) {
        FirstWithAppend(values, value, n);
      }
      NumbersAppend(values, value);
      values := values + [value];
      return true;
    }

    /** Replaces all values; stops at the first one that cannot be appended. */
    method SetValues(declared: seq<Declared>) returns (ok: bool)
      modifies this
      ensures Valid() && |values| <= |declared| && NumberedAs(values, declared)
      ensures ok <==> |values| == |declared|
      ensures !ok ==> 0 < |values| && declared[|values|].number.None? && values[|values| - 1].number == INT32_MAX
    {
      values, valueMap, unused := [], map[], DEFAULT_UNUSED;
      NothingTracked();
      hide Tracks, NumberedAs, Follower;
      var i := 0;
      while i < |declared|
        invariant 0 <= i <= |declared| && Valid() && |values| == i && NumberedAs(values, declared)
      {
        NumberedExtends(values, declared);
        ok := AppendValue(declared[i]);
        if !ok {
          return;
        }
        i := i + 1;
      }
      return true;
    }

    method FindValue(number: int) returns (r: Option<EnumValue>)
      requires Valid()
      ensures r == FirstWith(values, number)
    {
      r := Get(valueMap, number);
    }
  }
}
