/** Conversion between camel case and underscores
    (thrift/compiler/generate/t_concat_generator.h), in the C locale. */
module NameCase {

  predicate IsUpper(c: char) { 'A' <= c <= 'Z' }
  predicate IsLower(c: char) { 'a' <= c <= 'z' }

  function ToLower(c: char): char {
    if IsUpper(c) then (c as int + 32) as char else c
  }

  function ToUpper(c: char): char {
    if IsLower(c) then (c as int - 32) as char else c
  }

  /** Each capital becomes an underscore and its small letter. */
  ghost function Expanded(s: string): string {
    if s == "" then ""
    else (if IsUpper(s[0]) then "_" + [ToLower(s[0])] else [s[0]]) + Expanded(s[1..])
  }

  lemma {:induction false} ExpandedShape(s: string)
    ensures |Expanded(s)| == |s| + Capitals(s) && forall i :: 0 <= i < |Expanded(s)| ==> !IsUpper(Expanded(s)[i])
  {
    if s != "" { ExpandedShape(s[1..]); }
  }

  ghost function Capitals(s: string): nat {
    if s == "" then 0 else (if IsUpper(s[0]) then 1 else 0) + Capitals(s[1..])
  }

  /** The string is edited, and grows, while it is walked. */
  method Underscore(name: string) returns (s: string)
    ensures s == if name == "" then "" else [ToLower(name[0])] + Expanded(name[1..])
    ensures forall i :: 0 <= i < |s| ==> !IsUpper(s[i])
    ensures |s| == |name| + if name == "" then 0 else Capitals(name[1..])
  {
    if name != "" {
      ExpandedShape(name[1..]);
    }
    s := name;
    if s == "" {
      return;
    }
    s := s[0 := ToLower(s[0])];
    var i := 1;
    while i < |s|
      invariant 1 <= i <= |s|
      invariant s[..i] + Expanded(s[i..]) == [ToLower(name[0])] + Expanded(name[1..])
      decreases Capitals(s[i..]), |s| - i
    {
      ghost var before := s;
      if IsUpper(s[i]) {
        s := s[i := ToLower(s[i])];
        s := s[..i] + "_" + s[i..];
        NothingToExpand(before, s, i);
      } else {
        assert s[..i + 1] == s[..i] + [s[i]] && s[i..][1..] == s[i + 1..];
      }
      i := i + 1;
    }
    assert s[..i] == s;
  }

  /** The step taken at a capital: the loop goes on at its small letter, which expands to itself. */
  lemma NothingToExpand(before: string, after: string, i: nat)
    requires i < |before| && IsUpper(before[i])
    requires after == before[..i] + "_" + [ToLower(before[i])] + before[i + 1..]
    ensures after[..i + 1] + Expanded(after[i + 1..]) == before[..i] + Expanded(before[i..])
    ensures Capitals(after[i + 1..]) < Capitals(before[i..])
  {
    var l := ToLower(before[i]);
    assert after[i + 1..] == [l] + before[i + 1..];
    assert ([l] + before[i + 1..])[1..] == before[i + 1..];
    assert before[i..][1..] == before[i + 1..];
    assert after[..i + 1] == before[..i] + "_";
    assert "_" + ([l] + Expanded(before[i + 1..])) == "_" + [l] + Expanded(before[i + 1..]);
  }

  /** What `camelcase` yields from here on; `raised` says that an underscore came just before. */
  ghost function Camel(s: string, raised: bool): string {
    if s == "" then ""
    else if s[0] == '_' then Camel(s[1..], true)
    else [if raised then ToUpper(s[0]) else s[0]] + Camel(s[1..], false)
  }

  function Capitalize(s: string): string {
    if s == "" then "" else [ToUpper(s[0])] + s[1..]
  }

  method Camelcase(name: string, capitalizeFirst: bool) returns (out: string)
    ensures out == Camel(if capitalizeFirst then Capitalize(name) else name, false)
  {
    hide Camel;
    var s := name;
    if capitalizeFirst {
      s := Capitalize(s);
    }
    out := "";
    var underscore := false;
    var i := 0;
    assert s[i..] == s;
    while i < |s|
      invariant 0 <= i <= |s|
      invariant out + Camel(s[i..], underscore) == Camel(s, false)
    {
      CamelStep(out, s, i, underscore);
      if s[i] == '_' {
        underscore := true;
      } else if underscore {
        out := out + [ToUpper(s[i])];
        underscore := false;
      } else {
        out := out + [s[i]];
      }
      i := i + 1;
    }
    assert s[i..] == "";
    CamelOfNothing(underscore);
  }

  lemma CamelOfNothing(raised: bool)
    ensures Camel("", raised) == ""
  {}

  lemma CamelStep(out: string, s: string, i: nat, raised: bool)
    requires i < |s|
    ensures out + Camel(s[i..], raised) ==
      if s[i] == '_' then out + Camel(s[i + 1..], true)
      else out + [if raised then ToUpper(s[i]) else s[i]] + Camel(s[i + 1..], false)
  {
    assert s[i..][0] == s[i] && s[i..][1..] == s[i + 1..];
  }

  lemma {:induction false} CamelExpanded(s: string)
    requires '_' !in s
    ensures Camel(Expanded(s), false) == s
  {
    if s != "" {
      var e := Expanded(s);
      CamelExpanded(s[1..]);
      if IsUpper(s[0]) {
        assert e[1..] == [ToLower(s[0])] + Expanded(s[1..]);
        assert e[1..][1..] == Expanded(s[1..]);
        assert ToUpper(ToLower(s[0])) == s[0];
      } else {
        assert e[1..] == Expanded(s[1..]);
      }
      assert s == [s[0]] + s[1..];
    }
  }

  lemma {:induction false} CamelHoldsNoUnderscore(s: string, raised: bool)
    ensures '_' !in Camel(s, raised)
  {
    if s != "" { CamelHoldsNoUnderscore(s[1..], s[0] == '_'); }
  }

  /** Going to underscores and back restores exactly the names that hold no
      underscore and do not start with a capital. */
  lemma CamelUndoesUnderscoreIff(name: string)
    requires name != ""
    ensures Camel([ToLower(name[0])] + Expanded(name[1..]), false) == name <==>
      '_' !in name && !IsUpper(name[0])
  {
    var s := [ToLower(name[0])] + Expanded(name[1..]);
    CamelHoldsNoUnderscore(s, false);
    assert s[1..] == Expanded(name[1..]) && name == [name[0]] + name[1..];
    if '_' !in name {
      CamelExpanded(name[1..]);
    }
  }

  /** With the first letter capitalised, exactly those that hold no underscore and
      do not start with a small letter. */
  lemma CapitalizedCamelUndoesUnderscoreIff(name: string)
    requires name != ""
    ensures Camel(Capitalize([ToLower(name[0])] + Expanded(name[1..])), false) == name <==>
      '_' !in name && !IsLower(name[0])
  {
    var s := Capitalize([ToLower(name[0])] + Expanded(name[1..]));
    CamelHoldsNoUnderscore(s, false);
    assert s == [ToUpper(ToLower(name[0]))] + Expanded(name[1..]);
    assert s[1..] == Expanded(name[1..]) && name == [name[0]] + name[1..];
    if '_' !in name {
      CamelExpanded(name[1..]);
    }
  }
}
