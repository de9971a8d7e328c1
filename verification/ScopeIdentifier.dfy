/** Dotted identifiers (thrift/compiler/ast/scope_identifier.cc). */
module ScopeIdentifier {
  import opened Wrappers

  datatype Identifier =
    | Unscoped(name: string)
    | Scoped(scope: string, name: string)
    | EnumValue(scope: string, enumName: string, valueName: string)

  const DOT := '.'

  /** Position of the first dot, as `find_first_of('.')`. */
  function FirstDot(s: string): (r: Option<nat>)
    ensures r.Some? ==> r.value < |s| && s[r.value] == DOT && DOT !in s[..r.value]
    ensures r.None? <==> DOT !in s
  {
    if s == [] then None
    else if s[0] == DOT then Some(0)
    else
      assert s == [s[0]] + s[1..];
      match FirstDot(s[1..])
      case None => None
      case Some(i) =>
        assert s[..i + 1] == [s[0]] + s[1..][..i];
        Some(i + 1)
  }

  /** `identifier::parse(name)`. */
  function Parse(s: string): Identifier {
    match FirstDot(s)
    case None => Unscoped(s)
    case Some(i) =>
      var rest := s[i + 1..];
      match FirstDot(rest)
      case None => Scoped(s[..i], rest)
      case Some(j) => EnumValue(s[..i], rest[..j], rest[j + 1..])
  }

  /** `fmtDebug`. */
  function Format(id: Identifier): string {
    match id
    case Unscoped(n) => n
    case Scoped(s, n) => s + [DOT] + n
    case EnumValue(s, e, v) => s + [DOT] + e + [DOT] + v
  }

  /** `unscope`: the parts that name a definition inside a program; "" stands for an unused part. */
  function Unscope(id: Identifier): (string, string) {
    match id
    case Unscoped(n) => (n, "")
    case Scoped(_, n) => (n, "")
    case EnumValue(_, e, v) => (e, v)
  }

  /** Parsing loses nothing of any text. */
  lemma {:induction false} FormatParse(s: string)
    ensures Format(Parse(s)) == s
  {
    hide FirstDot;
    if FirstDot(s).Some? {
      var i := FirstDot(s).value;
      var rest := s[i + 1..];
      assert s == s[..i] + [DOT] + rest;
      if FirstDot(rest).Some? {
        var j := FirstDot(rest).value;
        var a, b, c := s[..i], rest[..j], rest[j + 1..];
        assert a + [DOT] + b + [DOT] + c == a + [DOT] + (b + [DOT] + c);
        assert rest == b + [DOT] + c;
      }
    }
  }

  ghost predicate DotFree(id: Identifier) {
    match id
    case Unscoped(n) => DOT !in n
    case Scoped(s, n) => DOT !in s && DOT !in n
    case EnumValue(s, e, _) => DOT !in s && DOT !in e
  }

  lemma {:induction false} FirstDotAfter(s: string, t: string)
    requires DOT !in s
    ensures FirstDot(s + [DOT] + t) == Some(|s|)
    ensures (s + [DOT] + t)[..|s|] == s && (s + [DOT] + t)[|s| + 1..] == t
  {
    if s != [] {
      FirstDotAfter(s[1..], t);
      assert (s + [DOT] + t)[1..] == s[1..] + [DOT] + t;
    }
  }

  /** An identifier is recovered from its text exactly when no part but the last
      of three holds a dot. */
  lemma {:induction false} ParseFormat(id: Identifier)
    ensures Parse(Format(id)) == id <==> DotFree(id)
  {
    if DotFree(id) {
      match id
      case Unscoped(_) =>
      case Scoped(s, n) => FirstDotAfter(s, n);
      case EnumValue(s, e, v) =>
        assert s + [DOT] + e + [DOT] + v == s + [DOT] + (e + [DOT] + v);
        FirstDotAfter(s, e + [DOT] + v);
        FirstDotAfter(e, v);
    }
  }
}
