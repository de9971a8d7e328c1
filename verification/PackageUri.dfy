/** Packages and the URIs built from them (thrift/compiler/ast/t_package.h and
    t_package.cc, thrift/common/universal_name.cc). */
module PackageUri {
  import opened Splitting

  /** `std::string_view::find` from `start`. */
  method Find(s: string, d: char, start: nat) returns (found: bool, pos: nat)
    requires start <= |s|
    ensures found ==> start <= pos < |s| && s[pos] == d && d !in s[start..pos]
    ensures !found ==> d !in s[start..]
  {
    pos := start;
    while pos < |s| && s[pos] != d
      invariant start <= pos <= |s| && d !in s[start..pos]
    {
      assert s[start..pos + 1] == s[start..pos] + [s[pos]];
      pos := pos + 1;
    }
    found := pos < |s|;
    assert !found ==> s[start..] == s[start..pos];
  }

  /** The `split` of universal_name.cc. */
  method SplitLoop(input: string, delimiter: char) returns (result: seq<string>)
    ensures result == Split(input, delimiter)
  {
    hide Split;
    result := [];
    var start := 0;
    assert input[start..] == input;
    while start <= |input|
      invariant 0 <= start <= |input|
      invariant result + Split(input[start..], delimiter) == Split(input, delimiter)
      decreases |input| - start
    {
      var found, end := Find(input, delimiter, start);
      if !found {
        SplitAfter(input[start..], "", delimiter);
        result := result + [input[start..]];
        break;
      }
      SplitStep(input, delimiter, start, end);
      result := result + [input[start..end]];
      start := end + 1;
    }
  }

  lemma SplitStep(input: string, delimiter: char, start: nat, end: nat)
    requires start <= end < |input| && input[end] == delimiter && delimiter !in input[start..end]
    ensures Split(input[start..], delimiter) == [input[start..end]] + Split(input[end + 1..], delimiter)
  {
    assert input[start..] == input[start..end] + [delimiter] + input[end + 1..];
    SplitAfter(input[start..end], input[end + 1..], delimiter);
  }

  datatype Package = Package(uriPrefix: string, domain: seq<string>, path: seq<string>) {
    predicate Empty() { uriPrefix == "" }

    /** The raw package name. */
    function Name(): string {
      if Empty() then "" else uriPrefix[..|uriPrefix| - 1]
    }

    function Uri(name: string): string {
      if Empty() then "" else uriPrefix + name
    }
  }

  function Slashed(path: seq<string>): string {
    if path == [] then "" else Slashed(path[..|path| - 1]) + "/" + path[|path| - 1]
  }

  method GenPrefix(domain: seq<string>, path: seq<string>) returns (result: string)
    ensures result == Join(domain, '.') + Slashed(path) + "/"
  {
    result := GenDomain(domain);
    hide Join;
    var delim := "/";
    var i := 0;
    while i < |path|
      invariant 0 <= i <= |path|
      invariant result == Join(domain, '.') + Slashed(path[..i])
    {
      assert path[..i + 1][..i] == path[..i];
      result := result + delim;
      result := result + path[i];
      i := i + 1;
    }
    assert path[..i] == path;
    result := result + delim;
  }

  /** The first loop of `gen_prefix`. */
  method GenDomain(domain: seq<string>) returns (result: string)
    ensures result == Join(domain, '.')
  {
    assert domain[0..] == domain;
    result := "";
    var delim := "";
    var i := 0;
    while i < |domain|
      invariant 0 <= i <= |domain|
      invariant delim == if i == 0 then "" else "."
      invariant result + (if i == 0 || i == |domain| then "" else ".") + Join(domain[i..], '.') == Join(domain, '.')
    {
      JoinStep(domain, i);
      result := result + delim;
      result := result + domain[i];
      delim := ".";
      i := i + 1;
    }
    assert domain[i..] == [];
  }

  lemma JoinStep(domain: seq<string>, i: nat)
    requires i < |domain|
    ensures Join(domain[i..], '.') ==
      domain[i] + (if i + 1 == |domain| then "" else ".") + Join(domain[i + 1..], '.')
  {
    assert domain[i..][1..] == domain[i + 1..];
  }

  /** `t_package(domain, path)`. */
  method FromParts(domain: seq<string>, path: seq<string>) returns (p: Package)
    ensures p == Package(Join(domain, '.') + Slashed(path) + "/", domain, path)
  {
    var prefix := GenPrefix(domain, path);
    p := Package(prefix, domain, path);
  }

  /** `t_package(name)`. */
  function Parse(name: string): Package {
    var parts := Split(name, '/');
    Package(if name != "" && name[|name| - 1] != '/' then name + "/" else name, Split(parts[0], '.'), parts[1..])
  }

  lemma {:induction false} SlashedIsJoin(head: string, path: seq<string>)
    ensures head + Slashed(path) == Join([head] + path, '/')
  {
    if path != [] {
      var init, last := path[..|path| - 1], path[|path| - 1];
      SlashedIsJoin(head, init);
      JoinAppend([head] + init, last, '/');
      assert [head] + path == [head] + init + [last];
    }
  }

  /** The parts can be told apart in the name again: no part holds a delimiter
      that would split it, and the name neither vanishes nor ends in a slash. */
  ghost predicate Clean(domain: seq<string>, path: seq<string>) {
    && domain != [] && Free(domain, '.') && Free(domain, '/') && Free(path, '/')
    && if path == [] then domain != [""] else path[|path| - 1] != ""
  }

  lemma SplitName(domain: seq<string>, path: seq<string>)
    requires domain != [] && Free(domain, '.') && Free(domain, '/') && Free(path, '/')
    ensures Split(Join(domain, '.') + Slashed(path), '/') == [Join(domain, '.')] + path
    ensures Split(Join(domain, '.'), '.') == domain
  {
    JoinHolds(domain, '.', '/');
    SlashedIsJoin(Join(domain, '.'), path);
    SplitJoin([Join(domain, '.')] + path, '/');
    SplitJoin(domain, '.');
  }

  /** The name ends in a slash, or is empty, exactly when its last part is empty. */
  lemma NameEnd(domain: seq<string>, path: seq<string>)
    requires domain != [] && Free(domain, '.') && Free(domain, '/') && Free(path, '/')
    ensures var name := Join(domain, '.') + Slashed(path);
      (name == "" || name[|name| - 1] == '/') <==> if path == [] then domain == [""] else path[|path| - 1] == ""
  {
    if path == [] {
      JoinHolds(domain, '.', '/');
      if Join(domain, '.') == "" {
        SplitJoin(domain, '.');
      }
    } else {
      assert '/' !in path[|path| - 1];
    }
  }

  /** Building a package, taking its name and parsing that gives the package back
      exactly when its parts are clean. */
  lemma ParseNameIff(domain: seq<string>, path: seq<string>)
    ensures var p := Package(Join(domain, '.') + Slashed(path) + "/", domain, path);
      Parse(p.Name()) == p <==> Clean(domain, path)
  {
    var name := Join(domain, '.') + Slashed(path);
    var p := Package(name + "/", domain, path);
    assert p.Name() == name;
    if domain != [] && Free(domain, '.') && Free(domain, '/') && Free(path, '/') {
      SplitName(domain, path);
      NameEnd(domain, path);
    } else if Parse(name) == p {
      PartsOfParse(name);
    }
  }

  lemma PartsOfParse(name: string)
    ensures var p := Parse(name);
      p.domain != [] && Free(p.domain, '.') && Free(p.domain, '/') && Free(p.path, '/')
  {
    var parts := Split(name, '/');
    SplitIsFree(name, '/');
    SplitIsFree(parts[0], '.');
    SplitHolds(parts[0], '.', '/');
  }

  // Universal names.

  predicate IsDomainChar(c: char) { '0' <= c <= '9' || 'a' <= c <= 'z' }

  predicate IsPathChar(c: char) { IsDomainChar(c) || c == '_' }

  predicate IsTypeChar(c: char) { IsPathChar(c) || 'A' <= c <= 'Z' }

  predicate ValidPart(s: string, p: char -> bool) {
    s != "" && forall i :: 0 <= i < |s| ==> p(s[i])
  }

  predicate ValidDomain(domain: seq<string>) {
    |domain| >= 2 && forall i :: 0 <= i < |domain| ==> ValidPart(domain[i], IsDomainChar)
  }

  predicate ValidPath(path: seq<string>) {
    path != [] && forall i :: 0 <= i < |path| ==> ValidPart(path[i], IsPathChar)
  }

  /** `validate_universal_name`, with false for the exception. */
  method ValidateUniversalName(uri: string) returns (ok: bool)
    ensures ok <==> IsUniversalName(uri)
  {
    var parts := SplitLoop(uri, '/');
    if |parts| < 3 {
      return false;
    }
    var domain := SplitLoop(parts[0], '.');
    if |domain| < 2 {
      return false;
    }
    ok := CheckParts(domain, IsDomainChar);
    if !ok {
      return;
    }
    ok := CheckParts(parts[1..|parts| - 1], IsPathChar);
    if !ok {
      return;
    }
    ok := ValidPart(parts[|parts| - 1], IsTypeChar);
  }

  method CheckParts(parts: seq<string>, p: char -> bool) returns (ok: bool)
    ensures ok <==> forall i :: 0 <= i < |parts| ==> ValidPart(parts[i], p)
  {
    var i := 0;
    while i < |parts|
      invariant 0 <= i <= |parts|
      invariant forall j :: 0 <= j < i ==> ValidPart(parts[j], p)
    {
      if !ValidPart(parts[i], p) {
        return false;
      }
      i := i + 1;
    }
    return true;
  }

  ghost predicate IsUniversalName(uri: string) {
    var parts := Split(uri, '/');
    && |parts| >= 3 && ValidDomain(Split(parts[0], '.'))
    && ValidPath(parts[1..|parts| - 1]) && ValidPart(parts[|parts| - 1], IsTypeChar)
  }

  /** The URI of a slash-free type name in a clean package is a universal name
      exactly when domain, path and type name are each valid. */
  lemma UriValidIff(domain: seq<string>, path: seq<string>, typeName: string)
    requires Clean(domain, path) && '/' !in typeName
    ensures var p := Package(Join(domain, '.') + Slashed(path) + "/", domain, path);
      IsUniversalName(p.Uri(typeName)) <==>
        ValidDomain(domain) && ValidPath(path) && ValidPart(typeName, IsTypeChar)
  {
    var name := Join(domain, '.') + Slashed(path);
    SplitName(domain, path);
    hide Split, Join, Slashed, ValidDomain, ValidPath, ValidPart, IsUniversalName;
    assert ([Join(domain, '.')] + path)[1..] == path;
    UriOfStem(name, typeName);
  }

  /** The path without the empty part that a closing slash leaves behind. */
  function Stem(path: seq<string>): seq<string> {
    if path != [] && path[|path| - 1] == "" then path[..|path| - 1] else path
  }

  /** The URI of a slash-free type name in a package parsed from any name is a
      universal name exactly when the domain, the type name and the path, but for
      the part after a closing slash, are valid. */
  lemma ParsedUriValidIff(name: string, typeName: string)
    requires '/' !in typeName
    ensures var p := Parse(name);
      IsUniversalName(p.Uri(typeName)) <==>
        ValidDomain(p.domain) && ValidPath(Stem(p.path)) && ValidPart(typeName, IsTypeChar)
  {
    if name == "" {
      assert Split("", '.') == [""] && Split("", '/') == [""];
      return;
    }
    hide Split, IsUniversalName, ValidDomain, ValidPath, ValidPart;
    var stem := if name[|name| - 1] == '/' then name[..|name| - 1] else name;
    StemOfName(name, stem);
    hide Stem;
    assert Parse(name).Uri(typeName) == stem + "/" + typeName;
    UriOfStem(stem, typeName);
  }

  lemma StemOfName(name: string, stem: string)
    requires name != "" && stem == if name[|name| - 1] == '/' then name[..|name| - 1] else name
    ensures Split(name, '/')[0] == Split(stem, '/')[0] && Stem(Split(name, '/')[1..]) == Split(stem, '/')[1..]
  {
    if name[|name| - 1] == '/' {
      assert name == stem + "/" + "";
      SplitConcat(stem, "", '/');
      assert Split("", '/') == [""];
      hide Split;
      var parts := Split(stem, '/');
      assert (parts + [""])[1..] == parts[1..] + [""];
      return;
    }
    LastPart(name, '/');
    hide Split;
  }

  lemma UriOfStem(stem: string, typeName: string)
    requires '/' !in typeName
    ensures var parts := Split(stem, '/');
      IsUniversalName(stem + "/" + typeName) <==>
        ValidDomain(Split(parts[0], '.')) && ValidPath(parts[1..]) && ValidPart(typeName, IsTypeChar)
  {
    SplitConcat(stem, typeName, '/');
    SplitAfter(typeName, "", '/');
    hide Split, ValidDomain, ValidPart;
    var parts := Split(stem, '/');
    var all := Split(stem + "/" + typeName, '/');
    assert all == parts + [typeName] && all[1..|all| - 1] == parts[1..] && all[0] == parts[0];
  }

  /** A package with a closing slash and an empty path segment whose URIs are valid. */
  lemma ClosingSlashIsValid()
    ensures var p := Parse("a.b/c/");
      p.path == ["c", ""] && !ValidPath(p.path) && IsUniversalName(p.Uri("T"))
  {
    PartsWithClosingSlash();
    hide Split, IsUniversalName;
    var p := Parse("a.b/c/");
    assert p.path == ["c", ""] && p.domain == ["a", "b"];
    assert Stem(p.path) == ["c"] && p.path[1] == "";
    ParsedUriValidIff("a.b/c/", "T");
  }

  lemma PartsWithClosingSlash()
    ensures Split("a.b/c/", '/') == ["a.b", "c", ""] && Split("a.b", '.') == ["a", "b"]
  {
    assert Split("", '/') == [""];
    hide Split;
    assert "a.b/c/" == "a.b" + "/" + "c/" && "c/" == "c" + "/" + "" && "a.b" == "a" + "." + "b";
    SplitAfter("a.b", "c/", '/');
    SplitAfter("c", "", '/');
    SplitAfter("a", "b", '.');
    SplitAfter("b", "", '.');
  }

  /** The characters by their ASCII codes. */
  lemma CharactersAre(c: char)
    ensures var code := c as int;
      var domain := 48 <= code <= 57 || 97 <= code <= 122;
      && (IsDomainChar(c) <==> domain)
      && (IsPathChar(c) <==> domain || code == 95)
      && (IsTypeChar(c) <==> domain || code == 95 || 65 <= code <= 90)
  {}

  /** Two labels make a domain and one does not, one segment makes a path and none
      does not, and no part may be empty. */
  lemma ComponentsNeeded(part: string, segment: string)
    requires ValidPart(part, IsDomainChar) && ValidPart(segment, IsPathChar)
    ensures ValidDomain([part, part]) && !ValidDomain([part]) && !ValidDomain([part, ""])
    ensures ValidPath([segment]) && !ValidPath([]) && !ValidPath([segment, ""])
  {
    assert [part, ""][1] == "" && [segment, ""][1] == "";
  }
}
