/** Where the texts of a source manager come from and where includes are found, told
    by the backend and the operations alone
    (thrift/compiler/source_location.cc). */
module SourceOrigins {
  import opened Wrappers
  import opened SourceText
  import opened SourceCache

  /** The backend holds that content under the path. */
  ghost predicate Holds(env: Environment, path: string, content: string) {
    env.readFile.Some? && env.readFile.value(path) == Some(content)
  }

  ghost predicate HoldsNothing(env: Environment, path: string) {
    forall content :: !Holds(env, path, content)
  }

  /** The path a name stands for: what it was resolved to as an include, or itself. */
  ghost predicate StandsFor(st: State, name: string, path: string) {
    if name in st.found then path == st.found[name] else path == name
  }

  /** What `get_file` has to answer: the source of that name, else the source of the
      path the name stands for, else what the backend holds under that path, with a
      NUL behind it, as a new source. */
  ghost predicate IsFile(env: Environment, st: State, name: string, path: string, view: Option<View>) {
    if name in st.files then view == Some(st.files[name])
    else if path in st.files then view == Some(st.files[path])
    else match view
      case None => HoldsNothing(env, path)
      case Some(w) =>
        && w.sourceId == |st.sources| + 1
        && exists content :: Holds(env, path, content) && w.text == content + ['\0']
  }

  lemma GetFileShows(env: Environment, st: State, name: string, path: string)
    requires StandsFor(st, name, path)
    ensures IsFile(env, st, name, path, GetFile(env, st, name).1)
  {
    hide Starts;
    if name !in st.files && path !in st.files && env.ReadFile(path).Some? {
      assert Holds(env, path, env.ReadFile(path).value);
    }
  }

  // Origins.

  /** The operation at `k` of the run brought this source in: a virtual file with
      that content, or a file read from the backend under the path that its name
      stood for at the time. */
  ghost predicate BroughtBy(env: Environment, ops: seq<Operation>, k: int, source: Source) {
    0 <= k < |ops| && match ops[k]
      case AddVirtualFileOp(name, content) => name == source.fileName && source.text == content + ['\0']
      case GetFileOp(name) => name == source.fileName && ReadBy(env, After(env, EMPTY, ops[..k]), source)
      case FindIncludeFileOp(_, _, _) => false
  }

  ghost predicate ReadBy(env: Environment, st: State, source: Source) {
    exists path, content :: StandsFor(st, source.fileName, path) && Holds(env, path, content) &&
      source.text == content + ['\0']
  }

  lemma {:induction false} AfterLast(env: Environment, st: State, ops: seq<Operation>, op: Operation)
    ensures After(env, st, ops + [op]) == Step(env, After(env, st, ops), op)
    decreases |ops|
  {
    if ops == [] {
      AfterOne(env, st, op, []);
      assert ops + [op] == [op];
    } else {
      assert (ops + [op])[1..] == ops[1..] + [op];
      AfterLast(env, Step(env, st, ops[0]), ops[1..], op);
    }
  }

  /** One operation adds at most one source, which is what that operation brought. */
  lemma StepBrings(env: Environment, st: State, op: Operation, i: nat)
    requires |st.sources| <= i < |Step(env, st, op).sources|
    ensures i == |st.sources|
    ensures var source := Step(env, st, op).sources[i];
      match op
      case AddVirtualFileOp(name, content) => name == source.fileName && source.text == content + ['\0']
      case GetFileOp(name) => name == source.fileName && ReadBy(env, st, source)
      case FindIncludeFileOp(_, _, _) => false
  {
    hide Starts;
    var source := Step(env, st, op).sources[i];
    match op
    case GetFileOp(name) =>
      var path := PathOf(st, name);
      assert StandsFor(st, name, path) && Holds(env, path, env.ReadFile(path).value);
    case AddVirtualFileOp(_, _) =>
    case FindIncludeFileOp(_, _, _) =>
      assert false;
  }

  lemma StepKeepsSources(env: Environment, st: State, op: Operation)
    ensures st.sources <= Step(env, st, op).sources
  {
    hide Starts, FirstReadable, Directories;
  }

  /** In every run from the empty manager each source has its origin. */
  lemma {:induction false} EverySourceBrought(env: Environment, ops: seq<Operation>, i: nat) returns (k: nat)
    requires i < |After(env, EMPTY, ops).sources|
    ensures BroughtBy(env, ops, k, After(env, EMPTY, ops).sources[i])
    decreases |ops|
  {
    var init, op := ops[..|ops| - 1], ops[|ops| - 1];
    var st := After(env, EMPTY, init);
    assert ops == init + [op];
    AfterLast(env, EMPTY, init, op);
    hide After, Step;
    StepKeepsSources(env, st, op);
    if i < |st.sources| {
      k := EverySourceBrought(env, init, i);
      assert init[..k] == ops[..k];
    } else {
      StepBrings(env, st, op, i);
      k := |init|;
      assert ops[..k] == init;
    }
  }

  // Includes.

  /** The directory offers the include at that path. */
  ghost predicate OfferedAt(env: Environment, st: State, dir: string, includePath: string, path: string) {
    && path == (if dir == "." || dir == "" then includePath else env.join(dir, includePath))
    && (path in st.files || !HoldsNothing(env, path))
  }

  /** The directory of a program, or of what it was resolved to as an include itself. */
  ghost predicate DirectoryOf(env: Environment, st: State, program: string, dir: string) {
    exists path :: StandsFor(st, program, path) &&
      dir == if env.parentDirectory(path) == "" then "." else env.parentDirectory(path)
  }

  ghost predicate OfferedByProgram(
    env: Environment, st: State, includePath: string, program: Option<string>, path: string)
  {
    program.Some? &&
    exists dir :: DirectoryOf(env, st, program.value, dir) && OfferedAt(env, st, dir, includePath, path)
  }

  ghost predicate OfferedBySearchPath(
    env: Environment, st: State, includePath: string, searchPaths: seq<string>, i: int, path: string)
  {
    && 0 <= i < |searchPaths| && OfferedAt(env, st, searchPaths[i], includePath, path)
    && forall j, other :: 0 <= j < i ==> !OfferedAt(env, st, searchPaths[j], includePath, other)
  }

  /** What `find_include_file` has to answer: what is known, the include itself if it
      is a source, its canonical form if absolute; else what the directory of the
      program offers, whatever the search paths hold; else what the first search
      path offers that offers anything; else nothing. */
  ghost predicate IsInclude(
    env: Environment, st: State, includePath: string, searchPaths: seq<string>, program: Option<string>,
    r: Option<string>)
  {
    if includePath in st.found then r == Some(st.found[includePath])
    else if includePath in st.files then r == Some(includePath)
    else if env.isAbsolute(includePath) then r == env.canonical(includePath)
    else IsSearched(env, st, includePath, searchPaths, program, r)
  }

  ghost predicate IsSearched(
    env: Environment, st: State, includePath: string, searchPaths: seq<string>, program: Option<string>,
    r: Option<string>)
  {
    if exists path :: OfferedByProgram(env, st, includePath, program, path) then
      r.Some? && OfferedByProgram(env, st, includePath, program, r.value)
    else if r.Some? then exists i :: OfferedBySearchPath(env, st, includePath, searchPaths, i, r.value)
    else forall i, path :: 0 <= i < |searchPaths| ==> !OfferedAt(env, st, searchPaths[i], includePath, path)
  }

  lemma ReadableIsOffered(env: Environment, st: State, dir: string, includePath: string)
    ensures var path := Candidate(env, dir, includePath);
      && (Readable(env, st, path) <==> OfferedAt(env, st, dir, includePath, path))
      && forall other :: OfferedAt(env, st, dir, includePath, other) ==> other == path
  {
    var path := Candidate(env, dir, includePath);
    if env.Exists(path) {
      assert Holds(env, path, env.ReadFile(path).value);
    }
  }

  lemma {:induction false} FirstOfSearchPaths(
    env: Environment, st: State, searchPaths: seq<string>, includePath: string)
    ensures var r := FirstReadable(env, st, searchPaths, includePath);
      if r.Some? then exists i :: OfferedBySearchPath(env, st, includePath, searchPaths, i, r.value)
      else forall i, path :: 0 <= i < |searchPaths| ==> !OfferedAt(env, st, searchPaths[i], includePath, path)
  {
    if searchPaths == [] {
      return;
    }
    var dir, rest := searchPaths[0], searchPaths[1..];
    ReadableIsOffered(env, st, dir, includePath);
    FirstOfSearchPaths(env, st, rest, includePath);
    var path := Candidate(env, dir, includePath);
    if Readable(env, st, path) {
      assert OfferedBySearchPath(env, st, includePath, searchPaths, 0, path);
      return;
    }
    hide OfferedAt, Readable, OfferedBySearchPath;
    var found := FirstReadable(env, st, rest, includePath);
    if found.None? {
      assert forall j :: 0 < j < |searchPaths| ==> searchPaths[j] == rest[j - 1];
      return;
    }
    var i :| OfferedBySearchPath(env, st, includePath, rest, i, found.value);
    OfferedLater(env, st, includePath, searchPaths, i, found.value);
  }

  lemma OfferedLater(
    env: Environment, st: State, includePath: string, searchPaths: seq<string>, i: int, path: string)
    requires searchPaths != [] && OfferedBySearchPath(env, st, includePath, searchPaths[1..], i, path)
    requires forall other :: !OfferedAt(env, st, searchPaths[0], includePath, other)
    ensures OfferedBySearchPath(env, st, includePath, searchPaths, i + 1, path)
  {
    hide OfferedAt;
    var rest := searchPaths[1..];
    assert searchPaths[i + 1] == rest[i];
    forall j, other | 0 <= j < i + 1 ensures !OfferedAt(env, st, searchPaths[j], includePath, other) {
      assert j > 0 ==> searchPaths[j] == rest[j - 1];
    }
  }

  lemma OwnDirectory(env: Environment, st: State, program: string, dir: string)
    requires var parent := env.parentDirectory(PathOf(st, program)); dir == if parent == "" then "." else parent
    ensures forall other :: DirectoryOf(env, st, program, other) <==> other == dir
  {
    assert StandsFor(st, program, PathOf(st, program));
  }

  /** Every answer is what it has to be. */
  lemma IncludeIsFound(
    env: Environment, st: State, includePath: string, searchPaths: seq<string>, program: Option<string>)
    ensures IsInclude(env, st, includePath, searchPaths, program,
      FindIncludeFile(env, st, includePath, searchPaths, program).1)
  {
    hide IsSearched, FirstReadable, Directories;
    IncludeIsSearched(env, st, includePath, searchPaths, program);
  }

  lemma IncludeIsSearched(
    env: Environment, st: State, includePath: string, searchPaths: seq<string>, program: Option<string>)
    ensures IsSearched(env, st, includePath, searchPaths, program,
      FirstReadable(env, st, Directories(env, st, searchPaths, program), includePath))
  {
    FirstOfSearchPaths(env, st, searchPaths, includePath);
    if program.None? {
      assert Directories(env, st, searchPaths, program) == searchPaths;
      return;
    }
    var parent := env.parentDirectory(PathOf(st, program.value));
    var dir := if parent == "" then "." else parent;
    var dirs := Directories(env, st, searchPaths, program);
    assert dirs == [dir] + searchPaths && dirs[1..] == searchPaths;
    OwnDirectory(env, st, program.value, dir);
    ReadableIsOffered(env, st, dir, includePath);
    hide OfferedAt, Readable, DirectoryOf;
    var path := Candidate(env, dir, includePath);
    if Readable(env, st, path) {
      assert OfferedByProgram(env, st, includePath, program, path);
    }
  }
}
