/** What the cache of sources and of resolved includes holds after each operation
    (thrift/compiler/source_location.cc and source_location.h), and what every run keeps.

    Files, directories and path arithmetic are outside the model: an
    environment gives their answers, the same ones throughout a run. */
module SourceCache {
  import opened Wrappers
  import opened SourceText

  /** `readFile` is the backend, which is absent when only virtual files can be
      read; it `exists` on a path exactly when it can read it. */
  datatype Environment = Environment(
    readFile: Option<string -> Option<string>>,
    isAbsolute: string -> bool,
    canonical: string -> Option<string>,
    parentDirectory: string -> string,
    join: (string, string) -> string)
  {
    function ReadFile(path: string): Option<string> {
      if readFile.None? then None else readFile.value(path)
    }

    predicate Exists(path: string) {
      ReadFile(path).Some?
    }
  }

  datatype Source = Source(fileName: string, text: string, lineOffsets: seq<nat>)

  /** A view starts at a source id, counted from one, and shows the whole text. */
  datatype View = View(sourceId: nat, text: string)

  datatype State = State(sources: seq<Source>, files: map<string, View>, found: map<string, string>)

  const EMPTY := State([], map[], map[])

  /** The text handed to `add_source`: the content with a NUL behind it. */
  function Terminated(content: string): string {
    content + ['\0']
  }

  ghost function AddSource(st: State, name: string, content: string): State {
    var text := Terminated(content);
    st.(sources := st.sources + [Source(name, text, Starts(text, |content|))],
        files := st.files[name := View(|st.sources| + 1, text)])
  }

  /** Where `get_file` looks for a name that is not itself a key. */
  function PathOf(st: State, name: string): string {
    if name in st.found then st.found[name] else name
  }

  ghost function GetFile(env: Environment, st: State, name: string): (State, Option<View>) {
    var path := PathOf(st, name);
    if name in st.files then (st, Some(st.files[name]))
    else if path in st.files then (st, Some(st.files[path]))
    else if env.ReadFile(path).None? then (st, None)
    else
      var st' := AddSource(st, name, env.ReadFile(path).value);
      (st', Some(st'.files[name]))
  }

  /** No answer stands for the exception thrown on a name already present. */
  ghost function AddVirtualFile(st: State, name: string, content: string): (State, Option<View>) {
    if name in st.files then (st, None) else
      var st' := AddSource(st, name, content);
      (st', Some(st'.files[name]))
  }

  /** `get_file` on this path would succeed. */
  predicate Readable(env: Environment, st: State, path: string) {
    path in st.files || env.Exists(path)
  }

  function Candidate(env: Environment, searchPath: string, includePath: string): string {
    if searchPath == "." || searchPath == "" then includePath else env.join(searchPath, includePath)
  }

  /** The directories tried for a relative include, in order: the including
      program's own, then the search paths. */
  function Directories(env: Environment, st: State, searchPaths: seq<string>, program: Option<string>): seq<string> {
    (if program.None? then [] else
       var parent := env.parentDirectory(PathOf(st, program.value));
       [if parent == "" then "." else parent])
    + searchPaths
  }

  /** The first directory under which the include can be read. */
  function FirstReadable(env: Environment, st: State, dirs: seq<string>, includePath: string): (r: Option<string>)
    ensures r.Some? ==> Readable(env, st, r.value)
  {
    if dirs == [] then None
    else if Readable(env, st, Candidate(env, dirs[0], includePath)) then Some(Candidate(env, dirs[0], includePath))
    else FirstReadable(env, st, dirs[1..], includePath)
  }

  lemma TryFirst(env: Environment, st: State, dirs: seq<string>, includePath: string)
    requires dirs != []
    ensures FirstReadable(env, st, dirs, includePath) ==
      var r := FirstReadable(env, st, [dirs[0]], includePath);
      if r.Some? then r else FirstReadable(env, st, dirs[1..], includePath)
  {}

  /** What a search that consults no earlier answer for the include finds. */
  function Located(
    env: Environment, st: State, includePath: string, searchPaths: seq<string>, program: Option<string>)
    : Option<string>
  {
    if includePath in st.files then Some(includePath)
    else if env.isAbsolute(includePath) then env.canonical(includePath)
    else FirstReadable(env, st, Directories(env, st, searchPaths, program), includePath)
  }

  ghost function FindIncludeFile(
    env: Environment, st: State, includePath: string, searchPaths: seq<string>, program: Option<string>)
    : (State, Option<string>)
  {
    if includePath in st.found then (st, Some(st.found[includePath]))
    else
      var path := Located(env, st, includePath, searchPaths, program);
      if path.None? then (st, None) else (st.(found := st.found[includePath := path.value]), path)
  }

  datatype Operation =
    | GetFileOp(name: string)
    | AddVirtualFileOp(name: string, content: string)
    | FindIncludeFileOp(includePath: string, searchPaths: seq<string>, program: Option<string>)

  ghost function Step(env: Environment, st: State, op: Operation): State {
    match op
    case GetFileOp(n) => GetFile(env, st, n).0
    case AddVirtualFileOp(n, c) => AddVirtualFile(st, n, c).0
    case FindIncludeFileOp(i, s, p) => FindIncludeFile(env, st, i, s, p).0
  }

  ghost function After(env: Environment, st: State, ops: seq<Operation>): State
    decreases |ops|
  {
    if ops == [] then st else After(env, Step(env, st, ops[0]), ops[1..])
  }

  /** File names and source ids are in bijection and each view shows its source. */
  ghost predicate Bijective(st: State) {
    && (forall i :: 0 <= i < |st.sources| ==>
      && st.sources[i].fileName in st.files
      && st.files[st.sources[i].fileName] == View(i + 1, st.sources[i].text))
    && st.files.Keys == set source | source in st.sources :: source.fileName
  }

  /** Every source ends in NUL and has its line offsets. */
  ghost predicate Indexed(st: State) {
    forall i :: 0 <= i < |st.sources| ==>
      var t := st.sources[i].text;
      t != "" && t[|t| - 1] == '\0' && st.sources[i].lineOffsets == Starts(t, |t| - 1)
  }

  /** What was found for a relative include can be read. */
  ghost predicate FoundReadable(env: Environment, st: State) {
    forall p :: p in st.found && !env.isAbsolute(p) ==> Readable(env, st, st.found[p])
  }

  ghost predicate Consistent(env: Environment, st: State) {
    Bijective(st) && Indexed(st) && FoundReadable(env, st)
  }

  /** Sources, cached files and resolved includes are added to, never changed. */
  ghost predicate Grown(st: State, st': State) {
    && st.sources <= st'.sources
    && (forall n :: n in st.files ==> n in st'.files && st'.files[n] == st.files[n])
    && forall p :: p in st.found ==> p in st'.found && st'.found[p] == st.found[p]
  }

  lemma GrownItself(st: State)
    ensures Grown(st, st)
  {}

  lemma AddSourceKeeps(env: Environment, st: State, name: string, content: string)
    requires Consistent(env, st) && name !in st.files
    ensures Consistent(env, AddSource(st, name, content)) && Grown(st, AddSource(st, name, content))
  {
    BijectiveExtends(st, name, Terminated(content), Starts(Terminated(content), |content|));
    IndexedExtends(st, name, content);
  }

  lemma BijectiveExtends(st: State, name: string, text: string, offsets: seq<nat>)
    requires Bijective(st) && name !in st.files
    ensures Bijective(State(
      st.sources + [Source(name, text, offsets)], st.files[name := View(|st.sources| + 1, text)], st.found))
  {
    var added := Source(name, text, offsets);
    var sources := st.sources + [added];
    forall n ensures n in st.files || n == name <==> exists source :: source in sources && source.fileName == n {
      if n in st.files {
        var source :| source in st.sources && source.fileName == n;
        assert source in sources;
      } else if n == name {
        assert added in sources;
      }
    }
  }

  lemma IndexedExtends(st: State, name: string, content: string)
    requires Indexed(st)
    ensures Indexed(AddSource(st, name, content))
  {
    assert |Terminated(content)| - 1 == |content|;
  }

  lemma StepKeeps(env: Environment, st: State, op: Operation)
    requires Consistent(env, st)
    ensures Consistent(env, Step(env, st, op)) && Grown(st, Step(env, st, op))
  {
    hide Consistent, Grown, AddSource, FindIncludeFile;
    GrownItself(st);
    match op
    case GetFileOp(n) =>
      var path := PathOf(st, n);
      if n !in st.files && path !in st.files && env.ReadFile(path).Some? {
        AddSourceKeeps(env, st, n, env.ReadFile(path).value);
      }
    case AddVirtualFileOp(n, c) =>
      if n !in st.files {
        AddSourceKeeps(env, st, n, c);
      }
    case FindIncludeFileOp(i, s, p) => FindIncludeKeeps(env, st, i, s, p);
  }

  lemma FindIncludeKeeps(
    env: Environment, st: State, includePath: string, searchPaths: seq<string>, program: Option<string>)
    requires Consistent(env, st)
    ensures var st' := FindIncludeFile(env, st, includePath, searchPaths, program).0;
      var path := FindIncludeFile(env, st, includePath, searchPaths, program).1;
      && Consistent(env, st') && Grown(st, st')
      && (path.Some? ==> includePath in st'.found && st'.found[includePath] == path.value)
      && (path.Some? && !env.isAbsolute(includePath) ==> Readable(env, st', path.value))
  {
    var st' := FindIncludeFile(env, st, includePath, searchPaths, program).0;
    assert st'.sources == st.sources && st'.files == st.files;
    hide Bijective, FirstReadable, Directories;
  }

  /** A view taken from the map refers to a source that is there. */
  lemma ViewRefersToSource(st: State, name: string)
    requires Bijective(st) && name in st.files
    ensures 1 <= st.files[name].sourceId <= |st.sources|
    ensures st.sources[st.files[name].sourceId - 1].fileName == name
    ensures st.sources[st.files[name].sourceId - 1].text == st.files[name].text
  {
    var source :| source in st.sources && source.fileName == name;
    var i :| 0 <= i < |st.sources| && st.sources[i] == source;
  }

  ghost predicate RefersToSource(st: State, view: View) {
    1 <= view.sourceId <= |st.sources| && st.sources[view.sourceId - 1].text == view.text
  }

  lemma ViewIsCached(env: Environment, st: State, name: string)
    ensures var (st', view) := GetFile(env, st, name);
      && (view.Some? <==> name in st.files || Readable(env, st, PathOf(st, name)))
      && (view.Some? ==>
        var key := if name in st'.files then name else PathOf(st, name);
        key in st'.files && view.value == st'.files[key])
  {
    hide Starts;
  }

  /** What `get_file` promises: it succeeds exactly on a cached name or a readable
      path, and the view it gives shows a source. */
  lemma GetFileKeeps(env: Environment, st: State, name: string)
    requires Consistent(env, st)
    ensures var (st', view) := GetFile(env, st, name);
      && Consistent(env, st') && Grown(st, st')
      && (view.Some? <==> name in st.files || Readable(env, st, PathOf(st, name)))
      && (view.Some? ==> RefersToSource(st', view.value))
  {
    var (st', view) := GetFile(env, st, name);
    StepKeeps(env, st, GetFileOp(name));
    ViewIsCached(env, st, name);
    hide Bijective, Indexed, FoundReadable, Grown, GetFile;
    if view.Some? {
      var key := if name in st'.files then name else PathOf(st, name);
      assert key in st'.files && view.value == st'.files[key];
      ViewRefersToSource(st', key);
    }
  }

  lemma AddVirtualFileKeeps(env: Environment, st: State, name: string, content: string)
    requires Consistent(env, st)
    ensures var (st', view) := AddVirtualFile(st, name, content);
      && Consistent(env, st') && Grown(st, st')
      && (view.Some? <==> name !in st.files)
      && (view.Some? ==> RefersToSource(st', view.value) && view.value.text == Terminated(content))
  {
    var (st', view) := AddVirtualFile(st, name, content);
    StepKeeps(env, st, AddVirtualFileOp(name, content));
    if view.Some? {
      ViewRefersToSource(st', name);
    }
  }

  /** Over every run the caches stay consistent and only grow. */
  lemma {:induction false} RunKeeps(env: Environment, st: State, ops: seq<Operation>)
    requires Consistent(env, st)
    ensures Consistent(env, After(env, st, ops)) && Grown(st, After(env, st, ops))
    decreases |ops|
  {
    if ops != [] {
      StepKeeps(env, st, ops[0]);
      RunKeeps(env, Step(env, st, ops[0]), ops[1..]);
    }
  }

  /** Once a relative include has been found, every later `get_file` on it
      succeeds, whatever happens in between. */
  lemma FoundIncludeStaysReadable(
    env: Environment, st: State, includePath: string, searchPaths: seq<string>, program: Option<string>,
    ops: seq<Operation>)
    requires Consistent(env, st) && !env.isAbsolute(includePath)
    requires FindIncludeFile(env, st, includePath, searchPaths, program).1.Some?
    ensures var st' := FindIncludeFile(env, st, includePath, searchPaths, program).0;
      GetFile(env, After(env, st', ops), includePath).1.Some?
  {
    var st' := FindIncludeFile(env, st, includePath, searchPaths, program).0;
    hide Consistent, GetFile, After;
    StepKeeps(env, st, FindIncludeFileOp(includePath, searchPaths, program));
    assert includePath in st'.found;
    RunKeeps(env, st', ops);
    FoundCanBeRead(env, After(env, st', ops), includePath);
  }

  lemma FoundCanBeRead(env: Environment, st: State, includePath: string)
    requires Consistent(env, st) && includePath in st.found && !env.isAbsolute(includePath)
    ensures GetFile(env, st, includePath).1.Some?
  {
    hide Bijective, Indexed, AddSource;
  }

  /** The answer of a successful `get_file` is the same after every further run
      exactly when the name is a key already or its path is not yet one. An answer
      found under the path of a resolved include can still be displaced by a
      virtual file of that name. */
  lemma AnswerIsFinalIff(env: Environment, st: State, name: string)
    requires Consistent(env, st) && GetFile(env, st, name).1.Some?
    ensures var (st', answer) := GetFile(env, st, name);
      (forall ops :: GetFile(env, After(env, st', ops), name).1 == answer) <==>
        name in st.files || PathOf(st, name) !in st.files
  {
    var (st', answer) := GetFile(env, st, name);
    StepKeeps(env, st, GetFileOp(name));
    if name in st'.files {
      forall ops ensures GetFile(env, After(env, st', ops), name).1 == answer {
        RunKeeps(env, st', ops);
      }
    } else {
      var ops := [AddVirtualFileOp(name, "")];
      assert After(env, st', ops) == AddVirtualFile(st', name, "").0 by {
        assert ops[1..] == [];
        assert After(env, Step(env, st', ops[0]), []) == Step(env, st', ops[0]);
      }
      assert GetFile(env, After(env, st', ops), name).1 == Some(View(|st'.sources| + 1, Terminated("")));
      ViewRefersToSource(st', PathOf(st, name));
    }
  }

  /** A run from the start that ends in a displaced answer: `a` is found as `d/a`,
      read, and then added as a virtual file of its own. */
  lemma AnswerDisplaced(env: Environment)
    requires env.join("d", "a") == "d/a" && !env.isAbsolute("a")
    ensures var st := After(env, EMPTY, [AddVirtualFileOp("d/a", "old"), FindIncludeFileOp("a", ["d"], None)]);
      var st' := After(env, GetFile(env, st, "a").0, [AddVirtualFileOp("a", "new")]);
      && GetFile(env, st, "a").1 == Some(View(1, Terminated("old")))
      && GetFile(env, st', "a").1 == Some(View(2, Terminated("new")))
  {
    var first, second, third :=
      AddVirtualFileOp("d/a", "old"), FindIncludeFileOp("a", ["d"], None), AddVirtualFileOp("a", "new");
    hide Starts;
    var st1 := Step(env, EMPTY, first);
    AfterOne(env, EMPTY, first, [second]);
    AfterOne(env, st1, second, []);
    assert st1.files == map["d/a" := View(1, Terminated("old"))] && st1.found == map[];
    assert Directories(env, st1, ["d"], None) == ["d"];
    var st := Step(env, st1, second);
    assert st == st1.(found := map["a" := "d/a"]);
    assert GetFile(env, st, "a") == (st, Some(View(1, Terminated("old"))));
    AfterOne(env, st, third, []);
  }

  lemma AfterOne(env: Environment, st: State, op: Operation, ops: seq<Operation>)
    ensures After(env, st, [op] + ops) == After(env, Step(env, st, op), ops)
    ensures After(env, st, [op]) == Step(env, st, op)
  {
    assert ([op] + ops)[1..] == ops && [op][1..] == [];
    assert After(env, Step(env, st, op), []) == Step(env, st, op);
  }

  /** `path` is what the directory at `i` offers, and none before it offers anything. */
  ghost predicate OfferedFirst(
    env: Environment, st: State, dirs: seq<string>, includePath: string, path: string, i: int)
  {
    && 0 <= i < |dirs| && Candidate(env, dirs[i], includePath) == path
    && forall j :: 0 <= j < i ==> !Readable(env, st, Candidate(env, dirs[j], includePath))
  }

  lemma {:induction false} FirstReadableIff(
    env: Environment, st: State, dirs: seq<string>, includePath: string, path: string)
    ensures FirstReadable(env, st, dirs, includePath) == Some(path) <==>
      Readable(env, st, path) && exists i :: OfferedFirst(env, st, dirs, includePath, path, i)
  {
    if dirs == [] {
      return;
    }
    var rest := dirs[1..];
    FirstReadableIff(env, st, rest, includePath, path);
    if Readable(env, st, Candidate(env, dirs[0], includePath)) {
      if Candidate(env, dirs[0], includePath) == path {
        assert OfferedFirst(env, st, dirs, includePath, path, 0);
      }
    } else {
      if i :| OfferedFirst(env, st, rest, includePath, path, i) {
        assert OfferedFirst(env, st, dirs, includePath, path, i + 1);
      }
      if i :| OfferedFirst(env, st, dirs, includePath, path, i) && Readable(env, st, path) {
        assert forall j :: 0 <= j < i - 1 ==> rest[j] == dirs[j + 1];
        assert OfferedFirst(env, st, rest, includePath, path, i - 1);
      }
    }
  }

  /** A resolved relative include is answered from the cache whoever asks. A search
      on behalf of this program and these search paths would answer the same exactly
      when the cached path is the first they offer; if the include has become a
      source itself, exactly when it was resolved to itself. */
  lemma CachedIncludeIsFreshIff(
    env: Environment, st: State, includePath: string, searchPaths: seq<string>, program: Option<string>)
    requires Consistent(env, st) && includePath in st.found && !env.isAbsolute(includePath)
    ensures var dirs := Directories(env, st, searchPaths, program);
      var cached := FindIncludeFile(env, st, includePath, searchPaths, program).1;
      cached == Located(env, st, includePath, searchPaths, program)
      <==> if includePath in st.files then st.found[includePath] == includePath
           else exists i :: OfferedFirst(env, st, dirs, includePath, st.found[includePath], i)
  {
    hide Bijective, Indexed, Directories, FirstReadable;
    var dirs := Directories(env, st, searchPaths, program);
    assert Readable(env, st, st.found[includePath]);
    FirstReadableIff(env, st, dirs, includePath, st.found[includePath]);
  }

  /** Two programs that mean different files by one include get the same one: the
      second run of searches is on behalf of a program that sees only `e`. */
  lemma SecondProgramMisled(env: Environment)
    requires !env.isAbsolute("a") && env.join("d", "a") == "d/a" && env.join("e", "a") == "e/a"
    ensures var st := After(env, EMPTY,
        [AddVirtualFileOp("d/a", "x"), AddVirtualFileOp("e/a", "y"), FindIncludeFileOp("a", ["d"], None)]);
      && FindIncludeFile(env, st, "a", ["e"], None).1 == Some("d/a")
      && Located(env, st, "a", ["e"], None) == Some("e/a")
  {
    var first, second, third :=
      AddVirtualFileOp("d/a", "x"), AddVirtualFileOp("e/a", "y"), FindIncludeFileOp("a", ["d"], None);
    hide Starts;
    var st1 := Step(env, EMPTY, first);
    var st2 := Step(env, st1, second);
    AfterOne(env, EMPTY, first, [second, third]);
    AfterOne(env, st1, second, [third]);
    AfterOne(env, st2, third, []);
    assert [first] + [second, third] == [first, second, third] && [second] + [third] == [second, third];
    assert st2.files.Keys == {"d/a", "e/a"} && st2.found == map[];
    assert Directories(env, st2, ["d"], None) == ["d"];
    var st := Step(env, st2, third);
    assert st.found == map["a" := "d/a"] && st.files == st2.files;
    assert Directories(env, st, ["e"], None) == ["e"];
  }
}
