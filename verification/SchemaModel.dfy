/** The parts of a schema and what it has to say
    (thrift/compiler/generate/t_ast_generator.cc). */
module SchemaModel {
  import opened Programs
  import opened IncludeGraph

  datatype Kind = Service | Interaction | Struct | Union | Exception | Typedef | Enum | Const

  /** A definition node; `key` is what the schematizer's `identify_definition` answers for it. */
  datatype Definition = Definition(address: nat, owner: Program, kind: Kind, generated: bool, key: string)

  datatype World = World(graph: Graph, definitions: map<Program, seq<Definition>>, includeGenerated: bool) {
    ghost predicate Valid() {
      && graph.Valid()
      && definitions.Keys == graph.includes.Keys
      && (forall p, i :: p in definitions && 0 <= i < |definitions[p]| ==> definitions[p][i].owner == p)
      && forall p :: p in definitions ==> NoRepeats(definitions[p])
    }

    predicate Keeps(d: Definition) {
      !d.generated || includeGenerated
    }

    ghost predicate Kept(d: Definition) {
      d.owner in definitions && d in definitions[d.owner] && Keeps(d)
    }

    /** The definitions that `populate_defs` lists for a program, in declaration order. */
    function KeptOf(defs: seq<Definition>): seq<Definition> {
      if defs == [] then [] else (if Keeps(defs[0]) then [defs[0]] else []) + KeptOf(defs[1..])
    }
  }

  lemma KeptOfEmpty(w: World)
    ensures w.KeptOf([]) == []
  {}

  lemma {:induction false} KeptOfAppend(w: World, defs: seq<Definition>, d: Definition)
    ensures w.KeptOf(defs + [d]) == w.KeptOf(defs) + if w.Keeps(d) then [d] else []
  {
    if defs != [] {
      assert (defs + [d])[1..] == defs[1..] + [d];
      KeptOfAppend(w, defs[1..], d);
    }
  }

  datatype ProgramEntry = ProgramEntry(
    source: Program, id: int, includes: seq<int>, definitions: seq<int>, definitionKeys: seq<string>)

  ghost function Sources(programs: seq<ProgramEntry>): set<Program> {
    set e | e in programs :: e.source
  }

  lemma SourcesAppend(programs: seq<ProgramEntry>, e: ProgramEntry)
    ensures Sources(programs + [e]) == Sources(programs) + {e.source}
  {}

  lemma SourcesUpdate(programs: seq<ProgramEntry>, pos: nat, e: ProgramEntry)
    requires pos < |programs| && e.source == programs[pos].source
    ensures Sources(programs[pos := e]) == Sources(programs)
  {
    var programs' := programs[pos := e];
    forall p | p in Sources(programs) ensures p in Sources(programs') {
      var i :| 0 <= i < |programs| && programs[i].source == p;
      assert programs'[i] in programs';
    }
    forall p | p in Sources(programs') ensures p in Sources(programs) {
      var i :| 0 <= i < |programs'| && programs'[i].source == p;
      assert programs[i] in programs;
    }
  }

  ghost predicate Clash(w: World, d: Definition, e: Definition) {
    w.Kept(d) && w.Kept(e) && d != e && d.key == e.key
  }

  /** Some two kept definitions of the given programs share a key. */
  ghost predicate KeysClash(w: World, among: set<Program>) {
    exists d, e :: Clash(w, d, e) && d.owner in among && e.owner in among
  }

  lemma ClashStays(w: World, among: set<Program>, wider: set<Program>)
    requires KeysClash(w, among) && among <= wider
    ensures KeysClash(w, wider)
  {}

  /** What the finished schema says, without reference to the indexes that built it. */
  ghost predicate Describes(w: World, root: Program, programs: seq<ProgramEntry>, definitions: seq<Definition>)
    requires w.Valid()
  {
    // Programs: one entry each, numbered by position, the root first.
    && programs != [] && programs[0].source == root
    && (forall i :: 0 <= i < |programs| ==> programs[i].id == i + 1)
    && (forall i, j :: 0 <= i < j < |programs| ==> programs[i].source != programs[j].source)
    && Sources(programs) == Reachable(w.graph, root)
    // Definitions: exactly the kept ones of those programs, one entry each.
    && NoRepeats(definitions)
    && (forall d :: d in definitions <==> w.Kept(d) && d.owner in Reachable(w.graph, root))
    && forall i :: 0 <= i < |programs| ==> EntryDescribes(w, programs, definitions, programs[i])
  }

  /** The definitions written in the file, in declaration order. */
  function Written(defs: seq<Definition>): seq<Definition> {
    if defs == [] then [] else (if defs[0].generated then [] else [defs[0]]) + Written(defs[1..])
  }

  ghost predicate DeclaredIn(w: World, d: Definition, among: set<Program>) {
    d.owner in among && d.owner in w.definitions && d in w.definitions[d.owner]
  }

  /** What the option decides: with it, the schema holds every definition of the given
      programs and each entry lists the whole declaration list; without it, only what is
      written in the files is held and listed. */
  ghost predicate HoldsAsChosen(
    w: World, among: set<Program>, programs: seq<ProgramEntry>, definitions: seq<Definition>)
  {
    if w.includeGenerated then
      && (forall d :: d in definitions <==> DeclaredIn(w, d, among))
      && forall e :: e in programs ==>
        e.source in w.definitions && PointsAtDefinitions(definitions, e.definitions, w.definitions[e.source])
    else
      && (forall d :: d in definitions <==> DeclaredIn(w, d, among) && !d.generated)
      && forall e :: e in programs ==>
        e.source in w.definitions && PointsAtDefinitions(definitions, e.definitions, Written(w.definitions[e.source]))
  }

  /** Two different definitions of the given programs share a key, generated ones
      counting only with the option. */
  ghost predicate ClashAsChosen(w: World, among: set<Program>) {
    exists d, e :: DeclaredIn(w, d, among) && DeclaredIn(w, e, among) && d != e && d.key == e.key &&
      (w.includeGenerated || (!d.generated && !e.generated))
  }

  /** The ids lead to all definitions declared or, without the option, to those written. */
  ghost predicate ListedAsChosen(w: World, definitions: seq<Definition>, declared: seq<Definition>, ids: seq<int>) {
    if w.includeGenerated then PointsAtDefinitions(definitions, ids, declared)
    else PointsAtDefinitions(definitions, ids, Written(declared))
  }

  lemma {:induction false} KeptAsChosen(w: World, defs: seq<Definition>)
    ensures w.KeptOf(defs) == if w.includeGenerated then defs else Written(defs)
  {
    if defs != [] {
      KeptAsChosen(w, defs[1..]);
      assert defs == [defs[0]] + defs[1..];
    }
  }

  lemma DescribedAsChosen(w: World, root: Program, programs: seq<ProgramEntry>, definitions: seq<Definition>)
    requires w.Valid() && Describes(w, root, programs, definitions)
    ensures HoldsAsChosen(w, Reachable(w.graph, root), programs, definitions)
  {
    hide Reachable, World.KeptOf, Written, PointsAtDefinitions;
    forall e | e in programs
      ensures e.source in w.definitions && PointsAtDefinitions(definitions, e.definitions,
        if w.includeGenerated then w.definitions[e.source] else Written(w.definitions[e.source]))
    {
      var i :| 0 <= i < |programs| && programs[i] == e;
      assert EntryDescribes(w, programs, definitions, e);
      KeptAsChosen(w, w.definitions[e.source]);
    }
  }

  lemma ClashesAsChosen(w: World, among: set<Program>)
    ensures KeysClash(w, among) <==> ClashAsChosen(w, among)
  {
    if KeysClash(w, among) {
      var d, e :| Clash(w, d, e) && d.owner in among && e.owner in among;
      assert DeclaredIn(w, d, among) && DeclaredIn(w, e, among);
    }
    if ClashAsChosen(w, among) {
      var d, e :| DeclaredIn(w, d, among) && DeclaredIn(w, e, among) && d != e && d.key == e.key &&
        (w.includeGenerated || (!d.generated && !e.generated));
      assert Clash(w, d, e);
    }
  }

  /** Following each id of an entry leads to the right program or definition, in source order. */
  ghost predicate EntryDescribes(
    w: World, programs: seq<ProgramEntry>, definitions: seq<Definition>, e: ProgramEntry)
  {
    && e.source in w.graph.includes && e.source in w.definitions
    && PointsAtIncludes(programs, e.includes, w.graph.includes[e.source])
    && PointsAtDefinitions(definitions, e.definitions, w.KeptOf(w.definitions[e.source]))
    && KeysOf(e.definitionKeys, w.KeptOf(w.definitions[e.source]))
  }

  ghost predicate PointsAtIncludes(programs: seq<ProgramEntry>, ids: seq<int>, targets: seq<Program>) {
    |ids| == |targets| &&
    forall k :: 0 <= k < |ids| ==> 1 <= ids[k] <= |programs| && programs[ids[k] - 1].source == targets[k]
  }

  ghost predicate PointsAtDefinitions(definitions: seq<Definition>, ids: seq<int>, targets: seq<Definition>) {
    |ids| == |targets| &&
    forall k :: 0 <= k < |ids| ==> 1 <= ids[k] <= |definitions| && definitions[ids[k] - 1] == targets[k]
  }

  ghost predicate KeysOf(keys: seq<string>, targets: seq<Definition>) {
    |keys| == |targets| && forall k :: 0 <= k < |keys| ==> keys[k] == targets[k].key
  }
}
