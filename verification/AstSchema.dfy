/** The numbering of programs and definitions done by `gen_schema`
    (thrift/compiler/generate/t_ast_generator.cc), with `use_hash` off.

    One depth-first walk over the includes hands out program ids, the children
    of each program are then numbered kind by kind, and the declaration-order
    lists are filled in afterwards through the indexes built on the way. */
module AstSchema {
  import opened Programs
  import opened IncludeGraph
  import opened SchemaModel
  import opened SchemaOrder

  function PositionToId(pos: nat): int {
    pos + 1
  }

  /** Program ids are positions plus one, and every indexed program has its entry where its id says. */
  ghost predicate ProgramsNumbered(programs: seq<ProgramEntry>, index: map<Program, int>, posIndex: map<int, nat>) {
    && (forall i :: 0 <= i < |programs| ==>
      programs[i].id == i + 1 && programs[i].source in index && index[programs[i].source] == i + 1)
    && index.Keys == Sources(programs)
    && forall id :: 1 <= id <= |programs| ==> id in posIndex && posIndex[id] == id - 1
  }

  /** Ids are positions plus one, and every indexed definition sits where its id says. */
  ghost predicate Numbered(definitions: seq<Definition>, index: map<Definition, int>) {
    && (forall i :: 0 <= i < |definitions| ==> definitions[i] in index && index[definitions[i]] == i + 1)
    && index.Keys == set d | d in definitions
  }

  /** Both key tables hold exactly the indexed definitions, and no two share a key. */
  ghost predicate KeysIndexed(
    indexed: set<Definition>, keys: map<Definition, string>, byKey: map<string, Definition>)
  {
    && (forall d :: d in indexed ==> d in keys && keys[d] == d.key && d.key in byKey && byKey[d.key] == d)
    && forall k :: k in byKey ==> byKey[k] in indexed && byKey[k].key == k
  }

  /** The definition indexes and the definition list agree, both ways. */
  ghost predicate Indexed(
    w: World, definitions: seq<Definition>, index: map<Definition, int>,
    keys: map<Definition, string>, byKey: map<string, Definition>)
  {
    && Numbered(definitions, index)
    && KeysIndexed(index.Keys, keys, byKey)
    && forall d :: d in index ==> w.Kept(d)
  }

  lemma KeysLookup(
    w: World, definitions: seq<Definition>, index: map<Definition, int>,
    keys: map<Definition, string>, byKey: map<string, Definition>)
    requires Indexed(w, definitions, index, keys, byKey)
    ensures Numbered(definitions, index)
    ensures forall d :: d in index ==> d in keys && keys[d] == d.key
  {}

  /** Includes listed, the declaration-order lists still empty. */
  ghost predicate EntryWalked(w: World, programs: seq<ProgramEntry>, e: ProgramEntry) {
    && e.source in w.graph.includes
    && PointsAtIncludes(programs, e.includes, w.graph.includes[e.source])
    && e.definitions == [] && e.definitionKeys == []
  }

  /** The first `i` includes of the program are listed at its entry, and nothing else. */
  ghost predicate ListedUpTo(w: World, programs: seq<ProgramEntry>, pos: nat, p: Program, i: nat) {
    && pos < |programs| && programs[pos].source == p
    && programs[pos].definitions == [] && programs[pos].definitionKeys == []
    && p in w.graph.includes && i <= |w.graph.includes[p]|
    && PointsAtIncludes(programs, programs[pos].includes, w.graph.includes[p][..i])
  }

  /** The program got the entry after those in `before`, which are as they were. */
  ghost predicate Walked(w: World, before: seq<ProgramEntry>, after: seq<ProgramEntry>, p: Program) {
    && before < after
    && after[|before|].source == p && EntryWalked(w, after, after[|before|])
  }

  lemma WalkedFromEntry(
    w: World, before: seq<ProgramEntry>, entered: seq<ProgramEntry>, after: seq<ProgramEntry>, p: Program)
    requires |entered| == |before| + 1 && entered[..|before|] == before && Walked(w, entered[..|before|], after, p)
    ensures Walked(w, before, after, p)
  {}

  lemma NumberedLookup(definitions: seq<Definition>, index: map<Definition, int>, d: Definition)
    requires Numbered(definitions, index) && d in index
    ensures 1 <= index[d] <= |definitions| && definitions[index[d] - 1] == d
  {
    var i :| 0 <= i < |definitions| && definitions[i] == d;
  }

  lemma NumberedExtends(definitions: seq<Definition>, index: map<Definition, int>, d: Definition)
    requires Numbered(definitions, index) && d !in index
    ensures Numbered(definitions + [d], index[d := |definitions| + 1])
  {}

  /** Every entry is fully described, except those of `pending` programs. */
  ghost predicate Finished(
    w: World, programs: seq<ProgramEntry>, definitions: seq<Definition>, pending: set<Program>)
  {
    forall i :: 0 <= i < |programs| && programs[i].source !in pending ==>
      EntryDescribes(w, programs, definitions, programs[i])
  }

  /** Finished entries stay finished when entries and definitions are added and
      the entries of pending programs change. */
  lemma FinishedGrows(
    w: World, programs: seq<ProgramEntry>, definitions: seq<Definition>, pending: set<Program>,
    programs': seq<ProgramEntry>, definitions': seq<Definition>, pending': set<Program>)
    requires Finished(w, programs, definitions, pending)
    requires |programs| <= |programs'| && definitions <= definitions'
    requires forall i :: 0 <= i < |programs| ==> programs'[i].source == programs[i].source
    requires forall i :: 0 <= i < |programs| && programs[i].source !in pending ==> programs'[i] == programs[i]
    requires pending <= pending'
    requires forall i :: |programs| <= i < |programs'| ==> programs'[i].source in pending'
    ensures Finished(w, programs', definitions', pending')
  {
    forall i | 0 <= i < |programs'| && programs'[i].source !in pending'
      ensures EntryDescribes(w, programs', definitions', programs'[i])
    {
      assert EntryDescribes(w, programs, definitions, programs[i]);
    }
  }

  /** The indexed definitions are exactly the kept ones of the programs in `done`. */
  ghost predicate Covered(w: World, indexed: set<Definition>, done: set<Program>) {
    forall d :: d in indexed <==> w.Kept(d) && d.owner in done
  }

  ghost function KeptSet(w: World, defs: seq<Definition>): set<Definition> {
    set d | d in defs && w.Keeps(d)
  }

  lemma CoveredExtends(w: World, indexed: set<Definition>, done: set<Program>, p: Program)
    requires w.Valid() && Covered(w, indexed, done) && p in w.definitions && p !in done
    ensures Covered(w, indexed + KeptSet(w, w.definitions[p]), done + {p})
    ensures forall d :: d in w.definitions[p] ==> d !in indexed && (w.Keeps(d) ==> w.Kept(d))
  {
    forall d | d in w.definitions[p] ensures d.owner == p {
      var i :| 0 <= i < |w.definitions[p]| && w.definitions[p][i] == d;
    }
  }

  lemma KeptAreCovered(w: World, indexed: set<Definition>, done: set<Program>, p: Program)
    requires w.Valid() && Covered(w, indexed, done) && p in done && p in w.definitions
    ensures forall d :: d in w.definitions[p] && w.Keeps(d) ==> d in indexed
  {
    forall d | d in w.definitions[p] && w.Keeps(d) ensures d in indexed {
      var i :| 0 <= i < |w.definitions[p]| && w.definitions[p][i] == d;
    }
  }

  lemma EntryLookup(programs: seq<ProgramEntry>, index: map<Program, int>, posIndex: map<int, nat>, p: Program)
    requires ProgramsNumbered(programs, index, posIndex) && p in index
    ensures 1 <= index[p] <= |programs| && programs[index[p] - 1].source == p
    ensures index[p] in posIndex && posIndex[index[p]] == index[p] - 1
  {
    assert p in Sources(programs);
    var i :| 0 <= i < |programs| && programs[i].source == p;
  }

  lemma SameEntry(
    programs: seq<ProgramEntry>, index: map<Program, int>, posIndex: map<int, nat>, pos: nat, p: Program)
    requires ProgramsNumbered(programs, index, posIndex) && pos < |programs| && programs[pos].source == p
    ensures p in index && index[p] - 1 == pos
  {}

  lemma IncludePushed(
    programs: seq<ProgramEntry>, pos: nat, listed: seq<Program>, target: Program,
    index: map<Program, int>, posIndex: map<int, nat>)
    requires ProgramsNumbered(programs, index, posIndex) && target in index
    requires pos < |programs| && PointsAtIncludes(programs, programs[pos].includes, listed)
    ensures var ids := programs[pos].includes + [index[target]];
      PointsAtIncludes(programs[pos := programs[pos].(includes := ids)], ids, listed + [target])
  {
    EntryLookup(programs, index, posIndex, target);
  }

  lemma IncludesNumbered(
    w: World, programs: seq<ProgramEntry>, definitions: seq<Definition>,
    index: map<Program, int>, posIndex: map<int, nat>, p: Program, q: Program)
    requires ProgramsNumbered(programs, index, posIndex) && Finished(w, programs, definitions, {})
    requires p in index && p in w.graph.includes && q in w.graph.includes[p]
    ensures q in index
  {
    EntryLookup(programs, index, posIndex, p);
    var e := programs[index[p] - 1];
    assert PointsAtIncludes(programs, e.includes, w.graph.includes[p]);
    var k :| 0 <= k < |w.graph.includes[p]| && w.graph.includes[p][k] == q;
    assert programs[e.includes[k] - 1].source == q;
  }

  lemma KeysExtend(
    indexed: set<Definition>, keys: map<Definition, string>, byKey: map<string, Definition>, d: Definition)
    requires KeysIndexed(indexed, keys, byKey) && d !in indexed && d.key !in byKey
    ensures KeysIndexed(indexed + {d}, keys[d := d.key], byKey[d.key := d])
  {}

  lemma ProgramsNumberedExtends(
    programs: seq<ProgramEntry>, index: map<Program, int>, posIndex: map<int, nat>, e: ProgramEntry)
    requires ProgramsNumbered(programs, index, posIndex) && e.source !in index && e.id == |programs| + 1
    ensures ProgramsNumbered(programs + [e], index[e.source := e.id], posIndex[e.id := |programs|])
  {
    var programs' := programs + [e];
    SourcesAppend(programs, e);
    assert forall j :: 0 <= j < |programs| ==> programs'[j] == programs[j];
  }

  lemma NumberedUpdate(
    programs: seq<ProgramEntry>, index: map<Program, int>, posIndex: map<int, nat>, pos: nat, e: ProgramEntry)
    requires ProgramsNumbered(programs, index, posIndex)
    requires pos < |programs| && e.source == programs[pos].source && e.id == programs[pos].id
    ensures ProgramsNumbered(programs[pos := e], index, posIndex)
  {
    SourcesUpdate(programs, pos, e);
    var programs' := programs[pos := e];
    assert forall j :: 0 <= j < |programs| ==>
      programs'[j].source == programs[j].source && programs'[j].id == programs[j].id;
  }

  /** Rewriting the lists of one entry disturbs neither the numbering nor the
      other entries, and finishes that entry if the new lists describe it. */
  lemma EntryRewritten(
    w: World, programs: seq<ProgramEntry>, definitions: seq<Definition>, pending: set<Program>,
    index: map<Program, int>, posIndex: map<int, nat>, pos: nat, e: ProgramEntry, pending': set<Program>)
    requires ProgramsNumbered(programs, index, posIndex) && Finished(w, programs, definitions, pending)
    requires pos < |programs| && e.source == programs[pos].source && e.id == programs[pos].id
    requires e.source in pending && pending - {e.source} <= pending' <= pending
    requires e.source !in pending' ==> EntryDescribes(w, programs, definitions, e)
    ensures ProgramsNumbered(programs[pos := e], index, posIndex)
    ensures Finished(w, programs[pos := e], definitions, pending')
  {
    var programs' := programs[pos := e];
    NumberedUpdate(programs, index, posIndex, pos, e);
    hide ProgramsNumbered, EntryDescribes;
    assert forall j :: 0 <= j < |programs| ==> programs'[j].source == programs[j].source;
    forall i | 0 <= i < |programs'| && programs'[i].source !in pending'
      ensures EntryDescribes(w, programs', definitions, programs'[i])
    {
      assert EntryDescribes(w, programs, definitions, programs'[i]);
      SameTargets(w, programs, programs', definitions, programs'[i]);
    }
  }

  lemma SameTargets(
    w: World, programs: seq<ProgramEntry>, programs': seq<ProgramEntry>, definitions: seq<Definition>, e: ProgramEntry)
    requires EntryDescribes(w, programs, definitions, e) && |programs'| == |programs|
    requires forall j :: 0 <= j < |programs| ==> programs'[j].source == programs[j].source
    ensures EntryDescribes(w, programs', definitions, e)
  {
    hide PointsAtDefinitions, KeysOf;
  }

  /** One of the definitions clashes with another or with one of those numbered before. */
  ghost predicate ClashesWith(w: World, defs: seq<Definition>, numbered: set<Definition>) {
    exists d, e :: Clash(w, d, e) && d in defs && (e in numbered || e in defs)
  }

  /** None of the definitions has been numbered, and those to be kept are declared. */
  ghost predicate Addable(w: World, defs: seq<Definition>, numbered: set<Definition>) {
    forall d :: d in defs ==> d !in numbered && (w.Keeps(d) ==> w.Kept(d))
  }

  lemma AddableAt(w: World, defs: seq<Definition>, numbered: set<Definition>, i: nat)
    requires Addable(w, defs, numbered) && i < |defs|
    ensures defs[i] !in numbered && (w.Keeps(defs[i]) ==> w.Kept(defs[i]))
  {}

  class Builder {
    const world: World
    var programs: seq<ProgramEntry>
    var definitions: seq<Definition>
    var programIndex: map<Program, int>
    var programPosIndex: map<int, nat>
    var definitionIndex: map<Definition, int>
    var definitionKeyIndex: map<Definition, string>
    var definitionsMap: map<string, Definition>

    constructor (world: World)
      ensures this.world == world
      ensures programs == [] && definitions == [] && programIndex == map[] && programPosIndex == map[]
      ensures definitionIndex == map[] && definitionKeyIndex == map[] && definitionsMap == map[]
    {
      this.world := world;
      programs, definitions := [], [];
      programIndex, programPosIndex := map[], map[];
      definitionIndex, definitionKeyIndex, definitionsMap := map[], map[], map[];
    }

    ghost predicate DefinitionsIndexed()
      reads this
    {
      Indexed(world, definitions, definitionIndex, definitionKeyIndex, definitionsMap)
    }

    /** `open`: programs whose children have not been visited. `pending`: programs
        whose declaration-order lists have not been filled in. */
    ghost predicate Valid(open: set<Program>, pending: set<Program>)
      reads this
    {
      && world.Valid()
      && ProgramsNumbered(programs, programIndex, programPosIndex)
      && programIndex.Keys <= world.graph.includes.Keys
      && DefinitionsIndexed()
      && open <= pending <= programIndex.Keys
      && Covered(world, definitionIndex.Keys, programIndex.Keys - open)
      && Finished(world, programs, definitions, pending)
    }

    /** The `add_definition` step. Fails, as the source throws, on a key already taken. */
    method AddDefinition(d: Definition) returns (ok: bool)
      requires DefinitionsIndexed() && (world.Keeps(d) ==> world.Kept(d))
      requires d !in definitionIndex
      modifies this`definitions, this`definitionIndex, this`definitionKeyIndex, this`definitionsMap
      ensures ok ==> DefinitionsIndexed() && old(definitions) <= definitions
      ensures ok ==> definitionIndex.Keys == old(definitionIndex.Keys) + if world.Keeps(d) then {d} else {}
      ensures ok ==> definitions == old(definitions) + if world.Keeps(d) then [d] else []
      ensures ok ==> definitions == old(definitions) + if d.generated && !world.includeGenerated then [] else [d]
      ensures !ok ==> exists e :: e in old(definitionIndex) && Clash(world, d, e)
    {
      if !world.Keeps(d) {
        return true;
      }
      ghost var known := definitionIndex.Keys;
      definitionKeyIndex := definitionKeyIndex[d := d.key];
      var pos := |definitions|;
      NumberedExtends(definitions, definitionIndex, d);
      definitionIndex := definitionIndex[d := PositionToId(pos)];
      definitions := definitions + [d];
      assert definitionIndex.Keys == known + {d};
      if d.key in definitionsMap {
        assert Clash(world, d, definitionsMap[d.key]);
        return false;
      }
      KeysExtend(known, old(definitionKeyIndex), definitionsMap, d);
      definitionsMap := definitionsMap[d.key := d];
      return true;
    }

    /** The kept definitions among `defs` whose group comes before `g`, or is `g`
        and whose place comes before `i`. */
    ghost function VisitedBefore(defs: seq<Definition>, g: nat, i: nat): set<Definition>
      requires i <= |defs|
    {
      set j | 0 <= j < |defs| && world.Keeps(defs[j]) &&
              (Group(defs[j].kind) < g || (Group(defs[j].kind) == g && j < i)) :: defs[j]
    }

    lemma VisitedStep(defs: seq<Definition>, g: nat, i: nat)
      requires NoRepeats(defs) && i < |defs|
      ensures forall d :: d in VisitedBefore(defs, g, i) ==> d in defs
      ensures defs[i] !in VisitedBefore(defs, g, i) || Group(defs[i].kind) < g
      ensures VisitedBefore(defs, g, i + 1) == VisitedBefore(defs, g, i) +
        if Group(defs[i].kind) == g && world.Keeps(defs[i]) then {defs[i]} else {}
    {}

    lemma VisitedGroup(defs: seq<Definition>, g: nat)
      ensures VisitedBefore(defs, g, |defs|) == VisitedBefore(defs, g + 1, 0)
    {}

    lemma VisitedAll(defs: seq<Definition>)
      ensures VisitedBefore(defs, 0, 0) == {}
      ensures VisitedBefore(defs, GROUPS, 0) == KeptSet(world, defs)
    {}

    /** Number the definitions of one group. */
    method AddGroup(defs: seq<Definition>, g: nat, ghost before: set<Definition>) returns (ok: bool)
      requires DefinitionsIndexed() && NoRepeats(defs)
      requires Addable(world, defs, before)
      requires definitionIndex.Keys == before + VisitedBefore(defs, g, 0)
      modifies this`definitions, this`definitionIndex, this`definitionKeyIndex, this`definitionsMap
      ensures ok ==> DefinitionsIndexed() && definitions == old(definitions) + OfGroup(world, defs, g)
      ensures ok ==> definitionIndex.Keys == before + VisitedBefore(defs, g, |defs|)
      ensures !ok ==> ClashesWith(world, defs, before)
    {
      hide Addable, Indexed, DefinitionsIndexed, VisitedBefore, OfGroup, InGroup;
      hide World.Keeps, World.Kept, Group, NoRepeats, ClashesWith;
      ghost var start := definitions;
      NoMembers(world, defs, g, start);
      var i := 0;
      while i < |defs|
        invariant 0 <= i <= |defs|
        invariant DefinitionsIndexed() && definitions == start + OfGroup(world, defs[..i], g)
        invariant definitionIndex.Keys == before + VisitedBefore(defs, g, i)
      {
        OfGroupNext(world, defs, i, g, start);
        ok := AddMember(defs, g, i, before);
        if !ok {
          return;
        }
        i := i + 1;
      }
      assert defs[..i] == defs;
      return true;
    }

    /** Number one definition if it belongs to the group. */
    method AddMember(defs: seq<Definition>, g: nat, i: nat, ghost before: set<Definition>) returns (ok: bool)
      requires DefinitionsIndexed() && NoRepeats(defs) && i < |defs|
      requires Addable(world, defs, before)
      requires definitionIndex.Keys == before + VisitedBefore(defs, g, i)
      modifies this`definitions, this`definitionIndex, this`definitionKeyIndex, this`definitionsMap
      ensures ok ==> DefinitionsIndexed() && definitionIndex.Keys == before + VisitedBefore(defs, g, i + 1)
      ensures ok ==> definitions == old(definitions) + InGroup(world, defs[i], g)
      ensures !ok ==> ClashesWith(world, defs, before)
    {
      VisitedStep(defs, g, i);
      AddableAt(world, defs, before, i);
      hide Indexed, VisitedBefore, World.Keeps, World.Kept, NoRepeats, Clash, Addable;
      if Group(defs[i].kind) != g {
        return true;
      }
      ghost var known := definitionIndex.Keys;
      ok := AddDefinition(defs[i]);
      if !ok {
        ghost var e :| e in known && Clash(world, defs[i], e);
        assert e in before || e in VisitedBefore(defs, g, i);
      }
    }

    /** Number all of a program's definitions, one kind after the other. */
    method AddDefinitions(defs: seq<Definition>) returns (ok: bool)
      requires DefinitionsIndexed() && NoRepeats(defs)
      requires Addable(world, defs, definitionIndex.Keys)
      modifies this`definitions, this`definitionIndex, this`definitionKeyIndex, this`definitionsMap
      ensures ok ==> DefinitionsIndexed() && definitions == old(definitions) + ByKind(world, defs)
      ensures ok ==> definitionIndex.Keys == old(definitionIndex.Keys) + KeptSet(world, defs)
      ensures !ok ==> ClashesWith(world, defs, old(definitionIndex.Keys))
    {
      hide Addable, Indexed, DefinitionsIndexed, VisitedBefore, OfGroup, GroupsBefore, ByKind, KeptSet;
      hide World.Keeps, World.Kept, NoRepeats, ClashesWith;
      VisitedAll(defs);
      GroupsAreKinds(world, defs);
      ghost var start := definitions;
      NoGroups(world, defs, start);
      ghost var before := definitionIndex.Keys;
      var g := 0;
      while g < GROUPS
        invariant 0 <= g <= GROUPS
        invariant DefinitionsIndexed() && definitions == start + GroupsBefore(world, defs, g)
        invariant definitionIndex.Keys == before + VisitedBefore(defs, g, 0)
      {
        ok := AddGroup(defs, g, before);
        if !ok {
          return;
        }
        VisitedGroup(defs, g);
        GroupsNext(world, defs, g);
        ListsAfter(start, GroupsBefore(world, defs, g), OfGroup(world, defs, g));
        g := g + 1;
      }
      return true;
    }

    /** The part of the visitor that walks the children of a program. */
    method VisitChildren(p: Program, ghost open: set<Program>) returns (ok: bool)
      requires Valid(open + {p}, open + {p}) && p !in open
      modifies this`definitions, this`definitionIndex, this`definitionKeyIndex, this`definitionsMap
      ensures ok ==> Valid(open, open + {p})
      ensures ok ==> p in world.definitions && definitions == old(definitions) + ByKind(world, world.definitions[p])
      ensures !ok ==> KeysClash(world, programIndex.Keys)
    {
      hide ByKind;
      var defs := world.definitions[p];
      CoveredExtends(world, definitionIndex.Keys, programIndex.Keys - (open + {p}), p);
      ok := AddDefinitions(defs);
      if ok {
        assert programIndex.Keys - open == programIndex.Keys - (open + {p}) + {p};
        FinishedGrows(world, programs, old(definitions), open + {p}, programs, definitions, open + {p});
      }
    }

    /** Give the program the next id and an entry with empty lists. */
    method Enter(p: Program, ghost open: set<Program>)
      requires Valid(open, open) && p in world.graph.includes && p !in programIndex
      modifies this`programs, this`programIndex, this`programPosIndex
      ensures Valid(open + {p}, open + {p})
      ensures programs == old(programs) + [ProgramEntry(p, |old(programs)| + 1, [], [], [])]
      ensures programIndex.Keys == old(programIndex.Keys) + {p}
    {
      assert p !in open;
      hide ProgramsNumbered, Finished, Covered, EntryDescribes, Indexed, World.Valid;
      var pos := |programs|;
      var id := PositionToId(pos);
      var entry := ProgramEntry(p, id, [], [], []);
      ProgramsNumberedExtends(programs, programIndex, programPosIndex, entry);
      FinishedGrows(world, programs, definitions, open, programs + [entry], definitions, open + {p});
      programIndex := programIndex[p := id];
      programPosIndex := programPosIndex[id := pos];
      programs := programs + [entry];
      assert programIndex.Keys - (open + {p}) == old(programIndex.Keys) - open;
    }

    /** Append the id of an already numbered program to the entry at `pos`. */
    method PushInclude(pos: nat, target: Program, ghost open: set<Program>, ghost listed: seq<Program>)
      requires Valid(open, open) && pos < |programs| && programs[pos].source in open && target in programIndex
      requires PointsAtIncludes(programs, programs[pos].includes, listed)
      modifies this`programs
      ensures Valid(open, open)
      ensures programs == old(programs)[pos :=
        old(programs)[pos].(includes := old(programs)[pos].includes + [programIndex[target]])]
      ensures PointsAtIncludes(programs, programs[pos].includes, listed + [target])
      ensures SourceList(programs) == SourceList(old(programs))
    {
      hide SourceList;
      UpdatedSourceList(programs, pos, programs[pos].(includes := programs[pos].includes + [programIndex[target]]));
      IncludePushed(programs, pos, listed, target, programIndex, programPosIndex);
      hide ProgramsNumbered, Finished, Covered, Indexed, World.Valid, PointsAtIncludes;
      var e := programs[pos].(includes := programs[pos].includes + [programIndex[target]]);
      EntryRewritten(world, programs, definitions, open, programIndex, programPosIndex, pos, e, open);
      programs := programs[pos := e];
    }

    /** The `populate_defs` step: list the ids and keys of a program's kept
        definitions in declaration order. */
    method Populate(p: Program, ghost open: set<Program>)
      requires Valid(open, open + {p}) && p !in open
      requires p in programIndex && 1 <= programIndex[p] <= |programs|
      requires EntryWalked(world, programs, programs[programIndex[p] - 1])
      modifies this`programs
      ensures Valid(open, open)
      ensures |programs| == |old(programs)|
      ensures forall i :: 0 <= i < |programs| && i != programIndex[p] - 1 ==> programs[i] == old(programs)[i]
      ensures SourceList(programs) == SourceList(old(programs))
    {
      hide SourceList;
      ReadyToPopulate(p, open);
      hide World.Valid, ProgramsNumbered, Finished, Covered, Indexed, Listable, ListedAsChosen;
      hide PointsAtIncludes, PointsAtDefinitions, KeysOf, World.KeptOf;
      var pos := programPosIndex[programIndex[p]];
      var defs, keys := ListDefinitions(world.definitions[p]);
      var e := programs[pos];
      e := e.(definitions := e.definitions + defs, definitionKeys := e.definitionKeys + keys);
      EntryListed(p, open, pos, defs, keys);
      UpdatedSourceList(programs, pos, e);
      programs := programs[pos := e];
    }

    lemma EntryListed(p: Program, open: set<Program>, pos: nat, defs: seq<int>, keys: seq<string>)
      requires Valid(open, open + {p}) && p !in open && p in world.definitions
      requires pos < |programs| && programs[pos].source == p && EntryWalked(world, programs, programs[pos])
      requires PointsAtDefinitions(definitions, defs, world.KeptOf(world.definitions[p]))
      requires KeysOf(keys, world.KeptOf(world.definitions[p]))
      ensures var e := programs[pos];
        var e' := e.(definitions := e.definitions + defs, definitionKeys := e.definitionKeys + keys);
        && ProgramsNumbered(programs[pos := e'], programIndex, programPosIndex)
        && Finished(world, programs[pos := e'], definitions, open)
    {
      hide World.Valid, ProgramsNumbered, Finished, Covered, Indexed;
      hide PointsAtIncludes, PointsAtDefinitions, KeysOf, World.KeptOf;
      var e := programs[pos];
      assert e.definitions + defs == defs && e.definitionKeys + keys == keys;
      e := e.(definitions := defs, definitionKeys := keys);
      EntryRewritten(world, programs, definitions, open + {p}, programIndex, programPosIndex, pos, e, open);
    }

    /** The kept ones among the definitions have their ids and keys. */
    ghost predicate Listable(declared: seq<Definition>)
      reads this
    {
      && Numbered(definitions, definitionIndex)
      && (forall d :: d in definitionIndex ==> d in definitionKeyIndex && definitionKeyIndex[d] == d.key)
      && forall d :: d in declared && world.Keeps(d) ==> d in definitionIndex
    }

    lemma ReadyToPopulate(p: Program, open: set<Program>)
      requires Valid(open, open + {p}) && p !in open && p in programIndex
      ensures 1 <= programIndex[p] <= |programs| && programs[programIndex[p] - 1].source == p
      ensures programIndex[p] in programPosIndex && programPosIndex[programIndex[p]] == programIndex[p] - 1
      ensures p in world.graph.includes && p in world.definitions && Listable(world.definitions[p])
    {
      EntryLookup(programs, programIndex, programPosIndex, p);
      KeysLookup(world, definitions, definitionIndex, definitionKeyIndex, definitionsMap);
      hide ProgramsNumbered, Finished, Indexed, Numbered;
      KeptAreCovered(world, definitionIndex.Keys, programIndex.Keys - open, p);
    }

    method ListDefinitions(declared: seq<Definition>) returns (defs: seq<int>, keys: seq<string>)
      requires Listable(declared)
      ensures PointsAtDefinitions(definitions, defs, world.KeptOf(declared))
      ensures KeysOf(keys, world.KeptOf(declared))
      ensures ListedAsChosen(world, definitions, declared, defs)
    {
      KeptAsChosen(world, declared);
      hide World.KeptOf, Numbered;
      assert declared[..0] == [];
      KeptOfEmpty(world);
      defs, keys := [], [];
      var i := 0;
      while i < |declared|
        invariant 0 <= i <= |declared|
        invariant PointsAtDefinitions(definitions, defs, world.KeptOf(declared[..i]))
        invariant KeysOf(keys, world.KeptOf(declared[..i]))
      {
        var d := declared[i];
        KeptOfAppend(world, declared[..i], d);
        assert declared[..i + 1] == declared[..i] + [d];
        if world.Keeps(d) {
          NumberedLookup(definitions, definitionIndex, d);
          defs := defs + [definitionIndex[d]];
          keys := keys + [definitionKeyIndex[d]];
        }
        i := i + 1;
      }
      assert declared[..i] == declared;
    }

    lemma OpenIsNumbered(open: set<Program>)
      requires Valid(open, open)
      ensures open <= programIndex.Keys
    {}

    lemma NotYetMet(p: Program, open: set<Program>)
      requires Valid(open, open) && p !in programIndex
      ensures p !in SourceList(programs) && world.graph.Valid() && world.graph.includes.Keys == world.definitions.Keys
    {
      var met := SourceList(programs);
      forall i | 0 <= i < |met| ensures met[i] != p {
        assert programs[i] in programs;
      }
    }

    lemma AlreadyMet(p: Program, open: set<Program>)
      requires Valid(open, open)
      ensures p in programIndex ==>
        Toured(world, WalkFrom(world.graph, p, SourceList(programs)), programs, definitions, programs, definitions)
    {
      if p in programIndex {
        EntryLookup(programs, programIndex, programPosIndex, p);
        assert SourceList(programs)[programIndex[p] - 1] == p;
        TourStays(world, programs, definitions);
      }
    }

    lemma TourStarts(p: Program, includes: seq<Program>, open: set<Program>)
      requires Valid(open, open) && p in world.graph.includes && includes == world.graph.includes[p]
      ensures world.graph.Valid() && forall q :: q in includes ==> q in world.graph.includes
      ensures Toured(world, WalkList(world.graph, includes[..0], SourceList(programs)),
        programs, definitions, programs, definitions)
    {
      assert includes[..0] == [];
      TourStays(world, programs, definitions);
    }

    lemma ReachedVia(g: Graph, before: map<Program, int>, after: map<Program, int>, p: Program, target: Program)
      requires Reaches(g, p, target)
      requires forall q :: q in after && q !in before ==> Reaches(g, target, q)
      ensures forall q :: q in after && q !in before ==> Reaches(g, p, q)
    {
      forall q | q in after && q !in before ensures Reaches(g, p, q) {
        ReachesTransitive(g, p, target, q);
      }
    }

    lemma TargetIsKnown(p: Program, target: Program, open: set<Program>)
      requires Valid(open, open) && p in world.graph.includes && target in world.graph.includes[p]
      ensures world.graph.Valid() && target in world.graph.includes
    {}

    lemma WalkedEntry(before: seq<ProgramEntry>, p: Program, open: set<Program>)
      requires Valid(open, open + {p}) && Walked(world, before, programs, p)
      ensures p in programIndex && programIndex[p] == |before| + 1 <= |programs|
      ensures EntryWalked(world, programs, programs[programIndex[p] - 1]) && before == programs[..|before|]
      ensures programs[|before|].source == p
    {
      SameEntry(programs, programIndex, programPosIndex, |before|, p);
    }

    /** The program visitor followed by the visit of the children. */
    method Visit(p: Program, ghost open: set<Program>) returns (ok: bool)
      requires Valid(open, open) && p in world.graph.includes && p !in programIndex
      modifies this
      ensures old(programIndex.Keys) <= programIndex.Keys
      ensures forall q :: q in programIndex && q !in old(programIndex) ==> Reaches(world.graph, p, q)
      ensures ok ==> Valid(open, open + {p})
      ensures ok ==> Walked(world, old(programs), programs, p)
      ensures ok ==> Toured(world, WalkFrom(world.graph, p, SourceList(old(programs))),
        old(programs), old(definitions), programs, definitions)
      ensures !ok ==> KeysClash(world, programIndex.Keys)
      decreases world.graph.includes.Keys - programIndex.Keys, 0
    {
      hide Valid, World.Valid, Graph.Valid, Reaches, EntryWalked, KeysClash, Toured, WalkFrom, WalkList, ByKind;
      NotYetMet(p, open);
      OpenIsNumbered(open);
      var pos := |programs|;
      Enter(p, open);
      ghost var before := programs;
      MetLast(old(programs), before[pos]);
      ReachesSelf(world.graph, p);
      ok := VisitIncludes(p, pos, open + {p});
      if !ok {
        return;
      }
      WalkedFromEntry(world, old(programs), before, programs, p);
      hide Walked, SourceList;
      ghost var below := definitions;
      ok := VisitChildren(p, open);
      if ok {
        TourOfProgram(world, p, old(programs), old(definitions), before, programs, below, definitions);
      }
    }

    /** Visit the includes that are new and list the ids of all of them. */
    method VisitIncludes(p: Program, pos: nat, ghost open: set<Program>) returns (ok: bool)
      requires Valid(open, open) && p in open && p in world.graph.includes
      requires pos < |programs| && programs[pos] == ProgramEntry(p, pos + 1, [], [], [])
      modifies this
      ensures old(programIndex.Keys) <= programIndex.Keys
      ensures forall q :: q in programIndex && q !in old(programIndex) ==> Reaches(world.graph, p, q)
      ensures ok ==> Valid(open, open)
      ensures ok ==> Walked(world, old(programs)[..pos], programs, p)
      ensures ok ==> Toured(world, WalkList(world.graph, world.graph.includes[p], SourceList(old(programs))),
        old(programs), old(definitions), programs, definitions)
      ensures !ok ==> KeysClash(world, programIndex.Keys)
      decreases world.graph.includes.Keys - programIndex.Keys, 3
    {
      var includes := world.graph.includes[p];
      TourStarts(p, includes, open);
      assert includes[..0] == [];
      hide Valid, World.Valid, Graph.Valid, Reaches, KeysClash, Toured, WalkFrom, WalkList, SourceList;
      ghost var first, firstDefs := programs, definitions;
      var i := 0;
      while i < |includes|
        invariant 0 <= i <= |includes|
        invariant Valid(open, open)
        invariant old(programIndex.Keys) <= programIndex.Keys
        invariant forall q :: q in programIndex && q !in old(programIndex) ==> Reaches(world.graph, p, q)
        invariant ListedUpTo(world, programs, pos, p, i)
        invariant programs[..pos] == old(programs)[..pos]
        invariant Toured(world, WalkList(world.graph, includes[..i], SourceList(first)),
          first, firstDefs, programs, definitions)
      {
        ghost var sofar, sofarDefs := programs, definitions;
        ok := VisitNext(p, pos, i, open);
        if !ok {
          return;
        }
        TourContinues(world, includes, i, first, firstDefs, sofar, sofarDefs, programs, definitions);
        i := i + 1;
      }
      assert includes[..i] == includes;
      ok := true;
    }

    /** One include: visit it if it is new and list its id. */
    method VisitNext(p: Program, pos: nat, i: nat, ghost open: set<Program>) returns (ok: bool)
      requires Valid(open, open) && p in open && p in world.graph.includes && i < |world.graph.includes[p]|
      requires ListedUpTo(world, programs, pos, p, i)
      modifies this
      ensures old(programIndex.Keys) <= programIndex.Keys
      ensures forall q :: q in programIndex && q !in old(programIndex) ==> Reaches(world.graph, p, q)
      ensures ok ==> Valid(open, open) && ListedUpTo(world, programs, pos, p, i + 1)
      ensures ok ==> programs[..pos] == old(programs)[..pos]
      ensures ok ==> Toured(world, WalkFrom(world.graph, world.graph.includes[p][i], SourceList(old(programs))),
        old(programs), old(definitions), programs, definitions)
      ensures !ok ==> KeysClash(world, programIndex.Keys)
      decreases world.graph.includes.Keys - programIndex.Keys, 2
    {
      hide Valid, World.Valid, Graph.Valid, Reaches, KeysClash, Toured, WalkFrom, SourceList;
      var includes := world.graph.includes[p];
      var target := includes[i];
      ok := VisitInclude(p, target, open);
      if !ok {
        return;
      }
      assert includes[..i + 1] == includes[..i] + [target];
      ghost var after := programs;
      PushInclude(pos, target, open, includes[..i]);
      TourResaid(world, WalkFrom(world.graph, target, SourceList(old(programs))),
        old(programs), old(definitions), after, definitions, programs);
    }

    /** Number an included program, unless that has been done. */
    method VisitInclude(p: Program, target: Program, ghost open: set<Program>) returns (ok: bool)
      requires Valid(open, open) && p in world.graph.includes && target in world.graph.includes[p]
      modifies this
      ensures old(programIndex.Keys) <= programIndex.Keys
      ensures forall q :: q in programIndex && q !in old(programIndex) ==> Reaches(world.graph, p, q)
      ensures ok ==> Valid(open, open) && target in programIndex && |old(programs)| <= |programs|
      ensures ok ==> forall i :: 0 <= i < |old(programs)| ==> programs[i] == old(programs)[i]
      ensures ok ==> Toured(world, WalkFrom(world.graph, target, SourceList(old(programs))),
        old(programs), old(definitions), programs, definitions)
      ensures !ok ==> KeysClash(world, programIndex.Keys)
      decreases world.graph.includes.Keys - programIndex.Keys, 1
    {
      OpenIsNumbered(open);
      AlreadyMet(target, open);
      hide Valid, Reaches, EntryWalked, Walked, KeysClash, Toured, WalkFrom, SourceList;
      if target in programIndex {
        return true;
      }
      TargetIsKnown(p, target, open);
      ok := Visit(target, open);
      ReachesInclude(world.graph, p, target);
      ReachedVia(world.graph, old(programIndex), programIndex, p, target);
      if ok {
        WalkedEntry(old(programs), target, open);
        ghost var walked := programs;
        Populate(target, open);
        TourResaid(world, WalkFrom(world.graph, target, SourceList(old(programs))),
          old(programs), old(definitions), walked, definitions, programs);
      }
    }

    /** `gen_schema` itself, past the check that the schema file is on the include path. */
    method Build(root: Program) returns (ok: bool)
      requires world.Valid() && root in world.graph.includes
      requires programs == [] && definitions == [] && programIndex == map[] && programPosIndex == map[]
      requires definitionIndex == map[] && definitionKeyIndex == map[] && definitionsMap == map[]
      modifies this
      ensures ok <==> !KeysClash(world, Reachable(world.graph, root))
      ensures ok <==> !ClashAsChosen(world, Reachable(world.graph, root))
      ensures ok ==> Describes(world, root, programs, definitions)
      ensures ok ==> HoldsAsChosen(world, Reachable(world.graph, root), programs, definitions)
      ensures ok ==> SourceList(programs) == WalkFrom(world.graph, root, []).met
      ensures ok ==> definitions == InTurn(world, WalkFrom(world.graph, root, []).left)
    {
      hide Valid, World.Valid, KeysClash, ClashAsChosen, HoldsAsChosen, Describes, Reachable;
      hide WalkFrom, InTurn, SourceList;
      ClashesAsChosen(world, Reachable(world.graph, root));
      ok := VisitRoot(root);
      if !ok {
        return;
      }
      FinishedSchema(root);
      DescribedAsChosen(world, root, programs, definitions);
    }

    /** The visit of the root program, its declaration-order list included. */
    method VisitRoot(root: Program) returns (ok: bool)
      requires world.Valid() && root in world.graph.includes
      requires programs == [] && definitions == [] && programIndex == map[] && programPosIndex == map[]
      requires definitionIndex == map[] && definitionKeyIndex == map[] && definitionsMap == map[]
      modifies this
      ensures ok ==> Valid({}, {}) && root in programIndex && programs != [] && programs[0].source == root
      ensures ok ==> programIndex.Keys <= Reachable(world.graph, root)
      ensures ok ==> SourceList(programs) == WalkFrom(world.graph, root, []).met
      ensures ok ==> definitions == InTurn(world, WalkFrom(world.graph, root, []).left)
      ensures !ok ==> KeysClash(world, Reachable(world.graph, root))
    {
      StartsValid();
      hide Valid, World.Valid, Graph.Valid, KeysClash, EntryWalked, Walked, Reaches, Reachable;
      hide Toured, WalkFrom, InTurn, SourceList;
      ok := Visit(root, {});
      OnlyReachable(root);
      if !ok {
        ClashStays(world, programIndex.Keys, Reachable(world.graph, root));
        return;
      }
      WalkedEntry([], root, {});
      TourFromNothing(world, root, programs, definitions);
      ghost var walked := programs;
      Populate(root, {});
      SameFirst(walked, programs);
    }

    lemma StartsValid()
      requires world.Valid()
      requires programs == [] && definitions == [] && programIndex == map[] && programPosIndex == map[]
      requires definitionIndex == map[] && definitionKeyIndex == map[] && definitionsMap == map[]
      ensures Valid({}, {})
    {}

    lemma OnlyReachable(root: Program)
      requires world.Valid() && forall q :: q in programIndex ==> Reaches(world.graph, root, q)
      ensures programIndex.Keys <= Reachable(world.graph, root)
    {
      forall q | q in programIndex ensures q in world.graph.includes {
        ReachedIsKnown(world.graph, root, q);
      }
    }

    lemma FinishedSchema(root: Program)
      requires Valid({}, {}) && root in programIndex && programs != [] && programs[0].source == root
      requires programIndex.Keys <= Reachable(world.graph, root)
      ensures !KeysClash(world, Reachable(world.graph, root))
      ensures Describes(world, root, programs, definitions)
    {
      AllNumbered(root);
      assert programIndex.Keys == Reachable(world.graph, root);
      NoClash(definitionIndex.Keys, definitionKeyIndex, definitionsMap, programIndex.Keys);
      hide Reachable, World.Valid, KeysIndexed, KeysClash, EntryDescribes;
    }

    lemma NoClash(
      indexed: set<Definition>, keys: map<Definition, string>, byKey: map<string, Definition>, among: set<Program>)
      requires Covered(world, indexed, among) && KeysIndexed(indexed, keys, byKey)
      ensures !KeysClash(world, among)
    {}

    lemma AllNumbered(root: Program)
      requires Valid({}, {}) && root in programIndex
      ensures Reachable(world.graph, root) <= programIndex.Keys
    {
      hide ProgramsNumbered, Finished, Covered, Indexed, World.Valid, Reaches;
      forall p, q | p in programIndex.Keys && p in world.graph.includes && q in world.graph.includes[p]
        ensures q in programIndex.Keys
      {
        IncludesNumbered(world, programs, definitions, programIndex, programPosIndex, p, q);
      }
      ClosedHoldsReachable(world.graph, root, programIndex.Keys);
    }
  }
}
