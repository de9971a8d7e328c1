/** The order in which programs and definitions stand in a schema
    (thrift/compiler/generate/t_ast_generator.cc and ast_visitor.h). */
module SchemaOrder {
  import opened Programs
  import opened IncludeGraph
  import opened SchemaModel

  const GROUPS := 7

  /** The order in which the visitor walks the children of a program. */
  function Group(k: Kind): nat {
    match k
    case Service => 0
    case Interaction => 1
    case Struct => 2
    case Union => 2
    case Exception => 3
    case Typedef => 4
    case Enum => 5
    case Const => 6
  }

  /** The kept definitions of one group, as declared. */
  function OfGroup(w: World, defs: seq<Definition>, g: nat): seq<Definition> {
    if defs == [] then [] else
      OfGroup(w, defs[..|defs| - 1], g) + InGroup(w, defs[|defs| - 1], g)
  }

  /** The definition, if it is kept and of the group. */
  function InGroup(w: World, d: Definition, g: nat): seq<Definition> {
    if w.Keeps(d) && Group(d.kind) == g then [d] else []
  }

  /** The kept definitions of the groups before `g`, one group after the other. */
  function GroupsBefore(w: World, defs: seq<Definition>, g: nat): seq<Definition> {
    if g == 0 then [] else GroupsBefore(w, defs, g - 1) + OfGroup(w, defs, g - 1)
  }

  lemma OfGroupNext(w: World, defs: seq<Definition>, i: nat, g: nat, start: seq<Definition>)
    requires i < |defs|
    ensures start + OfGroup(w, defs[..i], g) + InGroup(w, defs[i], g) == start + OfGroup(w, defs[..i + 1], g)
  {
    assert defs[..i + 1][..i] == defs[..i];
    assert OfGroup(w, defs[..i + 1], g) == OfGroup(w, defs[..i], g) + InGroup(w, defs[i], g);
    hide OfGroup, InGroup;
    ListsAfter(start, OfGroup(w, defs[..i], g), InGroup(w, defs[i], g));
  }

  lemma NoGroups(w: World, defs: seq<Definition>, start: seq<Definition>)
    ensures start + GroupsBefore(w, defs, 0) == start
  {}

  lemma NoMembers(w: World, defs: seq<Definition>, g: nat, start: seq<Definition>)
    ensures start + OfGroup(w, defs[..0], g) == start
  {
    assert defs[..0] == [];
  }

  lemma GroupsNext(w: World, defs: seq<Definition>, g: nat)
    ensures GroupsBefore(w, defs, g + 1) == GroupsBefore(w, defs, g) + OfGroup(w, defs, g)
  {}

  lemma ListsAfter(a: seq<Definition>, b: seq<Definition>, c: seq<Definition>)
    ensures a + b + c == a + (b + c)
  {}

  /** The kept definitions of the given kinds, as declared. */
  ghost function OfKinds(w: World, defs: seq<Definition>, kinds: set<Kind>): seq<Definition> {
    if defs == [] then [] else
      OfKinds(w, defs[..|defs| - 1], kinds) +
      var d := defs[|defs| - 1]; if w.Keeps(d) && d.kind in kinds then [d] else []
  }

  /** The kept definitions of a program kind by kind, as declared within each. */
  ghost function ByKind(w: World, defs: seq<Definition>): seq<Definition> {
    OfKinds(w, defs, {Service}) + OfKinds(w, defs, {Interaction}) + OfKinds(w, defs, {Struct, Union})
    + OfKinds(w, defs, {Exception}) + OfKinds(w, defs, {Typedef}) + OfKinds(w, defs, {Enum})
    + OfKinds(w, defs, {Const})
  }

  lemma {:induction false} GroupIsKinds(w: World, defs: seq<Definition>, g: nat, kinds: set<Kind>)
    requires forall k :: Group(k) == g <==> k in kinds
    ensures OfGroup(w, defs, g) == OfKinds(w, defs, kinds)
  {
    if defs != [] {
      GroupIsKinds(w, defs[..|defs| - 1], g, kinds);
    }
  }

  lemma GroupsAreKinds(w: World, defs: seq<Definition>)
    ensures GroupsBefore(w, defs, GROUPS) == ByKind(w, defs)
  {
    GroupIsKinds(w, defs, 0, {Service});
    GroupIsKinds(w, defs, 1, {Interaction});
    GroupIsKinds(w, defs, 2, {Struct, Union});
    GroupIsKinds(w, defs, 3, {Exception});
    GroupIsKinds(w, defs, 4, {Typedef});
    GroupIsKinds(w, defs, 5, {Enum});
    GroupIsKinds(w, defs, 6, {Const});
    hide OfGroup, OfKinds;
    assert GroupsBefore(w, defs, 0) == [];
    assert GroupsBefore(w, defs, 2) == OfGroup(w, defs, 0) + OfGroup(w, defs, 1);
    assert GroupsBefore(w, defs, 4) == GroupsBefore(w, defs, 2) + OfGroup(w, defs, 2) + OfGroup(w, defs, 3);
    assert GroupsBefore(w, defs, 6) == GroupsBefore(w, defs, 4) + OfGroup(w, defs, 4) + OfGroup(w, defs, 5);
  }

  /** The kept definitions of the programs, one program after the other. */
  ghost function InTurn(w: World, ps: seq<Program>): seq<Definition> {
    if ps == [] then [] else
      var p := ps[|ps| - 1];
      InTurn(w, ps[..|ps| - 1]) + if p in w.definitions then ByKind(w, w.definitions[p]) else []
  }

  lemma {:induction false} InTurnConcat(w: World, ps: seq<Program>, qs: seq<Program>)
    ensures InTurn(w, ps + qs) == InTurn(w, ps) + InTurn(w, qs)
    decreases |qs|
  {
    if qs == [] {
      assert ps + qs == ps;
    } else {
      assert (ps + qs)[..|ps + qs| - 1] == ps + qs[..|qs| - 1];
      InTurnConcat(w, ps, qs[..|qs| - 1]);
    }
  }

  /** The programs of the entries. */
  ghost function SourceList(programs: seq<ProgramEntry>): seq<Program> {
    seq(|programs|, i requires 0 <= i < |programs| => programs[i].source)
  }

  /** The walk went from the first lists to the second: programs stand in the order in
      which it met them, definitions in the order in which it left their programs. */
  ghost predicate Toured(
    w: World, tour: Tour, programs: seq<ProgramEntry>, definitions: seq<Definition>,
    programs': seq<ProgramEntry>, definitions': seq<Definition>)
  {
    SourceList(programs') == tour.met && definitions' == definitions + InTurn(w, tour.left)
  }

  lemma SameSourceList(programs: seq<ProgramEntry>, programs': seq<ProgramEntry>)
    requires |programs| == |programs'| && forall i :: 0 <= i < |programs| ==> programs[i].source == programs'[i].source
    ensures SourceList(programs) == SourceList(programs')
  {}

  lemma UpdatedSourceList(programs: seq<ProgramEntry>, pos: nat, e: ProgramEntry)
    requires pos < |programs| && e.source == programs[pos].source
    ensures SourceList(programs[pos := e]) == SourceList(programs)
  {
    SameSourceList(programs, programs[pos := e]);
  }

  lemma TourStays(w: World, programs: seq<ProgramEntry>, definitions: seq<Definition>)
    ensures Toured(w, Tour(SourceList(programs), []), programs, definitions, programs, definitions)
  {
    assert definitions + [] == definitions;
  }

  lemma ToursJoin(
    w: World, first: Tour, second: Tour, programs: seq<ProgramEntry>, definitions: seq<Definition>,
    programs': seq<ProgramEntry>, definitions': seq<Definition>,
    programs'': seq<ProgramEntry>, definitions'': seq<Definition>)
    requires Toured(w, first, programs, definitions, programs', definitions')
    requires Toured(w, second, programs', definitions', programs'', definitions'')
    ensures Toured(w, Tour(second.met, first.left + second.left), programs, definitions, programs'', definitions'')
  {
    InTurnConcat(w, first.left, second.left);
    hide InTurn;
    ListsAfter(definitions, InTurn(w, first.left), InTurn(w, second.left));
  }

  lemma MetLast(programs: seq<ProgramEntry>, e: ProgramEntry)
    ensures SourceList(programs + [e]) == SourceList(programs) + [e.source]
  {}

  lemma TourResaid(
    w: World, tour: Tour, programs: seq<ProgramEntry>, definitions: seq<Definition>,
    programs': seq<ProgramEntry>, definitions': seq<Definition>, programs'': seq<ProgramEntry>)
    requires Toured(w, tour, programs, definitions, programs', definitions')
    requires SourceList(programs'') == SourceList(programs')
    ensures Toured(w, tour, programs, definitions, programs'', definitions')
  {
    hide SourceList, InTurn;
  }

  lemma TourFromNothing(w: World, root: Program, programs: seq<ProgramEntry>, definitions: seq<Definition>)
    requires Toured(w, WalkFrom(w.graph, root, SourceList([])), [], [], programs, definitions)
    ensures SourceList(programs) == WalkFrom(w.graph, root, []).met
    ensures definitions == InTurn(w, WalkFrom(w.graph, root, []).left)
  {
    assert SourceList([]) == [];
    hide WalkFrom, InTurn;
  }

  lemma SameFirst(programs: seq<ProgramEntry>, programs': seq<ProgramEntry>)
    requires programs != [] && SourceList(programs') == SourceList(programs)
    ensures programs' != [] && programs'[0].source == programs[0].source
  {
    assert |SourceList(programs)| == |programs| && |SourceList(programs')| == |programs'|;
    assert SourceList(programs)[0] == programs[0].source && SourceList(programs')[0] == programs'[0].source;
  }

  lemma TourMet(
    w: World, tour: Tour, programs: seq<ProgramEntry>, definitions: seq<Definition>,
    programs': seq<ProgramEntry>, definitions': seq<Definition>)
    requires Toured(w, tour, programs, definitions, programs', definitions')
    ensures tour.met == SourceList(programs')
  {
    hide SourceList, InTurn;
  }

  /** One more include is walked. */
  lemma TourContinues(
    w: World, includes: seq<Program>, i: nat, programs: seq<ProgramEntry>, definitions: seq<Definition>,
    programs': seq<ProgramEntry>, definitions': seq<Definition>,
    programs'': seq<ProgramEntry>, definitions'': seq<Definition>)
    requires w.graph.Valid() && i < |includes| && forall q :: q in includes ==> q in w.graph.includes
    requires Toured(w, WalkList(w.graph, includes[..i], SourceList(programs)),
      programs, definitions, programs', definitions')
    requires Toured(w, WalkFrom(w.graph, includes[i], SourceList(programs')),
      programs', definitions', programs'', definitions'')
    ensures Toured(w, WalkList(w.graph, includes[..i + 1], SourceList(programs)),
      programs, definitions, programs'', definitions'')
  {
    hide Toured, WalkList, WalkFrom, SourceList, Graph.Valid;
    var tour := WalkList(w.graph, includes[..i], SourceList(programs));
    TourMet(w, tour, programs, definitions, programs', definitions');
    assert includes[..i + 1] == includes[..i] + [includes[i]];
    assert includes[i] in includes && forall q :: q in includes[..i] ==> q in includes;
    WalkNext(w.graph, includes[..i], includes[i], SourceList(programs));
    ToursJoin(w, tour, WalkFrom(w.graph, includes[i], SourceList(programs')),
      programs, definitions, programs', definitions', programs'', definitions'');
  }

  /** A program is met, its includes are walked, and its definitions follow. */
  lemma TourOfProgram(
    w: World, p: Program, programs: seq<ProgramEntry>, definitions: seq<Definition>, entered: seq<ProgramEntry>,
    programs': seq<ProgramEntry>, below: seq<Definition>, definitions': seq<Definition>)
    requires w.graph.Valid() && p in w.graph.includes && p in w.definitions && p !in SourceList(programs)
    requires SourceList(entered) == SourceList(programs) + [p]
    requires Toured(w, WalkList(w.graph, w.graph.includes[p], SourceList(entered)),
      entered, definitions, programs', below)
    requires definitions' == below + ByKind(w, w.definitions[p])
    ensures Toured(w, WalkFrom(w.graph, p, SourceList(programs)), programs, definitions, programs', definitions')
  {
    var tour := WalkList(w.graph, w.graph.includes[p], SourceList(entered));
    WalkIncludes(w.graph, p, SourceList(programs));
    assert InTurn(w, []) == [] && [p][..0] == [];
    assert InTurn(w, [p]) == ByKind(w, w.definitions[p]);
    InTurnConcat(w, tour.left, [p]);
    hide InTurn, ByKind, WalkFrom, WalkList;
    ListsAfter(definitions, InTurn(w, tour.left), ByKind(w, w.definitions[p]));
  }
}
