/** The two symbol indexes as functions of the registrations made so far: the
    index each program keeps for itself (thrift/compiler/ast/program_scope.h) and the flat
    index shared by all (thrift/compiler/ast/t_global_scope.cc). */
module SymbolIndexes {
  import opened Wrappers
  import opened Programs
  import opened ScopeIdentifier

  /** Addresses of definition nodes. */
  type Node = nat

  datatype LocalKey = LocalKey(definition: string, subdefinition: Option<string>)
  datatype GlobalKey = GlobalKey(scope: string, name: string, valueName: string)
  type LocalIndex = map<LocalKey, Node>
  type GlobalIndex = map<GlobalKey, Node>

  /** One call of `t_program::add_definition` or `t_program::add_enum_definition`. */
  datatype Registration =
    | Definition(program: Program, name: string, node: Node)
    | EnumDefinition(program: Program, enumName: string, valueName: string, node: Node)

  function KeyOf(definition: string, sub: string): LocalKey {
    LocalKey(definition, if sub == "" then None else Some(sub))
  }

  /** `program_scope::add_definition`. */
  function AddLocal(m: LocalIndex, id: Identifier, node: Node): LocalIndex {
    var (definition, sub) := Unscope(id);
    var m' := m[KeyOf(definition, sub) := node];
    if id.EnumValue? && LocalKey(id.valueName, None) !in m'
    then m'[LocalKey(id.valueName, None) := node]
    else m'
  }

  /** `t_global_scope::add_definition`. */
  function AddGlobal(g: GlobalIndex, scope: string, name: string, valueName: string, node: Node): GlobalIndex {
    var g' :=
      if valueName != "" && GlobalKey(scope, valueName, "") !in g
      then g[GlobalKey(scope, valueName, "") := node]
      else g;
    g'[GlobalKey(scope, name, valueName) := node]
  }

  function LocalStep(m: LocalIndex, name: string, r: Registration): LocalIndex {
    match r
    case Definition(_, n, node) => AddLocal(m, Scoped(name, n), node)
    case EnumDefinition(_, e, v, node) => AddLocal(m, EnumValue(name, e, v), node)
  }

  function GlobalStep(g: GlobalIndex, name: string, r: Registration): GlobalIndex {
    match r
    case Definition(_, n, node) => AddGlobal(g, name, n, "", node)
    case EnumDefinition(_, e, v, node) => AddGlobal(g, name, e, v, node)
  }

  type Names = Program -> string
  type Run = seq<Registration>

  /** A program's own index after a run of registrations. */
  function LocalAfter(run: Run, names: Names, p: Program): LocalIndex {
    if run == [] then map[] else
      var r := run[|run| - 1];
      var before := LocalAfter(run[..|run| - 1], names, p);
      if r.program == p then LocalStep(before, names(p), r) else before
  }

  /** The shared index after a run of registrations. */
  function GlobalAfter(run: Run, names: Names): GlobalIndex {
    if run == [] then map[] else
      var r := run[|run| - 1];
      GlobalStep(GlobalAfter(run[..|run| - 1], names), names(r.program), r)
  }

  /** Enum values are registered under a non-empty name. */
  ghost predicate ValuesNamed(run: Run) {
    forall r :: r in run && r.EnumDefinition? ==> r.valueName != ""
  }

  /** No other program of the run has the name of `p`. */
  ghost predicate NameUnique(run: Run, names: Names, p: Program) {
    forall r :: r in run && names(r.program) == names(p) ==> r.program == p
  }

  /** After every run, a program with a unique name finds in its own index exactly
      what the shared index holds under that name; the empty name is apart. */
  lemma {:induction false} LocalIsGlobalSlice(run: Run, names: Names, p: Program, definition: string, sub: string)
    requires NameUnique(run, names, p) && (definition != "" || sub != "")
    ensures Get(LocalAfter(run, names, p), KeyOf(definition, sub))
         == Get(GlobalAfter(run, names), GlobalKey(names(p), definition, sub))
  {
    if run != [] {
      var r := run[|run| - 1];
      var init := run[..|run| - 1];
      assert r in run && run == init + [r];
      LocalIsGlobalSlice(init, names, p, definition, sub);
      if r.program == p && r.EnumDefinition? && r.valueName != "" {
        LocalIsGlobalSlice(init, names, p, r.valueName, "");
      }
    }
  }

  /** The key a registration assigns outright. */
  function MainKey(r: Registration): LocalKey {
    match r
    case Definition(_, n, _) => KeyOf(n, "")
    case EnumDefinition(_, e, v, _) => KeyOf(e, v)
  }

  /** Program `p` defined something under the empty name. */
  ghost predicate DefinesEmpty(run: Run, p: Program) {
    exists r :: r in run && r.program == p && MainKey(r) == KeyOf("", "")
  }

  /** Program `p` registered an enum value without a name. */
  ghost predicate HasUnnamedValue(run: Run, p: Program) {
    exists r :: r in run && r.program == p && r.EnumDefinition? && r.valueName == ""
  }

  /** Under the empty name the two indexes agree exactly when something was defined
      there or no enum value is unnamed: an unnamed value enters the program's own
      index as a bare name and the shared one not at all. */
  lemma EmptyNameAgreesIff(run: Run, names: Names, p: Program)
    requires NameUnique(run, names, p)
    ensures Get(LocalAfter(run, names, p), KeyOf("", "")) == Get(GlobalAfter(run, names), GlobalKey(names(p), "", ""))
      <==> DefinesEmpty(run, p) || !HasUnnamedValue(run, p)
  {
    EmptyNameAfter(run, names, p);
  }

  lemma {:induction false} EmptyNameAfter(run: Run, names: Names, p: Program)
    requires NameUnique(run, names, p)
    ensures var here := Get(LocalAfter(run, names, p), KeyOf("", ""));
      var there := Get(GlobalAfter(run, names), GlobalKey(names(p), "", ""));
      && (there.Some? <==> DefinesEmpty(run, p))
      && (there.Some? ==> here == there)
      && (there.None? ==> (here.Some? <==> HasUnnamedValue(run, p)))
  {
    if run != [] {
      var r, init := run[|run| - 1], run[..|run| - 1];
      assert run == init + [r] && r in run;
      EmptyNameAfter(init, names, p);
      PropertiesOfLast(init, r, p);
      EmptyNameStep(LocalAfter(init, names, p), GlobalAfter(init, names), names(p), r, names(r.program));
      hide DefinesEmpty, HasUnnamedValue, LocalStep, GlobalStep;
    }
  }

  /** What one registration does under the empty name. */
  lemma EmptyNameStep(m: LocalIndex, g: GlobalIndex, name: string, r: Registration, owner: string)
    ensures Get(LocalStep(m, name, r), KeyOf("", "")) ==
      if MainKey(r) == KeyOf("", "") then Some(r.node)
      else if r.EnumDefinition? && r.valueName == "" && KeyOf("", "") !in m then Some(r.node)
      else Get(m, KeyOf("", ""))
    ensures Get(GlobalStep(g, owner, r), GlobalKey(name, "", "")) ==
      if owner == name && MainKey(r) == KeyOf("", "") then Some(r.node) else Get(g, GlobalKey(name, "", ""))
  {}

  lemma PropertiesOfLast(init: Run, r: Registration, p: Program)
    ensures DefinesEmpty(init + [r], p) <==> DefinesEmpty(init, p) || (r.program == p && MainKey(r) == KeyOf("", ""))
    ensures HasUnnamedValue(init + [r], p) <==>
      HasUnnamedValue(init, p) || (r.program == p && r.EnumDefinition? && r.valueName == "")
  {
    var run := init + [r];
    assert r in run && forall x :: x in run <==> x in init || x == r;
  }

  /** Nothing is ever stored in a program's own index under an empty second part. */
  lemma {:induction false} NoEmptySubdefinition(run: Run, names: Names, p: Program, definition: string)
    ensures LocalKey(definition, Some("")) !in LocalAfter(run, names, p)
  {
    if run != [] {
      NoEmptySubdefinition(run[..|run| - 1], names, p, definition);
    }
  }

  /** A name that no program of the run bears has no entry in the shared index. */
  lemma {:induction false} UnknownScopeIsEmpty(run: Run, names: Names, scope: string, name: string, valueName: string)
    requires forall r :: r in run ==> names(r.program) != scope
    ensures GlobalKey(scope, name, valueName) !in GlobalAfter(run, names)
  {
    if run != [] {
      var init := run[..|run| - 1];
      assert run[|run| - 1] in run && forall r :: r in init ==> r in run;
      UnknownScopeIsEmpty(init, names, scope, name, valueName);
    }
  }

  /** The shortest run on which the two indexes disagree. */
  lemma EmptyValueNameDisagrees(names: Names, p: Program, e: string, node: Node)
    requires e != ""
    ensures var run := [EnumDefinition(p, e, "", node)];
      && Get(LocalAfter(run, names, p), KeyOf("", "")) == Some(node)
      && Get(GlobalAfter(run, names), GlobalKey(names(p), "", "")) == None
  {
    var run := [EnumDefinition(p, e, "", node)];
    assert run[..0] == [];
    assert LocalAfter([], names, p) == map[] && GlobalAfter([], names) == map[];
  }

  // Bare enum values.

  /** Too common a value name to be reported. */
  const UNKNOWN := "UNKNOWN"

  /** The value names marked as ambiguous by `program_scope::add_definition`. */
  function RedefinedAfter(run: Run, names: Names, p: Program): set<string> {
    if run == [] then {} else
      var r, init := run[|run| - 1], run[..|run| - 1];
      RedefinedAfter(init, names, p) +
      if r.program == p then NewlyRedefined(LocalAfter(init, names, p), r) else {}
  }

  /** The value name, if its bare form was taken when the value was registered. */
  function NewlyRedefined(m: LocalIndex, r: Registration): set<string> {
    if r.EnumDefinition? && LocalKey(r.valueName, None) in m[KeyOf(r.enumName, r.valueName) := r.node]
       && r.valueName != UNKNOWN
    then {r.valueName} else {}
  }

  /** The registration makes `name` available without a qualifier. */
  predicate Introduces(r: Registration, p: Program, name: string) {
    r.program == p && if r.Definition? then r.name == name else r.valueName == name
  }

  ghost predicate Introduced(run: Run, p: Program, name: string) {
    exists i :: 0 <= i < |run| && Introduces(run[i], p, name)
  }

  lemma IntroducedByLast(init: Run, r: Registration, p: Program, name: string)
    ensures Introduced(init + [r], p, name) <==> Introduced(init, p, name) || Introduces(r, p, name)
  {
    var run := init + [r];
    if Introduced(init, p, name) {
      var i :| 0 <= i < |init| && Introduces(init[i], p, name);
      assert Introduces(run[i], p, name);
    }
    if Introduces(r, p, name) {
      assert Introduces(run[|init|], p, name);
    }
  }

  lemma {:induction false} BareNameIff(run: Run, names: Names, p: Program, name: string)
    requires ValuesNamed(run)
    ensures LocalKey(name, None) in LocalAfter(run, names, p) <==> Introduced(run, p, name)
  {
    if run != [] {
      var r, init := run[|run| - 1], run[..|run| - 1];
      assert r in run && run == init + [r];
      BareNameIff(init, names, p, name);
      IntroducedByLast(init, r, p, name);
      hide Introduced, ValuesNamed;
    }
  }

  /** Position `j` registers an enum value whose bare name position `i` had introduced before. */
  ghost predicate Redefines(run: Run, p: Program, name: string, i: int, j: int) {
    && 0 <= i < j < |run|
    && run[j].EnumDefinition? && run[j].program == p && run[j].valueName == name
    && Introduces(run[i], p, name)
  }

  ghost predicate Redefined(run: Run, p: Program, name: string) {
    exists i, j :: Redefines(run, p, name, i, j)
  }

  lemma RedefinedByLast(init: Run, r: Registration, p: Program, name: string)
    ensures Redefined(init + [r], p, name) <==>
      || Redefined(init, p, name)
      || (r.EnumDefinition? && r.program == p && r.valueName == name && Introduced(init, p, name))
  {
    var run := init + [r];
    if Redefined(init, p, name) {
      var i, j :| Redefines(init, p, name, i, j);
      assert Redefines(run, p, name, i, j);
    }
    if r.EnumDefinition? && r.program == p && r.valueName == name && Introduced(init, p, name) {
      var i :| 0 <= i < |init| && Introduces(init[i], p, name);
      assert Redefines(run, p, name, i, |init|);
    }
    if Redefined(run, p, name) {
      var i, j :| Redefines(run, p, name, i, j);
      assert Introduces(init[i], p, name);
      assert j < |init| ==> Redefines(init, p, name, i, j);
    }
  }

  /** A value name is marked ambiguous exactly when it is not `UNKNOWN` and some
      enum value of that name was registered after the name had been introduced. */
  lemma {:induction false} AmbiguousIff(run: Run, names: Names, p: Program, name: string)
    requires ValuesNamed(run)
    ensures name in RedefinedAfter(run, names, p) <==> name != "UNKNOWN" && Redefined(run, p, name)
  {
    if run != [] {
      var r, init := run[|run| - 1], run[..|run| - 1];
      assert r in run && run == init + [r];
      AmbiguousIff(init, names, p, name);
      BareNameIff(init, names, p, name);
      RedefinedByLast(init, r, p, name);
      hide Redefined, Introduced, LocalAfter;
    }
  }
}
