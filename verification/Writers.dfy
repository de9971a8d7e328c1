/** Which registration of a run an index entry comes from. A registration assigns
    its own key outright, and an enum value offers its bare name besides, to be
    used as long as nobody assigns that (thrift/compiler/ast/program_scope.h and
    t_global_scope.cc). */
module Writers {
  import opened Wrappers
  import opened Programs
  import opened SymbolIndexes

  /** A group of programs: one alone, or all that bear a name. */
  type Group = Program -> bool

  function Only(p: Program): Group { (q: Program) => q == p }

  function Bearing(names: Names, name: string): Group { (q: Program) => names(q) == name }

  /** An enum value that offers the key as its bare name. The shared index leaves
      unnamed values out. */
  predicate OffersBare(r: Registration, key: LocalKey, unnamedToo: bool) {
    r.EnumDefinition? && key == LocalKey(r.valueName, None) && (unnamedToo || r.valueName != "")
  }

  ghost predicate WritesAt(run: Run, who: Group, key: LocalKey, i: int) {
    0 <= i < |run| && who(run[i].program) && MainKey(run[i]) == key
  }

  ghost predicate OffersAt(run: Run, who: Group, key: LocalKey, unnamedToo: bool, i: int) {
    0 <= i < |run| && who(run[i].program) && OffersBare(run[i], key, unnamedToo)
  }

  /** Position `j` is the last write of the key in the group or, for want of any,
      the first offer of it as a bare name. */
  ghost predicate Decides(run: Run, who: Group, key: LocalKey, unnamedToo: bool, j: int) {
    if exists i :: WritesAt(run, who, key, i) then
      WritesAt(run, who, key, j) && forall i :: WritesAt(run, who, key, i) ==> i <= j
    else
      OffersAt(run, who, key, unnamedToo, j) && forall i :: OffersAt(run, who, key, unnamedToo, i) ==> j <= i
  }

  /** Somebody in the group makes the key known. */
  ghost predicate Known(run: Run, who: Group, key: LocalKey, unnamedToo: bool) {
    exists i :: WritesAt(run, who, key, i) || OffersAt(run, who, key, unnamedToo, i)
  }

  /** The position that decides, found by following the run. */
  ghost function Decider(run: Run, who: Group, key: LocalKey, unnamedToo: bool): (r: Option<nat>)
    ensures r.Some? ==> r.value < |run|
  {
    if run == [] then None else
      var r, before := run[|run| - 1], Decider(run[..|run| - 1], who, key, unnamedToo);
      if who(r.program) && (MainKey(r) == key || (OffersBare(r, key, unnamedToo) && before.None?))
      then Some(|run| - 1) else before
  }

  function NodeAt(run: Run, at: Option<nat>): Option<Node> {
    if at.Some? && at.value < |run| then Some(run[at.value].node) else None
  }

  // The decider is the position that decides.

  lemma AtOfInit(run: Run, who: Group, key: LocalKey, unnamedToo: bool)
    requires run != []
    ensures var init := run[..|run| - 1];
      && (forall i :: WritesAt(run, who, key, i) <==>
        WritesAt(init, who, key, i) || (i == |init| && who(run[i].program) && MainKey(run[i]) == key))
      && forall i :: OffersAt(run, who, key, unnamedToo, i) <==>
        || OffersAt(init, who, key, unnamedToo, i)
        || (i == |init| && who(run[i].program) && OffersBare(run[i], key, unnamedToo))
  {}

  lemma {:induction false} DeciderDecides(run: Run, who: Group, key: LocalKey, unnamedToo: bool)
    ensures var j := Decider(run, who, key, unnamedToo);
      if j.Some? then Decides(run, who, key, unnamedToo, j.value) else !Known(run, who, key, unnamedToo)
  {
    if run != [] {
      var init := run[..|run| - 1];
      DeciderDecides(init, who, key, unnamedToo);
      AtOfInit(run, who, key, unnamedToo);
      hide WritesAt, OffersAt;
      var before := Decider(init, who, key, unnamedToo);
      if before.Some? {
        assert WritesAt(init, who, key, before.value) || OffersAt(init, who, key, unnamedToo, before.value);
      }
    }
  }

  lemma DecidesOnce(run: Run, who: Group, key: LocalKey, unnamedToo: bool, i: int, j: int)
    requires Decides(run, who, key, unnamedToo, i) && Decides(run, who, key, unnamedToo, j)
    ensures i == j
  {}

  lemma DeciderIff(run: Run, who: Group, key: LocalKey, unnamedToo: bool, j: nat)
    ensures Decider(run, who, key, unnamedToo) == Some(j) <==> Decides(run, who, key, unnamedToo, j)
    ensures Decider(run, who, key, unnamedToo).None? <==> !Known(run, who, key, unnamedToo)
  {
    DeciderDecides(run, who, key, unnamedToo);
    var k := Decider(run, who, key, unnamedToo);
    hide Decider;
    if Decides(run, who, key, unnamedToo, j) && k.Some? {
      DecidesOnce(run, who, key, unnamedToo, j, k.value);
    }
  }

  /** What decides for a group decides for its own program, too. */
  lemma DecidesAlone(run: Run, who: Group, key: LocalKey, j: int)
    requires Decides(run, who, key, false, j)
    ensures 0 <= j < |run| && Decides(run, Only(run[j].program), key, true, j)
  {
    var only := Only(run[j].program);
    assert forall i :: WritesAt(run, only, key, i) ==> WritesAt(run, who, key, i);
    if !exists i :: WritesAt(run, who, key, i) {
      assert OffersAt(run, who, key, false, j);
      assert forall i :: OffersAt(run, only, key, true, i) ==> OffersAt(run, who, key, false, i);
    } else {
      assert WritesAt(run, only, key, j);
    }
  }

  // Both indexes hold what the deciding registration registered.

  lemma StepAt(m: LocalIndex, g: GlobalIndex, r: Registration, owner: string, scope: string, d: string, sub: string)
    ensures Get(LocalStep(m, owner, r), KeyOf(d, sub)) ==
      if MainKey(r) == KeyOf(d, sub) || (OffersBare(r, KeyOf(d, sub), true) && KeyOf(d, sub) !in m)
      then Some(r.node) else Get(m, KeyOf(d, sub))
    ensures Get(GlobalStep(g, owner, r), GlobalKey(scope, d, sub)) ==
      if owner == scope && (MainKey(r) == KeyOf(d, sub) ||
          (OffersBare(r, KeyOf(d, sub), false) && GlobalKey(scope, d, sub) !in g))
      then Some(r.node) else Get(g, GlobalKey(scope, d, sub))
  {}

  lemma {:induction false} LocalDecided(run: Run, names: Names, p: Program, d: string, sub: string)
    ensures Get(LocalAfter(run, names, p), KeyOf(d, sub)) == NodeAt(run, Decider(run, Only(p), KeyOf(d, sub), true))
  {
    if run != [] {
      var r, init := run[|run| - 1], run[..|run| - 1];
      LocalDecided(init, names, p, d, sub);
      StepAt(LocalAfter(init, names, p), map[], r, names(p), "", d, sub);
      hide LocalStep, KeyOf, OffersBare, MainKey;
    }
  }

  lemma {:induction false} GlobalDecided(run: Run, names: Names, scope: string, d: string, sub: string)
    ensures Get(GlobalAfter(run, names), GlobalKey(scope, d, sub))
         == NodeAt(run, Decider(run, Bearing(names, scope), KeyOf(d, sub), false))
  {
    if run != [] {
      var r, init := run[|run| - 1], run[..|run| - 1];
      GlobalDecided(init, names, scope, d, sub);
      StepAt(map[], GlobalAfter(init, names), r, names(r.program), scope, d, sub);
      hide GlobalStep, KeyOf, OffersBare, MainKey;
    }
  }
}
