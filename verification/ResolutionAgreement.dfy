/** When the program's own resolution and the shared index give the same answer. */
module ResolutionAgreement {
  import opened Wrappers
  import opened Programs
  import opened ScopeIdentifier
  import opened SymbolIndexes
  import opened NameResolution

  /** The symbol state as seen from program `p`. */
  datatype View = View(
    names: Names, run: Run, scopes: map<Program, LocalIndex>, global: GlobalIndex, order: map<Program, nat>,
    p: Program, available: Available, inclusions: Inclusions)
  {
    ghost predicate Valid() {
      && IndexesAfter(run, names, scopes, global)
      && OrderInjective(order)
      && ScopesSound(names, order, available, inclusions)
    }

    ghost function Local(id: Identifier): Resolved {
      FindById(p, available, scopes, id)
    }

    ghost function Global(id: Identifier): Option<Node> {
      FindGlobalById(names(p), global, id)
    }

    /** Programs that register, are included or do the looking up. */
    ghost function Programs(): set<Program> {
      scopes.Keys + inclusions.included + {p}
    }

    /** No two programs bear the same name. */
    ghost predicate NamesDistinct() {
      forall q, r :: q in Programs() && r in Programs() && names(q) == names(r) ==> q == r
    }

    ghost predicate Includes(scope: string) {
      exists q :: q in inclusions.included && names(q) == scope
    }
  }

  /** What a caller can check before resolving: no definition of a program that
      was not included, or is hidden behind an alias, is named, no enum of the
      program competes with a program of the same name, and a part left empty
      finds the same in both indexes. */
  ghost predicate Agreeable(v: View, id: Identifier) {
    match id
    case Unscoped(n) => n != "" || DefinesEmpty(v.run, v.p) || !HasUnnamedValue(v.run, v.p)
    case Scoped(s, n) =>
      var own := Get(IndexOf(v.scopes, v.p), LocalKey(s, Some(n)));
      var there := Get(v.global, GlobalKey(s, n, ""));
      if there.Some? then own == there || (own.None? && v.Includes(s) && s !in v.inclusions.aliases)
      else n != "" || EmptyPartAgrees(v, s)
    case EnumValue(s, e, n) => GlobalKey(s, e, n) !in v.global || (n != "" && v.Includes(s))
  }

  /** `s.` means in the shared index what the program itself calls `s`, and locally
      what the included program `s` has under the empty name. */
  ghost predicate EmptyPartAgrees(v: View, s: string) {
    var meant := Get(v.global, GlobalKey(v.names(v.p), s, ""));
    if v.Includes(s) && s !in v.inclusions.aliases then
      forall q :: q in v.inclusions.included && v.names(q) == s ==>
        Get(IndexOf(v.scopes, q), LocalKey("", None)) == meant
    else meant == None
  }

  lemma {:induction false} NothingRegistered(run: Run, names: Names, q: Program)
    requires forall r :: r in run ==> r.program != q
    ensures LocalAfter(run, names, q) == map[]
  {
    if run != [] {
      var init := run[..|run| - 1];
      assert run[|run| - 1] in run && forall r :: r in init ==> r in run;
      NothingRegistered(init, names, q);
    }
  }

  lemma IndexIsLocalAfter(v: View, q: Program)
    requires v.Valid()
    ensures IndexOf(v.scopes, q) == LocalAfter(v.run, v.names, q)
  {
    if q !in v.scopes {
      NothingRegistered(v.run, v.names, q);
    }
  }

  /** Under distinct names a program's own index is the shared one's slice; under the
      empty name it may hold more. */
  lemma SliceOf(v: View, q: Program, definition: string, sub: string)
    requires v.Valid() && v.NamesDistinct() && q in v.Programs()
    ensures var there := Get(v.global, GlobalKey(v.names(q), definition, sub));
      there.Some? || ValuesNamed(v.run) || definition != "" || sub != "" ==>
        Get(IndexOf(v.scopes, q), KeyOf(definition, sub)) == there
  {
    IndexIsLocalAfter(v, q);
    assert NameUnique(v.run, v.names, q);
    if definition == "" && sub == "" {
      EmptyNameAfter(v.run, v.names, q);
    } else {
      LocalIsGlobalSlice(v.run, v.names, q, definition, sub);
    }
  }

  /** The entries are the alias ones, then the others. */
  ghost predicate AliasesFirst(entries: seq<ScopeByPriority>) {
    forall i, j :: 0 <= i < j < |entries| && entries[j].IsAlias() ==> entries[i].IsAlias()
  }

  /** A search that meets the same answer in every entry but the alias ones either
      succeeds through an alias or gives that answer; it gives none when an alias
      stopped it. */
  lemma {:induction false} SearchAmongEqual(
    entries: seq<ScopeByPriority>, scopes: map<Program, LocalIndex>, key: LocalKey, stop: bool, found: Option<Node>)
    requires AliasesFirst(entries)
    requires forall e :: e in entries && !e.IsAlias() ==> Get(IndexOf(scopes, e.target), key) == found
    ensures var r := Search(entries, scopes, key, stop);
      if r.viaAlias then OffersAlias(entries)
      else r.node == if (stop && OffersAlias(entries)) || !OffersOther(entries) then None else found
  {
    if entries != [] {
      assert entries[0] in entries && entries == [entries[0]] + entries[1..];
      if entries[0].IsAlias() {
        SearchAmongEqual(entries[1..], scopes, key, stop, found);
        assert OffersOther(entries) <==> OffersOther(entries[1..]);
      } else {
        assert forall e :: e in entries ==> !e.IsAlias();
        SearchAmongEqual(entries[1..], scopes, key, stop, found);
      }
    }
  }

  ghost predicate OffersOther(entries: seq<ScopeByPriority>) {
    exists e :: e in entries && !e.IsAlias()
  }

  /** Nothing is found under a key that no program's index holds. */
  lemma {:induction false} SearchForNothing(
    entries: seq<ScopeByPriority>, scopes: map<Program, LocalIndex>, key: LocalKey, stop: bool)
    requires forall e :: e in entries ==> key !in IndexOf(scopes, e.target)
    ensures Search(entries, scopes, key, stop) == NOT_FOUND
  {
    if entries != [] {
      assert entries[0] in entries;
      SearchForNothing(entries[1..], scopes, key, stop);
    }
  }

  lemma EmptySubNotFound(v: View, scope: string, definition: string, stop: bool)
    requires v.Valid()
    ensures Search(ScopesNamed(v.available, scope), v.scopes, LocalKey(definition, Some("")), stop) == NOT_FOUND
  {
    var entries := ScopesNamed(v.available, scope);
    forall e | e in entries ensures LocalKey(definition, Some("")) !in IndexOf(v.scopes, e.target) {
      IndexIsLocalAfter(v, e.target);
      NoEmptySubdefinition(v.run, v.names, e.target, definition);
    }
    SearchForNothing(entries, v.scopes, LocalKey(definition, Some("")), stop);
  }

  /** Searching under a name asks the one program that bears it, if it is included,
      unless an alias of that name answers, or stops the search. */
  lemma SearchAsksBearer(v: View, scope: string, key: LocalKey, stop: bool, q: Program)
    requires v.Valid() && v.NamesDistinct()
    requires v.Includes(scope) ==> q in v.inclusions.included && v.names(q) == scope
    ensures var r := Search(ScopesNamed(v.available, scope), v.scopes, key, stop);
      var aliased := scope in v.inclusions.aliases;
      if r.viaAlias then aliased
      else r.node == if v.Includes(scope) && !(stop && aliased) then Get(IndexOf(v.scopes, q), key) else None
  {
    var entries := ScopesNamed(v.available, scope);
    var found := Get(IndexOf(v.scopes, q), key);
    forall e | e in entries && !e.IsAlias() ensures Get(IndexOf(v.scopes, e.target), key) == found {
      assert EntrySound(v.names, v.order, v.inclusions, scope, e);
      assert e.target == q;
    }
    EntriesUnder(v, scope);
    hide View.Valid, View.NamesDistinct, IndexOf;
    SearchAmongEqual(entries, v.scopes, key, stop, found);
  }

  /** So it finds what the shared index holds under that name. */
  lemma SearchIsSlice(v: View, scope: string, definition: string, sub: string, stop: bool)
    requires v.Valid() && v.NamesDistinct()
    ensures var r := Search(ScopesNamed(v.available, scope), v.scopes, KeyOf(definition, sub), stop);
      var aliased := scope in v.inclusions.aliases;
      var there := Get(v.global, GlobalKey(scope, definition, sub));
      && (r.viaAlias ==> aliased)
      && (there.Some? || ValuesNamed(v.run) || definition != "" || sub != "" ==>
        r.viaAlias || r.node == if v.Includes(scope) && !(stop && aliased) then there else None)
  {
    var q := Bearer(v, scope);
    SearchAsksBearer(v, scope, KeyOf(definition, sub), stop, q);
    if v.Includes(scope) {
      SliceOf(v, q, definition, sub);
    }
  }

  lemma Bearer(v: View, scope: string) returns (q: Program)
    ensures v.Includes(scope) ==> q in v.inclusions.included && v.names(q) == scope
  {
    q := 0;
    if v.Includes(scope) {
      q :| q in v.inclusions.included && v.names(q) == scope;
    }
  }

  lemma EntriesUnder(v: View, scope: string)
    requires v.Valid()
    ensures var entries := ScopesNamed(v.available, scope);
      && AliasesFirst(entries)
      && (OffersAlias(entries) <==> scope in v.inclusions.aliases)
      && (OffersOther(entries) <==> v.Includes(scope))
  {
    var entries := ScopesNamed(v.available, scope);
    hide IndexesAfter, OrderInjective;
    forall e | e in entries ensures EntrySound(v.names, v.order, v.inclusions, scope, e) {}
    forall i | 0 <= i < |entries| ensures entries[i].priority <= ALIAS_PRIORITY {
      EntryPriority(v, scope, entries[i]);
    }
    if v.Includes(scope) {
      var q :| q in v.inclusions.included && v.names(q) == scope;
      assert Offers(entries, q);
    }
  }

  lemma EntryPriority(v: View, scope: string, e: ScopeByPriority)
    requires v.Valid() && e in ScopesNamed(v.available, scope)
    ensures e.priority <= ALIAS_PRIORITY
  {
    assert EntrySound(v.names, v.order, v.inclusions, scope, e);
  }

  /** With distinct program names, after every run of registrations and includes,
      an answer is reached through an alias, or the two resolutions agree exactly
      when the identifier is agreeable. */
  lemma ResolutionsAgreeIff(v: View, id: Identifier)
    requires v.Valid() && v.NamesDistinct()
    ensures v.Local(id).viaAlias || (v.Local(id).node == v.Global(id) <==> Agreeable(v, id))
    ensures v.Local(id).viaAlias ==> !id.Unscoped? && id.scope in v.inclusions.aliases
  {
    match id
    case Unscoped(n) => OwnNameAgrees(v, n);
    case Scoped(s, n) => ScopedAgreesIff(v, s, n);
    case EnumValue(s, e, n) =>
      if n == "" {
        EmptySubNotFound(v, s, e, false);
      } else {
        SearchIsSlice(v, s, e, n, false);
      }
  }

  lemma OwnNameAgrees(v: View, n: string)
    requires v.Valid() && v.NamesDistinct()
    ensures v.Local(Unscoped(n)).node == v.Global(Unscoped(n)) <==> Agreeable(v, Unscoped(n))
  {
    SliceOf(v, v.p, n, "");
    if n == "" {
      IndexIsLocalAfter(v, v.p);
      assert NameUnique(v.run, v.names, v.p);
      EmptyNameAgreesIff(v.run, v.names, v.p);
    }
  }

  lemma ScopedAgreesIff(v: View, s: string, n: string)
    requires v.Valid() && v.NamesDistinct()
    ensures var id := Scoped(s, n);
      && (v.Local(id).viaAlias || (v.Local(id).node == v.Global(id) <==> Agreeable(v, id)))
      && (v.Local(id).viaAlias ==> s in v.inclusions.aliases)
  {
    OwnValue(v, s, n);
    SearchIsSlice(v, s, n, "", true);
    var q := Bearer(v, s);
    SearchAsksBearer(v, s, KeyOf(n, ""), true, q);
    OneBearer(v, s, q);
    hide View.Valid, View.NamesDistinct, ValuesNamed, IndexOf, Search;
  }

  lemma OneBearer(v: View, s: string, q: Program)
    requires v.NamesDistinct() && (v.Includes(s) ==> q in v.inclusions.included && v.names(q) == s)
    ensures forall r :: r in v.inclusions.included && v.names(r) == s ==> r == q
  {}

  /** What `s.n` means as an enum value of the program itself. */
  lemma OwnValue(v: View, s: string, n: string)
    requires v.Valid() && v.NamesDistinct()
    ensures n == "" ==> LocalKey(s, Some(n)) !in IndexOf(v.scopes, v.p)
    ensures n != "" ==>
      Get(v.global, GlobalKey(v.names(v.p), s, n)) == Get(IndexOf(v.scopes, v.p), LocalKey(s, Some(n)))
  {
    SliceOf(v, v.p, s, n);
    if n == "" {
      IndexIsLocalAfter(v, v.p);
      NoEmptySubdefinition(v.run, v.names, v.p, s);
    }
  }

  // Identifiers on which the resolutions disagree.

  /** Program 0 named `p` and program 1 named `q`, seen from the first. */
  ghost function TwoPrograms(names: Names, run: Run, available: Available, included: set<Program>): View {
    View(names, run, map[0 := LocalAfter(run, names, 0), 1 := LocalAfter(run, names, 1)], GlobalAfter(run, names),
      map[1 := 0], 0, available, Inclusions(included, {}, map[]))
  }

  /** Nothing is included, or program 1 once. */
  ghost predicate ScopesOfTwo(available: Available, included: set<Program>) {
    || (available == map[] && included == {})
    || (available == map["q" := [ScopeByPriority(1, 0)]] && included == {1})
  }

  lemma TwoProgramsValid(names: Names, run: Run, available: Available, included: set<Program>)
    requires names(0) == "p" && names(1) == "q" && forall r :: r in run ==> r.program <= 1
    requires ScopesOfTwo(available, included)
    ensures var v := TwoPrograms(names, run, available, included); v.Valid() && v.NamesDistinct()
  {
    TwoProgramsScopes(names, available, included);
    OneProgramOrdered(1);
    TwoIndexes(names, run, LocalAfter(run, names, 0), LocalAfter(run, names, 1));
    hide LocalAfter, GlobalAfter, OrderInjective, ScopesSound, IndexesAfter;
    var v := TwoPrograms(names, run, available, included);
    assert v.Programs() <= {0, 1};
  }

  lemma TwoIndexes(names: Names, run: Run, zero: LocalIndex, one: LocalIndex)
    requires zero == LocalAfter(run, names, 0) && one == LocalAfter(run, names, 1)
    requires forall r :: r in run ==> r.program <= 1
    ensures IndexesAfter(run, names, map[0 := zero, 1 := one], GlobalAfter(run, names))
  {
    hide LocalAfter, GlobalAfter;
    var scopes: map<Program, LocalIndex> := map[0 := zero, 1 := one];
    assert forall r :: r in run ==> r.program == 0 || r.program == 1;
    assert forall p :: p in scopes ==> p == 0 || p == 1;
  }

  lemma OneProgramOrdered(q: Program)
    ensures OrderInjective(map[q := 0])
  {
    assert |map[q := 0]| == 1;
  }

  lemma TwoProgramsScopes(names: Names, available: Available, included: set<Program>)
    requires names(1) == "q"
    requires ScopesOfTwo(available, included)
    ensures ScopesSound(names, map[1 := 0], available, Inclusions(included, {}, map[]))
  {
    if included == {1} {
      assert ScopeByPriority(1, 0) in available["q"];
      assert Offers(ScopesNamed(available, "q"), 1);
    }
  }

  /** A definition of a program that is not included is found by the shared index only. */
  lemma NotIncludedDisagrees(names: Names, n: Node)
    requires names(0) == "p" && names(1) == "q"
    ensures var v := TwoPrograms(names, [Definition(1, "T", n)], map[], {});
      && v.Valid() && v.NamesDistinct()
      && v.Local(Scoped("q", "T")) == NOT_FOUND && v.Global(Scoped("q", "T")) == Some(n)
  {
    var run := [Definition(1, "T", n)];
    TwoProgramsValid(names, run, map[], {});
    assert run[..0] == [] && LocalAfter([], names, 0) == map[] && GlobalAfter([], names) == map[];
  }

  /** An enum of the program named like an included program is preferred by the
      program and not by the shared index. */
  lemma OwnEnumDisagrees(names: Names, x: Node, y: Node)
    requires names(0) == "p" && names(1) == "q" && x != y
    ensures var run := [Definition(1, "T", x), EnumDefinition(0, "q", "T", y)];
      var v := TwoPrograms(names, run, map["q" := [ScopeByPriority(1, 0)]], {1});
      && v.Valid() && v.NamesDistinct()
      && v.Local(Scoped("q", "T")) == Resolved(Some(y), false) && v.Global(Scoped("q", "T")) == Some(x)
  {
    var run := [Definition(1, "T", x), EnumDefinition(0, "q", "T", y)];
    TwoProgramsValid(names, run, map["q" := [ScopeByPriority(1, 0)]], {1});
    OwnEnumIndexes(names, x, y);
    hide LocalAfter, GlobalAfter, View.Valid, View.NamesDistinct, Search;
  }

  lemma OwnEnumIndexes(names: Names, x: Node, y: Node)
    requires names(0) == "p" && names(1) == "q"
    ensures var run := [Definition(1, "T", x), EnumDefinition(0, "q", "T", y)];
      && Get(LocalAfter(run, names, 0), LocalKey("q", Some("T"))) == Some(y)
      && Get(GlobalAfter(run, names), GlobalKey("q", "T", "")) == Some(x)
  {
    var run := [Definition(1, "T", x), EnumDefinition(0, "q", "T", y)];
    var init := run[..1];
    assert init == [Definition(1, "T", x)] && init[..0] == [];
    assert LocalAfter(run, names, 0) == LocalStep(LocalAfter(init, names, 0), "p", run[1]);
    assert GlobalAfter(run, names) == GlobalStep(GlobalAfter(init, names), "p", run[1]);
    assert GlobalAfter(init, names) == GlobalStep(GlobalAfter([], names), "q", run[0]);
    hide LocalAfter, GlobalAfter;
  }

  /** `A.` names nothing locally, but the shared index answers with the program's
      own definition `A`. */
  lemma EmptyLastPartDisagrees(v: View, s: string)
    requires v.Valid() && v.NamesDistinct() && ValuesNamed(v.run) && s !in v.inclusions.aliases
    requires LocalKey(s, None) in IndexOf(v.scopes, v.p)
    requires GlobalKey(s, "", "") !in v.global
    ensures v.Local(Scoped(s, "")).node == None && v.Global(Scoped(s, "")).Some?
  {
    OwnValue(v, s, "");
    SliceOf(v, v.p, s, "");
    SearchIsSlice(v, s, "", "", true);
  }
}
