/** Several programs under one name. The search asks the included program added
    last of those that know the key, the shared index answers with the registration
    that decides among all programs of the name, and the two agree exactly when
    that registration was made by that program. */
module SharedNames {
  import opened Wrappers
  import opened Programs
  import opened ScopeIdentifier
  import opened SymbolIndexes
  import opened Writers
  import opened NameResolution
  import opened ResolutionAgreement

  /** Every registration registers a node of its own. */
  ghost predicate NodesDiffer(run: Run) {
    forall i, j :: 0 <= i < j < |run| ==> run[i].node != run[j].node
  }

  ghost predicate AddedBy(order: map<Program, nat>, p: Program, q: Program) {
    p in order && q in order && order[p] <= order[q]
  }

  // The search through one list.

  /** Entries without alias, by falling priority, which is the place of the target in the order. */
  ghost predicate Ranked(order: map<Program, nat>, entries: seq<ScopeByPriority>) {
    && ByPriority(entries)
    && forall e :: e in entries ==> !e.IsAlias() && e.target in order && e.priority == order[e.target]
  }

  ghost predicate Targets(entries: seq<ScopeByPriority>, q: Program) {
    exists e :: e in entries && e.target == q
  }

  /** Position `j` decides the key in a listed program, and no listed program that
      knows the key was added after that one. */
  ghost predicate FoundIn(
    run: Run, order: map<Program, nat>, entries: seq<ScopeByPriority>, key: LocalKey, j: int)
  {
    && 0 <= j < |run| && Targets(entries, run[j].program) && Decides(run, Only(run[j].program), key, true, j)
    && forall e :: e in entries && Known(run, Only(e.target), key, true) ==> AddedBy(order, e.target, run[j].program)
  }

  ghost predicate NobodyKnows(run: Run, entries: seq<ScopeByPriority>, key: LocalKey) {
    forall e :: e in entries ==> !Known(run, Only(e.target), key, true)
  }

  /** The search answers with what one such position registered, or with nothing if
      no listed program knows the key. */
  lemma {:induction false} SearchDecided(
    v: View, entries: seq<ScopeByPriority>, d: string, sub: string, stop: bool) returns (found: Option<nat>)
    requires v.Valid() && Ranked(v.order, entries)
    ensures Search(entries, v.scopes, KeyOf(d, sub), stop) == Resolved(NodeAt(v.run, found), false)
    ensures if found.Some? then FoundIn(v.run, v.order, entries, KeyOf(d, sub), found.value)
      else NobodyKnows(v.run, entries, KeyOf(d, sub))
    decreases |entries|
  {
    hide View.Valid, Known, Decides, Decider, KeyOf;
    found := None;
    if entries == [] {
      return;
    }
    var e, key := entries[0], KeyOf(d, sub);
    assert e in entries && entries == [e] + entries[1..];
    IndexIsLocalAfter(v, e.target);
    LocalDecided(v.run, v.names, e.target, d, sub);
    found := Decider(v.run, Only(e.target), key, true);
    DeciderIff(v.run, Only(e.target), key, true, if found.Some? then found.value else 0);
    if found.Some? {
      DecidesOwn(v.run, e.target, key, found.value);
      TopFound(v.run, v.order, entries, key, found.value);
      return;
    }
    found := SearchDecided(v, entries[1..], d, sub, stop);
    if found.Some? {
      FoundFurther(v.run, v.order, entries, key, found.value);
    }
  }

  lemma DecidesOwn(run: Run, q: Program, key: LocalKey, j: int)
    requires Decides(run, Only(q), key, true, j)
    ensures 0 <= j < |run| && run[j].program == q
  {}

  lemma TopFound(run: Run, order: map<Program, nat>, entries: seq<ScopeByPriority>, key: LocalKey, j: int)
    requires entries != [] && Ranked(order, entries)
    requires 0 <= j < |run| && run[j].program == entries[0].target && Decides(run, Only(run[j].program), key, true, j)
    ensures FoundIn(run, order, entries, key, j)
  {
    hide Known, Decides;
    assert entries[0] in entries;
    forall e | e in entries ensures AddedBy(order, e.target, run[j].program) {
      var k :| 0 <= k < |entries| && entries[k] == e;
    }
  }

  lemma FoundFurther(run: Run, order: map<Program, nat>, entries: seq<ScopeByPriority>, key: LocalKey, j: int)
    requires entries != [] && !Known(run, Only(entries[0].target), key, true)
    requires FoundIn(run, order, entries[1..], key, j)
    ensures FoundIn(run, order, entries, key, j)
  {
    hide Known, Decides;
    assert entries == [entries[0]] + entries[1..];
    var e :| e in entries[1..] && e.target == run[j].program;
    assert e in entries;
  }

  /** Only one position is found. */
  lemma FoundOnce(run: Run, order: map<Program, nat>, entries: seq<ScopeByPriority>, key: LocalKey, i: int, j: int)
    requires OrderInjective(order)
    requires FoundIn(run, order, entries, key, i) && FoundIn(run, order, entries, key, j)
    ensures i == j
  {
    DecidesKnows(run, key, i);
    DecidesKnows(run, key, j);
    hide Known, Decides;
    var e :| e in entries && e.target == run[i].program;
    var f :| f in entries && f.target == run[j].program;
    assert AddedBy(order, run[i].program, run[j].program) && AddedBy(order, run[j].program, run[i].program);
    DecidesOnce(run, Only(run[i].program), key, true, i, j);
  }

  lemma DecidesKnows(run: Run, key: LocalKey, j: int)
    requires 0 <= j < |run| && Decides(run, Only(run[j].program), key, true, j)
    ensures Known(run, Only(run[j].program), key, true)
  {
    var who := Only(run[j].program);
    assert WritesAt(run, who, key, j) || OffersAt(run, who, key, true, j);
  }

  // Past the aliases.

  /** The entries behind the alias ones. */
  ghost function Others(entries: seq<ScopeByPriority>): seq<ScopeByPriority> {
    if entries != [] && entries[0].IsAlias() then Others(entries[1..]) else entries
  }

  lemma {:induction false} OthersAreOther(entries: seq<ScopeByPriority>)
    requires AliasesFirst(entries) && ByPriority(entries)
    ensures ByPriority(Others(entries))
    ensures forall e :: e in Others(entries) <==> e in entries && !e.IsAlias()
  {
    if entries != [] {
      assert entries == [entries[0]] + entries[1..];
      if entries[0].IsAlias() {
        OthersAreOther(entries[1..]);
      } else {
        forall e | e in entries ensures !e.IsAlias() {
          var k :| 0 <= k < |entries| && entries[k] == e;
        }
      }
    }
  }

  lemma {:induction false} SearchPastAliases(
    entries: seq<ScopeByPriority>, scopes: map<Program, LocalIndex>, key: LocalKey, stop: bool)
    requires AliasesFirst(entries)
    ensures var r := Search(entries, scopes, key, stop);
      r.viaAlias || r.node ==
        if stop && OffersAlias(entries) then None else Search(Others(entries), scopes, key, stop).node
  {
    if entries != [] {
      assert entries[0] in entries && entries == [entries[0]] + entries[1..];
      if entries[0].IsAlias() {
        SearchPastAliases(entries[1..], scopes, key, stop);
      } else {
        assert forall e :: e in entries ==> !e.IsAlias();
      }
    }
  }

  // Both resolutions in terms of the run.

  /** Every included program of that name was added to the shared scope before it was included. */
  ghost predicate AddedFirst(v: View, scope: string) {
    forall q :: q in v.inclusions.unordered ==> v.names(q) != scope
  }

  /** Position `j` decides the key in an included program of that name, added last
      of the included programs of that name that know the key. */
  ghost predicate SearchFinds(v: View, scope: string, key: LocalKey, j: int) {
    && 0 <= j < |v.run| && Includes(v, scope, v.run[j].program) && Decides(v.run, Only(v.run[j].program), key, true, j)
    && forall q :: Includes(v, scope, q) && Known(v.run, Only(q), key, true) ==> AddedBy(v.order, q, v.run[j].program)
  }

  ghost predicate SearchFindsNone(v: View, scope: string, key: LocalKey) {
    forall q :: Includes(v, scope, q) ==> !Known(v.run, Only(q), key, true)
  }

  ghost predicate Includes(v: View, scope: string, q: Program) {
    q in v.inclusions.included && v.names(q) == scope
  }

  /** The list of a scope, past the aliases, holds the included programs of that name. */
  lemma OthersListed(v: View, scope: string)
    requires v.Valid() && AddedFirst(v, scope)
    ensures var others := Others(ScopesNamed(v.available, scope));
      Ranked(v.order, others) && forall q :: Targets(others, q) <==> Includes(v, scope, q)
  {
    hide View.Valid, AddedFirst, Others, Ranked, Targets, Includes;
    OthersUnder(v, scope);
    OthersRanked(v, scope);
    forall q ensures Targets(Others(ScopesNamed(v.available, scope)), q) <==> Includes(v, scope, q) {
      OthersTarget(v, scope, q);
    }
  }

  lemma OthersUnder(v: View, scope: string)
    requires v.Valid()
    ensures var entries := ScopesNamed(v.available, scope);
      ByPriority(Others(entries)) && forall e :: e in Others(entries) <==> e in entries && !e.IsAlias()
  {
    hide View.Valid;
    EntriesUnder(v, scope);
    EntriesByPriority(v, scope);
    OthersAreOther(ScopesNamed(v.available, scope));
  }

  lemma OthersRanked(v: View, scope: string)
    requires v.Valid() && AddedFirst(v, scope)
    ensures Ranked(v.order, Others(ScopesNamed(v.available, scope)))
  {
    hide View.Valid, AddedFirst, Others, ByPriority;
    OthersUnder(v, scope);
    forall e | e in Others(ScopesNamed(v.available, scope))
      ensures e.target in v.order && e.priority == v.order[e.target]
    {
      OtherEntry(v, scope, e);
    }
  }

  lemma OthersTarget(v: View, scope: string, q: Program)
    requires v.Valid() && AddedFirst(v, scope)
    ensures Targets(Others(ScopesNamed(v.available, scope)), q) <==> Includes(v, scope, q)
  {
    hide View.Valid, AddedFirst, Others, ByPriority, Includes;
    OthersUnder(v, scope);
    if e :| e in Others(ScopesNamed(v.available, scope)) && e.target == q {
      OtherEntry(v, scope, e);
    }
    if Includes(v, scope, q) {
      IncludedIsOffered(v, scope, q);
    }
  }

  lemma EntriesByPriority(v: View, scope: string)
    requires v.Valid()
    ensures ByPriority(ScopesNamed(v.available, scope))
  {
    hide IndexesAfter, OrderInjective;
  }

  lemma OtherEntry(v: View, scope: string, e: ScopeByPriority)
    requires v.Valid() && AddedFirst(v, scope) && e in ScopesNamed(v.available, scope) && !e.IsAlias()
    ensures e.target in v.order && e.priority == v.order[e.target] && Includes(v, scope, e.target)
  {
    hide IndexesAfter, OrderInjective, ByPriority;
    assert EntrySound(v.names, v.order, v.inclusions, scope, e);
  }

  lemma IncludedIsOffered(v: View, scope: string, q: Program)
    requires v.Valid() && Includes(v, scope, q)
    ensures Offers(ScopesNamed(v.available, scope), q)
  {
    hide IndexesAfter, OrderInjective, ByPriority;
  }

  /** A search that no alias answers ends at the one position it finds. */
  lemma SearchIs(v: View, scope: string, d: string, sub: string, stop: bool) returns (found: Option<nat>)
    requires v.Valid() && AddedFirst(v, scope)
    ensures var r := Search(ScopesNamed(v.available, scope), v.scopes, KeyOf(d, sub), stop);
      r.viaAlias || r.node == NodeAt(v.run, found)
    ensures if stop && scope in v.inclusions.aliases then found == None
      else if found.Some? then
        && found.value < |v.run| && !SearchFindsNone(v, scope, KeyOf(d, sub))
        && forall j :: SearchFinds(v, scope, KeyOf(d, sub), j) <==> j == found.value
      else SearchFindsNone(v, scope, KeyOf(d, sub)) && forall j :: !SearchFinds(v, scope, KeyOf(d, sub), j)
  {
    var entries, key := ScopesNamed(v.available, scope), KeyOf(d, sub);
    EntriesUnder(v, scope);
    SearchPastAliases(entries, v.scopes, key, stop);
    OthersListed(v, scope);
    assert OrderInjective(v.order);
    hide View.Valid, Others, Ranked, Search, AliasesFirst, KeyOf, OrderInjective;
    if stop && scope in v.inclusions.aliases {
      return None;
    }
    var others := Others(entries);
    found := SearchDecided(v, others, d, sub, stop);
    SameFinds(v, others, scope, key);
    assert found.Some? ==> found.value < |v.run|;
    hide SearchFinds, SearchFindsNone, FoundIn, NobodyKnows, Targets, Includes;
    if found.Some? {
      if SearchFindsNone(v, scope, key) {
        NothingFound(v, scope, key, found.value);
      }
      forall j | FoundIn(v.run, v.order, others, key, j) ensures j == found.value {
        FoundOnce(v.run, v.order, others, key, found.value, j);
      }
    } else {
      forall j ensures !SearchFinds(v, scope, key, j) {
        NothingFound(v, scope, key, j);
      }
    }
  }

  lemma SameFinds(v: View, others: seq<ScopeByPriority>, scope: string, key: LocalKey)
    requires forall q :: Targets(others, q) <==> Includes(v, scope, q)
    ensures forall j :: FoundIn(v.run, v.order, others, key, j) <==> SearchFinds(v, scope, key, j)
    ensures NobodyKnows(v.run, others, key) <==> SearchFindsNone(v, scope, key)
  {
    hide Known, Decides, Includes;
    assert forall e :: e in others ==> Targets(others, e.target);
  }

  lemma NothingFound(v: View, scope: string, key: LocalKey, j: int)
    requires SearchFindsNone(v, scope, key)
    ensures !SearchFinds(v, scope, key, j)
  {
    if SearchFinds(v, scope, key, j) {
      DecidesKnows(v.run, key, j);
    }
  }

  /** The registration whose node the shared index answers with. */
  ghost function GlobalPosition(v: View, id: Identifier): Option<nat> {
    var here := v.names(v.p);
    match id
    case Unscoped(n) => Decider(v.run, Bearing(v.names, here), KeyOf(n, ""), false)
    case Scoped(s, n) =>
      var there := Decider(v.run, Bearing(v.names, s), KeyOf(n, ""), false);
      if there.Some? then there else Decider(v.run, Bearing(v.names, here), KeyOf(s, n), false)
    case EnumValue(s, e, n) => Decider(v.run, Bearing(v.names, s), KeyOf(e, n), false)
  }

  /** The registration of the program's own that answers, before any scope is searched. */
  ghost function OwnPosition(v: View, id: Identifier): Option<nat> {
    match id
    case Unscoped(n) => Decider(v.run, Only(v.p), KeyOf(n, ""), true)
    case Scoped(s, n) => if n == "" then None else Decider(v.run, Only(v.p), KeyOf(s, n), true)
    case EnumValue(_, _, _) => None
  }

  /** The registration that the shared index answers with is the one that answers
      locally: the program's own, or else the one the search finds. */
  ghost predicate Aligned(v: View, id: Identifier) {
    var global, own := GlobalPosition(v, id), OwnPosition(v, id);
    match id
    case Unscoped(_) => if global.Some? then v.run[global.value].program == v.p else own.None?
    case Scoped(s, n) =>
      if own.Some? then own == global
      else if s in v.inclusions.aliases then global.None?
      else if global.Some? then SearchFinds(v, s, KeyOf(n, ""), global.value)
      else SearchFindsNone(v, s, KeyOf(n, ""))
    case EnumValue(s, e, n) =>
      if n == "" then global.None?
      else if global.Some? then SearchFinds(v, s, KeyOf(e, n), global.value)
      else SearchFindsNone(v, s, KeyOf(e, n))
  }

  lemma GlobalIs(v: View, id: Identifier)
    requires v.Valid()
    ensures v.Global(id) == NodeAt(v.run, GlobalPosition(v, id))
  {
    hide Decider, GlobalAfter;
    var here := v.names(v.p);
    match id
    case Unscoped(n) => GlobalDecided(v.run, v.names, here, n, "");
    case Scoped(s, n) =>
      GlobalDecided(v.run, v.names, s, n, "");
      GlobalDecided(v.run, v.names, here, s, n);
    case EnumValue(s, e, n) => GlobalDecided(v.run, v.names, s, e, n);
  }

  lemma OwnIs(v: View, d: string, sub: string)
    requires v.Valid()
    ensures Get(IndexOf(v.scopes, v.p), KeyOf(d, sub)) == NodeAt(v.run, Decider(v.run, Only(v.p), KeyOf(d, sub), true))
  {
    IndexIsLocalAfter(v, v.p);
    LocalDecided(v.run, v.names, v.p, d, sub);
  }

  lemma NoOwnEmpty(v: View, s: string)
    requires v.Valid()
    ensures LocalKey(s, Some("")) !in IndexOf(v.scopes, v.p)
  {
    IndexIsLocalAfter(v, v.p);
    NoEmptySubdefinition(v.run, v.names, v.p, s);
  }

  /** The registration that answers locally, if no alias does, and when it is the
      one that the shared index answers with. */
  lemma LocalIs(v: View, id: Identifier) returns (at: Option<nat>)
    requires v.Valid() && (!id.Unscoped? ==> AddedFirst(v, id.scope))
    ensures v.Local(id).viaAlias || v.Local(id).node == NodeAt(v.run, at)
    ensures at == GlobalPosition(v, id) <==> Aligned(v, id)
    ensures at.Some? ==> at.value < |v.run|
  {
    hide View.Valid, Search, SearchFinds, SearchFindsNone, Decider;
    match id
    case Unscoped(n) =>
      OwnIs(v, n, "");
      at := OwnPosition(v, id);
      UnscopedAligned(v, n);
    case Scoped(s, n) =>
      OwnIs(v, s, n);
      NoOwnEmpty(v, s);
      at := OwnPosition(v, id);
      if at.None? {
        at := SearchIs(v, s, n, "", true);
      }
    case EnumValue(s, e, n) =>
      if n == "" {
        EmptySubNotFound(v, s, e, false);
        at := None;
      } else {
        at := SearchIs(v, s, e, n, false);
      }
  }

  lemma UnscopedAligned(v: View, n: string)
    ensures OwnPosition(v, Unscoped(n)) == GlobalPosition(v, Unscoped(n)) <==> Aligned(v, Unscoped(n))
  {
    var key, bearing := KeyOf(n, ""), Bearing(v.names, v.names(v.p));
    var own, global := OwnPosition(v, Unscoped(n)), GlobalPosition(v, Unscoped(n));
    DeciderIff(v.run, Only(v.p), key, true, if own.Some? then own.value else 0);
    DeciderIff(v.run, bearing, key, false, if global.Some? then global.value else 0);
    if global.Some? {
      DecidesAlone(v.run, bearing, key, global.value);
      DeciderIff(v.run, Only(v.p), key, true, global.value);
      if own.Some? {
        DecidesOwn(v.run, v.p, key, own.value);
      }
    }
  }

  /** Whatever names the programs bear and whatever is included, an identifier is
      resolved through an alias, or the same both ways exactly when it is aligned. */
  lemma SharedNameAgreesIff(v: View, id: Identifier)
    requires v.Valid() && NodesDiffer(v.run) && (!id.Unscoped? ==> AddedFirst(v, id.scope))
    ensures v.Local(id).viaAlias || (v.Local(id).node == v.Global(id) <==> Aligned(v, id))
  {
    GlobalIs(v, id);
    var at := LocalIs(v, id);
    var global := GlobalPosition(v, id);
    PositionsInRun(v, id);
    hide View.Valid, View.Local, View.Global, Aligned, GlobalPosition;
  }

  lemma PositionsInRun(v: View, id: Identifier)
    ensures GlobalPosition(v, id).Some? ==> GlobalPosition(v, id).value < |v.run|
  {}

  /** An aligned identifier resolves the same even if nodes are registered twice. */
  lemma AlignedAgrees(v: View, id: Identifier)
    requires v.Valid() && (!id.Unscoped? ==> AddedFirst(v, id.scope)) && Aligned(v, id)
    ensures v.Local(id).viaAlias || v.Local(id).node == v.Global(id)
  {
    GlobalIs(v, id);
    var at := LocalIs(v, id);
  }

  /** The key under which the programs of the scope hold what the identifier names. */
  function KeyNamed(id: Identifier): LocalKey {
    var (definition, sub) := Unscope(id);
    KeyOf(definition, sub)
  }

  /** What that means for an identifier that is no enum value of the program itself
      and that position `j` decides among all programs of its scope: the deciding
      program is included, and of the included ones that know the key it was added last. */
  lemma AlignedWithDecider(v: View, id: Identifier, j: nat)
    requires !id.Unscoped? && id.scope !in v.inclusions.aliases
    requires OwnPosition(v, id).None? && (id.EnumValue? ==> id.valueName != "")
    requires Decides(v.run, Bearing(v.names, id.scope), KeyNamed(id), false, j)
    ensures j < |v.run|
    ensures Aligned(v, id) <==>
      && v.run[j].program in v.inclusions.included
      && forall q :: Includes(v, id.scope, q) && Known(v.run, Only(q), KeyNamed(id), true) ==>
           AddedBy(v.order, q, v.run[j].program)
  {
    DeciderIff(v.run, Bearing(v.names, id.scope), KeyNamed(id), false, j);
    DecidesAlone(v.run, Bearing(v.names, id.scope), KeyNamed(id), j);
    DecidesInGroup(v.run, v.names, id.scope, KeyNamed(id), j);
    hide Decider, Decides, Known;
    assert GlobalPosition(v, id) == Some(j);
  }

  lemma DecidesInGroup(run: Run, names: Names, scope: string, key: LocalKey, j: int)
    requires Decides(run, Bearing(names, scope), key, false, j)
    ensures 0 <= j < |run| && names(run[j].program) == scope
  {}

  // Programs that register one after the other.

  /** No program named `scope` offers the name as a bare enum value. */
  ghost predicate NotABareValue(run: Run, names: Names, scope: string, key: LocalKey) {
    forall r :: r in run && names(r.program) == scope ==> !OffersBare(r, key, true)
  }

  /** The programs named `scope` register one after the other, in the order in which they were added. */
  ghost predicate InBlocks(run: Run, names: Names, order: map<Program, nat>, scope: string) {
    forall i, j :: 0 <= i < j < |run| && names(run[i].program) == scope && names(run[j].program) == scope ==>
      AddedBy(order, run[i].program, run[j].program)
  }

  /** Every program named `scope` that registers anything is included without
      alias, and was added to the shared scope before it was included. */
  ghost predicate IncludedInOrder(v: View, scope: string) {
    && scope !in v.inclusions.aliases && AddedFirst(v, scope)
    && forall r :: r in v.run && v.names(r.program) == scope ==> r.program in v.inclusions.included
  }

  /** No enum of the program itself competes for the identifier. */
  ghost predicate Uncontested(v: View, id: Identifier) {
    match id
    case EnumValue(_, _, n) => n != ""
    case Scoped(s, n) => LocalKey(s, Some(n)) !in IndexOf(v.scopes, v.p) && GlobalKey(v.names(v.p), s, n) !in v.global
    case Unscoped(_) => true
  }

  /** Then an uncontested identifier that is no bare value resolves the same both
      ways: the last writer is the one added last. */
  lemma SharedNameAgrees(v: View, id: Identifier)
    requires v.Valid() && !id.Unscoped? && IncludedInOrder(v, id.scope) && Uncontested(v, id)
    requires InBlocks(v.run, v.names, v.order, id.scope)
    requires NotABareValue(v.run, v.names, id.scope, KeyNamed(id))
    ensures v.Local(id).node == v.Global(id) && !v.Local(id).viaAlias
  {
    BlocksAligned(v, id);
    AlignedAgrees(v, id);
    NoAliasAnswers(v, id);
  }

  lemma NoAliasAnswers(v: View, id: Identifier)
    requires v.Valid() && !id.Unscoped? && id.scope !in v.inclusions.aliases
    ensures !v.Local(id).viaAlias
  {
    var entries := ScopesNamed(v.available, id.scope);
    EntriesUnder(v, id.scope);
    hide View.Valid;
    match id
    case Scoped(s, n) => SearchWithoutAlias(entries, v.scopes, LocalKey(n, None), true);
    case EnumValue(s, e, n) => SearchWithoutAlias(entries, v.scopes, LocalKey(e, Some(n)), false);
  }

  lemma {:induction false} SearchWithoutAlias(
    entries: seq<ScopeByPriority>, scopes: map<Program, LocalIndex>, key: LocalKey, stop: bool)
    requires !OffersAlias(entries)
    ensures !Search(entries, scopes, key, stop).viaAlias
  {
    if entries != [] {
      assert entries[0] in entries;
      SearchWithoutAlias(entries[1..], scopes, key, stop);
    }
  }

  lemma BlocksAligned(v: View, id: Identifier)
    requires v.Valid() && !id.Unscoped? && IncludedInOrder(v, id.scope) && Uncontested(v, id)
    requires InBlocks(v.run, v.names, v.order, id.scope)
    requires NotABareValue(v.run, v.names, id.scope, KeyNamed(id))
    ensures Aligned(v, id)
  {
    var key, bearing := KeyNamed(id), Bearing(v.names, id.scope);
    UncontestedPositions(v, id);
    var j := Decider(v.run, bearing, key, false);
    DeciderIff(v.run, bearing, key, false, if j.Some? then j.value else 0);
    hide Decider, View.Valid, Uncontested;
    if j.Some? {
      DecidesInGroup(v.run, v.names, id.scope, key, j.value);
      LastBlock(v, id.scope, key, j.value);
      AlignedWithDecider(v, id, j.value);
    } else {
      forall q | Includes(v, id.scope, q) ensures !Known(v.run, Only(q), key, true) {
        KnownInGroup(v.run, v.names, id.scope, key, q);
      }
    }
  }

  lemma UncontestedPositions(v: View, id: Identifier)
    requires v.Valid() && !id.Unscoped? && Uncontested(v, id)
    ensures OwnPosition(v, id).None? && (id.EnumValue? ==> id.valueName != "")
    ensures GlobalPosition(v, id) == Decider(v.run, Bearing(v.names, id.scope), KeyNamed(id), false)
  {
    hide Decider;
    if id.Scoped? {
      OwnIs(v, id.scope, id.name);
      GlobalDecided(v.run, v.names, v.names(v.p), id.scope, id.name);
      PositionInRun(v.run, Only(v.p), KeyOf(id.scope, id.name), true);
      PositionInRun(v.run, Bearing(v.names, v.names(v.p)), KeyOf(id.scope, id.name), false);
    }
  }

  lemma PositionInRun(run: Run, who: Group, key: LocalKey, unnamedToo: bool)
    ensures var at := Decider(run, who, key, unnamedToo); at.Some? ==> at.value < |run|
  {}

  lemma KnownInGroup(run: Run, names: Names, scope: string, key: LocalKey, q: Program)
    requires names(q) == scope && NotABareValue(run, names, scope, key)
    requires !Known(run, Bearing(names, scope), key, false)
    ensures !Known(run, Only(q), key, true)
  {
    assert forall i :: 0 <= i < |run| ==> run[i] in run;
    assert forall i :: WritesAt(run, Only(q), key, i) ==> WritesAt(run, Bearing(names, scope), key, i);
  }

  /** With blocks, nobody who knows the key was added after its last writer. */
  lemma LastBlock(v: View, scope: string, key: LocalKey, j: int)
    requires InBlocks(v.run, v.names, v.order, scope) && NotABareValue(v.run, v.names, scope, key)
    requires Decides(v.run, Bearing(v.names, scope), key, false, j)
    requires v.Valid() && IncludedInOrder(v, scope)
    ensures 0 <= j < |v.run| && v.run[j].program in v.inclusions.included
    ensures forall q :: Includes(v, scope, q) && Known(v.run, Only(q), key, true) ==>
      AddedBy(v.order, q, v.run[j].program)
  {
    hide View.Valid;
    var bearing := Bearing(v.names, scope);
    assert v.run[j] in v.run;
    forall q | Includes(v, scope, q) && Known(v.run, Only(q), key, true) ensures AddedBy(v.order, q, v.run[j].program) {
      var i :| WritesAt(v.run, Only(q), key, i) || OffersAt(v.run, Only(q), key, true, i);
      assert v.run[i] in v.run && WritesAt(v.run, bearing, key, i);
      assert i <= j;
      IncludedIsPlaced(v, scope, q);
    }
  }

  lemma IncludedIsPlaced(v: View, scope: string, q: Program)
    requires v.Valid() && AddedFirst(v, scope) && Includes(v, scope, q)
    ensures q in v.order
  {
    hide View.Valid, AddedFirst;
    IncludedIsOffered(v, scope, q);
    var e :| e in ScopesNamed(v.available, scope) && e.target == q && !e.IsAlias();
    OtherEntry(v, scope, e);
  }

  // A program that includes another of its own name.

  /** Programs 1 and 2 share a name and are both included by program 0. The first
      was added first, because its parsing was under way when the second was added,
      and for the same reason it registers last. */
  ghost function Nested(names: Names, scope: string, inner: Node, outer: Node): View {
    var run := [Definition(2, "T", inner), Definition(1, "T", outer)];
    View(names, run, map[1 := LocalAfter(run, names, 1), 2 := LocalAfter(run, names, 2)], GlobalAfter(run, names),
      map[1 := 0, 2 := 1], 0, map[scope := [ScopeByPriority(2, 1), ScopeByPriority(1, 0)]],
      Inclusions({1, 2}, {}, map[]))
  }

  /** The search answers with the inner one, the shared index with the outer. */
  lemma NestedProgramsDisagree(names: Names, scope: string, inner: Node, outer: Node)
    requires names(1) == scope && names(2) == scope && names(0) != scope && inner != outer
    ensures var v := Nested(names, scope, inner, outer);
      && v.Valid() && v.Local(Scoped(scope, "T")) == Resolved(Some(inner), false)
      && v.Global(Scoped(scope, "T")) == Some(outer)
  {
    var v := Nested(names, scope, inner, outer);
    NestedValid(names, scope, inner, outer);
    var run, init := v.run, v.run[..1];
    assert init == [Definition(2, "T", inner)] && init[..0] == [];
    assert LocalAfter([], names, 2) == map[] && GlobalAfter([], names) == map[];
    assert LocalAfter(init, names, 2) == map[LocalKey("T", None) := inner];
    assert LocalAfter(run, names, 2) == LocalAfter(init, names, 2);
    assert GlobalAfter(run, names) == GlobalAfter(init, names)[GlobalKey(scope, "T", "") := outer];
    hide LocalAfter, GlobalAfter;
    assert IndexOf(v.scopes, 0) == map[];
  }

  lemma NestedValid(names: Names, scope: string, inner: Node, outer: Node)
    requires names(1) == scope && names(2) == scope
    ensures Nested(names, scope, inner, outer).Valid()
  {
    var v := Nested(names, scope, inner, outer);
    NestedScopes(names, scope);
    NestedOrder();
    NestedIndexes(names, v.run, LocalAfter(v.run, names, 1), LocalAfter(v.run, names, 2));
    hide LocalAfter, GlobalAfter, OrderInjective, ScopesSound, IndexesAfter;
  }

  lemma NestedIndexes(names: Names, run: Run, one: LocalIndex, two: LocalIndex)
    requires one == LocalAfter(run, names, 1) && two == LocalAfter(run, names, 2)
    requires forall r :: r in run ==> r.program == 1 || r.program == 2
    ensures IndexesAfter(run, names, map[1 := one, 2 := two], GlobalAfter(run, names))
  {
    hide LocalAfter, GlobalAfter;
  }

  lemma NestedOrder()
    ensures OrderInjective(map[1 := 0, 2 := 1])
  {
    assert |map[1 := 0, 2 := 1]| == 2;
  }

  lemma NestedScopes(names: Names, scope: string)
    requires names(1) == scope && names(2) == scope
    ensures ScopesSound(names, map[1 := 0, 2 := 1],
      map[scope := [ScopeByPriority(2, 1), ScopeByPriority(1, 0)]], Inclusions({1, 2}, {}, map[]))
  {
    var entries := [ScopeByPriority(2, 1), ScopeByPriority(1, 0)];
    assert entries[0] in entries && entries[1] in entries;
    assert Offers(entries, 1) && Offers(entries, 2);
  }
}
