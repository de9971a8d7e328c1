/** What a program's own resolution answers, in terms of the registrations made and
    the includes alone (`find_by_id` in thrift/compiler/ast/t_program.cc). */
module LocalAnswers {
  import opened Wrappers
  import opened Programs
  import opened ScopeIdentifier
  import opened SymbolIndexes
  import opened Writers
  import opened NameResolution
  import opened ResolutionAgreement
  import opened SharedNames

  /** Program `q` knows the key, and its deciding registration made the node. */
  ghost predicate AnsweredBy(run: Run, q: Program, key: LocalKey, node: Option<Node>) {
    exists j :: 0 <= j < |run| && Decides(run, Only(q), key, true, j) && node == Some(run[j].node)
  }

  /** The program asked does not know the key and nothing is found. */
  ghost predicate AnsweredNot(run: Run, q: Program, key: LocalKey, node: Option<Node>) {
    !Known(run, Only(q), key, true) && node == None
  }

  /** The answer of the program itself. */
  ghost predicate OwnAnswer(v: View, key: LocalKey, r: Resolved) {
    && (AnsweredBy(v.run, v.p, key, r.node) || AnsweredNot(v.run, v.p, key, r.node))
    && !r.viaAlias
  }

  /** One of the programs included under the alias is asked, and nobody after it. */
  ghost predicate StoppedAtAlias(v: View, alias: string, key: LocalKey, r: Resolved) {
    exists q :: q in v.inclusions.As(alias) &&
      if r.viaAlias then AnsweredBy(v.run, q, key, r.node) else AnsweredNot(v.run, q, key, r.node)
  }

  /** One of the programs included under the alias answers. */
  ghost predicate AliasAnswer(v: View, alias: string, key: LocalKey, r: Resolved) {
    r.viaAlias && exists q :: q in v.inclusions.As(alias) && AnsweredBy(v.run, q, key, r.node)
  }

  ghost predicate AliasKnows(v: View, alias: string, key: LocalKey) {
    exists q :: q in v.inclusions.As(alias) && Known(v.run, Only(q), key, true)
  }

  /** Of the programs included by their own name, the one added last of those that
      know the key answers, if there is one. Those that were not added before would
      tie. */
  ghost predicate IncludedAnswer(v: View, scope: string, key: LocalKey, r: Resolved) {
    !r.viaAlias && (AddedFirst(v, scope) ==> LastAddedAnswers(v, scope, key, r.node))
  }

  ghost predicate LastAddedAnswers(v: View, scope: string, key: LocalKey, node: Option<Node>) {
    || (node == None && SearchFindsNone(v, scope, key))
    || exists j :: SearchFinds(v, scope, key, j) && node == Some(v.run[j].node)
  }

  /** What `r` has to be as the local answer to an identifier. */
  ghost predicate IsAnswer(v: View, id: Identifier, r: Resolved) {
    match id
    case Unscoped(n) => OwnAnswer(v, LocalKey(n, None), r)
    case Scoped(s, n) =>
      if n != "" && Known(v.run, Only(v.p), LocalKey(s, Some(n)), true) then OwnAnswer(v, LocalKey(s, Some(n)), r)
      else if v.inclusions.As(s) != {} then StoppedAtAlias(v, s, LocalKey(n, None), r)
      else IncludedAnswer(v, s, LocalKey(n, None), r)
    case EnumValue(s, e, n) =>
      if n == "" then r == NOT_FOUND
      else if AliasKnows(v, s, LocalKey(e, Some(n))) then AliasAnswer(v, s, LocalKey(e, Some(n)), r)
      else IncludedAnswer(v, s, LocalKey(e, Some(n)), r)
  }

  /** The registration that decides the key among all programs of the name made the
      node, or nobody of the name knows the key. */
  ghost predicate DecidedIn(v: View, name: string, key: LocalKey, node: Option<Node>) {
    || (node == None && !Known(v.run, Bearing(v.names, name), key, false))
    || exists j :: 0 <= j < |v.run| && Decides(v.run, Bearing(v.names, name), key, false, j) &&
         node == Some(v.run[j].node)
  }

  /** What the node has to be that the shared index answers with. */
  ghost predicate IsGlobalAnswer(v: View, id: Identifier, node: Option<Node>) {
    var here := v.names(v.p);
    match id
    case Unscoped(n) => DecidedIn(v, here, LocalKey(n, None), node)
    case Scoped(s, n) =>
      if Known(v.run, Bearing(v.names, s), LocalKey(n, None), false) then DecidedIn(v, s, LocalKey(n, None), node)
      else DecidedIn(v, here, KeyOf(s, n), node)
    case EnumValue(s, e, n) => DecidedIn(v, s, KeyOf(e, n), node)
  }

  lemma IndexDecides(v: View, name: string, d: string, sub: string)
    requires v.Valid()
    ensures var found := Get(v.global, GlobalKey(name, d, sub));
      && DecidedIn(v, name, KeyOf(d, sub), found)
      && (found.Some? <==> Known(v.run, Bearing(v.names, name), KeyOf(d, sub), false))
  {
    GlobalDecided(v.run, v.names, name, d, sub);
    var at := Decider(v.run, Bearing(v.names, name), KeyOf(d, sub), false);
    DeciderIff(v.run, Bearing(v.names, name), KeyOf(d, sub), false, if at.Some? then at.value else 0);
    hide Decides, Known, KeyOf, GlobalAfter;
  }

  /** After every run, the shared index answers what it has to. */
  lemma GlobalAnswer(v: View, id: Identifier)
    requires v.Valid()
    ensures IsGlobalAnswer(v, id, v.Global(id))
  {
    hide View.Valid, DecidedIn, Known;
    match id
    case Unscoped(n) => IndexDecides(v, v.names(v.p), n, "");
    case Scoped(s, n) =>
      IndexDecides(v, s, n, "");
      IndexDecides(v, v.names(v.p), s, n);
    case EnumValue(s, e, n) => IndexDecides(v, s, e, n);
  }

  // What one program's index holds.

  lemma IndexAnswers(v: View, q: Program, d: string, sub: string)
    requires v.Valid()
    ensures var found := Get(IndexOf(v.scopes, q), KeyOf(d, sub));
      if found.Some? then AnsweredBy(v.run, q, KeyOf(d, sub), found) && Known(v.run, Only(q), KeyOf(d, sub), true)
      else AnsweredNot(v.run, q, KeyOf(d, sub), found)
  {
    IndexIsLocalAfter(v, q);
    LocalDecided(v.run, v.names, q, d, sub);
    var at := Decider(v.run, Only(q), KeyOf(d, sub), true);
    DeciderIff(v.run, Only(q), KeyOf(d, sub), true, if at.Some? then at.value else 0);
    hide View.Valid, Decides, Known, KeyOf, LocalAfter;
  }

  // The search meets the aliases first.

  ghost predicate AliasHolds(e: ScopeByPriority, scopes: map<Program, LocalIndex>, key: LocalKey) {
    e.IsAlias() && key in IndexOf(scopes, e.target)
  }

  lemma {:induction false} SearchAmongAliases(
    entries: seq<ScopeByPriority>, scopes: map<Program, LocalIndex>, key: LocalKey)
    requires AliasesFirst(entries)
    ensures var r := Search(entries, scopes, key, false);
      if exists e :: e in entries && AliasHolds(e, scopes, key) then
        exists e :: e in entries && AliasHolds(e, scopes, key) &&
          r == Resolved(Get(IndexOf(scopes, e.target), key), true)
      else r == Search(Others(entries), scopes, key, false)
  {
    if entries != [] {
      var first, rest := entries[0], entries[1..];
      assert first in entries && entries == [first] + rest;
      if first.IsAlias() {
        SearchAmongAliases(rest, scopes, key);
        if AliasHolds(first, scopes, key) {
          return;
        }
        assert forall e :: e in entries && AliasHolds(e, scopes, key) ==> e in rest;
      } else {
        forall e | e in entries ensures !e.IsAlias() {
          var k :| 0 <= k < |entries| && entries[k] == e;
        }
      }
    }
  }

  lemma SearchStopped(entries: seq<ScopeByPriority>, scopes: map<Program, LocalIndex>, key: LocalKey)
    requires entries != [] && entries[0].IsAlias()
    ensures Search(entries, scopes, key, true) ==
      var found := Get(IndexOf(scopes, entries[0].target), key); Resolved(found, found.Some?)
  {}

  /** The alias entries of a scope are the programs included under that alias. */
  lemma AliasEntries(v: View, scope: string)
    requires v.Valid()
    ensures var entries := ScopesNamed(v.available, scope);
      && (forall e :: e in entries && e.IsAlias() ==> e.target in v.inclusions.As(scope))
      && (forall q :: q in v.inclusions.As(scope) ==> OffersAs(entries, q))
      && (v.inclusions.As(scope) != {} <==> scope in v.inclusions.aliases)
      && (v.inclusions.As(scope) != {} ==> entries != [] && entries[0].IsAlias())
  {
    var entries := ScopesNamed(v.available, scope);
    EntriesUnder(v, scope);
    hide IndexesAfter, OrderInjective;
    forall e | e in entries && e.IsAlias() ensures e.target in v.inclusions.As(scope) {
      assert EntrySound(v.names, v.order, v.inclusions, scope, e);
    }
    if scope in v.inclusions.aliases {
      var e :| e in entries && e.IsAlias();
      var k :| 0 <= k < |entries| && entries[k] == e;
      assert entries[0].IsAlias();
    }
  }

  lemma StopsAtAlias(v: View, s: string, n: string)
    requires v.Valid() && v.inclusions.As(s) != {}
    ensures StoppedAtAlias(v, s, KeyOf(n, ""), Search(ScopesNamed(v.available, s), v.scopes, KeyOf(n, ""), true))
  {
    var entries := ScopesNamed(v.available, s);
    AliasEntries(v, s);
    hide View.Valid, Search;
    var q := entries[0].target;
    assert entries[0] in entries;
    IndexAnswers(v, q, n, "");
    SearchStopped(entries, v.scopes, KeyOf(n, ""));
  }

  lemma AliasAnswers(v: View, s: string, d: string, sub: string)
    requires v.Valid()
    ensures var r := Search(ScopesNamed(v.available, s), v.scopes, KeyOf(d, sub), false);
      if AliasKnows(v, s, KeyOf(d, sub)) then AliasAnswer(v, s, KeyOf(d, sub), r)
      else r == Search(Others(ScopesNamed(v.available, s)), v.scopes, KeyOf(d, sub), false)
  {
    var entries, key := ScopesNamed(v.available, s), KeyOf(d, sub);
    EntriesUnder(v, s);
    AliasEntries(v, s);
    hide View.Valid, Search, KeyOf;
    SearchAmongAliases(entries, v.scopes, key);
    if AliasKnows(v, s, key) {
      var q :| q in v.inclusions.As(s) && Known(v.run, Only(q), key, true);
      IndexAnswers(v, q, d, sub);
      var e :| e in entries && e.target == q && e.IsAlias();
      assert AliasHolds(e, v.scopes, key);
      var f :| f in entries && AliasHolds(f, v.scopes, key) &&
        Search(entries, v.scopes, key, false) == Resolved(Get(IndexOf(v.scopes, f.target), key), true);
      IndexAnswers(v, f.target, d, sub);
    } else {
      forall e | e in entries ensures !AliasHolds(e, v.scopes, key) {
        if e.IsAlias() {
          IndexAnswers(v, e.target, d, sub);
        }
      }
    }
  }

  /** Without an alias the included programs are asked. */
  lemma IncludedAnswers(v: View, s: string, d: string, sub: string, stop: bool)
    requires v.Valid()
    ensures IncludedAnswer(v, s, KeyOf(d, sub),
      Search(Others(ScopesNamed(v.available, s)), v.scopes, KeyOf(d, sub), stop))
  {
    hide View.Valid, Search, KeyOf, Others, LastAddedAnswers;
    OthersUnder(v, s);
    SearchWithoutAlias(Others(ScopesNamed(v.available, s)), v.scopes, KeyOf(d, sub), stop);
    if AddedFirst(v, s) {
      LastAddedAnswer(v, s, d, sub, stop);
    }
  }

  lemma LastAddedAnswer(v: View, s: string, d: string, sub: string, stop: bool)
    requires v.Valid() && AddedFirst(v, s)
    ensures LastAddedAnswers(v, s, KeyOf(d, sub),
      Search(Others(ScopesNamed(v.available, s)), v.scopes, KeyOf(d, sub), stop).node)
  {
    var others, key := Others(ScopesNamed(v.available, s)), KeyOf(d, sub);
    OthersListed(v, s);
    hide View.Valid, Search, KeyOf, Others, Ranked;
    var found := SearchDecided(v, others, d, sub, stop);
    SameFinds(v, others, s, key);
    assert found.Some? ==> found.value < |v.run|;
    hide FoundIn, NobodyKnows, SearchFinds, SearchFindsNone;
    if found.Some? {
      assert SearchFinds(v, s, key, found.value);
    }
  }

  lemma NoAliasToPass(v: View, s: string)
    requires v.Valid() && v.inclusions.As(s) == {}
    ensures Others(ScopesNamed(v.available, s)) == ScopesNamed(v.available, s)
  {
    EntriesUnder(v, s);
    AliasEntries(v, s);
    hide View.Valid;
    var entries := ScopesNamed(v.available, s);
    if entries != [] {
      assert entries[0] in entries;
    }
  }

  /** After every run of registrations and includes, the local resolution of an
      identifier answers what it has to. */
  lemma LocalAnswer(v: View, id: Identifier)
    requires v.Valid()
    ensures IsAnswer(v, id, v.Local(id))
  {
    hide View.Valid, Search, IncludedAnswer, StoppedAtAlias, AliasAnswer, AnsweredBy, AnsweredNot, Others;
    match id
    case Unscoped(n) => IndexAnswers(v, v.p, n, "");
    case Scoped(s, n) =>
      ScopedAnswer(v, s, n);
    case EnumValue(s, e, n) =>
      if n == "" {
        EmptySubNotFound(v, s, e, false);
      } else {
        AliasAnswers(v, s, e, n);
        IncludedAnswers(v, s, e, n, false);
      }
  }

  lemma ScopedAnswer(v: View, s: string, n: string)
    requires v.Valid()
    ensures IsAnswer(v, Scoped(s, n), v.Local(Scoped(s, n)))
  {
    IndexAnswers(v, v.p, s, n);
    NoOwnEmpty(v, s);
    hide View.Valid, Search, IncludedAnswer, StoppedAtAlias, AnsweredBy, Others;
    if LocalKey(s, Some(n)) in IndexOf(v.scopes, v.p) {
      return;
    }
    if v.inclusions.As(s) != {} {
      StopsAtAlias(v, s, n);
    } else {
      NoAliasToPass(v, s);
      IncludedAnswers(v, s, n, "", true);
    }
  }

  /** One program included under an alias answers to it exactly when it knows the
      key; if it does not, a two-part identifier finds nothing. */
  lemma OneAliasAnswersIff(v: View, id: Identifier, q: Program)
    requires v.Valid() && !id.Unscoped? && v.inclusions.As(id.scope) == {q}
    requires match id
      case Scoped(s, n) => n == "" || !Known(v.run, Only(v.p), LocalKey(s, Some(n)), true)
      case EnumValue(_, _, n) => n != ""
      case Unscoped(_) => true
    ensures v.Local(id).viaAlias <==> Known(v.run, Only(q), KeyNamed(id), true)
    ensures v.Local(id).viaAlias ==> AnsweredBy(v.run, q, KeyNamed(id), v.Local(id).node)
    ensures id.Scoped? && !v.Local(id).viaAlias ==> v.Local(id).node == None
  {
    hide View.Valid, View.Local, Known, AnsweredBy, LastAddedAnswers;
    LocalAnswer(v, id);
    var r := v.Local(id);
    if r.viaAlias {
      assert AnsweredBy(v.run, q, KeyNamed(id), r.node);
      AnsweredIsKnown(v.run, q, KeyNamed(id), r.node);
    }
  }

  lemma AnsweredIsKnown(run: Run, q: Program, key: LocalKey, node: Option<Node>)
    requires AnsweredBy(run, q, key, node)
    ensures Known(run, Only(q), key, true)
  {
    var j :| 0 <= j < |run| && Decides(run, Only(q), key, true, j) && node == Some(run[j].node);
    DecidesOwn(run, q, key, j);
    DecidesKnows(run, key, j);
  }

  // A program included under an alias.

  /** Program 0 includes program 1 as `x`. */
  ghost function Aliased(names: Names, n: Node): View {
    var run := [Definition(1, "T", n)];
    View(names, run, map[0 := LocalAfter(run, names, 0), 1 := LocalAfter(run, names, 1)], GlobalAfter(run, names),
      map[1 := 0], 0, map["x" := [ScopeByPriority(1, ALIAS_PRIORITY)]], Inclusions({}, {}, map["x" := {1}]))
  }

  /** `x.T` is found through the alias. */
  lemma AliasFinds(names: Names, n: Node)
    ensures var v := Aliased(names, n);
      v.Valid() && v.inclusions.As("x") == {1} && v.Local(Scoped("x", "T")) == Resolved(Some(n), true)
  {
    var v := Aliased(names, n);
    var run := v.run;
    TwoIndexes(names, run, LocalAfter(run, names, 0), LocalAfter(run, names, 1));
    OneProgramOrdered(1);
    AliasedScopes(names);
    assert run[..0] == [] && LocalAfter([], names, 1) == map[] && LocalAfter([], names, 0) == map[];
    assert LocalAfter(run, names, 1) == map[LocalKey("T", None) := n] && LocalAfter(run, names, 0) == map[];
    hide LocalAfter, GlobalAfter, IndexesAfter, OrderInjective, ScopesSound;
  }

  lemma AliasedScopes(names: Names)
    ensures ScopesSound(names, map[1 := 0], map["x" := [ScopeByPriority(1, ALIAS_PRIORITY)]],
      Inclusions({}, {}, map["x" := {1}]))
  {
    var entries := [ScopeByPriority(1, ALIAS_PRIORITY)];
    assert entries[0] in entries;
    assert OffersAlias(entries) && OffersAs(entries, 1);
  }
}
