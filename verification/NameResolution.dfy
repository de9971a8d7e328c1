/** Resolution of an identifier inside a program, by the program's own scopes and
    by the shared index (thrift/compiler/ast/t_program.cc). */
module NameResolution {
  import opened Wrappers
  import opened Programs
  import opened ScopeIdentifier
  import opened SymbolIndexes

  const ALIAS_PRIORITY: nat := 0xFFFF_FFFF_FFFF_FFFF
  const ROOT_PROGRAM_PRIORITY: nat := 0xFFFF_FFFF_FFFF_FFFE

  /** One entry of `available_scopes_`: the scope of an included program. */
  datatype ScopeByPriority = ScopeByPriority(target: Program, priority: nat) {
    predicate IsAlias() { priority == ALIAS_PRIORITY }
  }

  /** The order `std::sort` establishes: later programs first. */
  ghost predicate ByPriority(scopes: seq<ScopeByPriority>) {
    forall i, j :: 0 <= i < j < |scopes| ==> scopes[i].priority >= scopes[j].priority
  }

  datatype Resolved = Resolved(node: Option<Node>, viaAlias: bool)

  const NOT_FOUND := Resolved(None, false)

  function IndexOf(scopes: map<Program, LocalIndex>, p: Program): LocalIndex {
    if p in scopes then scopes[p] else map[]
  }

  /** The search through the scopes available under one name; `stopAtAlias` is
      the early exit taken for two-part identifiers. */
  function Search(
    entries: seq<ScopeByPriority>, scopes: map<Program, LocalIndex>, key: LocalKey, stopAtAlias: bool): Resolved
  {
    if entries == [] then NOT_FOUND
    else
      var e := entries[0];
      var index := IndexOf(scopes, e.target);
      if key in index then Resolved(Some(index[key]), e.IsAlias())
      else if stopAtAlias && e.IsAlias() then NOT_FOUND
      else Search(entries[1..], scopes, key, stopAtAlias)
  }

  type Available = map<string, seq<ScopeByPriority>>

  function ScopesNamed(available: Available, scope: string): seq<ScopeByPriority> {
    if scope in available then available[scope] else []
  }

  /** `t_program::find_by_id`. */
  function FindById(p: Program, available: Available, scopes: map<Program, LocalIndex>, id: Identifier): Resolved {
    var own := IndexOf(scopes, p);
    match id
    case Unscoped(n) => Resolved(Get(own, LocalKey(n, None)), false)
    case Scoped(s, n) =>
      if LocalKey(s, Some(n)) in own then Resolved(Some(own[LocalKey(s, Some(n))]), false)
      else Search(ScopesNamed(available, s), scopes, LocalKey(n, None), true)
    case EnumValue(s, e, v) => Search(ScopesNamed(available, s), scopes, LocalKey(e, Some(v)), false)
  }

  /** `t_program::find_global_by_id`. */
  function FindGlobalById(name: string, g: GlobalIndex, id: Identifier): Option<Node> {
    match id
    case Unscoped(n) => Get(g, GlobalKey(name, n, ""))
    case Scoped(s, n) =>
      if GlobalKey(s, n, "") in g then Some(g[GlobalKey(s, n, "")]) else Get(g, GlobalKey(name, s, n))
    case EnumValue(s, e, v) => Get(g, GlobalKey(s, e, v))
  }

  /** Priorities are distinct positions below the two reserved values. */
  ghost predicate OrderInjective(order: map<Program, nat>) {
    && |order| <= ROOT_PROGRAM_PRIORITY
    && (forall p :: p in order ==> order[p] < |order|)
    && forall p, q :: p in order && q in order && order[p] == order[q] ==> p == q
  }

  /** What a program has included: `included` without alias, `unordered` those of
      them that had not been added to the shared scope by then, and under each alias
      the programs included as that. */
  datatype Inclusions = Inclusions(
    included: set<Program>, unordered: set<Program>, aliases: map<string, set<Program>>)
  {
    function As(alias: string): set<Program> {
      if alias in aliases then aliases[alias] else {}
    }

    function With(order: map<Program, nat>, target: Program, alias: Option<string>): Inclusions {
      if alias.Some? then this.(aliases := aliases[alias.value := As(alias.value) + {target}])
      else this.(included := included + {target}, unordered := unordered + if target in order then {} else {target})
    }

    ghost predicate Within(later: Inclusions) {
      && included <= later.included && unordered <= later.unordered
      && forall s :: s in aliases ==> s in later.aliases && aliases[s] <= later.aliases[s]
    }
  }

  const NO_INCLUSIONS := Inclusions({}, {}, map[])

  /** How the scopes available to one program relate to its includes. */
  ghost predicate ScopesSound(names: Names, order: map<Program, nat>, available: Available, inc: Inclusions)
  {
    EntriesSound(names, order, available, inc) && AllOffered(names, available, inc)
  }

  /** Every list is in order and every entry comes from an include. */
  ghost predicate EntriesSound(names: Names, order: map<Program, nat>, available: Available, inc: Inclusions) {
    && (forall s :: s in available ==> ByPriority(available[s]))
    && forall s, e :: s in available && e in available[s] ==> EntrySound(names, order, inc, s, e)
  }

  /** Every include has its entry. */
  ghost predicate AllOffered(names: Names, available: Available, inc: Inclusions) {
    && (forall q :: q in inc.included ==> Offers(ScopesNamed(available, names(q)), q))
    && (forall s :: s in inc.aliases ==> OffersAlias(ScopesNamed(available, s)))
    && forall s, q :: s in inc.aliases && q in inc.aliases[s] ==> OffersAs(ScopesNamed(available, s), q)
  }

  ghost predicate EntrySound(
    names: Names, order: map<Program, nat>, inc: Inclusions, s: string, e: ScopeByPriority)
  {
    if e.IsAlias() then s in inc.aliases && e.target in inc.aliases[s]
    else
      && names(e.target) == s && e.target in inc.included
      && if e.priority == ROOT_PROGRAM_PRIORITY then e.target in inc.unordered
         else e.target in order && e.priority == order[e.target]
  }

  ghost predicate Offers(entries: seq<ScopeByPriority>, q: Program) {
    exists e :: e in entries && e.target == q && !e.IsAlias()
  }

  ghost predicate OffersAlias(entries: seq<ScopeByPriority>) {
    exists e :: e in entries && e.IsAlias()
  }

  ghost predicate OffersAs(entries: seq<ScopeByPriority>, q: Program) {
    exists e :: e in entries && e.target == q && e.IsAlias()
  }

  ghost predicate AllScopesSound(
    names: Names, order: map<Program, nat>, available: map<Program, Available>, inclusions: map<Program, Inclusions>)
  {
    && available.Keys == inclusions.Keys
    && forall p :: p in available ==> ScopesSound(names, order, available[p], inclusions[p])
  }

  lemma ScopesUpdated(
    names: Names, order: map<Program, nat>, available: map<Program, Available>, inclusions: map<Program, Inclusions>,
    p: Program, a: Available, inc: Inclusions)
    requires AllScopesSound(names, order, available, inclusions)
    requires p in available && ScopesSound(names, order, a, inc)
    ensures AllScopesSound(names, order, available[p := a], inclusions[p := inc])
  {}

  lemma OrderExtends(order: map<Program, nat>, p: Program)
    requires OrderInjective(order) && p !in order && |order| < ROOT_PROGRAM_PRIORITY
    ensures OrderInjective(order[p := |order|])
  {}

  lemma ScopesStaySound(
    names: Names, order: map<Program, nat>, available: map<Program, Available>, inclusions: map<Program, Inclusions>,
    p: Program)
    requires AllScopesSound(names, order, available, inclusions) && p !in order
    ensures AllScopesSound(names, order[p := |order|], available, inclusions)
  {}

  ghost predicate IndexesAfter(run: Run, names: Names, scopes: map<Program, LocalIndex>, g: GlobalIndex) {
    && (forall p :: p in scopes ==> scopes[p] == LocalAfter(run, names, p))
    && g == GlobalAfter(run, names)
    && forall r :: r in run ==> r.program in scopes
  }

  ghost predicate RedefinedAreThose(run: Run, names: Names, redefined: map<Program, set<string>>) {
    forall p :: p in redefined ==> redefined[p] == RedefinedAfter(run, names, p)
  }

  lemma RedefinedExtend(
    run: Run, names: Names, scopes: map<Program, LocalIndex>, g: GlobalIndex,
    redefined: map<Program, set<string>>, r: Registration)
    requires IndexesAfter(run, names, scopes, g) && RedefinedAreThose(run, names, redefined)
    requires r.program in redefined && r.program in scopes
    ensures RedefinedAreThose(run + [r], names,
      redefined[r.program := redefined[r.program] + NewlyRedefined(scopes[r.program], r)])
  {
    hide NewlyRedefined, LocalAfter, GlobalAfter;
    assert (run + [r])[..|run|] == run;
  }

  lemma RedefinedByDefinition(run: Run, names: Names, redefined: map<Program, set<string>>, r: Registration)
    requires RedefinedAreThose(run, names, redefined) && r.Definition?
    ensures RedefinedAreThose(run + [r], names, redefined)
  {
    hide LocalAfter;
    assert (run + [r])[..|run|] == run;
  }

  lemma IndexesExtend(run: Run, names: Names, scopes: map<Program, LocalIndex>, g: GlobalIndex, r: Registration)
    requires IndexesAfter(run, names, scopes, g) && r.program in scopes
    ensures IndexesAfter(run + [r], names,
      scopes[r.program := LocalStep(scopes[r.program], names(r.program), r)], GlobalStep(g, names(r.program), r))
  {
    forall q ensures LocalAfter(run + [r], names, q) ==
      var m := LocalAfter(run, names, q); if r.program == q then LocalStep(m, names(q), r) else m
    {
      AfterOneMore(run, names, r, q);
    }
    AfterOneMore(run, names, r, r.program);
    hide LocalAfter, GlobalAfter, LocalStep, GlobalStep;
  }

  lemma AfterOneMore(run: Run, names: Names, r: Registration, q: Program)
    ensures LocalAfter(run + [r], names, q) ==
      var m := LocalAfter(run, names, q); if r.program == q then LocalStep(m, names(q), r) else m
    ensures GlobalAfter(run + [r], names) == GlobalStep(GlobalAfter(run, names), names(r.program), r)
  {
    assert (run + [r])[..|run|] == run;
  }

  lemma ScopesExtend(
    names: Names, order: map<Program, nat>, available: Available, inc: Inclusions,
    s: string, entry: ScopeByPriority, entries: seq<ScopeByPriority>, inc': Inclusions)
    requires ScopesSound(names, order, available, inc)
    requires ByPriority(entries) && forall e :: e in entries <==> e in ScopesNamed(available, s) || e == entry
    requires inc.Within(inc') && EntrySound(names, order, inc', s, entry)
    requires forall q :: q in inc'.included && q !in inc.included ==>
      q == entry.target && names(q) == s && !entry.IsAlias()
    requires forall a :: a in inc'.aliases && a !in inc.aliases ==> a == s && entry.IsAlias()
    requires forall a, q :: a in inc'.aliases && q in inc'.aliases[a] && q !in inc.As(a) ==>
      a == s && q == entry.target && entry.IsAlias()
    ensures ScopesSound(names, order, available[s := entries], inc')
  {
    EntriesExtend(names, order, available, inc, s, entry, entries, inc');
    OffersExtend(names, available, inc, s, entry, entries, inc');
    hide EntriesSound, AllOffered;
  }

  lemma EntriesExtend(
    names: Names, order: map<Program, nat>, available: Available, inc: Inclusions,
    s: string, entry: ScopeByPriority, entries: seq<ScopeByPriority>, inc': Inclusions)
    requires EntriesSound(names, order, available, inc)
    requires ByPriority(entries) && forall e :: e in entries ==> e in ScopesNamed(available, s) || e == entry
    requires inc.Within(inc') && EntrySound(names, order, inc', s, entry)
    ensures EntriesSound(names, order, available[s := entries], inc')
  {
    hide ByPriority;
    var available' := available[s := entries];
    forall n, e | n in available' && e in available'[n] ensures EntrySound(names, order, inc', n, e) {
      if n != s || e != entry {
        assert EntrySound(names, order, inc, n, e);
      }
    }
  }

  lemma OffersExtend(
    names: Names, available: Available, inc: Inclusions,
    s: string, entry: ScopeByPriority, entries: seq<ScopeByPriority>, inc': Inclusions)
    requires AllOffered(names, available, inc)
    requires forall e :: e in ScopesNamed(available, s) || e == entry ==> e in entries
    requires forall q :: q in inc'.included && q !in inc.included ==>
      q == entry.target && names(q) == s && !entry.IsAlias()
    requires forall a :: a in inc'.aliases && a !in inc.aliases ==> a == s && entry.IsAlias()
    requires forall a, q :: a in inc'.aliases && q in inc'.aliases[a] && q !in inc.As(a) ==>
      a == s && q == entry.target && entry.IsAlias()
    ensures AllOffered(names, available[s := entries], inc')
  {
    var available' := available[s := entries];
    forall q | q in inc'.included ensures Offers(ScopesNamed(available', names(q)), q) {
      if q in inc.included {
        assert Offers(ScopesNamed(available, names(q)), q);
      }
    }
    forall a | a in inc'.aliases ensures OffersAlias(ScopesNamed(available', a)) {
      if a in inc.aliases {
        assert OffersAlias(ScopesNamed(available, a));
      }
    }
    forall a, q | a in inc'.aliases && q in inc'.aliases[a] ensures OffersAs(ScopesNamed(available', a), q) {
      if q in inc.As(a) {
        assert OffersAs(ScopesNamed(available, a), q);
      }
    }
  }
}
