/** Registration and lookup as the programs of one compiler invocation perform
    them, with the record of where the two resolutions disagree
    (thrift/compiler/ast/t_program.cc, t_program.h, t_global_scope.cc). */
module SymbolTable {
  import opened Wrappers
  import opened Programs
  import opened ScopeIdentifier
  import opened SymbolIndexes
  import opened NameResolution
  import opened ResolutionAgreement
  import opened LocalAnswers

  datatype Mismatch = Mismatch(id: string, program: Program, localNode: Option<Node>, globalNode: Option<Node>)

  /** All programs of one compiler invocation, each identified by its address,
      with the scope they share. */
  class Compilation {
    const names: Names
    /** `program_scope_` of each program. */
    var scopes: map<Program, LocalIndex>
    /** `redefined_enum_values_` of each program's scope. */
    var redefinedEnumValues: map<Program, set<string>>
    /** `available_scopes_` of each program. */
    var availableScopes: map<Program, Available>
    var allDefinitions: GlobalIndex
    var programOrder: map<Program, nat>
    var resolutionMismatches: set<Mismatch>
    /** Every registration made so far, oldest first. */
    ghost var run: Run
    ghost var inclusions: map<Program, Inclusions>

    constructor (names: Names, programs: set<Program>)
      ensures this.names == names && Valid() && run == [] && resolutionMismatches == {}
      ensures scopes.Keys == programs && programOrder == map[]
      ensures forall p :: p in programs ==> inclusions[p] == NO_INCLUSIONS
    {
      this.names := names;
      scopes := map p | p in programs :: map[];
      redefinedEnumValues := map p | p in programs :: {};
      availableScopes := map p | p in programs :: map[];
      inclusions := map p | p in programs :: NO_INCLUSIONS;
      allDefinitions, programOrder, resolutionMismatches, run := map[], map[], {}, [];
    }

    ghost predicate Valid()
      reads this
    {
      && IndexesAfter(run, names, scopes, allDefinitions)
      && RedefinedAreThose(run, names, redefinedEnumValues)
      && OrderInjective(programOrder)
      && availableScopes.Keys == redefinedEnumValues.Keys == scopes.Keys
      && AllScopesSound(names, programOrder, availableScopes, inclusions)
    }

    /** The state as program `p` sees it. */
    ghost function ViewOf(p: Program): View
      reads this
      requires p in availableScopes && p in inclusions
    {
      View(names, run, scopes, allDefinitions, programOrder, p, availableScopes[p], inclusions[p])
    }

    lemma ViewIsValid(p: Program, id: Identifier)
      requires Valid() && p in scopes
      ensures p in availableScopes && p in inclusions && ViewOf(p).Valid()
      ensures ViewOf(p).Local(id) == FindById(p, availableScopes[p], scopes, id)
      ensures ViewOf(p).Global(id) == FindGlobalById(names(p), allDefinitions, id)
    {
      hide FindById, FindGlobalById;
      hide RedefinedAreThose;
    }

    method AddDefinition(p: Program, name: string, node: Node)
      requires Valid() && p in scopes
      modifies this`scopes, this`allDefinitions, this`run
      ensures Valid() && run == old(run) + [Definition(p, name, node)] && scopes.Keys == old(scopes.Keys)
    {
      ghost var r := Definition(p, name, node);
      hide AllScopesSound, IndexesAfter, RedefinedAreThose, OrderInjective, AddLocal, AddGlobal;
      IndexesExtend(run, names, scopes, allDefinitions, r);
      RedefinedByDefinition(run, names, redefinedEnumValues, r);
      scopes := scopes[p := AddLocal(scopes[p], Scoped(names(p), name), node)];
      allDefinitions := AddGlobal(allDefinitions, names(p), name, "", node);
      run := run + [Definition(p, name, node)];
    }

    method AddEnumDefinition(p: Program, enumName: string, valueName: string, node: Node)
      requires Valid() && p in scopes
      modifies this`scopes, this`redefinedEnumValues, this`allDefinitions, this`run
      ensures Valid() && run == old(run) + [EnumDefinition(p, enumName, valueName, node)]
      ensures scopes.Keys == old(scopes.Keys)
    {
      var r := EnumDefinition(p, enumName, valueName, node);
      hide AllScopesSound, IndexesAfter, RedefinedAreThose, OrderInjective, AddLocal, AddGlobal, NewlyRedefined;
      IndexesExtend(run, names, scopes, allDefinitions, r);
      RedefinedExtend(run, names, scopes, allDefinitions, redefinedEnumValues, r);
      redefinedEnumValues := redefinedEnumValues[p := redefinedEnumValues[p] + NewlyRedefined(scopes[p], r)];
      scopes := scopes[p := AddLocal(scopes[p], EnumValue(names(p), enumName, valueName), node)];
      allDefinitions := AddGlobal(allDefinitions, names(p), enumName, valueName, node);
      run := run + [EnumDefinition(p, enumName, valueName, node)];
    }

    method IsAmbiguousEnumValue(p: Program, valueName: string) returns (r: bool)
      requires Valid() && p in scopes
      ensures ValuesNamed(run) ==> (r <==> valueName != "UNKNOWN" && Redefined(run, p, valueName))
    {
      if ValuesNamed(run) {
        AmbiguousIff(run, names, p, valueName);
      }
      r := valueName in redefinedEnumValues[p];
    }

    /** A program is numbered the first time it is added. */
    method AddProgram(p: Program)
      requires Valid() && |programOrder| < ROOT_PROGRAM_PRIORITY
      modifies this`programOrder
      ensures Valid()
      ensures programOrder ==
        if p in old(programOrder) then old(programOrder) else old(programOrder)[p := |old(programOrder)|]
    {
      hide IndexesAfter, RedefinedAreThose, OrderInjective, AllScopesSound;
      if p in programOrder {
        return;
      }
      OrderExtends(programOrder, p);
      ScopesStaySound(names, programOrder, availableScopes, inclusions, p);
      programOrder := programOrder[p := |programOrder|];
    }

    method GlobalPriority(p: Program) returns (r: nat)
      requires OrderInjective(programOrder)
      ensures r < ROOT_PROGRAM_PRIORITY <==> p in programOrder
      ensures r == if p in programOrder then programOrder[p] else ROOT_PROGRAM_PRIORITY
    {
      r := if p in programOrder then programOrder[p] else ROOT_PROGRAM_PRIORITY;
    }

    method AddInclude(p: Program, target: Program, alias: Option<string>)
      requires Valid() && p in scopes && target in scopes
      modifies this`availableScopes, this`inclusions
      ensures Valid()
      ensures inclusions == old(inclusions)[p := old(inclusions[p]).With(programOrder, target, alias)]
      ensures inclusions[p].included == old(inclusions[p].included) + if alias.None? then {target} else {}
      ensures forall s :: inclusions[p].As(s) == old(inclusions[p].As(s)) + if alias == Some(s) then {target} else {}
    {
      hide ScopesSound, IndexesAfter, RedefinedAreThose, OrderInjective;
      var available := WithScope(availableScopes[p], target, alias, inclusions[p]);
      ghost var inc := inclusions[p].With(programOrder, target, alias);
      ScopesUpdated(names, programOrder, availableScopes, inclusions, p, available, inc);
      hide AllScopesSound;
      inclusions := inclusions[p := inc];
      availableScopes := availableScopes[p := available];
    }

    /** Enter the scope of an included program under its name or alias. */
    method WithScope(available: Available, target: Program, alias: Option<string>,
                     ghost inc: Inclusions) returns (r: Available)
      requires OrderInjective(programOrder) && ScopesSound(names, programOrder, available, inc)
      ensures ScopesSound(names, programOrder, r, inc.With(programOrder, target, alias))
    {
      hide ScopesSound, OrderInjective;
      var scopeName := if alias.Some? then alias.value else names(target);
      var priority := ALIAS_PRIORITY;
      if alias.None? {
        priority := GlobalPriority(target);
      }
      var entry := ScopeByPriority(target, priority);
      var entries := SortByPriority(ScopesNamed(available, scopeName) + [entry]);
      ScopesExtend(names, programOrder, available, inc, scopeName, entry, entries,
        inc.With(programOrder, target, alias));
      r := available[scopeName := entries];
    }

    /** `t_program::find`, with the answer of the shared index preferred unless
        that is switched off or the local answer came through an alias. */
    method Find(p: Program, id: Identifier, useGlobalResolution: bool) returns (node: Option<Node>)
      requires Valid() && p in scopes
      modifies this`resolutionMismatches
      ensures p in availableScopes && p in inclusions
      ensures Answers(ViewOf(p), id, useGlobalResolution, node)
      ensures Recorded(ViewOf(p), id, useGlobalResolution, old(resolutionMismatches), resolutionMismatches)
    {
      hide Valid, View.Valid, View.Local, View.Global, FindById, FindGlobalById, Format, Answers, Recorded;
      ViewIsValid(p, id);
      FindMeans(ViewOf(p), id, useGlobalResolution, resolutionMismatches);
      assert resolutionMismatches + {} == resolutionMismatches;
      var here := FindById(p, availableScopes[p], scopes, id);
      if !useGlobalResolution || here.viaAlias {
        return here.node;
      }
      var global := FindGlobalById(names(p), allDefinitions, id);
      if here.node != global {
        if here.node.Some? || global.Some? {
          resolutionMismatches := resolutionMismatches + {Mismatch(Format(id), p, here.node, global)};
        }
        return global;
      }
      return here.node;
    }
  }

  /** The node that `find` returns: the one that answers locally, if the shared index
      is not consulted or the answer is reached through an alias, or else the one
      that the shared index answers with. */
  ghost predicate Answers(v: View, id: Identifier, useGlobalResolution: bool, node: Option<Node>) {
    exists here :: IsAnswer(v, id, here) && here == v.Local(id) &&
      if !useGlobalResolution || here.viaAlias then node == here.node
      else IsGlobalAnswer(v, id, node) && node == v.Global(id)
  }

  /** The mismatches that `find` records: one if both are consulted and differ, so
      under distinct names exactly for the identifiers that are not agreeable. */
  ghost predicate Recorded(
    v: View, id: Identifier, useGlobalResolution: bool, before: set<Mismatch>, after: set<Mismatch>)
  {
    var here, global := v.Local(id), v.Global(id);
    && after == before +
       (if useGlobalResolution && !here.viaAlias && here.node != global
        then {Mismatch(Format(id), v.p, here.node, global)} else {})
    && (useGlobalResolution && v.NamesDistinct() ==>
        if Agreeable(v, id) || here.viaAlias then after == before
        else exists m :: m in after && m.id == Format(id) && m.program == v.p)
  }

  lemma FindMeans(v: View, id: Identifier, useGlobalResolution: bool, before: set<Mismatch>)
    requires v.Valid()
    ensures var here, global := v.Local(id), v.Global(id);
      && Answers(v, id, useGlobalResolution, if !useGlobalResolution || here.viaAlias then here.node else global)
      && Recorded(v, id, useGlobalResolution, before, before +
           if useGlobalResolution && !here.viaAlias && here.node != global
           then {Mismatch(Format(id), v.p, here.node, global)} else {})
  {
    hide View.Valid, View.Local, View.Global, Answers, Recorded;
    AnswersMeans(v, id, useGlobalResolution);
    RecordedMeans(v, id, useGlobalResolution, before);
  }

  lemma AnswersMeans(v: View, id: Identifier, useGlobalResolution: bool)
    requires v.Valid()
    ensures Answers(v, id, useGlobalResolution,
      if !useGlobalResolution || v.Local(id).viaAlias then v.Local(id).node else v.Global(id))
  {
    hide View.Valid, View.Local, View.Global, IsAnswer, IsGlobalAnswer;
    LocalAnswer(v, id);
    GlobalAnswer(v, id);
  }

  lemma RecordedMeans(v: View, id: Identifier, useGlobalResolution: bool, before: set<Mismatch>)
    requires v.Valid()
    ensures var here, global := v.Local(id), v.Global(id);
      Recorded(v, id, useGlobalResolution, before, before +
        if useGlobalResolution && !here.viaAlias && here.node != global
        then {Mismatch(Format(id), v.p, here.node, global)} else {})
  {
    hide View.Valid, View.Local, View.Global, Agreeable, View.NamesDistinct, Format;
    if v.NamesDistinct() {
      ResolutionsAgreeIff(v, id);
    }
    var m := Mismatch(Format(id), v.p, v.Local(id).node, v.Global(id));
    assert m in before + {m};
  }

  /** Stands for `std::sort`: any reordering by falling priority. */
  method SortByPriority(entries: seq<ScopeByPriority>) returns (r: seq<ScopeByPriority>)
    ensures ByPriority(r)
    ensures forall e :: e in r <==> e in entries
  {
    r := [];
    var i := 0;
    while i < |entries|
      invariant 0 <= i <= |entries|
      invariant ByPriority(r)
      invariant forall e :: e in r <==> e in entries[..i]
    {
      r := InsertByPriority(r, entries[i]);
      assert entries[..i + 1] == entries[..i] + [entries[i]];
      i := i + 1;
    }
    assert entries[..i] == entries;
  }

  method InsertByPriority(entries: seq<ScopeByPriority>, entry: ScopeByPriority) returns (r: seq<ScopeByPriority>)
    requires ByPriority(entries)
    ensures ByPriority(r)
    ensures forall e :: e in r <==> e in entries || e == entry
  {
    var j := 0;
    while j < |entries| && entries[j].priority >= entry.priority
      invariant 0 <= j <= |entries|
      invariant forall k :: 0 <= k < j ==> entries[k].priority >= entry.priority
    {
      j := j + 1;
    }
    assert entries == entries[..j] + entries[j..];
    r := entries[..j] + [entry] + entries[j..];
  }
}
