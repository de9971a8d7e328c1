/** Recursive code generation over the include graph (thrift/compiler/compiler.cc). */
module CodeGeneration {
  import opened Programs
  import opened IncludeGraph

  /** Whether generating one program succeeds. It may depend on everything
      generated before it, because diagnostics accumulate over the run. */
  type Outcome = (seq<Program>, Program) -> bool

  ghost predicate AllSucceeded(outcome: Outcome, log: seq<Program>) {
    forall i :: 0 <= i < |log| ==> outcome(log[..i], log[i])
  }

  /** The run stopped at its first failing program. */
  ghost predicate StoppedAtFailure(outcome: Outcome, log: seq<Program>) {
    && log != []
    && AllSucceeded(outcome, log[..|log| - 1])
    && !outcome(log[..|log| - 1], log[|log| - 1])
  }

  ghost predicate DistinctPaths(g: Graph, s: set<Program>) {
    forall p, q :: p in s && q in s && p in g.paths && q in g.paths && g.paths[p] == g.paths[q] ==> p == q
  }

  ghost function Elements(log: seq<Program>): set<Program> {
    set p | p in log
  }

  /** `w`, one of the programs in `known`, carries the path of include `q` and was
      generated before position `i`, or it includes the program at `i`, directly
      or not (it was still open). */
  ghost predicate Settled(g: Graph, known: set<Program>, log: seq<Program>, i: nat, q: Program, w: Program)
    requires i < |log|
  {
    && w in known && w in g.paths && q in g.paths && g.paths[w] == g.paths[q]
    && (w in log[..i] || Reaches(g, w, log[i]))
  }

  ghost predicate SettledAt(g: Graph, known: set<Program>, log: seq<Program>, i: nat)
    requires i < |log|
  {
    log[i] in g.includes &&
    forall q :: q in g.includes[log[i]] ==> exists w :: Settled(g, known, log, i, q, w)
  }

  ghost predicate Ordered(g: Graph, known: set<Program>, log: seq<Program>) {
    forall i :: 0 <= i < |log| ==> SettledAt(g, known, log, i)
  }

  /** Every include of a logged program has its path represented in the log. */
  ghost predicate PathClosed(g: Graph, log: seq<Program>) {
    forall p, q :: p in log && p in g.includes && q in g.includes[p] ==> Represented(g, log, q)
  }

  ghost predicate Represented(g: Graph, log: seq<Program>, q: Program) {
    q in g.paths && exists w :: w in log && w in g.paths && g.paths[w] == g.paths[q]
  }

  /** What one successful run of the recursion from `root` leaves in the log. */
  ghost predicate CompleteRun(g: Graph, root: Program, log: seq<Program>) {
    && NoRepeats(log)
    && root in log
    && Elements(log) <= Reachable(g, root)
    && DistinctPaths(g, Elements(log))
    && PathClosed(g, log)
    && Ordered(g, Elements(log), log)
  }

  // The run in which nothing fails.

  /** The paths marked and the programs generated by a walk. */
  datatype Plan = Plan(marked: set<string>, generated: seq<Program>)

  ghost function PathsOf(g: Graph): set<string> {
    set p | p in g.paths :: g.paths[p]
  }

  /** Mark the path, go through the includes in order, and generate the program. */
  ghost function PlanOne(g: Graph, p: Program, marked: set<string>): (r: Plan)
    requires g.Valid() && p in g.includes && g.paths[p] !in marked
    ensures marked + {g.paths[p]} <= r.marked
    decreases PathsOf(g) - marked, 0, 0
  {
    assert g.paths[p] in PathsOf(g) - marked;
    var below := PlanAll(g, g.includes[p], marked + {g.paths[p]});
    Plan(below.marked, below.generated + [p])
  }

  /** Go through those of the programs whose paths have not been marked yet. */
  ghost function PlanAll(g: Graph, ps: seq<Program>, marked: set<string>): (r: Plan)
    requires g.Valid() && forall p :: p in ps ==> p in g.includes
    ensures marked <= r.marked
    decreases PathsOf(g) - marked, 1, |ps|
  {
    if ps == [] then Plan(marked, []) else
      var before, p := PlanAll(g, ps[..|ps| - 1], marked), ps[|ps| - 1];
      if g.paths[p] in before.marked then before else
        var one := PlanOne(g, p, before.marked);
        Plan(one.marked, before.generated + one.generated)
  }

  /** The plan for a program unless its path is marked. */
  ghost function PlanFor(g: Graph, p: Program, marked: set<string>): Plan {
    if g.Valid() && p in g.includes && g.paths[p] !in marked then PlanOne(g, p, marked) else Plan(marked, [])
  }

  ghost function PlanList(g: Graph, ps: seq<Program>, marked: set<string>): Plan {
    if g.Valid() && forall p :: p in ps ==> p in g.includes then PlanAll(g, ps, marked) else Plan(marked, [])
  }

  lemma PlanIncludes(g: Graph, p: Program, marked: set<string>)
    requires g.Valid() && p in g.includes && g.paths[p] !in marked
    ensures PlanFor(g, p, marked) ==
      var below := PlanList(g, g.includes[p], marked + {g.paths[p]}); Plan(below.marked, below.generated + [p])
  {}

  lemma PlanNext(g: Graph, ps: seq<Program>, i: nat, marked: set<string>)
    requires g.Valid() && i < |ps| && forall q :: q in ps ==> q in g.includes
    ensures PlanList(g, ps[..i + 1], marked) ==
      var before := PlanList(g, ps[..i], marked);
      var one := PlanFor(g, ps[i], before.marked);
      Plan(one.marked, before.generated + one.generated)
  {
    assert ps[..i + 1][..i] == ps[..i] && ps[..i + 1][i] == ps[i];
    var before := PlanList(g, ps[..i], marked);
    if g.paths[ps[i]] in before.marked {
      assert before.generated + [] == before.generated;
    }
  }

  lemma {:induction false} PlanGoesOn(g: Graph, ps: seq<Program>, i: nat, marked: set<string>)
    requires g.Valid() && i <= |ps| && forall q :: q in ps ==> q in g.includes
    ensures PlanList(g, ps[..i], marked).generated <= PlanList(g, ps, marked).generated
    decreases |ps| - i
  {
    hide PlanList, PlanFor, Graph.Valid;
    if i == |ps| {
      assert ps[..i] == ps;
      return;
    }
    PlanNext(g, ps, i, marked);
    PlanGoesOn(g, ps, i + 1, marked);
  }

  /** The plan has been carried out. */
  ghost predicate Followed(plan: Plan, log: seq<Program>, marked: set<string>, log': seq<Program>) {
    marked == plan.marked && log' == log + plan.generated
  }

  /** The plan has been carried out as far as the log goes. */
  ghost predicate FollowedInPart(plan: Plan, log: seq<Program>, log': seq<Program>) {
    log' <= log + plan.generated
  }

  lemma FollowedNext(
    g: Graph, ps: seq<Program>, i: nat, marked: set<string>, log: seq<Program>, marked': set<string>,
    log': seq<Program>, marked'': set<string>, log'': seq<Program>)
    requires g.Valid() && i < |ps| && forall q :: q in ps ==> q in g.includes
    requires Followed(PlanList(g, ps[..i], marked), log, marked', log')
    ensures Followed(PlanFor(g, ps[i], marked'), log', marked'', log'') ==>
      Followed(PlanList(g, ps[..i + 1], marked), log, marked'', log'')
    ensures FollowedInPart(PlanFor(g, ps[i], marked'), log', log'') ==>
      FollowedInPart(PlanList(g, ps, marked), log, log'')
  {
    PlanNext(g, ps, i, marked);
    PlanGoesOn(g, ps, i + 1, marked);
    hide PlanList, PlanFor, Graph.Valid;
    var before, one := PlanList(g, ps[..i], marked), PlanFor(g, ps[i], marked');
    Joined(log, before.generated, one.generated, PlanList(g, ps, marked).generated);
  }

  lemma Joined(a: seq<Program>, b: seq<Program>, c: seq<Program>, d: seq<Program>)
    ensures a + b + c == a + (b + c)
    ensures b + c <= d ==> a + (b + c) <= a + d
  {}

  lemma FollowedOne(
    g: Graph, p: Program, marked: set<string>, log: seq<Program>, marked': set<string>, log': seq<Program>)
    requires g.Valid() && p in g.includes && g.paths[p] !in marked
    ensures Followed(PlanList(g, g.includes[p], marked + {g.paths[p]}), log, marked', log') ==>
      Followed(PlanFor(g, p, marked), log, marked', log' + [p])
    ensures FollowedInPart(PlanList(g, g.includes[p], marked + {g.paths[p]}), log, log') ==>
      FollowedInPart(PlanFor(g, p, marked), log, log')
  {
    PlanIncludes(g, p, marked);
    hide PlanList, PlanFor, Graph.Valid;
    var below := PlanList(g, g.includes[p], marked + {g.paths[p]});
    Joined(log, below.generated, [p], []);
    Joined(log, [], below.generated, below.generated + [p]);
    assert log + ([] + below.generated) == log + below.generated && [] + below.generated == below.generated;
  }

  lemma FollowedWhole(plan: Plan, log: seq<Program>, marked: set<string>, log': seq<Program>)
    ensures Followed(plan, log, marked, log') ==> FollowedInPart(plan, log, log')
  {}

  lemma PlanStarts(g: Graph, ps: seq<Program>, marked: set<string>, log: seq<Program>)
    ensures Followed(PlanList(g, ps[..0], marked), log, marked, log)
  {
    assert ps[..0] == [] && log + [] == log;
  }

  lemma {:induction false} PlanMarksAll(g: Graph, ps: seq<Program>, marked: set<string>)
    requires g.Valid() && forall q :: q in ps ==> q in g.includes
    ensures forall q :: q in ps ==> g.paths[q] in PlanAll(g, ps, marked).marked
    decreases |ps|
  {
    if ps != [] {
      var init, p := ps[..|ps| - 1], ps[|ps| - 1];
      assert ps == init + [p] && p in ps;
      PlanMarksAll(g, init, marked);
      var before := PlanAll(g, init, marked);
      if g.paths[p] !in before.marked {
        var one := PlanOne(g, p, before.marked);
        assert before.marked <= one.marked && g.paths[p] in one.marked;
      }
      assert before.marked <= PlanAll(g, ps, marked).marked;
    }
  }

  lemma PlanMarks(
    g: Graph, ps: seq<Program>, marked: set<string>, log: seq<Program>, marked': set<string>, log': seq<Program>)
    requires g.Valid() && forall q :: q in ps ==> q in g.includes
    requires Followed(PlanList(g, ps, marked), log, marked', log')
    ensures forall q :: q in ps ==> q in g.paths && g.paths[q] in marked'
  {
    PlanMarksAll(g, ps, marked);
  }

  lemma PlanSkips(g: Graph, p: Program, marked: set<string>, log: seq<Program>)
    requires p in g.paths
    ensures g.paths[p] in marked ==> Followed(PlanFor(g, p, marked), log, marked, log)
  {
    assert log + [] == log;
  }

  class Compiler {
    const graph: Graph
    const outcome: Outcome
    /** The `already_generated` set of paths. */
    var alreadyGenerated: set<string>
    /** The calls made to `generate_code_for_single_program`, in order. */
    var log: seq<Program>
    /** Programs whose recursive call has started. */
    ghost var entered: set<Program>

    constructor (graph: Graph, outcome: Outcome)
      ensures this.graph == graph && this.outcome == outcome
      ensures alreadyGenerated == {} && log == [] && entered == {}
    {
      this.graph, this.outcome := graph, outcome;
      alreadyGenerated, log, entered := {}, [], {};
    }

    /** Holds at every moment of the run, after a failure too. */
    ghost predicate Sound()
      reads this
    {
      && graph.Valid()
      && entered <= graph.includes.Keys
      && alreadyGenerated == (set p | p in entered :: graph.paths[p])
      && DistinctPaths(graph, entered)
      && NoRepeats(log)
      && Elements(log) <= entered
      && Ordered(graph, entered, log)
    }

    /** Holds while nothing has failed; `open` holds the programs whose recursive
        call has not returned yet. */
    ghost predicate Valid(open: set<Program>)
      reads this
    {
      && Sound()
      && open <= entered
      && Elements(log) == entered - open
      && AllSucceeded(outcome, log)
    }

    method GenerateRecursively(program: Program, ghost open: set<Program>) returns (ok: bool)
      requires Valid(open) && program in graph.includes
      // The path has not been marked before: the source asserts this on entry.
      requires graph.paths[program] !in alreadyGenerated
      requires forall p :: p in open ==> Reaches(graph, p, program)
      modifies this
      ensures old(log) <= log && old(entered) <= entered && program in entered
      ensures old(alreadyGenerated) <= alreadyGenerated
      ensures forall p :: p in entered - old(entered) ==> Reaches(graph, program, p)
      ensures ok ==> Valid(open)
      ensures ok ==> Followed(PlanFor(graph, program, old(alreadyGenerated)), old(log), alreadyGenerated, log)
      ensures !ok ==> Sound() && StoppedAtFailure(outcome, log)
      ensures !ok ==> FollowedInPart(PlanFor(graph, program, old(alreadyGenerated)), old(log), log)
      decreases graph.includes.Keys - entered, 1
    {
      ReachesSelf(graph, program);
      Mark(program, open);
      hide Valid, Sound, Reaches, Graph.Valid, PlanFor, PlanList, Followed, FollowedInPart, StoppedAtFailure;
      ok := GenerateIncludes(program, open);
      ghost var done := log;
      FollowedOne(graph, program, old(alreadyGenerated), old(log), alreadyGenerated, done);
      if !ok {
        return;
      }
      ok := GenerateSingle(program, open);
      FollowedWhole(PlanFor(graph, program, old(alreadyGenerated)), old(log), alreadyGenerated, log);
    }

    /** The loop over the includes of a program whose path has just been marked. */
    method GenerateIncludes(program: Program, ghost open: set<Program>) returns (ok: bool)
      requires Valid(open + {program}) && program in graph.includes && program in entered
      requires forall p :: p in open + {program} ==> Reaches(graph, p, program)
      modifies this
      ensures old(log) <= log && old(entered) <= entered && graph.Valid()
      ensures old(alreadyGenerated) <= alreadyGenerated
      ensures forall p :: p in entered - old(entered) ==> Reaches(graph, program, p)
      ensures ok ==> Valid(open + {program})
      ensures ok ==> forall q :: q in graph.includes[program] ==> q in graph.paths && graph.paths[q] in alreadyGenerated
      ensures ok ==>
        Followed(PlanList(graph, graph.includes[program], old(alreadyGenerated)), old(log), alreadyGenerated, log)
      ensures !ok ==> Sound() && StoppedAtFailure(outcome, log)
      ensures !ok ==> FollowedInPart(PlanList(graph, graph.includes[program], old(alreadyGenerated)), old(log), log)
      decreases graph.includes.Keys - entered, 3
    {
      IncludesAreKnown(program, open + {program});
      hide Valid, Sound, Graph.Valid, Reaches, StoppedAtFailure, PlanFor, PlanList, Followed, FollowedInPart;
      var includes := graph.includes[program];
      PlanStarts(graph, includes, alreadyGenerated, log);
      var i := 0;
      while i < |includes|
        invariant 0 <= i <= |includes|
        invariant Valid(open + {program})
        invariant old(log) <= log && old(entered) <= entered
        invariant old(alreadyGenerated) <= alreadyGenerated
        invariant Followed(PlanList(graph, includes[..i], old(alreadyGenerated)), old(log), alreadyGenerated, log)
        invariant forall p :: p in entered - old(entered) ==> Reaches(graph, program, p)
      {
        ghost var marked, logged := alreadyGenerated, log;
        ok := GenerateInclude(program, includes[i], open);
        FollowedNext(graph, includes, i, old(alreadyGenerated), old(log), marked, logged, alreadyGenerated, log);
        if !ok {
          return;
        }
        i := i + 1;
      }
      assert includes[..i] == includes;
      PlanMarks(graph, includes, old(alreadyGenerated), old(log), alreadyGenerated, log);
      return true;
    }

    lemma IncludesAreKnown(program: Program, open: set<Program>)
      requires Valid(open) && program in graph.includes
      ensures graph.Valid()
      ensures forall q :: q in graph.includes[program] ==> q in graph.includes && q in graph.paths
    {}

    /** One include: generate it recursively unless its path is marked. */
    method GenerateInclude(program: Program, included: Program, ghost open: set<Program>) returns (ok: bool)
      requires Valid(open + {program}) && program in graph.includes && included in graph.includes[program]
      requires forall p :: p in open + {program} ==> Reaches(graph, p, program)
      modifies this
      ensures old(log) <= log && old(entered) <= entered && included in graph.paths
      ensures old(alreadyGenerated) <= alreadyGenerated
      ensures forall p :: p in entered - old(entered) ==> Reaches(graph, program, p)
      ensures ok ==> Valid(open + {program}) && graph.paths[included] in alreadyGenerated
      ensures ok ==> Followed(PlanFor(graph, included, old(alreadyGenerated)), old(log), alreadyGenerated, log)
      ensures !ok ==> Sound() && StoppedAtFailure(outcome, log)
      ensures !ok ==> FollowedInPart(PlanFor(graph, included, old(alreadyGenerated)), old(log), log)
      decreases graph.includes.Keys - entered, 2
    {
      hide Ordered, DistinctPaths, NoRepeats, Elements, AllSucceeded, StoppedAtFailure, Reaches;
      hide PlanFor, Followed, FollowedInPart;
      PlanSkips(graph, included, alreadyGenerated, log);
      if graph.paths[included] in alreadyGenerated {
        return true;
      }
      ReachesInclude(graph, program, included);
      OpenReach(graph, open + {program}, program, included);
      ok := GenerateRecursively(included, open + {program});
      ReachedThrough(graph, old(entered), old(entered), entered, program, included);
    }

    /** Mark the path about to be generated. */
    method Mark(program: Program, ghost open: set<Program>)
      requires Valid(open) && program in graph.includes && graph.paths[program] !in alreadyGenerated
      modifies this`alreadyGenerated, this`entered
      ensures Valid(open + {program})
      ensures alreadyGenerated == old(alreadyGenerated) + {graph.paths[program]}
      ensures entered == old(entered) + {program} && program !in old(entered)
    {
      OrderedGrows(graph, entered, entered + {program}, log);
      hide Ordered, NoRepeats, AllSucceeded;
      alreadyGenerated := alreadyGenerated + {graph.paths[program]};
      entered := entered + {program};
    }

    method GenerateSingle(program: Program, ghost open: set<Program>) returns (ok: bool)
      requires Valid(open + {program}) && program !in open
      requires forall p :: p in open ==> Reaches(graph, p, program)
      requires forall q :: q in graph.includes[program] ==> graph.paths[q] in alreadyGenerated
      modifies this`log
      ensures log == old(log) + [program]
      ensures ok ==> Valid(open)
      ensures !ok ==> Sound() && StoppedAtFailure(outcome, log)
    {
      ReachesSelf(graph, program);
      OrderedExtends(log, program);
      LogExtends(outcome, log, program);
      hide Ordered, DistinctPaths, NoRepeats, Elements, AllSucceeded, StoppedAtFailure, Reaches, Graph.Valid;
      ok := outcome(log, program);
      log := log + [program];
    }

    lemma OrderedExtends(before: seq<Program>, program: Program)
      requires graph.Valid() && program in graph.includes && entered <= graph.includes.Keys
      requires Ordered(graph, entered, before)
      requires alreadyGenerated == (set p | p in entered :: graph.paths[p])
      requires forall q :: q in graph.includes[program] ==> graph.paths[q] in alreadyGenerated
      requires forall p :: p in entered ==> p in Elements(before) || Reaches(graph, p, program)
      ensures Ordered(graph, entered, before + [program])
    {
      var log := before + [program];
      forall i | 0 <= i < |log| ensures SettledAt(graph, entered, log, i) {
        if i < |before| {
          assert SettledAt(graph, entered, before, i) && log[..i] == before[..i];
          forall q | q in graph.includes[log[i]] ensures exists w :: Settled(graph, entered, log, i, q, w) {
            var w :| Settled(graph, entered, before, i, q, w);
            assert Settled(graph, entered, log, i, q, w);
          }
        } else {
          assert log[..i] == before;
          forall q | q in graph.includes[program] ensures exists w :: Settled(graph, entered, log, i, q, w) {
            var w :| w in entered && graph.paths[w] == graph.paths[q];
            assert Settled(graph, entered, log, i, q, w);
          }
        }
      }
    }

    /** The recursive branch of `generate_code_for_program_bundle`. */
    method GenerateBundle(root: Program) returns (ok: bool)
      requires graph.Valid() && root in graph.includes
      requires alreadyGenerated == {} && log == [] && entered == {}
      modifies this
      ensures NoRepeats(log) && Elements(log) <= Reachable(graph, root)
      ensures Ordered(graph, Reachable(graph, root), log)
      ensures ok ==> CompleteRun(graph, root, log) && AllSucceeded(outcome, log)
      ensures !ok ==> StoppedAtFailure(outcome, log)
      ensures if ok then log == PlanFor(graph, root, {}).generated else log <= PlanFor(graph, root, {}).generated
    {
      ok := GenerateRecursively(root, {});
      if ok {
        assert root in Elements(log) && Elements(log) == entered;
        PathClosedWhenDone();
      }
      assert entered <= Reachable(graph, root);
      OrderedGrows(graph, entered, Reachable(graph, root), log);
    }

    lemma PathClosedWhenDone()
      requires Valid({})
      ensures PathClosed(graph, log)
    {
      forall p, q | p in Elements(log) && p in graph.includes && q in graph.includes[p]
        ensures Represented(graph, log, q)
      {
        var i :| 0 <= i < |log| && log[i] == p;
        assert SettledAt(graph, entered, log, i);
        var w :| Settled(graph, entered, log, i, q, w);
        assert w in Elements(log);
      }
    }
  }

  lemma OpenReach(g: Graph, open: set<Program>, program: Program, included: Program)
    requires forall p :: p in open ==> Reaches(g, p, program)
    requires Reaches(g, program, included)
    ensures forall p :: p in open ==> Reaches(g, p, included)
  {
    forall p | p in open ensures Reaches(g, p, included) {
      ReachesTransitive(g, p, program, included);
    }
  }

  lemma ReachedThrough(
    g: Graph, first: set<Program>, before: set<Program>, after: set<Program>, program: Program, included: Program)
    requires forall p :: p in before - first ==> Reaches(g, program, p)
    requires forall p :: p in after - before ==> Reaches(g, included, p)
    requires Reaches(g, program, included)
    ensures forall p :: p in after - first ==> Reaches(g, program, p)
  {
    forall p | p in after - first ensures Reaches(g, program, p) {
      if p !in before { ReachesTransitive(g, program, included, p); }
    }
  }

  lemma LogExtends(outcome: Outcome, log: seq<Program>, program: Program)
    requires NoRepeats(log) && AllSucceeded(outcome, log)
    ensures program !in Elements(log) ==> NoRepeats(log + [program])
    ensures Elements(log + [program]) == Elements(log) + {program}
    ensures outcome(log, program) ==> AllSucceeded(outcome, log + [program])
    ensures !outcome(log, program) ==> StoppedAtFailure(outcome, log + [program])
  {
    var longer := log + [program];
    assert longer[..|log|] == log;
    assert forall i :: 0 <= i < |log| ==> longer[..i] == log[..i] && longer[i] == log[i];
  }

  lemma OrderedGrows(g: Graph, known: set<Program>, wider: set<Program>, log: seq<Program>)
    requires Ordered(g, known, log) && known <= wider
    ensures Ordered(g, wider, log)
  {
    forall i | 0 <= i < |log| ensures SettledAt(g, wider, log, i) {
      assert SettledAt(g, known, log, i);
      forall q | q in g.includes[log[i]] ensures exists w :: Settled(g, wider, log, i, q, w) {
        var w :| Settled(g, known, log, i, q, w);
        assert Settled(g, wider, log, i, q, w);
      }
    }
  }

  /** A successful run generates exactly the reachable programs, each once, if
      and only if no two reachable programs share a path. */
  lemma CompleteIffPathsDistinct(g: Graph, root: Program, log: seq<Program>)
    requires g.Valid() && CompleteRun(g, root, log)
    ensures Elements(log) == Reachable(g, root) <==> DistinctPaths(g, Reachable(g, root))
  {
    if DistinctPaths(g, Reachable(g, root)) {
      forall p, q | p in Elements(log) && p in g.includes && q in g.includes[p] ensures q in Elements(log) {
        assert Represented(g, log, q);
        var w :| w in log && w in g.paths && g.paths[w] == g.paths[q];
        ReachesInclude(g, p, q);
        ReachesTransitive(g, root, p, q);
        assert w in Elements(log) && q in Reachable(g, root);
      }
      ClosedHoldsReachable(g, root, Elements(log));
    }
  }

  /** A root that includes two programs of one path. */
  function SharedPath(): (g: Graph)
    ensures g.Valid()
  {
    Graph(map[0 := "r", 1 := "x", 2 := "x"], map[0 := [1, 2], 1 := [], 2 := []])
  }

  /** There every successful run leaves a reachable program out. */
  lemma SharedPathMisses(log: seq<Program>)
    requires CompleteRun(SharedPath(), 0, log)
    ensures exists p :: p in Reachable(SharedPath(), 0) && p !in log
  {
    var g := SharedPath();
    ReachesInclude(g, 0, 1);
    ReachesInclude(g, 0, 2);
    assert 1 in Reachable(g, 0) && 2 in Reachable(g, 0) && g.paths[1] == g.paths[2];
    CompleteIffPathsDistinct(g, 0, log);
    var p :| p in Reachable(g, 0) && p !in Elements(log);
  }

  /** And there is such a run. */
  lemma SharedPathRuns()
    ensures CompleteRun(SharedPath(), 0, [1, 0])
  {
    var g, log := SharedPath(), [1, 0];
    ReachesSelf(g, 0);
    ReachesInclude(g, 0, 1);
    assert log[0] == 1 && log[1] == 0 && log[..1] == [1];
    assert Elements(log) == {0, 1};
    assert SettledAt(g, Elements(log), log, 0);
    assert Settled(g, Elements(log), log, 1, 1, 1) && Settled(g, Elements(log), log, 1, 2, 1);
    assert Ordered(g, Elements(log), log);
    assert Represented(g, log, 1) && Represented(g, log, 2) by { assert 1 in log; }
  }

  /** When no cycle can be reached from the program at position `i`, all its
      transitive includes stand before it, whether or not the run went on to fail. */
  lemma DependenciesFirst(g: Graph, root: Program, log: seq<Program>, i: nat, q: Program)
    requires g.Valid() && DistinctPaths(g, Reachable(g, root))
    requires Elements(log) <= Reachable(g, root) && Ordered(g, Reachable(g, root), log)
    requires i < |log| && Reaches(g, log[i], q) && q != log[i]
    requires forall p :: Reaches(g, log[i], p) ==> !OnCycle(g, p)
    ensures q in log[..i]
  {
    var s :| ChainBetween(g, s, log[i], q);
    DependenciesFirstAlong(g, root, log, i, s);
  }

  lemma {:induction false} DependenciesFirstAlong(g: Graph, root: Program, log: seq<Program>, i: nat, s: seq<Program>)
    requires g.Valid() && DistinctPaths(g, Reachable(g, root))
    requires Elements(log) <= Reachable(g, root) && Ordered(g, Reachable(g, root), log)
    requires i < |log| && IsChain(g, s) && s[0] == log[i]
    requires forall p :: Reaches(g, log[i], p) ==> !OnCycle(g, p)
    ensures s[|s| - 1] in log[..i + 1]
    ensures |s| > 1 ==> s[|s| - 1] in log[..i]
    decreases |s|
  {
    if |s| > 1 {
      var next := s[1];
      assert SettledAt(g, Reachable(g, root), log, i);
      var w :| Settled(g, Reachable(g, root), log, i, next, w);
      ReachesInclude(g, log[i], next);
      assert log[i] in Elements(log);
      ReachesTransitive(g, root, log[i], next);
      assert w == next;
      ReachesSelf(g, log[i]);
      assert w in log[..i];
      var j :| 0 <= j < i && log[j] == next;
      forall p | Reaches(g, log[j], p) ensures !OnCycle(g, p) {
        ReachesTransitive(g, log[i], next, p);
      }
      DependenciesFirstAlong(g, root, log, j, s[1..]);
    }
  }
}
