/** Programs and the include statements between them, as one finite directed graph.

    `paths` is what `t_program::path` returns and `includes` the list that
    `t_program::get_included_programs` returns. The graph may be cyclic, a
    program may include the same program twice, and two programs may carry the
    same path. */
module IncludeGraph {
  import opened Programs

  datatype Graph = Graph(paths: map<Program, string>, includes: map<Program, seq<Program>>) {
    /** Every program has a path and an include list, and includes only programs of the graph. */
    ghost predicate Valid() {
      && paths.Keys == includes.Keys
      && forall p, q :: p in includes && q in includes[p] ==> q in includes
    }
  }

  ghost predicate NoRepeats<T>(s: seq<T>) {
    forall i, j :: 0 <= i < j < |s| ==> s[i] != s[j]
  }

  /** `s` is a non-empty chain of programs, each including the next. */
  ghost predicate IsChain(g: Graph, s: seq<Program>) {
    && s != []
    && (forall i :: 0 <= i < |s| ==> s[i] in g.includes)
    && forall i :: 0 <= i < |s| - 1 ==> s[i + 1] in g.includes[s[i]]
  }

  ghost predicate ChainBetween(g: Graph, s: seq<Program>, p: Program, q: Program) {
    IsChain(g, s) && s[0] == p && s[|s| - 1] == q
  }

  /** `q` is `p` itself or a transitive include of it. */
  ghost predicate Reaches(g: Graph, p: Program, q: Program) {
    exists s :: ChainBetween(g, s, p, q)
  }

  ghost function Reachable(g: Graph, p: Program): set<Program> {
    set q | q in g.includes && Reaches(g, p, q)
  }

  /** `p` is one of its own transitive includes. */
  ghost predicate OnCycle(g: Graph, p: Program)
    requires g.Valid()
  {
    p in g.includes && exists q :: q in g.includes[p] && Reaches(g, q, p)
  }

  ghost predicate Closed(g: Graph, s: set<Program>) {
    forall p, q :: p in s && p in g.includes && q in g.includes[p] ==> q in s
  }

  lemma ReachesSelf(g: Graph, p: Program)
    requires p in g.includes
    ensures Reaches(g, p, p)
  {
    assert ChainBetween(g, [p], p, p);
  }

  lemma ReachedIsKnown(g: Graph, p: Program, q: Program)
    requires Reaches(g, p, q)
    ensures q in g.includes
  {
    var s :| ChainBetween(g, s, p, q);
  }

  lemma ReachesTransitive(g: Graph, p: Program, q: Program, r: Program)
    requires Reaches(g, p, q) && Reaches(g, q, r)
    ensures Reaches(g, p, r)
  {
    var s :| ChainBetween(g, s, p, q);
    var t :| ChainBetween(g, t, q, r);
    assert ChainBetween(g, s + t[1..], p, r);
  }

  lemma ReachesInclude(g: Graph, p: Program, q: Program)
    requires g.Valid() && p in g.includes && q in g.includes[p]
    ensures Reaches(g, p, q)
  {
    assert ChainBetween(g, [p, q], p, q);
  }

  lemma {:induction false} ChainStaysInClosed(g: Graph, s: seq<Program>, inside: set<Program>)
    requires IsChain(g, s) && s[0] in inside && Closed(g, inside)
    ensures forall p :: p in s ==> p in inside
  {
    if |s| > 1 {
      ChainStaysInClosed(g, s[1..], inside);
      assert s == [s[0]] + s[1..];
    }
  }

  /** A set closed under inclusion holds everything reachable from its members. */
  lemma ClosedHoldsReachable(g: Graph, p: Program, inside: set<Program>)
    requires p in inside && Closed(g, inside)
    ensures Reachable(g, p) <= inside
  {
    forall q | q in Reachable(g, p) ensures q in inside {
      var s :| ChainBetween(g, s, p, q);
      ChainStaysInClosed(g, s, inside);
    }
  }

  // The depth-first walk.

  /** The programs a walk has met, in the order it met them, and those it has left,
      in the order it left them. */
  datatype Tour = Tour(met: seq<Program>, left: seq<Program>)

  ghost function Members(s: seq<Program>): set<Program> {
    set p | p in s
  }

  lemma MembersAppend(s: seq<Program>, p: Program)
    ensures Members(s + [p]) == Members(s) + {p}
  {}

  lemma MembersGrow(s: seq<Program>, t: seq<Program>)
    requires s <= t
    ensures Members(s) <= Members(t)
  {}

  /** Meet a program, walk its includes in order, and leave it. */
  ghost function WalkOne(g: Graph, p: Program, met: seq<Program>): (r: Tour)
    requires g.Valid() && p in g.includes && p !in met
    ensures met + [p] <= r.met
    decreases g.includes.Keys - Members(met), 0, 0
  {
    MembersAppend(met, p);
    assert p in g.includes.Keys - Members(met);
    var below := WalkAll(g, g.includes[p], met + [p]);
    Tour(below.met, below.left + [p])
  }

  /** Walk those of the programs that have not been met yet. */
  ghost function WalkAll(g: Graph, ps: seq<Program>, met: seq<Program>): (r: Tour)
    requires g.Valid() && forall p :: p in ps ==> p in g.includes
    ensures met <= r.met
    decreases g.includes.Keys - Members(met), 1, |ps|
  {
    if ps == [] then Tour(met, []) else
      var before, p := WalkAll(g, ps[..|ps| - 1], met), ps[|ps| - 1];
      if p in before.met then before else
        MembersGrow(met, before.met);
        var one := WalkOne(g, p, before.met);
        Tour(one.met, before.left + one.left)
  }

  /** Walk a program unless it has been met. */
  ghost function WalkFrom(g: Graph, p: Program, met: seq<Program>): Tour {
    if g.Valid() && p in g.includes && p !in met then WalkOne(g, p, met) else Tour(met, [])
  }

  ghost function WalkList(g: Graph, ps: seq<Program>, met: seq<Program>): Tour {
    if g.Valid() && forall p :: p in ps ==> p in g.includes then WalkAll(g, ps, met) else Tour(met, [])
  }

  lemma WalkIncludes(g: Graph, p: Program, met: seq<Program>)
    requires g.Valid() && p in g.includes && p !in met
    ensures WalkFrom(g, p, met) ==
      var below := WalkList(g, g.includes[p], met + [p]); Tour(below.met, below.left + [p])
  {}

  lemma WalkNext(g: Graph, ps: seq<Program>, p: Program, met: seq<Program>)
    requires g.Valid() && p in g.includes && forall q :: q in ps ==> q in g.includes
    ensures WalkList(g, ps + [p], met) ==
      var before := WalkList(g, ps, met);
      var one := WalkFrom(g, p, before.met);
      Tour(one.met, before.left + one.left)
  {
    assert (ps + [p])[..|ps|] == ps;
    var before := WalkList(g, ps, met);
    if p in before.met {
      assert before.left + [] == before.left;
    }
  }
}
