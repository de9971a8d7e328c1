/** Guessing a package from the namespaces of a program
    (thrift/compiler/codemod/package_generator.h). The paths a namespace yields, with
    and without its language name, come from regular expressions and are given. */
module CommonPackage {
  import opened Splitting

  const DEFAULT_DOMAIN := "meta.com"

  /** A namespace: its path without the language name ("" if nothing was removed),
      its path as written, and its domain ("" if none was recognised). */
  datatype Namespace = Namespace(modifiedPath: string, path: string, domain: string)

  /** One path seen, with the domain of its namespace. */
  datatype Occurrence = Occurrence(path: string, domain: string)

  datatype FreqAndDomain = FreqAndDomain(freq: int, domain: string)

  /** How often a path has been seen. */
  ghost function Count(seen: seq<Occurrence>, path: string): nat {
    if seen == [] then 0 else
      Count(seen[..|seen| - 1], path) + if seen[|seen| - 1].path == path then 1 else 0
  }

  /** The last non-empty domain seen with a path, or "". */
  ghost function LastDomain(seen: seq<Occurrence>, path: string): string {
    if seen == [] then ""
    else
      var last := seen[|seen| - 1];
      if last.path == path && last.domain != "" then last.domain else LastDomain(seen[..|seen| - 1], path)
  }

  /** When `p` had been seen as often as it is in the end, `q` had not. */
  ghost predicate ReachedFirst(seen: seq<Occurrence>, p: string, q: string) {
    exists n :: AheadAt(seen, p, q, n)
  }

  ghost predicate AheadAt(seen: seq<Occurrence>, p: string, q: string, n: int) {
    0 <= n <= |seen| && Count(seen[..n], p) == Count(seen, p) && Count(seen[..n], q) < Count(seen, q)
  }

  /** Seen at least twice, at least as often as every other path, longest among the
      paths seen that often, and the first of those to be seen that often. */
  ghost predicate IsBest(seen: seq<Occurrence>, path: string) {
    && path != "" && Count(seen, path) >= 2
    && forall q :: q != "" ==>
      || q == path || Count(seen, q) < Count(seen, path)
      || (Count(seen, q) == Count(seen, path) && (|q| < |path| || (|q| == |path| && ReachedFirst(seen, path, q))))
  }

  lemma {:induction false} CountGrows(seen: seq<Occurrence>, path: string, m: nat, n: nat)
    requires m <= n <= |seen|
    ensures Count(seen[..m], path) <= Count(seen[..n], path)
    decreases n
  {
    if m < n {
      assert seen[..n][..n - 1] == seen[..n - 1];
      CountGrows(seen, path, m, n - 1);
    }
  }

  /** There is only one such path. */
  lemma BestIsUnique(seen: seq<Occurrence>, p: string, q: string)
    requires IsBest(seen, p) && IsBest(seen, q)
    ensures p == q
  {
    if p != q {
      var n :| AheadAt(seen, p, q, n);
      var m :| AheadAt(seen, q, p, m);
      if n <= m { CountGrows(seen, p, n, m); } else { CountGrows(seen, q, m, n); }
      assert false;
    }
  }

  ghost predicate NoneRepeats(seen: seq<Occurrence>) {
    forall q :: q != "" ==> Count(seen, q) <= 1
  }

  /** The paths in the order in which they are looked at; empty ones do not count. */
  ghost function Occurrences(namespaces: seq<Namespace>): seq<Occurrence> {
    if namespaces == [] then [] else
      var n := namespaces[|namespaces| - 1];
      Occurrences(namespaces[..|namespaces| - 1]) + Seen(n.modifiedPath, n.domain) + Seen(n.path, n.domain)
  }

  ghost function Seen(path: string, domain: string): seq<Occurrence> {
    if path == "" then [] else [Occurrence(path, domain)]
  }

  /** A path is seen with a domain exactly when a namespace of that domain has it, as
      written or without the language name. */
  lemma {:induction false} OccurrencesAre(namespaces: seq<Namespace>, o: Occurrence)
    ensures o in Occurrences(namespaces) <==>
      o.path != "" && exists n :: n in namespaces && n.domain == o.domain && o.path in [n.modifiedPath, n.path]
  {
    if namespaces != [] {
      var init, n := namespaces[..|namespaces| - 1], namespaces[|namespaces| - 1];
      OccurrencesAre(init, o);
      assert namespaces == init + [n] && n in namespaces;
      hide Occurrences;
      assert Occurrences(namespaces) ==
        Occurrences(init) + Seen(n.modifiedPath, n.domain) + Seen(n.path, n.domain) by {
        OccurrencesLast(namespaces);
      }
    }
  }

  lemma OccurrencesLast(namespaces: seq<Namespace>)
    requires namespaces != []
    ensures var n := namespaces[|namespaces| - 1];
      Occurrences(namespaces) ==
        Occurrences(namespaces[..|namespaces| - 1]) + Seen(n.modifiedPath, n.domain) + Seen(n.path, n.domain)
  {}

  ghost predicate FirstDomainAt(namespaces: seq<Namespace>, i: nat)
    requires i < |namespaces|
  {
    namespaces[i].domain != "" && forall j :: 0 <= j < i ==> namespaces[j].domain == ""
  }

  /** The domain of the first namespace that has one. */
  method AnyDomain(namespaces: seq<Namespace>) returns (r: string)
    ensures if forall n :: n in namespaces ==> n.domain == "" then r == DEFAULT_DOMAIN
      else r != "" && exists i :: 0 <= i < |namespaces| && FirstDomainAt(namespaces, i) && r == namespaces[i].domain
  {
    var i := 0;
    while i < |namespaces|
      invariant 0 <= i <= |namespaces|
      invariant forall j :: 0 <= j < i ==> namespaces[j].domain == ""
    {
      if namespaces[i].domain != "" {
        assert namespaces[i] in namespaces && FirstDomainAt(namespaces, i);
        return namespaces[i].domain;
      }
      i := i + 1;
    }
    return DEFAULT_DOMAIN;
  }

  class Finder {
    var freqMap: map<string, FreqAndDomain>
    var mostFreqPath: string
    ghost var seen: seq<Occurrence>

    constructor ()
      ensures Valid() && seen == []
    {
      freqMap, mostFreqPath, seen := map[], "", [];
    }

    ghost predicate Valid()
      reads this
    {
      Tallied(seen, freqMap) && Leads(seen, mostFreqPath)
    }

    method ProcessPath(path: string, domain: string)
      requires Valid()
      modifies this
      ensures Valid() && seen == old(seen) + Seen(path, domain)
    {
      hide Count, LastDomain, Tallied, Leads;
      if path == "" {
        assert seen + [] == seen;
        return;
      }
      if path in freqMap {
        CountAgain(path, domain);
        return;
      }
      ghost var o := Occurrence(path, domain);
      TallyExtends(seen, freqMap, o);
      LeadExtends(seen, mostFreqPath, o);
      TallyAt(seen, freqMap, path);
      freqMap := freqMap[path := FreqAndDomain(1, domain)];
      seen := seen + [o];
    }

    /** A path met again: count it, and see whether it is now the best one. */
    method CountAgain(path: string, domain: string)
      requires Valid() && path != "" && path in freqMap
      modifies this
      ensures Valid() && seen == old(seen) + [Occurrence(path, domain)]
    {
      ghost var o := Occurrence(path, domain);
      TallyExtends(seen, freqMap, o);
      LeadExtends(seen, mostFreqPath, o);
      TallyAt(seen, freqMap, path);
      TallyAt(seen, freqMap, mostFreqPath);
      hide Count, LastDomain, Tallied, Leads;
      var entry := freqMap[path];
      entry := entry.(freq := entry.freq + 1, domain := if domain != "" then domain else entry.domain);
      var updated := freqMap[path := entry];
      TallyIgnoresEmpty(seen + [o], updated);
      if mostFreqPath !in updated {
        updated := updated[mostFreqPath := FreqAndDomain(0, "")];
      }
      var maxFreq := updated[mostFreqPath].freq;
      if entry.freq > maxFreq || (entry.freq == maxFreq && |path| > |mostFreqPath|) {
        mostFreqPath := path;
      }
      freqMap := updated;
      seen := seen + [o];
    }

    /** Domain and path of the best candidate, or "". */
    method FindCommonPackage(namespaces: seq<Namespace>, anyDomain: string) returns (r: string)
      requires Valid() && seen == []
      modifies this
      ensures seen == Occurrences(namespaces)
      ensures r == "" <==> NoneRepeats(seen)
      ensures r != "" ==> exists path :: IsBest(seen, path) && r == PackageName(seen, path, anyDomain)
      ensures r != "" ==> exists path, domain ::
        IsBest(seen, path) && IsDomainOf(seen, path, anyDomain, domain) && SplitsInto(r, domain, path)
    {
      var i := 0;
      while i < |namespaces|
        invariant 0 <= i <= |namespaces|
        invariant Valid() && seen == Occurrences(namespaces[..i])
      {
        ProcessPath(namespaces[i].modifiedPath, namespaces[i].domain);
        ProcessPath(namespaces[i].path, namespaces[i].domain);
        assert namespaces[..i + 1][..i] == namespaces[..i];
        i := i + 1;
      }
      assert namespaces[..i] == namespaces;
      TallyAt(seen, freqMap, mostFreqPath);
      LeadIsBest(seen, mostFreqPath);
      hide Count, LastDomain, Tallied, Leads, NoneRepeats, IsBest;
      if mostFreqPath == "" {
        return "";
      }
      var domain := freqMap[mostFreqPath].domain;
      if domain == "" {
        domain := anyDomain;
      }
      DomainIs(seen, mostFreqPath, anyDomain);
      NameSplits(domain, mostFreqPath);
      hide IsDomainOf, SplitsInto;
      return domain + "/" + mostFreqPath;
    }
  }

  /** The path under its own domain, or under the fallback if it has none. */
  ghost function PackageName(seen: seq<Occurrence>, path: string, anyDomain: string): string {
    (if LastDomain(seen, path) == "" then anyDomain else LastDomain(seen, path)) + "/" + path
  }

  /** The domain last seen with the path, of those that are not empty, or else the fallback. */
  ghost predicate IsDomainOf(seen: seq<Occurrence>, path: string, anyDomain: string, domain: string) {
    if exists i :: DomainSeenAt(seen, path, i) then
      exists i :: DomainSeenAt(seen, path, i) && domain == seen[i].domain &&
        forall j :: DomainSeenAt(seen, path, j) ==> j <= i
    else domain == anyDomain
  }

  ghost predicate DomainSeenAt(seen: seq<Occurrence>, path: string, i: int) {
    0 <= i < |seen| && seen[i].path == path && seen[i].domain != ""
  }

  lemma {:induction false} LastDomainIs(seen: seq<Occurrence>, path: string)
    ensures var domain := LastDomain(seen, path);
      if domain == "" then forall i :: !DomainSeenAt(seen, path, i)
      else
        exists i :: DomainSeenAt(seen, path, i) && domain == seen[i].domain &&
          forall j :: DomainSeenAt(seen, path, j) ==> j <= i
  {
    if seen != [] {
      var init, n := seen[..|seen| - 1], |seen| - 1;
      LastDomainIs(init, path);
      assert forall i :: DomainSeenAt(seen, path, i) <==>
        DomainSeenAt(init, path, i) || (i == n && DomainSeenAt(seen, path, n));
      if DomainSeenAt(seen, path, n) {
        assert LastDomain(seen, path) == seen[n].domain;
      } else if LastDomain(init, path) != "" {
        var i :| DomainSeenAt(init, path, i) && LastDomain(init, path) == init[i].domain &&
          forall j :: DomainSeenAt(init, path, j) ==> j <= i;
        assert DomainSeenAt(seen, path, i);
      }
    }
  }

  lemma DomainIs(seen: seq<Occurrence>, path: string, anyDomain: string)
    ensures IsDomainOf(seen, path, anyDomain,
      if LastDomain(seen, path) == "" then anyDomain else LastDomain(seen, path))
  {
    LastDomainIs(seen, path);
    hide LastDomain, DomainSeenAt;
  }

  /** The package name is the domain, if that holds no slash, up to the first slash and
      the path behind it. */
  ghost predicate SplitsInto(name: string, domain: string, path: string) {
    '/' !in domain ==> Split(name, '/') == [domain] + Split(path, '/')
  }

  lemma NameSplits(domain: string, path: string)
    ensures SplitsInto(domain + "/" + path, domain, path)
  {
    if '/' !in domain {
      SplitAfter(domain, path, '/');
    }
  }

  /** The map holds the count and last domain of every path seen. Looking up the
      best path before there is one leaves an entry for "" behind. */
  ghost predicate Tallied(seen: seq<Occurrence>, freqMap: map<string, FreqAndDomain>) {
    && (forall p :: p != "" && Count(seen, p) == 0 ==> p !in freqMap)
    && (forall p :: p != "" && Count(seen, p) != 0 ==> p in freqMap && freqMap[p] == TallyOf(seen, p))
    && ("" in freqMap ==> freqMap[""].freq == 0)
  }

  ghost function TallyOf(seen: seq<Occurrence>, p: string): FreqAndDomain {
    FreqAndDomain(Count(seen, p), LastDomain(seen, p))
  }

  ghost predicate Leads(seen: seq<Occurrence>, path: string) {
    if path == "" then NoneRepeats(seen) else IsBest(seen, path)
  }

  lemma LeadIsBest(seen: seq<Occurrence>, path: string)
    requires Leads(seen, path)
    ensures path == "" <==> NoneRepeats(seen)
    ensures path != "" ==> IsBest(seen, path)
  {}

  lemma TallyAt(seen: seq<Occurrence>, freqMap: map<string, FreqAndDomain>, p: string)
    requires Tallied(seen, freqMap)
    ensures p != "" ==> (p in freqMap <==> Count(seen, p) > 0)
    ensures p != "" && p in freqMap ==> freqMap[p] == TallyOf(seen, p)
    ensures p != "" && Leads(seen, p) ==> Count(seen, p) >= 2
    ensures p == "" && p in freqMap ==> freqMap[p].freq == 0
  {}

  lemma TallyIgnoresEmpty(seen: seq<Occurrence>, freqMap: map<string, FreqAndDomain>)
    requires Tallied(seen, freqMap)
    ensures Tallied(seen, freqMap["" := FreqAndDomain(0, "")])
  {}

  lemma TallyExtends(seen: seq<Occurrence>, freqMap: map<string, FreqAndDomain>, o: Occurrence)
    requires Tallied(seen, freqMap) && o.path != ""
    ensures Tallied(seen + [o], freqMap[o.path := FreqAndDomain(
      Count(seen, o.path) + 1, if o.domain != "" then o.domain else LastDomain(seen, o.path))])
    ensures Count(seen, o.path) == 0 ==> LastDomain(seen, o.path) == ""
  {
    OneMore(seen, o);
  }

  /** The comparison with the best path so far picks the best path again. */
  lemma LeadExtends(seen: seq<Occurrence>, most: string, o: Occurrence)
    requires Leads(seen, most) && o.path != ""
    ensures Count(seen, o.path) == 0 ==> Leads(seen + [o], most)
    ensures Count(seen, o.path) > 0 ==>
      var c := Count(seen, o.path) + 1;
      var max := if most == "" then 0 else if most == o.path then c else Count(seen, most);
      Leads(seen + [o], if c > max || (c == max && |o.path| > |most|) then o.path else most)
  {
    OneMore(seen, o);
    forall q | q != most && (o.path == q || (o.path != most && ReachedFirst(seen, most, q)))
      ensures ReachedFirst(seen + [o], most, q)
    {
      LeadKept(seen, most, q, o);
    }
    hide Count, LastDomain, ReachedFirst;
  }

  lemma LeadKept(seen: seq<Occurrence>, p: string, q: string, o: Occurrence)
    requires p != q && (o.path == q || (o.path != p && ReachedFirst(seen, p, q)))
    ensures ReachedFirst(seen + [o], p, q)
  {
    OneMore(seen, o);
    var more := seen + [o];
    if o.path == q {
      assert more[..|seen|] == seen;
      assert AheadAt(more, p, q, |seen|);
    } else {
      var n :| AheadAt(seen, p, q, n);
      assert more[..n] == seen[..n];
      assert AheadAt(more, p, q, n);
    }
  }

  ghost function DomainAfter(o: Occurrence, p: string, before: string): string {
    if o.path == p && o.domain != "" then o.domain else before
  }

  lemma OneMore(seen: seq<Occurrence>, o: Occurrence)
    ensures forall p :: Count(seen + [o], p) == Count(seen, p) + if o.path == p then 1 else 0
    ensures forall p :: LastDomain(seen + [o], p) == DomainAfter(o, p, LastDomain(seen, p))
    ensures forall p :: Count(seen, p) == 0 ==> LastDomain(seen, p) == ""
  {
    assert (seen + [o])[..|seen|] == seen;
    forall p | Count(seen, p) == 0 ensures LastDomain(seen, p) == "" { NeverSeen(seen, p); }
  }

  lemma {:induction false} NeverSeen(seen: seq<Occurrence>, path: string)
    requires Count(seen, path) == 0
    ensures LastDomain(seen, path) == ""
  {
    if seen != [] { NeverSeen(seen[..|seen| - 1], path); }
  }
}
