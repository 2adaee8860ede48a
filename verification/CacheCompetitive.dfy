/** The whole cache against any other way of choosing what each set replaces. */
module CacheCompetitive {
  import opened AddressBits
  import opened CacheRuns
  import opened LruSpec
  import opened LruCompetitive
  import opened Sequences

  /** A policy for each set below `n`, on as many lines as the cache has, all empty at first. */
  ghost predicate Policies(g: Geometry, trace: seq<nat>, os: seq<seq<set<int>>>, n: nat)
    requires g.Fits()
  {
    n <= |os| && forall s :: 0 <= s < n ==>
      PolicyRun(os[s], TagsUsed(UsesAt(g, trace, s)), g.lineCount) && os[s][0] == {}
  }

  /** The faults of these policies on the accesses that go to their sets. */
  ghost function SetFaults(g: Geometry, trace: seq<nat>, os: seq<seq<set<int>>>, n: nat): nat
    requires g.Fits() && Policies(g, trace, os, n)
  {
    if n == 0 then 0
    else SetFaults(g, trace, os, n - 1) + Faults(os[n - 1], TagsUsed(UsesAt(g, trace, n - 1)))
  }

  lemma {:induction false} SetsCompete(g: Geometry, trace: seq<nat>, os: seq<seq<set<int>>>, n: nat)
    requires g.Fits() && Policies(g, trace, os, n)
    ensures CountSets(g, trace, COLD_MISS, n) + CountSets(g, trace, CONFLICT_MISS, n)
         <= g.lineCount * SetFaults(g, trace, os, n) + g.lineCount * n
  {
    hide UsesAt, Count;
    if n > 0 {
      var k, h := g.lineCount, TagsUsed(UsesAt(g, trace, n - 1));
      SetsCompete(g, trace, os, n - 1);
      KCompetitive(os[n - 1], h, k);
      Distributes(k, SetFaults(g, trace, os, n - 1), Faults(os[n - 1], h));
      OneMore(k, n - 1);
    }
  }

  lemma Distributes(k: int, x: int, y: int)
    ensures k * (x + y) == k * x + k * y
  {
  }

  /** Over any trace the cache misses at most `lineCount` times as often as any policy on caches of
      the same shape faults, plus the number of its lines. */
  lemma CacheIsCompetitive(g: Geometry, trace: seq<nat>, os: seq<seq<set<int>>>)
    requires g.Fits() && (forall i :: 0 <= i < |trace| ==> Word(trace[i]))
    requires Policies(g, trace, os, Pow2(g.setBits))
    ensures Counter(g, trace, COLD_MISS) + Counter(g, trace, CONFLICT_MISS)
         <= g.lineCount * SetFaults(g, trace, os, Pow2(g.setBits)) + g.lineCount * Pow2(g.setBits)
  {
    hide CountSets, Counter, SetFaults, Policies, Pow2;
    CountersBySet(g, trace, COLD_MISS);
    CountersBySet(g, trace, CONFLICT_MISS);
    SetsCompete(g, trace, os, Pow2(g.setBits));
  }
}
