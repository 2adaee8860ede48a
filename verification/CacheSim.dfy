/** The cache and the loop that runs a trace through it. */
module CacheSim {
  import opened LruSpec
  import opened LruFetch
  import opened LruQueue
  import opened AddressBits
  import opened CacheRuns

  /** The shift expressions of bits.c. */
  method SplitAddress(g: Geometry, a: nat) returns (s: nat, t: nat, b: nat)
    requires g.Fits() && Word(a)
    ensures s == g.SetOf(a) < Pow2(g.setBits) && t == g.TagOf(a) && b == g.ByteIn(a) < Pow2(g.blockBits)
    ensures b == a % Pow2(g.blockBits) && s == a / Pow2(g.blockBits) % Pow2(g.setBits)
    ensures t == a / Pow2(g.blockBits) / Pow2(g.setBits)
  {
    FieldsAreDivMod(a, g.setBits, g.blockBits);
    var tag := 32 - (g.setBits + g.blockBits);
    s := ShiftRight(ShiftLeft(a, tag), g.blockBits + tag);
    t := ShiftRight(a, g.setBits + g.blockBits);
    b := ShiftRight(ShiftLeft(a, tag + g.setBits), tag + g.setBits);
  }

  function Power(n: nat): (p: nat)
    ensures p == Pow2(n)
  {
    if n == 0 then 1 else 2 * Power(n - 1)
  }

  function ShiftLeft(a: nat, k: nat): (r: nat)
    ensures r == Shl(a, k)
  {
    Mod(a * Power(k), Power(32))
  }

  function ShiftRight(a: nat, k: nat): (r: nat)
    ensures r == Shr(a, k)
  {
    Div(a, Power(k))
  }

  /** The record of a line after a miss. */
  method ClearRecord(record: array<int>)
    modifies record
    ensures record[..] == Zeros(record.Length)
  {
    var i := 0;
    while i < record.Length
      invariant 0 <= i <= record.Length && forall j :: 0 <= j < i ==> record[j] == 0
    {
      record[i] := 0;
      i := i + 1;
    }
  }

  /** The record of the line that comes first in its set. */
  method MarkByte(cs: CacheSet, line: Line, miss: bool, b: nat)
    requires cs.Shape() && cs.nodes != [] && line == cs.nodes[0].line && b < cs.blockSize
    modifies cs`slots, line.accessed
    ensures cs.Shape() && cs.slots == Marked(old(cs.slots), miss, b, cs.blockSize)
  {
    ghost var ns, q := cs.nodes, cs.slots;
    assert SlotOf(ns[0]) == q[0];
    if miss {
      ClearRecord(line.accessed);
    }
    line.accessed[b] := 1;
    cs.slots := Marked(q, miss, b, cs.blockSize);
    assert Holds(ns, cs.slots);
  }

  lemma MarkedIsSettled(q: seq<Slot>, miss: bool, b: nat, blockSize: nat)
    requires q != [] && Settled(q)
    ensures Settled(Marked(q, miss, b, blockSize))
  {
    RecordIrrelevant(q, Marked(q, miss, b, blockSize)[0].accessed);
  }

  /** What cache_access does once it has the set: fetch, clear the record on a miss, mark the
      byte. */
  method AccessSet(cs: CacheSet, t: int, b: nat) returns (access: Access)
    requires cs.Whole() && cs.lineCount > 0 && b < cs.blockSize
    modifies cs.own
    ensures cs.Whole()
    ensures cs.slots == Touch(old(cs.slots), Use(t, b), cs.blockSize)
    ensures access == FetchKind(old(cs.slots), t)
  {
    hide Marked, Fetched, FetchKind, Settled, Linked, Holds;
    var line;
    line, access := cs.Fetch(t);
    MarkedIsSettled(cs.slots, access != HIT, b, cs.blockSize);
    MarkByte(cs, line, access != HIT, b);
  }

  /** The sets have no objects in common, and all of them are in `used`. */
  ghost predicate Apart(ss: seq<CacheSet>, used: set<object>) {
    && (forall i, j :: 0 <= i < j < |ss| ==> ss[i].own !! ss[j].own)
    && forall s :: 0 <= s < |ss| ==> ss[s] in ss[s].own && ss[s].own <= used
  }

  lemma ApartMore(ss: seq<CacheSet>, used: set<object>, cs: CacheSet)
    requires Apart(ss, used) && cs in cs.own && cs.own !! used
    ensures Apart(ss + [cs], used + cs.own)
  {
  }

  /** The set is in order and of the right shape. */
  ghost predicate WholeOf(cs: CacheSet, lineCount: nat, blockSize: nat)
    reads cs, cs.own
  {
    cs.Whole() && cs.lineCount == lineCount && cs.blockSize == blockSize
  }

  ghost predicate StartsUnused(q: seq<Slot>, lineCount: nat) {
    |q| == lineCount && AllUnused(q)
  }

  ghost predicate Ready(cs: CacheSet, lineCount: nat, blockSize: nat)
    reads cs, cs.own
  {
    WholeOf(cs, lineCount, blockSize) && StartsUnused(cs.slots, lineCount)
  }

  method MakeSet(sets: array<CacheSet?>, i: nat, lineCount: nat, blockSize: nat, ghost used: set<object>)
      returns (cs: CacheSet)
    requires i < sets.Length
    modifies sets
    ensures forall j :: 0 <= j < sets.Length ==> sets[j] == if j == i then cs else old(sets[j])
    ensures cs in cs.own && fresh(cs.own) && cs.own !! used
    ensures Ready(cs, lineCount, blockSize)
  {
    cs := new CacheSet(lineCount, blockSize);
    sets[i] := cs;
  }

  /** make_sets and lru_init. */
  method MakeSets(setCount: nat, lineCount: nat, blockSize: nat)
      returns (sets: array<CacheSet?>, ghost ss: seq<CacheSet>, ghost used: set<object>)
    ensures fresh(sets) && sets.Length == |ss| == setCount && forall s :: 0 <= s < |ss| ==> sets[s] == ss[s]
    ensures Apart(ss, used) && fresh(used) && sets !in used
    ensures forall s :: 0 <= s < |ss| ==> Ready(ss[s], lineCount, blockSize)
  {
    hide Ready;
    sets := new CacheSet?[setCount](_ => null);
    ss, used := [], {};
    var i := 0;
    while i < setCount
      invariant 0 <= i <= setCount && |ss| == i && forall s :: 0 <= s < i ==> sets[s] == ss[s]
      invariant Apart(ss, used) && fresh(used) && sets !in used
      invariant forall s :: 0 <= s < i ==> Ready(ss[s], lineCount, blockSize)
    {
      var cs := MakeSet(sets, i, lineCount, blockSize, used);
      ApartMore(ss, used, cs);
      ss, used := ss + [cs], used + cs.own;
      i := i + 1;
    }
  }

  /** A set after the accesses of `trace` that go to it. */
  ghost predicate Tracks(cs: CacheSet, g: Geometry, start: seq<Slot>, trace: seq<nat>, s: nat)
    requires g.Fits()
    reads cs, cs.own
  {
    && WholeOf(cs, g.lineCount, Pow2(g.blockBits))
    && StartsUnused(start, g.lineCount)
    && cs.slots == RunSet(start, UsesAt(g, trace, s), Pow2(g.blockBits))
  }

  lemma UsesAfter(g: Geometry, trace: seq<nat>, a: nat, s: nat)
    requires g.Fits()
    ensures g.SetOf(a) != s ==> UsesAt(g, trace + [a], s) == UsesAt(g, trace, s)
    ensures g.SetOf(a) == s ==> UsesAt(g, trace + [a], s) == UsesAt(g, trace, s) + [Use(g.TagOf(a), g.ByteIn(a))]
  {
    assert (trace + [a])[..|trace|] == trace;
  }

  lemma RunAfter(q: seq<Slot>, h: seq<Use>, u: Use, blockSize: nat)
    requires q != []
    ensures RunSet(q, h + [u], blockSize) == Touch(RunSet(q, h, blockSize), u, blockSize)
  {
    assert (h + [u])[..|h|] == h;
  }

  /** The access that goes to set `s` is one more access of its run. */
  method AccessTracked(cs: CacheSet, g: Geometry, a: nat, t: int, b: nat,
                       ghost start: seq<Slot>, ghost trace: seq<nat>) returns (access: Access)
    requires g.Fits() && Word(a) && t == g.TagOf(a) && b == g.ByteIn(a) < Pow2(g.blockBits)
    requires Tracks(cs, g, start, trace, g.SetOf(a))
    modifies cs.own
    ensures Tracks(cs, g, start, trace + [a], g.SetOf(a))
    ensures access == ResultOf(g, trace, a)
  {
    hide CacheSet.Valid, Touch, FetchKind, RunSet, UsesAt, Pow2, Geometry.SetOf, Geometry.TagOf, Geometry.ByteIn;
    ghost var h, u := UsesAt(g, trace, g.SetOf(a)), Use(g.TagOf(a), g.ByteIn(a));
    RunKind(start, h, u, Pow2(g.blockBits));
    UsesAfter(g, trace, a, g.SetOf(a));
    RunAfter(start, h, u, Pow2(g.blockBits));
    access := AccessSet(cs, t, b);
  }

  lemma TracksOther(cs: CacheSet, g: Geometry, start: seq<Slot>, trace: seq<nat>, a: nat, s: nat)
    requires g.Fits() && Tracks(cs, g, start, trace, s) && g.SetOf(a) != s
    ensures Tracks(cs, g, start, trace + [a], s)
  {
    hide RunSet, WholeOf, StartsUnused, UsesAt, Geometry.SetOf, Geometry.TagOf, Geometry.ByteIn;
    UsesAfter(g, trace, a, s);
  }

  lemma ApartFrom(ss: seq<CacheSet>, used: set<object>, s: nat)
    requires Apart(ss, used) && s < |ss|
    ensures forall i :: 0 <= i < |ss| ==> ss[i] in ss[i].own && ss[i].own <= used
    ensures forall i :: 0 <= i < |ss| && i != s ==> ss[i].own !! ss[s].own
  {
  }

  class Cache {
    const g: Geometry
    const sets: array<CacheSet?>
    ghost const ss: seq<CacheSet>
    ghost const used: set<object>          // the objects of the sets
    ghost const start: seq<seq<Slot>>      // the lines as they were made
    ghost var trace: seq<nat>              // the addresses accessed so far

    /** Every set has run its own part of the trace. */
    ghost predicate Valid()
      reads this, sets, used
    {
      && g.Fits() && sets.Length == |ss| == |start| == Pow2(g.setBits)
      && (forall s :: 0 <= s < |ss| ==> sets[s] == ss[s])
      && Apart(ss, used) && sets !in used && this !in used
      && forall s :: 0 <= s < |ss| ==> Tracks(ss[s], g, start[s], trace, s)
    }

    /** make_cache. */
    constructor (g: Geometry)
      requires g.Fits()
      ensures Valid() && this.g == g && trace == [] && fresh(used) && fresh(sets)
    {
      hide Apart, WholeOf, StartsUnused;
      this.g := g;
      var sets, ss, used := MakeSets(Power(g.setBits), g.lineCount, Power(g.blockBits));
      this.sets, this.ss, this.used, trace := sets, ss, used, [];
      start := seq(|ss|, s requires 0 <= s < |ss| reads ss => ss[s].slots);
    }

    /** cache_access. */
    method Access(a: nat) returns (access: Access)
      requires Valid() && Word(a)
      modifies this`trace, used
      ensures Valid() && trace == old(trace) + [a]
      ensures access == ResultOf(g, old(trace), a)
    {
      hide Tracks, Apart, Pow2, Geometry.SetOf, Geometry.TagOf, Geometry.ByteIn;
      var s, t, b := SplitAddress(g, a);
      ApartFrom(ss, used, s);
      ghost var was := trace;
      trace := trace + [a];
      forall i | 0 <= i < |ss| && i != s ensures Tracks(ss[i], g, start[i], trace, i) {
        TracksOther(ss[i], g, start[i], was, a, i);
      }
      access := AccessTracked(sets[s], g, a, t, b, start[s], was);
    }
  }

  lemma CounterAfter(g: Geometry, trace: seq<nat>, a: nat, r: Access)
    requires g.Fits()
    ensures Counter(g, trace + [a], r) == Counter(g, trace, r) + if ResultOf(g, trace, a) == r then 1 else 0
  {
    assert (trace + [a])[..|trace|] == trace;
  }

  class Cpu {
    const cache: Cache
    var addressCount: nat
    var hits: nat
    var cold: nat
    var conflict: nat

    ghost const before: seq<nat>    // what the cache had been used for

    /** How many accesses since `before` have this result. */
    ghost function Since(r: Access): int
      requires cache.g.Fits()
      reads this, cache
    {
      Counter(cache.g, cache.trace, r) - Counter(cache.g, before, r)
    }

    /** The counters are those of the accesses this processor made. */
    ghost predicate Counts()
      reads this, cache
    {
      && this !in cache.used && cache.g.Fits()
      && addressCount == |cache.trace| - |before|
      && hits == Since(HIT) && cold == Since(COLD_MISS) && conflict == Since(CONFLICT_MISS)
    }

    /** make_cpu. */
    constructor (cache: Cache)
      requires cache.Valid()
      ensures this.cache == cache && before == cache.trace && Counts()
    {
      this.cache, addressCount, hits, cold, conflict := cache, 0, 0, 0, 0;
      before := cache.trace;
    }

    /** run_cpu: what is left of the trace file is `addresses`. */
    method Run(addresses: seq<nat>)
      requires cache.Valid() && Counts()
      requires forall i :: 0 <= i < |addresses| ==> Word(addresses[i])
      modifies this, cache`trace, cache.used
      ensures cache.Valid() && Counts() && cache.trace == old(cache.trace) + addresses
      ensures addressCount == old(addressCount) + |addresses|
      ensures var g, before, after := cache.g, old(cache.trace), cache.trace;
              && hits - old(hits) == Counter(g, after, HIT) - Counter(g, before, HIT)
              && cold - old(cold) == Counter(g, after, COLD_MISS) - Counter(g, before, COLD_MISS)
              && conflict - old(conflict) == Counter(g, after, CONFLICT_MISS) - Counter(g, before, CONFLICT_MISS)
    {
      hide Counter, ResultOf, Word, Cache.Valid;
      var n := 0;
      while n < |addresses|
        invariant 0 <= n <= |addresses| && cache.Valid() && Counts()
        invariant cache.trace == old(cache.trace) + addresses[..n]
      {
        ghost var trace := cache.trace;
        addressCount := addressCount + 1;
        var result := cache.Access(addresses[n]);
        CounterAfter(cache.g, trace, addresses[n], HIT);
        CounterAfter(cache.g, trace, addresses[n], COLD_MISS);
        CounterAfter(cache.g, trace, addresses[n], CONFLICT_MISS);
        if result == HIT {
          hits := hits + 1;
        } else if result == COLD_MISS {
          cold := cold + 1;
        } else {
          conflict := conflict + 1;
        }
        n := n + 1;
      }
    }
  }
}
