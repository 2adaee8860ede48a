/** Runs of the whole cache: every set sees its own accesses, and each line records the bytes
    touched since its last miss. */
module CacheRuns {
  import opened LruSpec
  import opened LruFetch
  import opened AddressBits

  /** The shape of a cache; shifts are defined and there is a line to fetch into. */
  datatype Geometry = Geometry(setBits: nat, blockBits: nat, lineCount: nat) {
    ghost predicate Fits() {
      Domain(setBits, blockBits) && lineCount >= 1
    }

    ghost function SetOf(a: nat): nat
      requires Fits()
    {
      GetSet(a, setBits, blockBits)
    }

    ghost function TagOf(a: nat): nat
      requires Fits()
    {
      GetLine(a, setBits, blockBits)
    }

    ghost function ByteIn(a: nat): nat
      requires Fits()
    {
      GetByte(a, setBits, blockBits)
    }
  }

  /** An access as a set sees it. */
  datatype Use = Use(tag: int, byteIn: nat)

  /** The accesses of the trace that go to set `s`, in order. */
  ghost function UsesAt(g: Geometry, trace: seq<nat>, s: nat): seq<Use>
    requires g.Fits()
  {
    if trace == [] then []
    else
      var rest, a := trace[..|trace| - 1], trace[|trace| - 1];
      UsesAt(g, rest, s) + if g.SetOf(a) == s then [Use(g.TagOf(a), g.ByteIn(a))] else []
  }

  ghost function TagsUsed(h: seq<Use>): (t: seq<int>)
    ensures |t| == |h|
  {
    seq(|h|, i requires 0 <= i < |h| => h[i].tag)
  }

  ghost function Zeros(n: nat): (z: seq<int>)
    ensures |z| == n
  {
    seq(n, _ => 0)
  }

  /** The record of the first line is cleared on a miss, then the byte is marked. */
  ghost function Marked(q: seq<Slot>, miss: bool, b: nat, blockSize: nat): seq<Slot>
    requires q != []
  {
    var record := if miss then Zeros(blockSize) else q[0].accessed;
    q[0 := q[0].(accessed := if b < |record| then record[b := 1] else record)]
  }

  /** One access to a set: the fetch, then the record. */
  ghost function Touch(q: seq<Slot>, u: Use, blockSize: nat): seq<Slot>
    requires q != []
  {
    Marked(Fetched(q, u.tag), FetchKind(q, u.tag) != HIT, u.byteIn, blockSize)
  }

  /** The queue of a set after the accesses `h`, starting from `q`. */
  ghost function RunSet(q: seq<Slot>, h: seq<Use>, blockSize: nat): (r: seq<Slot>)
    requires q != []
    ensures |r| == |q|
  {
    if h == [] then q else Touch(RunSet(q, h[..|h| - 1], blockSize), h[|h| - 1], blockSize)
  }

  /** Changing a line's record changes neither which lines are used nor their tags. */
  lemma {:induction false} RecordIrrelevant(q: seq<Slot>, r: seq<int>)
    requires q != []
    ensures var p := q[0 := q[0].(accessed := r)];
            Tags(p) == Tags(q) && (Settled(q) ==> Settled(p))
  {
    assert q[0 := q[0].(accessed := r)][1..] == q[1..];
  }

  /** After any run from empty lines, the used lines of a set are a prefix of its queue and hold
      the most recently used distinct tags, newest first, cut at the number of lines. */
  lemma {:induction false} RunHolds(q: seq<Slot>, h: seq<Use>, blockSize: nat)
    requires q != [] && AllUnused(q)
    ensures var r := RunSet(q, h, blockSize);
            Settled(r) && Tags(r) == Held(TagsUsed(h), |q|) == Cut(Recency(TagsUsed(h)), |q|)
  {
    HeldIsRecent(TagsUsed(h), |q|);
    if h != [] {
      var g, u := h[..|h| - 1], h[|h| - 1];
      RunHolds(q, g, blockSize);
      var r := RunSet(q, g, blockSize);
      FetchIsLruStep(r, u.tag);
      RecordIrrelevant(Fetched(r, u.tag), RunSet(q, h, blockSize)[0].accessed);
      assert TagsUsed(h)[..|h| - 1] == TagsUsed(g);
    }
  }

  /** The result of the next access of a run; a conflict happens only when every line is used. */
  lemma RunKind(q: seq<Slot>, h: seq<Use>, u: Use, blockSize: nat)
    requires q != [] && AllUnused(q)
    ensures var r := RunSet(q, h, blockSize);
            && FetchKind(r, u.tag) == Kind(Held(TagsUsed(h), |q|), u.tag, |q|)
            && (FetchKind(r, u.tag) == CONFLICT_MISS ==> forall i :: 0 <= i < |r| ==> r[i].valid)
  {
    var r := RunSet(q, h, blockSize);
    RunHolds(q, h, blockSize);
    FetchIsLruStep(r, u.tag);
    TagsOfPrefix(r);
  }

  /** The bytes of the block with this tag touched since its line last missed. */
  ghost function BytesSinceMiss(h: seq<Use>, tag: int, k: nat): set<nat> {
    if h == [] then {}
    else
      var g, u := h[..|h| - 1], h[|h| - 1];
      if u.tag != tag then BytesSinceMiss(g, tag, k)
      else if tag in Held(TagsUsed(g), k) then BytesSinceMiss(g, tag, k) + {u.byteIn}
      else {u.byteIn}
  }

  /** The record marks exactly these bytes. */
  ghost predicate Marks(record: seq<int>, bytes: set<nat>, blockSize: nat) {
    |record| == blockSize && forall b :: 0 <= b < blockSize ==> record[b] == if b in bytes then 1 else 0
  }

  /** In every reachable state, a used line's record marks exactly the bytes of its block that
      were touched since the line's last miss; other lines' records are not disturbed. */
  lemma {:induction false} RecordsAreExact(q: seq<Slot>, h: seq<Use>, blockSize: nat, i: nat)
    requires q != [] && AllUnused(q) && forall j :: 0 <= j < |h| ==> h[j].byteIn < blockSize
    requires var r := RunSet(q, h, blockSize); i < |r| && r[i].valid
    ensures var s := RunSet(q, h, blockSize)[i];
            Marks(s.accessed, BytesSinceMiss(h, s.tag, |q|), blockSize)
  {
    hide StopsAt, Fetched, FetchKind, Held, Tags, TagsUsed;
    if h != [] {
      var g, u := h[..|h| - 1], h[|h| - 1];
      var r, n := RunSet(q, g, blockSize), StopsAt(RunSet(q, g, blockSize), u.tag);
      RunHolds(q, g, blockSize);
      RunHolds(q, h, blockSize);
      RunKind(q, g, u, blockSize);
      HitLine(r, u.tag);
      FetchedAt(r, u.tag);
      if i == 0 {
        if FetchKind(r, u.tag) == HIT { RecordsAreExact(q, g, blockSize, n); }
      } else {
        var o := if i <= n then i - 1 else i;
        var to := RunSet(q, h, blockSize);
        assert to[i] == r[o] && to[0].valid && to[0].tag == u.tag != to[i].tag;
        RecordsAreExact(q, g, blockSize, o);
      }
    }
  }

  /** The result of an access to address `a` after the trace. */
  ghost function ResultOf(g: Geometry, trace: seq<nat>, a: nat): Access
    requires g.Fits()
  {
    Kind(Held(TagsUsed(UsesAt(g, trace, g.SetOf(a))), g.lineCount), g.TagOf(a), g.lineCount)
  }

  /** Stack distance for the whole cache: an access hits exactly when its tag was used before in
      its set and fewer than `lineCount` other tags of that set were used since. */
  lemma HitsByRecency(g: Geometry, trace: seq<nat>, a: nat)
    requires g.Fits()
    ensures var h, t := TagsUsed(UsesAt(g, trace, g.SetOf(a))), g.TagOf(a);
            ResultOf(g, trace, a) == HIT <==> t in h && |Since(h, t)| < g.lineCount
  {
    hide Held, Since, UsesAt;
    HitIff(TagsUsed(UsesAt(g, trace, g.SetOf(a))), g.TagOf(a), g.lineCount);
  }

  /** The counters of run_cpu: how many accesses of the trace have the result `r`. */
  ghost function Counter(g: Geometry, trace: seq<nat>, r: Access): nat
    requires g.Fits()
  {
    if trace == [] then 0
    else
      var rest := trace[..|trace| - 1];
      Counter(g, rest, r) + if ResultOf(g, rest, trace[|trace| - 1]) == r then 1 else 0
  }

  lemma {:induction false} CountersAddUp(g: Geometry, trace: seq<nat>)
    requires g.Fits()
    ensures Counter(g, trace, HIT) + Counter(g, trace, COLD_MISS) + Counter(g, trace, CONFLICT_MISS) == |trace|
  {
    if trace != [] { CountersAddUp(g, trace[..|trace| - 1]); }
  }

  /** Two caches that differ in associativity only see the same uses. */
  lemma {:induction false} SameUses(g: Geometry, n: Geometry, trace: seq<nat>, s: nat)
    requires g.Fits() && n.Fits() && g.setBits == n.setBits && g.blockBits == n.blockBits
    ensures UsesAt(g, trace, s) == UsesAt(n, trace, s)
  {
    if trace != [] { SameUses(g, n, trace[..|trace| - 1], s); }
  }

  /** Inclusion over whole traces: with more lines in each set, every hit is still a hit, so
      the misses never rise. */
  lemma {:induction false} MoreLinesNeverHurt(g: Geometry, n: Geometry, trace: seq<nat>)
    requires g.Fits() && n.Fits() && g.setBits == n.setBits && g.blockBits == n.blockBits
    requires g.lineCount <= n.lineCount
    ensures Counter(g, trace, HIT) <= Counter(n, trace, HIT)
    ensures Counter(n, trace, COLD_MISS) + Counter(n, trace, CONFLICT_MISS)
         <= Counter(g, trace, COLD_MISS) + Counter(g, trace, CONFLICT_MISS)
  {
    CountersAddUp(g, trace);
    CountersAddUp(n, trace);
    if trace != [] {
      var rest, a := trace[..|trace| - 1], trace[|trace| - 1];
      MoreLinesNeverHurt(g, n, rest);
      SameUses(g, n, rest, g.SetOf(a));
      MoreLinesHoldMore(TagsUsed(UsesAt(g, rest, g.SetOf(a))), g.lineCount, n.lineCount);
    }
  }

  /** The sum over the sets below `n` of the set's own count. */
  ghost function CountSets(g: Geometry, trace: seq<nat>, r: Access, n: nat): nat
    requires g.Fits()
  {
    if n == 0 then 0
    else CountSets(g, trace, r, n - 1) + Count(TagsUsed(UsesAt(g, trace, n - 1)), g.lineCount, r)
  }

  lemma CountAtSet(g: Geometry, rest: seq<nat>, a: nat, r: Access, s: nat)
    requires g.Fits()
    ensures Count(TagsUsed(UsesAt(g, rest + [a], s)), g.lineCount, r)
         == Count(TagsUsed(UsesAt(g, rest, s)), g.lineCount, r)
            + if g.SetOf(a) == s && ResultOf(g, rest, a) == r then 1 else 0
  {
    var trace := rest + [a];
    assert trace[..|trace| - 1] == rest;
    var h, t := UsesAt(g, rest, s), TagsUsed(UsesAt(g, trace, s));
    if g.SetOf(a) == s {
      assert t[..|t| - 1] == TagsUsed(h);
    } else {
      assert UsesAt(g, trace, s) == h;
    }
  }

  lemma {:induction false} CountSetsMore(g: Geometry, rest: seq<nat>, a: nat, r: Access, n: nat)
    requires g.Fits()
    ensures CountSets(g, rest + [a], r, n)
         == CountSets(g, rest, r, n) + if g.SetOf(a) < n && ResultOf(g, rest, a) == r then 1 else 0
  {
    hide Count, UsesAt, ResultOf, TagsUsed;
    if n > 0 {
      CountSetsMore(g, rest, a, r, n - 1);
      CountAtSet(g, rest, a, r, n - 1);
    }
  }

  /** The counters are the sums of what happens in the sets, each of which runs LRU alone. */
  lemma {:induction false} CountersBySet(g: Geometry, trace: seq<nat>, r: Access)
    requires g.Fits() && forall i :: 0 <= i < |trace| ==> Word(trace[i])
    ensures Counter(g, trace, r) == CountSets(g, trace, r, Pow2(g.setBits))
  {
    hide CountSets, ResultOf, UsesAt, Pow2, GetSet;
    if trace == [] {
      CountSetsEmpty(g, r, Pow2(g.setBits));
    } else {
      var rest, a := trace[..|trace| - 1], trace[|trace| - 1];
      CountersBySet(g, rest, r);
      CountSetsMore(g, rest, a, r, Pow2(g.setBits));
      FieldsAreDivMod(a, g.setBits, g.blockBits);
      assert trace == rest + [a];
    }
  }

  lemma {:induction false} CountSetsEmpty(g: Geometry, r: Access, n: nat)
    requires g.Fits()
    ensures CountSets(g, [], r, n) == 0
  {
    if n > 0 { CountSetsEmpty(g, r, n - 1); }
  }
}
