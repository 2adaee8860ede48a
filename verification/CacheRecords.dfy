/** What the lines of a cache on the heap record, in terms of the addresses accessed. */
module CacheRecords {
  import opened AddressBits
  import opened CacheRuns
  import opened CacheAddresses
  import opened CacheSim
  import opened LruSpec
  import opened LruFetch
  import opened LruQueue

  lemma {:induction false} UsedByAddress(g: Geometry, trace: seq<nat>, s: nat, tag: int) returns (i: nat)
    requires g.Fits() && tag in History(g, trace, s)
    ensures i < |trace| && g.SetOf(trace[i]) == s && g.TagOf(trace[i]) == tag
  {
    hide Geometry.SetOf, Geometry.TagOf, History;
    if trace == [] {
      NoHistory(g, s);
    } else {
      var n := |trace| - 1;
      assert trace == trace[..n] + [trace[n]];
      HistoryMore(g, trace[..n], trace[n], s);
      if g.SetOf(trace[n]) == s && g.TagOf(trace[n]) == tag {
        i := n;
      } else {
        i := UsedByAddress(g, trace[..n], s, tag);
      }
    }
  }

  lemma NoHistory(g: Geometry, s: nat)
    requires g.Fits()
    ensures History(g, [], s) == []
  {
  }

  /** A used line's tag was used in its set. */
  lemma LineWasUsed(q: seq<Slot>, h: seq<Use>, blockSize: nat, i: nat)
    requires q != [] && AllUnused(q)
    requires i < |RunSet(q, h, blockSize)| && RunSet(q, h, blockSize)[i].valid
    ensures RunSet(q, h, blockSize)[i].tag in TagsUsed(h)
  {
    var r := RunSet(q, h, blockSize);
    hide RunSet, Tags, Recency;
    RunHolds(q, h, blockSize);
    TagsOfPrefix(r);
    RecencyFacts(TagsUsed(h));
    assert r[i].tag == Tags(r)[i];
    assert r[i].tag in Recency(TagsUsed(h));
    assert r[i].tag in Elements(TagsUsed(h));
  }

  lemma BytesInBlock(g: Geometry, trace: seq<nat>, s: nat, j: nat)
    requires g.Fits() && Words(trace) && j < |UsesAt(g, trace, s)|
    ensures UsesAt(g, trace, s)[j].byteIn < Pow2(g.blockBits)
  {
    hide Pow2, Geometry.SetOf, Geometry.TagOf, Geometry.ByteIn;
    var n := |trace| - 1;
    Fields(g, trace[n]);
    if j < |UsesAt(g, trace[..n], s)| { BytesInBlock(g, trace[..n], s, j); }
  }

  /** The record of a used line of set `s` after the trace, from its last miss at position `m`: it
      marks byte `b` exactly when the line's block was touched there since. */
  lemma RecordsByAddress(g: Geometry, trace: seq<nat>, start: seq<Slot>, s: nat, i: nat) returns (m: nat)
    requires g.Fits() && Words(trace) && StartsUnused(start, g.lineCount)
    requires var r := RunSet(start, UsesAt(g, trace, s), Pow2(g.blockBits)); i < |r| && r[i].valid
    ensures var P, S := Pow2(g.blockBits), Pow2(g.setBits);
            var line := RunSet(start, UsesAt(g, trace, s), P)[i];
            && m < |trace| && trace[m] / P == line.tag * S + s && ResultOf(g, trace[..m], trace[m]) != HIT
            && (forall j :: m < j < |trace| && trace[j] / P == line.tag * S + s
                            ==> ResultOf(g, trace[..j], trace[j]) == HIT)
            && |line.accessed| == P
            && forall b: nat :: b < P ==>
                 line.accessed[b]
                 == if exists j :: m <= j < |trace| && trace[j] / P == line.tag * S + s && trace[j] % P == b
                    then 1 else 0
  {
    hide Pow2, RunSet, UsesAt, ResultOf, BytesSinceMiss, Geometry.SetOf, Geometry.TagOf, Geometry.ByteIn;
    var P, h := Pow2(g.blockBits), UsesAt(g, trace, s);
    var line := RunSet(start, h, P)[i];
    LineWasUsed(start, h, P, i);
    var k := UsedByAddress(g, trace, s, line.tag);
    var a := trace[k];
    Fields(g, a);
    SameTagSameSet(g, BlockOf(g, a), BlockOf(g, a));
    m := BytesByAddress(g, trace, a);
    forall j: nat | j < |h| ensures h[j].byteIn < P { BytesInBlock(g, trace, s, j); }
    RecordsAreExact(start, h, P, i);
    var bytes := BytesSinceMiss(h, line.tag, g.lineCount);
    forall b: nat | b < P
      ensures b in bytes <==> exists j :: m <= j < |trace| && trace[j] / P == BlockOf(g, a) && trace[j] % P == b {
      ByByte(g, trace, BlockOf(g, a), m, b);
    }
  }

  lemma ByByte(g: Geometry, trace: seq<nat>, block: nat, m: nat, b: nat)
    requires g.Fits() && Words(trace)
    ensures var P := Pow2(g.blockBits);
            TouchedSince(g, trace, block, m, b)
            == exists j :: m <= j < |trace| && trace[j] / P == block && trace[j] % P == b
  {
    hide Pow2, Geometry.ByteIn;
    forall j: nat | j < |trace| ensures g.ByteIn(trace[j]) == trace[j] % Pow2(g.blockBits) {
      Fields(g, trace[j]);
    }
  }

  /** In every state of a cache, a used line on the heap marks exactly the bytes of its block that
      were touched since the line's last miss, which was at position `m` of the trace. */
  lemma LinesMarkBytes(c: Cache, s: nat, i: nat) returns (m: nat)
    requires c.Valid() && Words(c.trace) && s < |c.ss| && i < |c.ss[s].nodes| && c.ss[s].nodes[i].line.valid
    ensures var g, trace, line := c.g, c.trace, c.ss[s].nodes[i].line;
            var P, S := Pow2(g.blockBits), Pow2(g.setBits);
            && m < |trace| && trace[m] / P == line.tag * S + s && ResultOf(g, trace[..m], trace[m]) != HIT
            && (forall j :: m < j < |trace| && trace[j] / P == line.tag * S + s
                            ==> ResultOf(g, trace[..j], trace[j]) == HIT)
            && line.accessed.Length == P
            && forall b: nat :: b < P ==>
                 line.accessed[b]
                 == if exists j :: m <= j < |trace| && trace[j] / P == line.tag * S + s && trace[j] % P == b
                    then 1 else 0
  {
    hide Pow2, RunSet, UsesAt, ResultOf;
    var cs := c.ss[s];
    assert Tracks(cs, c.g, c.start[s], c.trace, s);
    assert SlotOf(cs.nodes[i]) == cs.slots[i];
    m := RecordsByAddress(c.g, c.trace, c.start[s], s, i);
  }
}
