/** What one pass of lru_fetch does to a queue of lines, and when that is LRU. */
module LruFetch {
  import opened LruSpec

  /** A line as the queue sees it: the newest use comes first in a queue. */
  datatype Slot = Slot(valid: bool, tag: int, accessed: seq<int>)

  /** Where the pass stops: at a line with the tag, an unused line, or the last one. */
  ghost function StopsAt(q: seq<Slot>, tag: int): (i: nat)
    requires q != []
    ensures i < |q|
    ensures forall j :: 0 <= j < i ==> q[j].valid && q[j].tag != tag
  {
    if Stops(q, tag) then 0 else 1 + StopsAt(q[1..], tag)
  }

  ghost predicate Stops(q: seq<Slot>, tag: int)
    requires q != []
  {
    !q[0].valid || q[0].tag == tag || |q| == 1
  }

  /** The result decided at the line where the pass stops. */
  ghost function FetchKind(q: seq<Slot>, tag: int): Access
    requires q != []
  {
    var s := q[StopsAt(q, tag)];
    if s.valid && s.tag == tag then HIT else if !s.valid then COLD_MISS else CONFLICT_MISS
  }

  /** The queue afterwards: that line, now holding the tag, comes first. */
  ghost function Fetched(q: seq<Slot>, tag: int): seq<Slot>
    requires q != []
  {
    var i := StopsAt(q, tag);
    [q[i].(valid := true, tag := tag)] + q[..i] + q[i + 1..]
  }

  /** The tags of the lines before the first unused one. */
  ghost function Tags(q: seq<Slot>): seq<int> {
    if q == [] || !q[0].valid then [] else [q[0].tag] + Tags(q[1..])
  }

  ghost predicate UnusedLast(q: seq<Slot>) {
    forall i, j :: 0 <= i < j < |q| && q[j].valid ==> q[i].valid
  }

  ghost predicate DistinctTags(q: seq<Slot>) {
    forall i, j :: 0 <= i < j < |q| && q[i].valid && q[j].valid ==> q[i].tag != q[j].tag
  }

  /** Unused lines come last and no two used lines have the same tag. */
  ghost predicate Settled(q: seq<Slot>) {
    UnusedLast(q) && DistinctTags(q)
  }

  lemma {:induction false} TagsOfPrefix(q: seq<Slot>)
    requires Settled(q)
    ensures |Tags(q)| <= |q| && Distinct(Tags(q))
    ensures forall i :: 0 <= i < |q| ==> (q[i].valid <==> i < |Tags(q)|)
    ensures forall i :: 0 <= i < |Tags(q)| ==> Tags(q)[i] == q[i].tag
  {
    if q != [] && q[0].valid {
      TagsOfPrefix(q[1..]);
      var t := Tags(q);
      assert forall i :: 0 < i < |q| ==> q[i] == q[1..][i - 1];
      assert forall i :: 0 < i < |t| ==> t[i] == Tags(q[1..])[i - 1];
    }
  }

  /** Tags of a queue whose first `n` lines are the used ones. */
  lemma {:induction false} TagsAre(q: seq<Slot>, t: seq<int>)
    requires |t| <= |q|
    requires forall i :: 0 <= i < |q| ==> (q[i].valid <==> i < |t|)
    requires forall i :: 0 <= i < |t| ==> t[i] == q[i].tag
    ensures Tags(q) == t
  {
    if t != [] {
      TagsAre(q[1..], t[1..]);
      assert t == [t[0]] + t[1..];
    }
  }

  lemma {:induction false} DropAt(m: seq<int>, i: nat)
    requires Distinct(m) && i < |m|
    ensures Drop(m, m[i]) == m[..i] + m[i + 1..]
  {
    var a, b := m[..i], m[i + 1..];
    assert m == a + ([m[i]] + b);
    DropConcat(a, [m[i]] + b, m[i]);
    DropConcat([m[i]], b, m[i]);
    DropFacts(a, m[i]);
    DropFacts(b, m[i]);
  }

  lemma {:induction false} StopReason(q: seq<Slot>, tag: int)
    requires q != []
    ensures var s := q[StopsAt(q, tag)]; !s.valid || s.tag == tag || StopsAt(q, tag) == |q| - 1
  {
    if !Stops(q, tag) { StopReason(q[1..], tag); }
  }

  lemma HitLine(q: seq<Slot>, tag: int)
    requires q != []
    ensures FetchKind(q, tag) == HIT <==> q[StopsAt(q, tag)].valid && q[StopsAt(q, tag)].tag == tag
  {
  }

  /** Where the pass stops, in terms of the tags held. */
  lemma StopPosition(q: seq<Slot>, tag: int)
    requires q != [] && Settled(q)
    ensures var m, i := Tags(q), StopsAt(q, tag);
            && (tag in m ==> i < |m| && m[i] == tag && FetchKind(q, tag) == HIT)
            && (tag !in m && |m| < |q| ==> i == |m| && FetchKind(q, tag) == COLD_MISS)
            && (tag !in m && |m| == |q| ==> i == |q| - 1 && FetchKind(q, tag) == CONFLICT_MISS)
  {
    TagsOfPrefix(q);
    StopReason(q, tag);
    assert forall i :: 0 <= i < |Tags(q)| ==> Tags(q)[i] in Tags(q);
  }

  lemma StepTags(m: seq<int>, x: int, k: nat)
    requires Distinct(m) && |m| <= k && 0 < k
    ensures x in m ==> Step(m, x, k) == [x] + Drop(m, x)
    ensures x !in m ==> Step(m, x, k) == [x] + if |m| < k then m else m[..k - 1]
  {
    DropFacts(m, x);
  }

  lemma TagsAfterFetch(q: seq<Slot>, tag: int)
    requires q != [] && Settled(q)
    ensures Tags(Fetched(q, tag)) == Step(Tags(q), tag, |q|)
    ensures UnusedLast(Fetched(q, tag))
  {
    hide StopsAt, FetchKind, Tags, Settled, Fetched, Step, Drop;
    var m, i, f, t := Tags(q), StopsAt(q, tag), Fetched(q, tag), Step(Tags(q), tag, |q|);
    TagsOfPrefix(q);
    StopPosition(q, tag);
    DropFacts(m, tag);
    if tag in m {
      DropAt(m, i);
    }
    StepTags(m, tag, |q|);
    FetchedAt(q, tag);
    forall j | 0 <= j < |f| ensures (f[j].valid <==> j < |t|) && (j < |t| ==> t[j] == f[j].tag) {
      if 0 < j <= i { assert f[j] == q[j - 1]; } else if i < j { assert f[j] == q[j]; }
    }
    TagsAre(f, t);
  }

  lemma FetchedAt(q: seq<Slot>, tag: int)
    requires q != []
    ensures var i, f := StopsAt(q, tag), Fetched(q, tag);
            && |f| == |q| && f[0] == Slot(true, tag, q[i].accessed)
            && (forall j :: 0 < j <= i ==> f[j] == q[j - 1])
            && (forall j :: i < j < |q| ==> f[j] == q[j])
  {
  }

  /** One pass is one LRU access: it keeps the queue settled, its result is the right one,
      and the tags afterwards are the most recently used ones. */
  lemma FetchIsLruStep(q: seq<Slot>, tag: int)
    requires q != [] && Settled(q)
    ensures FetchKind(q, tag) == Kind(Tags(q), tag, |q|)
    ensures Settled(Fetched(q, tag)) && Tags(Fetched(q, tag)) == Step(Tags(q), tag, |q|)
  {
    TagsOfPrefix(q);
    StopPosition(q, tag);
    TagsAfterFetch(q, tag);
    var f := Fetched(q, tag);
    assert DistinctTags(f) by {
      hide Fetched, StopsAt, Step;
      PushDistinct(Tags(q), tag);
      StepDistinct(Tags(q), tag, |q|);
      DistinctFromTags(f);
    }
  }

  lemma StepDistinct(m: seq<int>, x: int, k: nat)
    requires Distinct(m)
    ensures Distinct(Step(m, x, k))
  {
    PushDistinct(m, x);
  }

  lemma DistinctFromTags(q: seq<Slot>)
    requires UnusedLast(q) && Distinct(Tags(q))
    ensures DistinctTags(q)
  {
    PrefixTags(q);
  }

  lemma {:induction false} PrefixTags(q: seq<Slot>)
    requires UnusedLast(q)
    ensures forall i :: 0 <= i < |q| && q[i].valid ==> i < |Tags(q)| && Tags(q)[i] == q[i].tag
  {
    if q != [] && q[0].valid {
      PrefixTags(q[1..]);
      forall i | 0 <= i < |q| && q[i].valid ensures i < |Tags(q)| && Tags(q)[i] == q[i].tag {
        if i > 0 { assert q[1..][i - 1] == q[i]; }
      }
    }
  }

  ghost predicate AllUnused(q: seq<Slot>) {
    forall i :: 0 <= i < |q| ==> !q[i].valid
  }

  ghost predicate HasTag(q: seq<Slot>, tag: int) {
    exists i :: 0 <= i < |q| && q[i].valid && q[i].tag == tag
  }

  /** The one pass tells hits from misses, for every tag, exactly when unused lines come last:
      an unused line in front of a used one hides it. */
  lemma OnePassIsRightIff(q: seq<Slot>)
    requires q != [] && DistinctTags(q)
    ensures (forall tag :: FetchKind(q, tag) == HIT <==> HasTag(q, tag)) <==> UnusedLast(q)
  {
    forall tag ensures FetchKind(q, tag) == HIT ==> HasTag(q, tag) {
      StopReason(q, tag);
    }
    if UnusedLast(q) {
      forall tag | HasTag(q, tag) ensures FetchKind(q, tag) == HIT {
        StopReason(q, tag);
      }
    } else {
      var i, j :| 0 <= i < j < |q| && q[j].valid && !q[i].valid;
      assert HasTag(q, q[j].tag);
      assert FetchKind(q, q[j].tag) != HIT by {
        assert StopsAt(q, q[j].tag) <= i;
      }
    }
  }
}
