/** How LRU compares with any other way of choosing what to replace.

    The proof keeps a potential: each tag that the LRU lines hold and the other policy does
    not is charged its place, counted from the least recently used end. */
module LruCompetitive {
  import opened LruSpec
  import opened Sequences

  /** What some policy with room for `cap` tags holds before each access of `h` and at the
      end. It may drop tags at any time, and fetches only the tag that is accessed. */
  ghost predicate PolicyRun(os: seq<set<int>>, h: seq<int>, cap: nat) {
    && |os| == |h| + 1
    && (forall i :: 0 <= i < |os| ==> |os[i]| <= cap)
    && forall i :: 0 <= i < |h| ==> Serves(os, h, i)
  }

  ghost predicate Serves(os: seq<set<int>>, h: seq<int>, i: nat)
    requires i < |h| && i + 1 < |os|
  {
    h[i] in os[i + 1] && os[i + 1] <= os[i] + {h[i]}
  }

  ghost function Faults(os: seq<set<int>>, h: seq<int>): nat
    requires |os| == |h| + 1
  {
    if h == [] then 0
    else
      var n := |h| - 1;
      Faults(os[..n + 1], h[..n]) + if h[n] in os[n] then 0 else 1
  }

  /** The potential: the places `w`, `w - 1`, ... of the tags of `m` that are not in `o`. */
  ghost function Phi(m: seq<int>, o: set<int>, w: int): int {
    if m == [] then 0 else (if m[0] in o then 0 else w) + Phi(m[1..], o, w - 1)
  }

  ghost function Outside(m: seq<int>, o: set<int>): nat {
    if m == [] then 0 else (if m[0] in o then 0 else 1) + Outside(m[1..], o)
  }

  lemma {:induction false} PhiNonNegative(m: seq<int>, o: set<int>, w: int)
    requires |m| <= w
    ensures Phi(m, o, w) >= 0
  {
    if m != [] { PhiNonNegative(m[1..], o, w - 1); }
  }

  /** Holding one tag more never raises the potential; one tag less raises it by w at most. */
  lemma {:induction false} PhiOneTag(m: seq<int>, o: set<int>, x: int, w: int)
    requires Distinct(m) && |m| <= w
    ensures Phi(m, o + {x}, w) <= Phi(m, o, w)
    ensures Phi(m, o - {x}, w) <= Phi(m, o, w) + w
    ensures x !in m ==> Phi(m, o - {x}, w) == Phi(m, o, w)
  {
    if m != [] {
      PhiOneTag(m[1..], o, x, w - 1);
      assert m == [m[0]] + m[1..];
    }
  }

  /** Dropping tags never raises the potential together with w for each tag held. */
  lemma {:induction false} PhiDropTags(m: seq<int>, p: set<int>, o: set<int>, w: nat)
    requires Distinct(m) && |m| <= w && o <= p
    ensures Phi(m, o, w) + w * |o| <= Phi(m, p, w) + w * |p|
    decreases p - o
  {
    if exists x :: x in p && x !in o {
      var x :| x in p && x !in o;
      var q := p - {x};
      assert q - o == (p - o) - {x};
      PhiDropTags(m, q, o, w);
      PhiOneTag(m, p, x, w);
      OneMore(w, |q|);
    } else {
      assert o == p;
    }
  }

  /** The other policy's step: each fault pays w. */
  lemma PhiPolicyStep(m: seq<int>, o: set<int>, to: set<int>, x: int, w: nat)
    requires Distinct(m) && |m| <= w && to <= o + {x}
    ensures Phi(m, to, w) + w * |to| <= Phi(m, o, w) + w * |o| + if x in o then 0 else w
  {
    var p := o + {x};
    PhiDropTags(m, p, to, w);
    PhiOneTag(m, o, x, w);
    assert w * |p| == w * |o| + (if x in o then 0 else w) by { PolicySize(o, x, w); }
  }

  lemma PolicySize(o: set<int>, x: int, w: nat)
    ensures w * |o + {x}| == w * |o| + if x in o then 0 else w
  {
    if x in o {
      assert o + {x} == o;
    } else {
      OneMore(w, |o|);
    }
  }

  /** Every tag moves down one place. */
  lemma {:induction false} PhiShift(m: seq<int>, o: set<int>, w: int)
    ensures Phi(m, o, w - 1) == Phi(m, o, w) - Outside(m, o)
  {
    if m != [] { PhiShift(m[1..], o, w - 1); }
  }

  lemma {:induction false} PhiConcat(a: seq<int>, b: seq<int>, o: set<int>, w: int)
    ensures Phi(a + b, o, w) == Phi(a, o, w) + Phi(b, o, w - |a|)
  {
    if a == [] {
      assert a + b == b;
    } else {
      PhiConcat(a[1..], b, o, w - 1);
      assert (a + b)[1..] == a[1..] + b;
    }
  }

  lemma {:induction false} PhiDropHeld(m: seq<int>, o: set<int>, x: int, w: int)
    requires Distinct(m) && x in o && x in m
    ensures Phi(Drop(m, x), o, w - 1) <= Phi(m, o, w)
  {
    assert m == [m[0]] + m[1..];
    if m[0] == x {
      DropFacts(m[1..], x);
    } else {
      PhiDropHeld(m[1..], o, x, w - 1);
    }
  }

  lemma {:induction false} OutsideSame(m: seq<int>, o: set<int>, x: int)
    requires x !in m
    ensures Outside(m, o - {x}) == Outside(m, o)
  {
    if m != [] { OutsideSame(m[1..], o, x); }
  }

  lemma {:induction false} OutsideAtLeast(m: seq<int>, o: set<int>)
    requires Distinct(m)
    ensures Outside(m, o) >= |m| - |o|
  {
    if m != [] {
      assert m == [m[0]] + m[1..];
      OutsideAtLeast(m[1..], o - {m[0]});
      OutsideSame(m[1..], o, m[0]);
    }
  }

  /** The LRU step, after the other policy has made its own: a conflict miss releases at
      least k - cap + 1. */
  lemma PhiLruStep(m: seq<int>, o: set<int>, x: int, k: nat, cap: nat)
    requires Distinct(m) && |m| <= k && 0 < k && cap <= k && x in o && |o| <= cap
    ensures Phi(Step(m, x, k), o, k) <= Phi(m, o, k) - if Kind(m, x, k) == CONFLICT_MISS then k - cap + 1 else 0
  {
    hide Phi, Outside, Drop;
    DropFacts(m, x);
    PhiPush(m, o, x, k);
    if x in m {
      PhiDropHeld(m, o, x, k);
    } else {
      PhiShift(m, o, k);
      if |m| == k {
        var p := Push(m, x);
        assert p == p[..k] + [p[k]];
        PhiConcat(p[..k], [p[k]], o, k);
        PhiPastEnd(p[k], o);
        OutsideAtLeast(m, o - {x});
        OutsideSame(m, o, x);
      }
    }
  }

  /** A tag that the other policy holds as well costs nothing in front. */
  lemma PhiPush(m: seq<int>, o: set<int>, x: int, w: int)
    requires x in o
    ensures Phi(Push(m, x), o, w) == Phi(Drop(m, x), o, w - 1)
  {
    assert Push(m, x)[1..] == Drop(m, x);
  }

  lemma PhiPastEnd(x: int, o: set<int>)
    ensures Phi([x], o, 0) == 0
  {
  }

  lemma PolicyRunPrefix(os: seq<set<int>>, h: seq<int>, cap: nat)
    requires h != [] && PolicyRun(os, h, cap)
    ensures PolicyRun(os[..|h|], h[..|h| - 1], cap)
  {
    var ps, g := os[..|h|], h[..|h| - 1];
    forall i | 0 <= i < |g| ensures Serves(ps, g, i) {
      assert Serves(os, h, i);
    }
  }

  /** Against any policy with room for `cap` <= k tags, started with any content. */
  lemma {:induction false} ConflictsCharged(os: seq<set<int>>, h: seq<int>, k: nat, cap: nat)
    requires 0 < cap <= k && PolicyRun(os, h, cap)
    ensures (k - cap + 1) * Count(h, k, CONFLICT_MISS) + Phi(Held(h, k), os[|h|], k) + k * |os[|h|]|
            <= k * Faults(os, h) + k * |os[0]|
  {
    hide Phi, Held, Count, Faults, Step, Distinct, Kind;
    if h == [] {
      NothingYet(os, k);
    } else {
      var n := |h| - 1;
      var g, x, m := h[..n], h[n], Held(h[..n], k);
      PolicyRunPrefix(os, h, cap);
      ConflictsCharged(os[..n + 1], g, k, cap);
      assert Serves(os, h, n);
      HeldDistinct(g, k);
      PhiPolicyStep(m, os[n], os[n + 1], x, k);
      PhiLruStep(m, os[n + 1], x, k, cap);
      HeldMore(h, k);
      FaultsMore(os, h);
      ChargeStep(k - cap + 1, k, Count(g, k, CONFLICT_MISS), Kind(m, x, k) == CONFLICT_MISS,
                 Faults(os[..n + 1], g), x !in os[n], |os[0]|, |os[n]|, |os[n + 1]|,
                 Phi(m, os[n], k), Phi(m, os[n + 1], k), Phi(Held(h, k), os[n + 1], k));
    }
  }

  lemma NothingYet(os: seq<set<int>>, k: nat)
    requires |os| == 1
    ensures Held([], k) == [] && Count([], k, CONFLICT_MISS) == 0 && Faults(os, []) == 0
    ensures Phi([], os[0], k) == 0
  {
  }

  lemma HeldDistinct(h: seq<int>, k: nat)
    requires k > 0
    ensures Distinct(Held(h, k)) && |Held(h, k)| <= k
  {
    HeldIsRecent(h, k);
    RecencyFacts(h);
  }

  lemma HeldMore(h: seq<int>, k: nat)
    requires h != []
    ensures var g, x := h[..|h| - 1], h[|h| - 1];
            && Held(h, k) == Step(Held(g, k), x, k)
            && Count(h, k, CONFLICT_MISS)
               == Count(g, k, CONFLICT_MISS) + if Kind(Held(g, k), x, k) == CONFLICT_MISS then 1 else 0
  {
  }

  lemma FaultsMore(os: seq<set<int>>, h: seq<int>)
    requires h != [] && |os| == |h| + 1
    ensures var n := |h| - 1;
            Faults(os, h) == Faults(os[..n + 1], h[..n]) + if h[n] in os[n] then 0 else 1
  {
  }

  /** The sums after one more access: `c` conflicts at r each, `f` faults at k each. */
  lemma ChargeStep(r: nat, k: nat, c: nat, conflict: bool, f: nat, fault: bool, first: nat, held: nat, holds: nat,
                   before: int, between: int, after: int)
    requires r * c + before + k * held <= k * f + k * first
    requires between + k * holds <= before + k * held + if fault then k else 0
    requires after <= between - if conflict then r else 0
    ensures r * (c + if conflict then 1 else 0) + after + k * holds <= k * (f + if fault then 1 else 0) + k * first
  {
    OneMore(r, c);
    OneMore(k, f);
  }

  /** LRU with k lines misses at most k / (k - cap + 1) times as often as any policy with
      room for `cap` tags, up to what filling the lines costs. */
  lemma Competitive(os: seq<set<int>>, h: seq<int>, k: nat, cap: nat)
    requires 0 < cap <= k && PolicyRun(os, h, cap)
    ensures (k - cap + 1) * Misses(h, k) <= k * Faults(os, h) + k * |os[0]| + (k - cap + 1) * k
  {
    var r := k - cap + 1;
    var cold, conflict := Count(h, k, COLD_MISS), Count(h, k, CONFLICT_MISS);
    ConflictsCharged(os, h, k, cap);
    ColdMisses(h, k);
    HeldIsRecent(h, k);
    PhiNonNegative(Held(h, k), os[|h|], k);
    ColdCost(r, cold, conflict, k, |os[|h|]|);
  }

  lemma ColdCost(r: nat, cold: nat, conflict: nat, k: nat, held: nat)
    requires cold <= k
    ensures r * (cold + conflict) <= r * k + r * conflict && 0 <= k * held
  {
    assert r * (k - cold) >= 0;
    assert r * (k - cold) == r * k - r * cold;
  }

  /** In particular at most k times the misses of any policy on k lines that start empty, plus k. */
  lemma KCompetitive(os: seq<set<int>>, h: seq<int>, k: nat)
    requires 0 < k && PolicyRun(os, h, k) && os[0] == {}
    ensures Misses(h, k) <= k * Faults(os, h) + k
  {
    Competitive(os, h, k, k);
  }
}
