/** Least-recently-used replacement for one set, as lists of tags, and what holds of its runs. */
module LruSpec {

  /** `m` without `x`. */
  ghost function Drop(m: seq<int>, x: int): seq<int> {
    if m == [] then [] else if m[0] == x then Drop(m[1..], x) else [m[0]] + Drop(m[1..], x)
  }

  /** `x` becomes the most recently used tag. */
  ghost function Push(m: seq<int>, x: int): seq<int> {
    [x] + Drop(m, x)
  }

  ghost function Cut(m: seq<int>, k: nat): seq<int> {
    if |m| <= k then m else m[..k]
  }

  /** One access to a set of `k` lines that hold the tags `m`, most recently used first. */
  ghost function Step(m: seq<int>, x: int, k: nat): seq<int> {
    Cut(Push(m, x), k)
  }

  /** The tags held after the accesses `h`, starting empty. */
  ghost function Held(h: seq<int>, k: nat): seq<int> {
    if h == [] then [] else Step(Held(h[..|h| - 1], k), h[|h| - 1], k)
  }

  /** All tags used in `h`, most recently used first. */
  ghost function Recency(h: seq<int>): seq<int> {
    if h == [] then [] else Push(Recency(h[..|h| - 1]), h[|h| - 1])
  }

  ghost predicate Distinct(m: seq<int>) {
    forall i, j :: 0 <= i < j < |m| ==> m[i] != m[j]
  }

  ghost function Elements(m: seq<int>): set<int> {
    set x | x in m
  }

  /** The distinct tags used since the last use of `x`. */
  ghost function Since(h: seq<int>, x: int): set<int> {
    if h == [] then {}
    else
      var y := h[|h| - 1];
      if y == x then {} else Since(h[..|h| - 1], x) + {y}
  }

  lemma {:induction false} DropFacts(m: seq<int>, x: int)
    requires Distinct(m)
    ensures Distinct(Drop(m, x)) && x !in Drop(m, x)
    ensures forall y :: y in Drop(m, x) <==> y in m && y != x
    ensures |Drop(m, x)| == if x in m then |m| - 1 else |m|
    ensures x !in m ==> Drop(m, x) == m
  {
    if m != [] {
      DropFacts(m[1..], x);
      assert m == [m[0]] + m[1..];
      assert m[0] !in m[1..];
    }
  }

  lemma {:induction false} DropConcat(a: seq<int>, b: seq<int>, x: int)
    ensures Drop(a + b, x) == Drop(a, x) + Drop(b, x)
  {
    if a == [] {
      assert a + b == b;
    } else {
      DropConcat(a[1..], b, x);
      assert (a + b)[1..] == a[1..] + b;
    }
  }

  lemma PushDistinct(m: seq<int>, x: int)
    requires Distinct(m)
    ensures Distinct(Push(m, x)) && Elements(Push(m, x)) == Elements(m) + {x}
  {
    DropFacts(m, x);
  }

  /** Forgetting all but the k most recent tags before an access loses nothing. */
  lemma CutPush(m: seq<int>, x: int, k: nat)
    requires Distinct(m) && k > 0
    ensures Cut(Push(Cut(m, k), x), k) == Cut(Push(m, x), k)
  {
    if |m| > k {
      var a, b := m[..k], m[k..];
      assert m == a + b;
      DropConcat(a, b, x);
      DropFacts(a, x);
      DropFacts(b, x);
      if x !in a {
        assert Push(m, x)[..k] == ([x] + a)[..k];
      } else {
        assert x !in b;
        assert Push(m, x)[..k] == [x] + Drop(a, x);
      }
    }
  }

  lemma {:induction false} RecencyFacts(h: seq<int>)
    ensures Distinct(Recency(h)) && Elements(Recency(h)) == Elements(h)
  {
    if h != [] {
      var g, x := h[..|h| - 1], h[|h| - 1];
      RecencyFacts(g);
      PushDistinct(Recency(g), x);
      assert h == g + [x];
    }
  }

  /** The lines hold exactly the k most recently used distinct tags, newest first. */
  lemma {:induction false} HeldIsRecent(h: seq<int>, k: nat)
    requires k > 0
    ensures Held(h, k) == Cut(Recency(h), k)
  {
    if h != [] {
      var g := h[..|h| - 1];
      HeldIsRecent(g, k);
      RecencyFacts(g);
      CutPush(Recency(g), h[|h| - 1], k);
    }
  }

  /** A used tag stands behind exactly the tags used since. */
  lemma {:induction false} PlaceInRecency(h: seq<int>, x: int) returns (i: nat)
    requires x in h
    ensures i < |Recency(h)| && Recency(h)[i] == x && Elements(Recency(h)[..i]) == Since(h, x)
  {
    var g, y := h[..|h| - 1], h[|h| - 1];
    assert h == g + [y];
    RecencyFacts(g);
    if x == y {
      i := 0;
    } else {
      var j := PlaceInRecency(g, x);
      i := PlaceAfter(Recency(g), j, y);
    }
  }

  /** A push moves the tags before position `j` behind the new one. */
  lemma PlaceAfter(m: seq<int>, j: nat, y: int) returns (i: nat)
    requires Distinct(m) && j < |m| && m[j] != y
    ensures i < |Push(m, y)| && Push(m, y)[i] == m[j]
    ensures Elements(Push(m, y)[..i]) == {y} + Elements(m[..j])
  {
    hide Drop, Elements;
    var a, b := m[..j], m[j + 1..];
    assert m == a + ([m[j]] + b);
    DropConcat(a, [m[j]] + b, y);
    DropConcat([m[j]], b, y);
    DropOther(m[j], y);
    i := 1 + |Drop(a, y)|;
    assert Push(m, y) == [y] + Drop(a, y) + ([m[j]] + Drop(b, y));
    assert Push(m, y)[..i] == [y] + Drop(a, y);
    PushedElements(a, y);
  }

  lemma PushedElements(a: seq<int>, y: int)
    requires Distinct(a)
    ensures Elements([y] + Drop(a, y)) == {y} + Elements(a)
  {
    DropFacts(a, y);
  }

  lemma DropOther(x: int, y: int)
    requires x != y
    ensures Drop([x], y) == [x]
  {
  }

  lemma {:induction false} ElementsCount(m: seq<int>)
    requires Distinct(m)
    ensures |Elements(m)| == |m|
  {
    if m != [] {
      ElementsCount(m[1..]);
      assert m == [m[0]] + m[1..];
      assert Elements(m) == {m[0]} + Elements(m[1..]);
    }
  }

  /** Stack distance: an access hits exactly when its tag was used before and fewer than `k`
      other tags were used since. */
  lemma HitIff(h: seq<int>, x: int, k: nat)
    requires k > 0
    ensures x in Held(h, k) <==> x in h && |Since(h, x)| < k
  {
    HeldIsRecent(h, k);
    RecencyFacts(h);
    var m := Recency(h);
    if x in h {
      var i := PlaceInRecency(h, x);
      ElementsCount(m[..i]);
      if i < k { assert Cut(m, k)[i] == x; }
    } else {
      assert x !in Elements(m);
    }
  }

  datatype Access = HIT | COLD_MISS | CONFLICT_MISS

  /** The result of an access to `k` lines holding the tags `m`. */
  ghost function Kind(m: seq<int>, x: int, k: nat): Access {
    if x in m then HIT else if |m| < k then COLD_MISS else CONFLICT_MISS
  }

  /** How many accesses of `h` have the result `a`. */
  ghost function Count(h: seq<int>, k: nat, a: Access): nat {
    if h == [] then 0
    else
      var g := h[..|h| - 1];
      Count(g, k, a) + if Kind(Held(g, k), h[|h| - 1], k) == a then 1 else 0
  }

  ghost function Misses(h: seq<int>, k: nat): nat {
    Count(h, k, COLD_MISS) + Count(h, k, CONFLICT_MISS)
  }

  lemma {:induction false} EveryAccessCounted(h: seq<int>, k: nat)
    ensures Count(h, k, HIT) + Misses(h, k) == |h|
  {
    if h != [] { EveryAccessCounted(h[..|h| - 1], k); }
  }

  lemma HeldSize(h: seq<int>, k: nat)
    requires k > 0
    ensures |Held(h, k)| == if |Elements(h)| <= k then |Elements(h)| else k
    ensures forall x :: x in Held(h, k) ==> x in h
    ensures |Held(h, k)| < k ==> forall x :: x in h ==> x in Held(h, k)
  {
    HeldIsRecent(h, k);
    RecencyFacts(h);
    ElementsCount(Recency(h));
    forall x ensures x in Recency(h) <==> x in h {
      assert x in Elements(Recency(h)) <==> x in Elements(h);
    }
  }

  lemma OneMoreElement(g: seq<int>, x: int)
    ensures |Elements(g + [x])| == |Elements(g)| + if x in g then 0 else 1
  {
    assert Elements(g + [x]) == Elements(g) + {x};
  }

  /** Cold misses fill the lines: as many as there are distinct tags, up to the line count. */
  lemma {:induction false} ColdMisses(h: seq<int>, k: nat)
    requires k > 0
    ensures |Held(h, k)| == Count(h, k, COLD_MISS) == if |Elements(h)| <= k then |Elements(h)| else k
  {
    hide Held;
    HeldSize(h, k);
    if h != [] {
      var g, x := h[..|h| - 1], h[|h| - 1];
      ColdMisses(g, k);
      HeldSize(g, k);
      assert h == g + [x];
      OneMoreElement(g, x);
    } else {
      assert Elements(h) == {};
    }
  }

  /** Inclusion: what k lines hold, more lines hold too. */
  lemma MoreLinesHoldMore(h: seq<int>, k: nat, n: nat)
    requires 0 < k <= n
    ensures Held(h, k) <= Held(h, n)
  {
    HeldIsRecent(h, k);
    HeldIsRecent(h, n);
  }

  /** Misses never rise with associativity. */
  lemma {:induction false} MoreLinesMissLess(h: seq<int>, k: nat, n: nat)
    requires 0 < k <= n
    ensures Misses(h, n) <= Misses(h, k)
  {
    if h != [] {
      var g, x := h[..|h| - 1], h[|h| - 1];
      MoreLinesMissLess(g, k, n);
      MoreLinesHoldMore(g, k, n);
      assert x in Held(g, k) ==> x in Held(g, n);
    }
  }
}
