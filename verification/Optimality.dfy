/** Why merging the two lightest trees is optimal.

    The exchange argument is made on leaf weights alone: from any tree T whose two lightest
    weights are a and b, one can build a tree with one leaf of weight a + b in their place
    that is cheaper by at least a + b. Trees are compared by how often each
    weight occurs. */
module Optimality {
  import opened HuffmanTree
  import opened Sequences

  /** n * d, kept out of the solver's nonlinear arithmetic. */
  ghost function Times(n: nat, d: int): int {
    if n == 0 then 0 else d + Times(n - 1, d)
  }

  lemma {:induction false} TimesMonotone(m: nat, n: nat, d: nat)
    requires m <= n
    ensures 0 <= Times(m, d) <= Times(n, d)
  {
    if n > 0 { TimesMonotone(if m > 0 then m - 1 else 0, n - 1, d); }
  }

  lemma {:induction false} TimesAdds(n: nat, d: int, e: int)
    ensures Times(n, d) + Times(n, e) == Times(n, d + e)
  {
    if n > 0 { TimesAdds(n - 1, d, e); }
  }

  /** `t` has the weights of `u` with `z` in place of the two weights p and q. */
  ghost predicate Merged(t: Tree, u: Tree, z: int, p: int, q: int) {
    forall w :: Occurs(t, w) + One(w, p) + One(w, q) == Occurs(u, w) + One(w, z)
  }

  /** The two siblings x <= y deepest in `t` become one leaf of weight `z`. */
  lemma {:induction false} MergeDeepest(t: Tree, z: int) returns (x: int, y: int, f: Tree)
    requires t.Node?
    ensures x <= y && Merged(f, t, z, x, y)
    ensures forall w :: Occurs(t, w) >= One(w, x) + One(w, y)
    ensures Height(f) <= Height(t)
    ensures PathLength(t) == PathLength(f) + x + y + Times(Height(t) - 1, x + y - z)
    ensures Total(t) == Total(f) + x + y - z
  {
    hide Times, Occurs, One, PathLength, Total, Height, Merged;
    var l, r := t.left, t.right;
    var g;
    if l.Leaf? && r.Leaf? {
      x, y := l.freq.v, r.freq.v;
      if x > y { x, y := y, x; }
      f := Leaf(t.id, Frequency(z, 0));
      JoinLeaves(t, z);
    } else {
      NodeIsHigher(l, r);
      if Height(l) >= Height(r) {
        x, y, g := MergeDeepest(l, z);
        f := t.(left := g);
      } else {
        x, y, g := MergeDeepest(r, z);
        f := t.(right := g);
      }
      MergedBelow(t, g, z, x, y, Height(l) >= Height(r));
    }
  }

  /** An internal node is higher than a leaf. */
  lemma NodeIsHigher(l: Tree, r: Tree)
    requires l.Node? || r.Node?
    ensures Height(l) >= Height(r) ==> l.Node?
    ensures Height(l) < Height(r) ==> r.Node?
  {
  }

  /** Two leaves become one. */
  lemma JoinLeaves(t: Tree, z: int)
    requires t.Node? && t.left.Leaf? && t.right.Leaf?
    ensures var x, y, f := t.left.freq.v, t.right.freq.v, Leaf(t.id, Frequency(z, 0));
            && Merged(f, t, z, x, y) && Merged(f, t, z, y, x)
            && (forall w :: Occurs(t, w) == One(w, x) + One(w, y))
            && Height(f) < Height(t) == 1 && PathLength(f) == 0 && PathLength(t) == x + y == Total(t) && Total(f) == z
            && forall d :: Times(0, d) == 0
  {
  }

  /** What was merged in the higher subtree is merged in the tree, one place further down. */
  lemma MergedBelow(t: Tree, g: Tree, z: int, x: int, y: int, left: bool)
    requires t.Node? && left == (Height(t.left) >= Height(t.right))
    requires var u := if left then t.left else t.right;
             && u.Node? && Merged(g, u, z, x, y) && (forall w :: Occurs(u, w) >= One(w, x) + One(w, y))
             && Height(g) <= Height(u) && Total(u) == Total(g) + x + y - z
             && PathLength(u) == PathLength(g) + x + y + Times(Height(u) - 1, x + y - z)
    ensures var f := if left then t.(left := g) else t.(right := g);
            && Merged(f, t, z, x, y) && (forall w :: Occurs(t, w) >= One(w, x) + One(w, y))
            && Height(f) <= Height(t) && Total(t) == Total(f) + x + y - z
            && PathLength(t) == PathLength(f) + x + y + Times(Height(t) - 1, x + y - z)
  {
    hide One, Occurs, Height, Total, PathLength, Times;
    ReplacedBelow(t, g, left);
    TimesMore(Height(if left then t.left else t.right) - 1, x + y - z);
  }

  /** A tree in place of the higher subtree: all measures change as those of the subtree. */
  lemma ReplacedBelow(t: Tree, g: Tree, left: bool)
    requires t.Node? && left == (Height(t.left) >= Height(t.right))
    requires Height(g) <= Height(if left then t.left else t.right)
    ensures var f := if left then t.(left := g) else t.(right := g);
            var u := if left then t.left else t.right;
            && (forall w :: Occurs(f, w) - Occurs(t, w) == Occurs(g, w) - Occurs(u, w) && Occurs(t, w) >= Occurs(u, w))
            && Height(f) <= Height(t) == 1 + Height(u) && (u.Node? ==> Height(u) > 0)
            && Total(f) - Total(t) == Total(g) - Total(u)
            && PathLength(f) - PathLength(t) == PathLength(g) - PathLength(u) + Total(g) - Total(u)
  {
    hide One;
  }

  lemma TimesMore(n: nat, d: int)
    ensures Times(n + 1, d) == d + Times(n, d)
  {
  }

  /** One leaf of weight `a` becomes a leaf of weight `x`: at most Height(t) * (x - a) dearer. */
  lemma {:induction false} Replace(t: Tree, a: int, x: int) returns (f: Tree)
    requires Occurs(t, a) > 0 && a <= x
    ensures forall w :: Occurs(f, w) + One(w, a) == Occurs(t, w) + One(w, x)
    ensures Height(f) == Height(t)
    ensures PathLength(f) <= PathLength(t) + Times(Height(t), x - a)
    ensures Total(f) == Total(t) + x - a
  {
    match t
    case Leaf(_, _) =>
      f := Leaf(t.id, Frequency(x, 0));
    case Node(_, _, l, r) =>
      if Occurs(l, a) > 0 {
        var g := Replace(l, a, x);
        f := t.(left := g);
        TimesMonotone(Height(l) + 1, Height(t), x - a);
      } else {
        var g := Replace(r, a, x);
        f := t.(right := g);
        TimesMonotone(Height(r) + 1, Height(t), x - a);
      }
  }

  /** `a <= b` are the two lightest leaf weights of `t`. */
  ghost predicate Lightest(a: int, b: int, t: Tree) {
    && a <= b
    && (forall w :: Occurs(t, w) >= One(w, a) + One(w, b))
    && (forall w :: w < b && Occurs(t, w) > 0 ==> w == a && Occurs(t, w) == 1)
  }

  /** Where the two lightest weights are once the deepest siblings x <= y were merged. */
  lemma LightestRemain(t: Tree, a: int, b: int, x: int, y: int, g: Tree)
    requires Lightest(a, b, t) && x <= y && Merged(g, t, a + b, x, y)
    requires forall w :: Occurs(t, w) >= One(w, x) + One(w, y)
    ensures a <= x && b <= y
    ensures a != x ==> Occurs(g, a) > 0
    ensures b != y ==> Occurs(g, b) + One(b, x) > One(b, a)
  {
    assert Occurs(t, x) >= One(x, x) + One(x, y) && Occurs(t, y) >= One(y, x) + One(y, y);
    assert Occurs(t, a) >= One(a, a) + One(a, b) && Occurs(t, b) >= One(b, a) + One(b, b);
  }

  /** The two lightest weights can be merged without losing: the greedy-choice property. */
  lemma Exchange(t: Tree, a: int, b: int) returns (f: Tree)
    requires t.Node? && Lightest(a, b, t)
    ensures Merged(f, t, a + b, a, b)
    ensures PathLength(f) + a + b <= PathLength(t)
  {
    hide PathLength, Total, Occurs;
    var h := Height(t);
    var x, y, g := MergeDeepest(t, a + b);
    LightestRemain(t, a, b, x, y, g);
    var g1 := MoveUp(g, a, x, h);
    f := MoveUp(g1, b, y, h);
    TimesAdds(h, x - a, y - b);
    assert x - a + (y - b) == x + y - (a + b);
  }

  /** A light leaf gives its place to a heavier one, unless they weigh the same. */
  lemma MoveUp(g: Tree, a: int, x: int, h: nat) returns (f: Tree)
    requires a <= x && Height(g) <= h && (a != x ==> Occurs(g, a) > 0)
    ensures forall w :: Occurs(f, w) + One(w, a) == Occurs(g, w) + One(w, x)
    ensures Height(f) == Height(g) && PathLength(f) <= PathLength(g) + Times(h, x - a)
  {
    TimesMonotone(Height(g), h, x - a);
    f := g;
    if a != x {
      f := Replace(g, a, x);
    }
  }

  /** The forest in the queue: how many roots weigh `w`, and what its trees cost so far. */
  ghost function RootWeighs(w: int): Tree -> int {
    (t: Tree) => One(w, t.freq.v)
  }

  ghost predicate Sorted(f: seq<Tree>) {
    forall i, j :: 0 <= i < j < |f| ==> f[i].freq.v <= f[j].freq.v
  }

  /** The leaves of `t` weigh what the roots of the forest `f` weigh. */
  ghost predicate OverRoots(t: Tree, f: seq<Tree>) {
    forall w :: Occurs(t, w) == Sum(f, RootWeighs(w))
  }

  /** `u` can be turned into a tree over the roots of the forest `f` that, together with what
      the trees of `f` already cost, is no dearer than `u` itself. */
  ghost predicate Extends(u: Tree, f: seq<Tree>) {
    exists t :: PathLength(t) + Sum(f, PathLength) <= PathLength(u)
             && OverRoots(t, f)
  }

  /** Forest `g` is `f` with its first two trees joined, in any order a sort may leave it. */
  ghost predicate MergeStep(f: seq<Tree>, g: seq<Tree>) {
    && |f| >= 2
    && exists id :: multiset(g) == multiset(f[2..] + [Join(id, f[0], f[1])])
  }

  function Join(id: int, l: Tree, r: Tree): Tree {
    Node(id, Frequency(l.freq.v + r.freq.v, 0), l, r)
  }

  lemma SumOfFirstTwo(f: seq<Tree>, m: Tree -> int)
    requires |f| >= 2
    ensures Sum(f, m) == m(f[0]) + m(f[1]) + Sum(f[2..], m)
  {
    assert f[1..][1..] == f[2..];
  }

  lemma SumAfterMerge(f: seq<Tree>, n: Tree, g: seq<Tree>, m: Tree -> int)
    requires |f| >= 2 && multiset(g) == multiset(f[2..] + [n])
    ensures Sum(g, m) == Sum(f, m) - m(f[0]) - m(f[1]) + m(n)
  {
    SumPermutation(g, f[2..] + [n], m);
    SumConcat(f[2..], [n], m);
    SumOfFirstTwo(f, m);
  }

  lemma {:induction false} RootsWeighAtLeast(f: seq<Tree>, b: int, w: int)
    requires w < b && forall i :: 0 <= i < |f| ==> b <= f[i].freq.v
    ensures Sum(f, RootWeighs(w)) == 0
  {
    if f != [] { RootsWeighAtLeast(f[1..], b, w); }
  }

  lemma {:induction false} RootsCountNonNegative(f: seq<Tree>, w: int)
    ensures Sum(f, RootWeighs(w)) >= 0
  {
    if f != [] { RootsCountNonNegative(f[1..], w); }
  }

  /** The head of a sorted queue holds the two lightest weights. */
  lemma HeadIsLightest(f: seq<Tree>, t: Tree)
    requires |f| >= 2 && Sorted(f)
    requires OverRoots(t, f)
    ensures Lightest(f[0].freq.v, f[1].freq.v, t)
  {
    var a, b := f[0].freq.v, f[1].freq.v;
    forall w
      ensures Occurs(t, w) >= One(w, a) + One(w, b)
      ensures w < b && Occurs(t, w) > 0 ==> w == a && Occurs(t, w) == 1
    {
      SumOfFirstTwo(f, RootWeighs(w));
      RootsCountNonNegative(f[2..], w);
      if w < b { RootsWeighAtLeast(f[2..], b, w); }
    }
  }

  /** Each merge keeps every competing tree at least as dear as what the queue can reach. */
  lemma MergeKeepsExtends(u: Tree, f: seq<Tree>, g: seq<Tree>)
    requires Extends(u, f) && Sorted(f) && MergeStep(f, g)
    requires Summed(f[0]) && Summed(f[1])
    ensures Extends(u, g)
  {
    var t :| PathLength(t) + Sum(f, PathLength) <= PathLength(u)
          && OverRoots(t, f);
    var id :| multiset(g) == multiset(f[2..] + [Join(id, f[0], f[1])]);
    var n := Join(id, f[0], f[1]);
    HeadIsLightest(f, t);
    assert t.Node? by {
      var a, b := f[0].freq.v, f[1].freq.v;
      assert Occurs(t, a) >= One(a, a) + One(a, b) && Occurs(t, b) >= One(b, a) + One(b, b);
    }
    var e := Exchange(t, f[0].freq.v, f[1].freq.v);
    PathLengthIsInternalSum(f[0]);
    PathLengthIsInternalSum(f[1]);
    SumAfterMerge(f, n, g, PathLength);
    forall w ensures Occurs(e, w) == Sum(g, RootWeighs(w)) {
      SumAfterMerge(f, n, g, RootWeighs(w));
    }
  }

  lemma {:induction false} SomeWeight(t: Tree) returns (w: int)
    ensures Occurs(t, w) >= 1
  {
    if t.Leaf? { w := t.freq.v; } else { w := SomeWeight(t.left); }
  }

  lemma TwoWeights(t: Tree) returns (p: int, q: int)
    requires t.Node?
    ensures Occurs(t, p) >= 1 && Occurs(t, q) >= 1 && (p == q ==> Occurs(t, p) >= 2)
  {
    p := SomeWeight(t.left);
    q := SomeWeight(t.right);
  }

  /** When one tree is left, nothing over the same weights is cheaper. */
  lemma LastTreeIsCheapest(u: Tree, t: Tree)
    requires Extends(u, [t])
    ensures PathLength(t) <= PathLength(u)
  {
    hide Occurs, Sum;
    SumOfOne(t, PathLength);
    var e :| PathLength(e) + Sum([t], PathLength) <= PathLength(u) && OverRoots(e, [t]);
    forall w ensures Occurs(e, w) == One(w, t.freq.v) {
      SumOfOne(t, RootWeighs(w));
    }
    OneWeightIsLeaf(e, t.freq.v);
  }

  lemma OneWeightIsLeaf(e: Tree, v: int)
    requires forall w :: Occurs(e, w) == One(w, v)
    ensures e.Leaf?
  {
    if e.Node? {
      var p, q := TwoWeights(e);
    }
  }

  ghost function LeafWeighs(w: int): Tree -> int {
    (t: Tree) => Occurs(t, w)
  }

  /** No tree over the same leaf weights has a smaller weighted path length. */
  ghost predicate Cheapest(t: Tree) {
    forall u :: (forall w :: Occurs(u, w) == Occurs(t, w)) ==> PathLength(t) <= PathLength(u)
  }

  /** What the merge loop keeps while it turns the forest `f0` of leaves into `f`. */
  ghost predicate Reaches(f0: seq<Tree>, f: seq<Tree>) {
    && (forall i :: 0 <= i < |f| ==> Summed(f[i]))
    && (forall u :: OverRoots(u, f0) ==> Extends(u, f))
    && (forall w :: Sum(f, LeafWeighs(w)) == Sum(f0, RootWeighs(w)))
  }

  ghost predicate AllLeaves(f: seq<Tree>) {
    forall i :: 0 <= i < |f| ==> f[i].Leaf?
  }

  lemma {:induction false} SumsOverLeaves(f: seq<Tree>, w: int)
    requires AllLeaves(f)
    ensures Sum(f, PathLength) == 0
    ensures Sum(f, LeafWeighs(w)) == Sum(f, RootWeighs(w))
  {
    if f != [] { SumsOverLeaves(f[1..], w); }
  }

  lemma ReachesStart(f: seq<Tree>)
    requires AllLeaves(f)
    ensures Reaches(f, f)
  {
    SumsOverLeaves(f, 0);
    forall w ensures Sum(f, LeafWeighs(w)) == Sum(f, RootWeighs(w)) {
      SumsOverLeaves(f, w);
    }
  }

  lemma ReachesMerge(f0: seq<Tree>, f: seq<Tree>, g: seq<Tree>)
    requires Reaches(f0, f) && Sorted(f) && MergeStep(f, g)
    ensures Reaches(f0, g)
  {
    var id :| multiset(g) == multiset(f[2..] + [Join(id, f[0], f[1])]);
    var n := Join(id, f[0], f[1]);
    forall i | 0 <= i < |g| ensures Summed(g[i]) {
      assert g[i] in multiset(f[2..] + [n]);
    }
    forall u | OverRoots(u, f0) ensures Extends(u, g) {
      MergeKeepsExtends(u, f, g);
    }
    forall w ensures Sum(g, LeafWeighs(w)) == Sum(f0, RootWeighs(w)) {
      SumAfterMerge(f, n, g, LeafWeighs(w));
    }
  }

  lemma ReachesEnd(f0: seq<Tree>, t: Tree)
    requires Reaches(f0, [t])
    ensures Summed(t) && Cheapest(t)
    ensures forall w :: Occurs(t, w) == Sum(f0, RootWeighs(w))
  {
    assert [t][0] == t;
    forall w ensures Occurs(t, w) == Sum(f0, RootWeighs(w)) {
      assert Sum([t], LeafWeighs(w)) == LeafWeighs(w)(t);
    }
    forall u | forall w :: Occurs(u, w) == Occurs(t, w) ensures PathLength(t) <= PathLength(u) {
      assert OverRoots(u, f0);
      LastTreeIsCheapest(u, t);
    }
  }

  /** A run of the merge loop: each queue is sorted in some way, its two first trees joined. */
  ghost predicate MergeRun(fs: seq<seq<Tree>>) {
    && |fs| > 0 && AllLeaves(fs[0])
    && forall i :: 0 < i < |fs| ==> RunStep(fs, i)
  }

  ghost predicate RunStep(fs: seq<seq<Tree>>, i: nat)
    requires 0 < i < |fs|
  {
    Sorted(fs[i - 1]) && MergeStep(fs[i - 1], fs[i])
  }

  lemma {:induction false} MergeRunReaches(fs: seq<seq<Tree>>)
    requires MergeRun(fs)
    ensures Reaches(fs[0], fs[|fs| - 1])
  {
    hide Reaches, AllLeaves, MergeStep, Sorted;
    if |fs| == 1 {
      ReachesStart(fs[0]);
    } else {
      var n := |fs| - 1;
      assert forall i :: 0 < i < n && RunStep(fs, i) ==> RunStep(fs[..n], i);
      assert RunStep(fs, n);
      MergeRunReaches(fs[..n]);
      ReachesMerge(fs[0], fs[n - 1], fs[n]);
    }
  }

  /** Huffman's theorem, for every frequency table and every way of breaking ties. */
  lemma HuffmanIsOptimal(fs: seq<seq<Tree>>, t: Tree, u: Tree)
    requires MergeRun(fs) && fs[|fs| - 1] == [t]
    requires forall w :: Occurs(u, w) == Sum(fs[0], RootWeighs(w))
    ensures PathLength(t) <= PathLength(u)
  {
    MergeRunReaches(fs);
    ReachesEnd(fs[0], t);
  }
}
