/** Trees of characters: the value a tree of TreeNode objects stands for, and the
    measures of a tree that the compressor is about. */
module HuffmanTree {

  /** How often a character occurs; `c` is a signed char, so -128 <= c < 128 in practice. */
  datatype Frequency = Frequency(v: int, c: int)

  datatype Tree =
    | Leaf(id: int, freq: Frequency)
    | Node(id: int, freq: Frequency, left: Tree, right: Tree)

  ghost function One(w: int, x: int): nat {
    if w == x then 1 else 0
  }

  /** How many leaves of `t` have frequency `w`, whatever their character. */
  ghost function Occurs(t: Tree, w: int): nat {
    match t
    case Leaf(_, f) => One(w, f.v)
    case Node(_, _, l, r) => Occurs(l, w) + Occurs(r, w)
  }

  /** The multiset of (frequency, character) pairs at the leaves. */
  ghost function Symbols(t: Tree): multiset<Frequency> {
    match t
    case Leaf(_, f) => multiset{f}
    case Node(_, _, l, r) => Symbols(l) + Symbols(r)
  }

  ghost function Ids(t: Tree): multiset<int> {
    match t
    case Leaf(id, _) => multiset{id}
    case Node(id, _, l, r) => Ids(l) + Ids(r) + multiset{id}
  }

  function Height(t: Tree): nat {
    match t
    case Leaf(_, _) => 0
    case Node(_, _, l, r) => 1 + if Height(l) >= Height(r) then Height(l) else Height(r)
  }

  /** The sum of the leaf frequencies. */
  function Total(t: Tree): int {
    match t
    case Leaf(_, f) => f.v
    case Node(_, _, l, r) => Total(l) + Total(r)
  }

  /** The weighted path length: joining two trees lengthens every path by one. */
  function PathLength(t: Tree): int {
    match t
    case Leaf(_, _) => 0
    case Node(_, _, l, r) => PathLength(l) + PathLength(r) + Total(l) + Total(r)
  }

  /** The sum over the leaves of frequency times depth, when the root is at depth `d`. */
  function DepthSum(t: Tree, d: nat): int {
    match t
    case Leaf(_, f) => f.v * d
    case Node(_, _, l, r) => DepthSum(l, d + 1) + DepthSum(r, d + 1)
  }

  /** The sum of the frequencies stored at the internal nodes. */
  function InternalSum(t: Tree): int {
    match t
    case Leaf(_, _) => 0
    case Node(_, f, l, r) => f.v + InternalSum(l) + InternalSum(r)
  }

  /** Every internal node stores the sum of its children's frequencies and character 0. */
  ghost predicate Summed(t: Tree) {
    match t
    case Leaf(_, _) => true
    case Node(_, f, l, r) => f == Frequency(l.freq.v + r.freq.v, 0) && Summed(l) && Summed(r)
  }

  ghost predicate NoRepeats<T(!new)>(m: multiset<T>) {
    forall x :: m[x] <= 1
  }

  /** What every tree made by `tree_new` satisfies: ids are positive and no two are equal. */
  ghost predicate GoodIds(t: Tree) {
    NoRepeats(Ids(t)) && forall i :: i in Ids(t) ==> 0 < i
  }

  /** tree_size: the number of nodes. */
  function Size(t: Tree): nat {
    match t
    case Leaf(_, _) => 1
    case Node(_, _, l, r) => Size(l) + Size(r) + 1
  }

  /** The weighted path length is the sum over the leaves of frequency times depth. */
  lemma {:induction false} PathLengthIsDepthSum(t: Tree, d: nat)
    ensures DepthSum(t, d) == PathLength(t) + d * Total(t)
  {
    match t
    case Leaf(_, _) =>
    case Node(_, _, l, r) =>
      PathLengthIsDepthSum(l, d + 1);
      PathLengthIsDepthSum(r, d + 1);
      Deeper(d, Total(l), Total(r));
  }

  lemma Deeper(d: nat, x: int, y: int)
    ensures (d + 1) * x + (d + 1) * y == x + y + d * (x + y)
  {
  }

  /** In a tree the merge loop builds, the root holds the sum of the leaf frequencies and the
      weighted path length is the sum of the internal frequencies. */
  lemma {:induction false} PathLengthIsInternalSum(t: Tree)
    requires Summed(t)
    ensures t.freq.v == Total(t)
    ensures PathLength(t) == InternalSum(t)
  {
    if t.Node? {
      PathLengthIsInternalSum(t.left);
      PathLengthIsInternalSum(t.right);
    }
  }
}
