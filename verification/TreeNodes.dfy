/** TreeNode objects, as linked by pointers, and the tree value they stand for. */
module TreeNodes {
  import opened HuffmanTree

  datatype NodeType = INTERNAL | LEAF

  class TreeNode {
    var id: int
    var kind: NodeType
    var freq: Frequency
    var left: TreeNode?
    var right: TreeNode?
    var next: TreeNode?

    constructor (id: int)
      ensures this.id == id && kind == INTERNAL && freq == Frequency(0, 0)
      ensures left == null && right == null && next == null
    {
      this.id, kind, freq := id, INTERNAL, Frequency(0, 0);
      left, right, next := null, null, null;
    }
  }

  /** The global counter `ids`, which starts at 1 in each program. */
  class IdSource {
    var ids: nat

    constructor ()
      ensures ids == 1
    {
      ids := 1;
    }
  }

  method TreeNew(source: IdSource) returns (n: TreeNode)
    modifies source
    ensures fresh(n)
    ensures n.id == old(source.ids) && source.ids == old(source.ids) + 1
    ensures n.kind == INTERNAL && n.freq == Frequency(0, 0)
    ensures n.left == null && n.right == null && n.next == null
  {
    n := new TreeNode(source.ids);
    source.ids := source.ids + 1;
  }

  /** The nodes reached from `n` through `left` and `right`, all in `s`, are the tree `t`.
      The `next` fields play no part, so the list a node is on may change freely. */
  ghost predicate Rep(n: TreeNode?, t: Tree, s: set<TreeNode>)
    reads s`id, s`kind, s`freq, s`left, s`right
    decreases t
  {
    && n != null && n in s && n.id == t.id && n.freq == t.freq
    && match t
       case Leaf(_, _) => n.kind == LEAF && n.left == null && n.right == null
       case Node(_, _, l, r) => n.kind == INTERNAL && Rep(n.left, l, s) && Rep(n.right, r, s)
  }

  lemma {:induction false} RepGrows(n: TreeNode?, t: Tree, s: set<TreeNode>, s': set<TreeNode>)
    requires Rep(n, t, s) && s <= s'
    ensures Rep(n, t, s')
  {
    if t.Node? {
      RepGrows(n.left, t.left, s, s');
      RepGrows(n.right, t.right, s, s');
    }
  }

  /** A node stands for at most one tree. */
  lemma {:induction false} RepUnique(n: TreeNode?, t: Tree, u: Tree, s: set<TreeNode>)
    requires Rep(n, t, s) && Rep(n, u, s)
    ensures t == u
  {
    if t.Node? {
      RepUnique(n.left, t.left, u.left, s);
      RepUnique(n.right, t.right, u.right, s);
    }
  }

  /** tree_size; a leaf has NULL children, whose size is 0. */
  method TreeSize(n: TreeNode?, ghost t: Tree, ghost s: set<TreeNode>) returns (size: nat)
    requires n != null ==> Rep(n, t, s)
    ensures size == if n == null then 0 else Size(t)
    decreases t, n != null
  {
    if n == null {
      size := 0;
    } else {
      var l := TreeSize(n.left, if t.Node? then t.left else t, s);
      var r := TreeSize(n.right, if t.Node? then t.right else t, s);
      size := l + r + 1;
    }
  }
}
