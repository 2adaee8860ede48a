/** The priority queue: a 256-slot array, sorted again after each enqueue. */
module PQueue {
  import opened Sequences
  import opened HuffmanTree
  import opened Optimality
  import opened TreeNodes

  const MAXSIZE: nat := 256

  predicate SortedNodes(q: seq<TreeNode?>)
    reads q`freq
  {
    && (forall i :: 0 <= i < |q| ==> q[i] != null)
    && (forall i, j :: 0 <= i < j < |q| ==> q[i].freq.v <= q[j].freq.v)
  }

  /** All that `qsort` promises: ties may be broken in any way. */
  predicate SortedPermutation(s: seq<TreeNode?>, q: seq<TreeNode?>)
    reads s`freq
  {
    multiset(s) == multiset(q) && SortedNodes(s)
  }

  /** Node i of the queue stands for tree i of the forest. */
  ghost predicate Stands(nodes: seq<TreeNode?>, f: seq<Tree>, s: set<TreeNode>)
    reads s`id, s`kind, s`freq, s`left, s`right
  {
    |nodes| == |f| && forall i :: 0 <= i < |f| ==> Rep(nodes[i], f[i], s)
  }

  /** A sorted queue holds the same forest in a new order. */
  lemma {:induction false} Rearranged(nodes: seq<TreeNode?>, f: seq<Tree>, s: set<TreeNode>, to: seq<TreeNode?>)
    returns (g: seq<Tree>)
    requires Stands(nodes, f, s) && multiset(to) == multiset(nodes)
    ensures Stands(to, g, s) && multiset(g) == multiset(f)
  {
    if to == [] {
      assert |multiset(nodes)| == 0;
      g := [];
    } else {
      assert to[0] in multiset(nodes);
      var i :| 0 <= i < |nodes| && nodes[i] == to[0];
      WithoutSame(nodes, i, to, 0);
      assert Without(to, 0) == to[1..];
      var h := Rearranged(Without(nodes, i), Without(f, i), s, to[1..]);
      g := [f[i]] + h;
      WithoutMultiset(f, i);
    }
  }

  lemma SortedForest(nodes: seq<TreeNode?>, f: seq<Tree>, s: set<TreeNode>)
    requires Stands(nodes, f, s) && SortedNodes(nodes)
    ensures Sorted(f)
  {
    forall i, j | 0 <= i < j < |f| ensures f[i].freq.v <= f[j].freq.v {
      assert Rep(nodes[i], f[i], s) && Rep(nodes[j], f[j], s);
      assert nodes[i].freq.v <= nodes[j].freq.v;
    }
  }

  class PriorityQueue {
    var queue: array<TreeNode?>
    var count: nat
    ghost var forest: seq<Tree>        // what the queued nodes stand for, in queue order
    ghost var space: set<TreeNode>     // all nodes of these trees

    ghost predicate Valid()
      reads this, queue, space`id, space`kind, space`freq, space`left, space`right
    {
      && queue.Length == MAXSIZE
      && count <= MAXSIZE
      && Stands(Nodes(), forest, space)
      && Sorted(forest)
      && forall i :: count <= i < MAXSIZE ==> queue[i] == null
    }

    ghost function Nodes(): seq<TreeNode?>
      requires count <= queue.Length
      reads this, queue
    {
      queue[..count]
    }

    constructor ()
      ensures Valid() && fresh(queue) && forest == []
    {
      queue := new TreeNode?[MAXSIZE](_ => null);
      count := 0;
      forest, space := [], {};
    }

    /** The call of `qsort` on the first `count` slots. */
    method Sort()
      requires queue.Length == MAXSIZE && count <= MAXSIZE
      requires Stands(Nodes(), forest, space)
      requires forall i :: count <= i < MAXSIZE ==> queue[i] == null
      modifies queue, this`forest
      ensures Valid() && multiset(forest) == multiset(old(forest))
    {
      var was := queue[..count];
      assert forall i :: 0 <= i < count ==> Rep(was[i], forest[i], space);
      ASortExists(was);
      var s: seq<TreeNode?> :| SortedPermutation(s, was);
      assert |s| == |multiset(s)| == |multiset(was)| == count;
      ghost var f := Rearranged(was, forest, space, s);
      SortedForest(s, f, space);
      forall i | 0 <= i < count {
        queue[i] := s[i];
      }
      assert queue[..count] == s;
      forest := f;
    }

    method Enqueue(n: TreeNode, ghost t: Tree)
      requires Valid() && Rep(n, t, space + {n})
      modifies this, queue
      ensures Valid() && queue == old(queue)
      ensures old(count) == MAXSIZE ==> forest == old(forest)
      ensures old(count) < MAXSIZE ==> count == old(count) + 1 && multiset(forest) == multiset(old(forest) + [t])
    {
      if count >= MAXSIZE {
        return;
      }
      StandsGrows(Nodes(), forest, space, n, t);
      ghost var was := Nodes();
      queue[count] := n;
      count := count + 1;
      forest, space := forest + [t], space + {n};
      assert Nodes() == was + [n];
      Sort();
    }

    /** The shift loop of the dequeue. It reads slot `count` as well; in a full queue that lies
        past the end, and what is found there is not known. */
    method ShiftLeft()
      requires queue.Length == MAXSIZE && count <= MAXSIZE
      modifies queue
      ensures forall j :: 0 <= j < count - 1 ==> queue[j] == old(queue[j + 1])
      ensures 0 < count < MAXSIZE ==> queue[count - 1] == old(queue[count])
      ensures forall j :: count <= j < MAXSIZE ==> queue[j] == old(queue[j])
    {
      var i := 1;
      while i <= count
        invariant 1 <= i <= count + 1
        invariant forall j :: 0 <= j < i - 1 && j + 1 < MAXSIZE ==> queue[j] == old(queue[j + 1])
        invariant forall j :: i - 1 <= j < MAXSIZE ==> queue[j] == old(queue[j])
      {
        var slot: TreeNode? := *;
        if i < MAXSIZE {
          slot := queue[i];
        }
        queue[i - 1] := slot;
        i := i + 1;
      }
    }

    /** The first slot is given up. */
    method DropFirst()
      requires queue.Length == MAXSIZE && 0 < count <= MAXSIZE
      requires forall i :: count <= i < MAXSIZE ==> queue[i] == null
      modifies this`count, queue
      ensures count == old(count) - 1 && Nodes() == old(Nodes())[1..]
      ensures forall i :: count <= i < MAXSIZE ==> queue[i] == null
    {
      ghost var nodes := Nodes();
      ShiftLeft();
      count := count - 1;
      queue[count] := null;
      assert forall j :: 0 <= j < count ==> queue[j] == nodes[1..][j];
    }

    method Dequeue() returns (n: TreeNode?)
      requires Valid()
      modifies this, queue
      ensures Valid() && queue == old(queue) && space == old(space)
      ensures old(count) == 0 ==> n == null && forest == old(forest) == []
      ensures old(count) > 0 ==> count == old(count) - 1 && old(forest) != [] && forest == old(forest)[1..]
      ensures old(count) > 0 ==> Rep(n, old(forest)[0], space)
    {
      ghost var nodes := Nodes();
      StandsTail(nodes, forest, space);
      if count == 0 {
        return null;
      }
      n := queue[0];
      DropFirst();
      forest := forest[1..];
    }

    /** pqueue_size. */
    function Size(): nat
      reads this
    {
      count
    }
  }

  lemma StandsTail(nodes: seq<TreeNode?>, f: seq<Tree>, s: set<TreeNode>)
    requires Stands(nodes, f, s) && Sorted(f)
    ensures |nodes| == |f|
    ensures f != [] ==> Rep(nodes[0], f[0], s) && Stands(nodes[1..], f[1..], s) && Sorted(f[1..])
  {
  }

  lemma StandsGrows(nodes: seq<TreeNode?>, f: seq<Tree>, s: set<TreeNode>, n: TreeNode, t: Tree)
    requires Stands(nodes, f, s) && Rep(n, t, s + {n})
    ensures Stands(nodes + [n], f + [t], s + {n})
  {
    forall i | 0 <= i < |f| ensures Rep(nodes[i], f[i], s + {n}) {
      RepGrows(nodes[i], f[i], s, s + {n});
    }
  }

  /** Every queue can be sorted, so `qsort` has something to return. */
  lemma {:induction false} ASortExists(q: seq<TreeNode?>)
    requires forall i :: 0 <= i < |q| ==> q[i] != null
    ensures exists s: seq<TreeNode?> :: SortedPermutation(s, q)
  {
    if q == [] {
      assert SortedPermutation(q, q);
    } else {
      ASortExists(q[1..]);
      var s: seq<TreeNode?> :| SortedPermutation(s, q[1..]);
      var k := InsertAt(s, q[0]);
      var r := s[..k] + [q[0]] + s[k..];
      InsertedElements(s, q, k);
      assert SortedNodes(r) by { InsertSorts(s, q[0], k); }
      assert SortedPermutation(r, q);
    }
  }

  lemma InsertedElements(s: seq<TreeNode?>, q: seq<TreeNode?>, k: nat)
    requires q != [] && multiset(s) == multiset(q[1..]) && k <= |s|
    ensures multiset(s[..k] + [q[0]] + s[k..]) == multiset(q)
  {
    assert s == s[..k] + s[k..] && q == [q[0]] + q[1..];
  }

  lemma InsertSorts(s: seq<TreeNode?>, n: TreeNode, k: nat)
    requires SortedNodes(s) && k <= |s|
    requires forall i :: 0 <= i < k ==> s[i].freq.v <= n.freq.v
    requires forall i :: k <= i < |s| ==> n.freq.v <= s[i].freq.v
    ensures SortedNodes(s[..k] + [n] + s[k..])
  {
  }

  lemma {:induction false} InsertAt(s: seq<TreeNode?>, n: TreeNode) returns (k: nat)
    requires SortedNodes(s)
    ensures k <= |s|
    ensures forall i :: 0 <= i < k ==> s[i].freq.v <= n.freq.v
    ensures forall i :: k <= i < |s| ==> n.freq.v <= s[i].freq.v
  {
    if s == [] || s[|s| - 1].freq.v <= n.freq.v {
      k := |s|;
    } else {
      k := InsertAt(s[..|s| - 1], n);
    }
  }
}
