/** tree_deserialize: rebuilding a tree from its records with one linked list.

    The list is described by the ids of its nodes, head first. A new record's children are
    looked up by id and unlinked on the way; a child just behind an unlinked one is found but
    stays on the list, because the pointer that is changed belongs to the removed node. */
module TreeRebuild {
  import opened Bytes
  import opened Options
  import opened Sequences
  import opened HuffmanTree
  import opened TreeNodes
  import opened BitsIO
  import opened TreeText

  /** The list `ids` after a walk that looks for `left` and `right`; `gone` says that the node
      before the list was just unlinked. */
  ghost function Kept(ids: seq<int>, left: int, right: int, gone: bool): seq<int> {
    if ids == [] then []
    else
      var hit := ids[0] == left || ids[0] == right;
      if hit && !gone then Kept(ids[1..], left, right, true)
      else [ids[0]] + Kept(ids[1..], left, right, false)
  }

  /** The list after the records `rs`. */
  ghost function ListAfter(rs: seq<Record>): seq<int> {
    if rs == [] then []
    else
      var r := rs[|rs| - 1];
      [r.id] + Kept(ListAfter(rs[..|rs| - 1]), r.left, r.right, false)
  }

  /** Ids are unique and not 0, and no record names the same node twice. */
  ghost predicate UniqueIds(rs: seq<Record>) {
    && (forall i, j :: 0 <= i < j < |rs| ==> rs[i].id != rs[j].id)
    && (forall i :: 0 <= i < |rs| ==> rs[i].id != 0 && (rs[i].left != rs[i].right || rs[i].left == 0))
  }

  type Nodes = map<int, TreeNode>

  /** Following `next` from `head` visits the nodes with these ids, in this order. */
  ghost predicate Linked(head: TreeNode?, ids: seq<int>, nodes: Nodes)
    reads nodes.Values`next
  {
    && (forall i :: 0 <= i < |ids| ==> ids[i] in nodes)
    && (forall i, j :: 0 <= i < j < |ids| ==> ids[i] != ids[j])
    && head == NodeAt(ids, 0, nodes)
    && forall i {:trigger nodes[ids[i]].next} :: 0 <= i < |ids| ==> nodes[ids[i]].next == NodeAt(ids, i + 1, nodes)
  }

  ghost function NodeAt(ids: seq<int>, i: nat, nodes: Nodes): TreeNode?
    requires forall i :: 0 <= i < |ids| ==> ids[i] in nodes
  {
    if i < |ids| then nodes[ids[i]] else null
  }

  /** No two ids share a node. */
  ghost predicate Separate(nodes: Nodes)
    reads nodes.Values`id
  {
    forall k :: k in nodes ==> nodes[k].id == k
  }

  /** The child the walk finds for `id`. */
  ghost function Find(id: int, ids: seq<int>, nodes: Nodes): TreeNode? {
    if id in ids && id in nodes then nodes[id] else null
  }

  ghost function Removed(ids: seq<int>, k: nat): seq<int>
    requires k < |ids|
  {
    ids[..k] + ids[k + 1..]
  }

  /** A child is taken off the list: `c` is at position `k`, and `p`, if any, is the node visited
      before it, with id `y`. Only when `p` is itself still on the list does this remove `c`. */
  method Unlink(first: TreeNode, p: TreeNode?, c: TreeNode,
                ghost ids: seq<int>, ghost k: nat, ghost y: int, ghost nodes: Nodes)
    returns (head: TreeNode?)
    requires Linked(first, ids, nodes) && Separate(nodes)
    requires k < |ids| && c == nodes[ids[k]] && Before(p, y, ids, k, nodes)
    modifies if p == null then {} else {p}`next
    ensures Linked(head, if p == null || y in ids then Removed(ids, k) else ids, nodes)
    ensures c.next == old(c.next)
  {
    head := first;
    if p == null {
      head := head.next;
      LinkedTail(first, ids, nodes);
    } else {
      ghost var was := map x | x in nodes :: nodes[x].next;
      p.next := c.next;
      if y in ids { UnlinkedNext(head, ids, k, was, nodes); } else { UnlinkedElsewhere(head, y, ids, was, nodes); }
    }
  }

  /** The pointers `was` linked the list, and only the one of node `y` has changed since. */
  ghost predicate Changed(head: TreeNode?, y: int, ids: seq<int>, was: map<int, TreeNode?>, nodes: Nodes)
    reads nodes.Values`next
  {
    && was.Keys == nodes.Keys && head == NodeAtIf(ids, 0, nodes)
    && (forall i :: 0 <= i < |ids| ==> ids[i] in nodes && was[ids[i]] == NodeAtIf(ids, i + 1, nodes))
    && (forall i, j :: 0 <= i < j < |ids| ==> ids[i] != ids[j])
    && (forall x :: x in nodes && x != y ==> nodes[x].next == was[x])
  }

  ghost function NodeAtIf(ids: seq<int>, i: nat, nodes: Nodes): TreeNode? {
    if i < |ids| && ids[i] in nodes then nodes[ids[i]] else null
  }

  /** The predecessor's pointer skips position `k`. */
  lemma UnlinkedNext(head: TreeNode?, ids: seq<int>, k: nat, was: map<int, TreeNode?>, nodes: Nodes)
    requires 0 < k < |ids| && Changed(head, ids[k - 1], ids, was, nodes)
    requires ids[k - 1] in nodes && nodes[ids[k - 1]].next == was[ids[k]]
    ensures Linked(head, Removed(ids, k), nodes)
  {
    hide NodeAt, NodeAtIf;
    var to := Removed(ids, k);
    assert forall i :: 0 <= i < |to| ==> to[i] == ids[if i < k then i else i + 1];
    forall i | 0 <= i < |to| ensures nodes[to[i]].next == NodeAt(to, i + 1, nodes) {
      var j := if i < k then i else i + 1;
      assert to[i] == ids[j];
      assert was[ids[j]] == NodeAtIf(ids, j + 1, nodes) && was[ids[k]] == NodeAtIf(ids, k + 1, nodes);
      RemovedAt(ids, k, i, nodes);
    }
    HeadKept(ids, k, nodes);
  }

  /** What comes after position `i` once position `k` is removed. */
  lemma RemovedAt(ids: seq<int>, k: nat, i: nat, nodes: Nodes)
    requires k < |ids| && i + 1 < |ids| && forall j :: 0 <= j < |ids| ==> ids[j] in nodes
    requires forall j :: 0 <= j < |Removed(ids, k)| ==> Removed(ids, k)[j] in nodes
    ensures NodeAt(Removed(ids, k), i + 1, nodes) == NodeAtIf(ids, if i + 1 < k then i + 1 else i + 2, nodes)
  {
  }

  lemma HeadKept(ids: seq<int>, k: nat, nodes: Nodes)
    requires 0 < k < |ids| && forall j :: 0 <= j < |ids| ==> ids[j] in nodes
    requires forall j :: 0 <= j < |Removed(ids, k)| ==> Removed(ids, k)[j] in nodes
    ensures NodeAt(Removed(ids, k), 0, nodes) == NodeAtIf(ids, 0, nodes)
  {
  }

  /** A pointer that belongs to no node of the list changes nothing. */
  lemma UnlinkedElsewhere(head: TreeNode?, y: int, ids: seq<int>, was: map<int, TreeNode?>, nodes: Nodes)
    requires y !in ids && Changed(head, y, ids, was, nodes)
    ensures Linked(head, ids, nodes)
  {
    forall i | 0 <= i < |ids| ensures nodes[ids[i]].next == NodeAt(ids, i + 1, nodes) {
      assert was[ids[i]] == NodeAtIf(ids, i + 1, nodes);
    }
  }

  lemma LinkedTail(head: TreeNode, ids: seq<int>, nodes: Nodes)
    requires Linked(head, ids, nodes)
    ensures Linked(head.next, Removed(ids, 0), nodes)
  {
    assert Removed(ids, 0) == ids[1..];
  }

  /** `p` is the node visited before position `k`: none, the one there, or one off the list. */
  ghost predicate Before(p: TreeNode?, y: int, ids: seq<int>, k: nat, nodes: Nodes)
    requires k < |ids|
  {
    if p == null then k == 0
    else y in nodes && p == nodes[y] && (y in ids ==> k > 0 && ids[k - 1] == y)
  }

  /** The body of the walk at the node `c`. */
  method Visit(n: TreeNode, first: TreeNode, p: TreeNode?, c: TreeNode, left: int, right: int,
               ghost ids: seq<int>, ghost k: nat, ghost y: int, ghost nodes: Nodes)
    returns (head: TreeNode?)
    requires Linked(first, ids, nodes) && Separate(nodes)
    requires k < |ids| && c == nodes[ids[k]] && Before(p, y, ids, k, nodes)
    requires n !in nodes.Values && (c.id == left ==> left != right)
    modifies n`left, n`right, if p == null then {} else {p}`next
    ensures Linked(head, if c.id in {left, right} && (p == null || y in ids) then Removed(ids, k) else ids, nodes)
    ensures c.next == old(c.next)
    ensures n.left == (if c.id == left then c else old(n.left))
    ensures n.right == (if c.id == right then c else old(n.right))
  {
    head := first;
    if c.id == left {
      n.left := c;
      head := Unlink(first, p, c, ids, k, y, nodes);
    }
    if c.id == right {
      n.right := c;
      head := Unlink(first, p, c, ids, k, y, nodes);
    }
  }

  /** What the walk keeps after `i` nodes: `done` is what is left of them, and `gone` says
      that the last of them was unlinked. */
  ghost predicate Walked(ids: seq<int>, left: int, right: int, i: nat, done: seq<int>, gone: bool) {
    && i <= |ids|
    && done + Kept(ids[i..], left, right, gone) == Kept(ids, left, right, false)
    && (gone ==> i > 0 && ids[i - 1] !in done)
    && (!gone && i > 0 ==> done != [] && done[|done| - 1] == ids[i - 1])
    && (i == 0 ==> done == [])
    && forall x :: x in done ==> x in ids[..i]
  }

  ghost function DoneAfter(ids: seq<int>, left: int, right: int, i: nat, done: seq<int>, gone: bool): (seq<int>, bool)
    requires i < |ids|
  {
    if ids[i] in {left, right} && !gone then (done, true) else (done + [ids[i]], false)
  }

  lemma WalkStep(ids: seq<int>, left: int, right: int, i: nat, done: seq<int>, gone: bool)
    requires i < |ids| && Walked(ids, left, right, i, done, gone)
    requires forall j, k :: 0 <= j < k < |ids| ==> ids[j] != ids[k]
    ensures var (d, g) := DoneAfter(ids, left, right, i, done, gone);
            Walked(ids, left, right, i + 1, d, g)
  {
    assert ids[..i + 1] == ids[..i] + [ids[i]] && ids[i..][1..] == ids[i + 1..];
    var (d, g) := DoneAfter(ids, left, right, i, done, gone);
    assert d + Kept(ids[i + 1..], left, right, g) == done + Kept(ids[i..], left, right, gone);
  }

  /** Where the walk stands at position `i` of the list as it now is. */
  lemma WalkPosition(ids: seq<int>, left: int, right: int, i: nat, done: seq<int>, gone: bool)
    requires i < |ids| && Walked(ids, left, right, i, done, gone)
    requires forall j, k :: 0 <= j < k < |ids| ==> ids[j] != ids[k]
    ensures var cur, (d, g) := done + ids[i..], DoneAfter(ids, left, right, i, done, gone);
            && cur[|done|] == ids[i]
            && (i == 0 ==> |done| == 0)
            && (i > 0 ==> if gone then ids[i - 1] !in cur else |done| > 0 && cur[|done| - 1] == ids[i - 1])
            && d + ids[i + 1..] == if ids[i] in {left, right} && !gone then Removed(cur, |done|) else cur
  {
  }

  /** The walk has reached `c` at position `i`: what is left of the nodes before is still
      linked to the rest, and the new node `n` has the children found so far. */
  ghost predicate AtNode(n: TreeNode, head: TreeNode?, c: TreeNode?, p: TreeNode?, left: int, right: int,
                         ids: seq<int>, i: nat, done: seq<int>, gone: bool, nodes: Nodes)
    requires forall j :: 0 <= j < |ids| ==> ids[j] in nodes
    reads n`left, n`right, nodes.Values`next
  {
    && Walked(ids, left, right, i, done, gone)
    && c == NodeAt(ids, i, nodes)
    && p == (if i == 0 then null else nodes[ids[i - 1]])
    && Linked(head, done + ids[i..], nodes)
    && n.left == Find(left, ids[..i], nodes) && n.right == Find(right, ids[..i], nodes)
  }

  method VisitNext(n: TreeNode, first: TreeNode?, c: TreeNode, p: TreeNode?, left: int, right: int,
                   ghost ids: seq<int>, ghost i: nat, ghost done: seq<int>, ghost gone: bool, ghost nodes: Nodes)
    returns (head: TreeNode?)
    requires forall j :: 0 <= j < |ids| ==> ids[j] in nodes
    requires forall j, k :: 0 <= j < k < |ids| ==> ids[j] != ids[k]
    requires Separate(nodes) && n !in nodes.Values && 0 !in nodes && (left != right || left == 0)
    requires AtNode(n, first, c, p, left, right, ids, i, done, gone, nodes)
    modifies n`left, n`right, nodes.Values`next
    ensures i < |ids|
    ensures var (d, g) := DoneAfter(ids, left, right, i, done, gone);
            AtNode(n, head, c.next, c, left, right, ids, i + 1, d, g, nodes)
  {
    hide Kept, Removed;
    WalkPosition(ids, left, right, i, done, gone);
    WalkStep(ids, left, right, i, done, gone);
    FindStep(left, ids, i, nodes);
    FindStep(right, ids, i, nodes);
    ghost var cur := done + ids[i..];
    assert first == NodeAt(cur, 0, nodes) != null;
    assert c.next == NodeAt(cur, |done| + 1, nodes) == NodeAt(ids, i + 1, nodes);
    head := Visit(n, first, p, c, left, right, cur, |done|, if i == 0 then 0 else ids[i - 1], nodes);
  }

  /** The walk over the list that gives the new node `n` its children. */
  method AttachChildren(n: TreeNode, first: TreeNode?, left: int, right: int, ghost ids: seq<int>, ghost nodes: Nodes)
    returns (head: TreeNode?)
    requires n !in nodes.Values && n.left == null && n.right == null
    requires Linked(first, ids, nodes) && Separate(nodes)
    requires 0 !in nodes && (left != right || left == 0)
    modifies n`left, n`right, nodes.Values`next
    ensures Linked(head, Kept(ids, left, right, false), nodes)
    ensures n.left == Find(left, ids, nodes) && n.right == Find(right, ids, nodes)
  {
    head := first;
    var c, p: TreeNode? := head, null;
    ghost var i, done, gone := 0, [], false;
    WalkStart(n, first, left, right, ids, nodes);
    while c != null
      invariant AtNode(n, head, c, p, left, right, ids, i, done, gone, nodes)
      decreases |ids| - i
    {
      head := VisitNext(n, head, c, p, left, right, ids, i, done, gone, nodes);
      var (d, g) := DoneAfter(ids, left, right, i, done, gone);
      done, gone := d, g;
      p := c;
      c := c.next;
      i := i + 1;
    }
    WalkEnd(n, head, p, left, right, ids, i, done, gone, nodes);
  }

  lemma WalkStart(n: TreeNode, first: TreeNode?, left: int, right: int, ids: seq<int>, nodes: Nodes)
    requires Linked(first, ids, nodes) && n.left == null && n.right == null
    ensures AtNode(n, first, first, null, left, right, ids, 0, [], false, nodes)
  {
    assert [] + ids[0..] == ids && [] + Kept(ids, left, right, false) == Kept(ids, left, right, false);
  }

  lemma WalkEnd(n: TreeNode, head: TreeNode?, p: TreeNode?, left: int, right: int,
                ids: seq<int>, i: nat, done: seq<int>, gone: bool, nodes: Nodes)
    requires forall j :: 0 <= j < |ids| ==> ids[j] in nodes
    requires AtNode(n, head, null, p, left, right, ids, i, done, gone, nodes)
    ensures Linked(head, Kept(ids, left, right, false), nodes)
    ensures n.left == Find(left, ids, nodes) && n.right == Find(right, ids, nodes)
  {
    assert ids[i..] == [] && ids[..i] == ids && done + [] == done;
  }

  lemma FindStep(id: int, ids: seq<int>, i: nat, nodes: Nodes)
    requires i < |ids| && forall j :: 0 <= j < |ids| ==> ids[j] in nodes
    ensures Find(id, ids[..i + 1], nodes) == if ids[i] == id then nodes[id] else Find(id, ids[..i], nodes)
  {
    assert ids[..i + 1] == ids[..i] + [ids[i]];
  }

  function KindOf(kind: int): NodeType {
    if kind == 1 then LEAF else INTERNAL
  }

  /** Node `r.id` was made from the record r at position `j`: its children are the nodes that
      were on the list, under these ids, when r was read. */
  ghost predicate MadeFrom(rs: seq<Record>, j: nat, nodes: Nodes)
    requires j < |rs|
    reads nodes.Values`id, nodes.Values`kind, nodes.Values`freq, nodes.Values`left, nodes.Values`right
  {
    var r, ids := rs[j], ListAfter(rs[..j]);
    && r.id in nodes
    && var n := nodes[r.id];
       && n.kind == KindOf(r.kind) && n.freq == Frequency(r.v, ToSigned(ToByte(r.c)))
       && n.left == Find(r.left, ids, nodes) && n.right == Find(r.right, ids, nodes)
  }

  ghost predicate HasId(rs: seq<Record>, x: int) {
    exists j :: 0 <= j < |rs| && rs[j].id == x
  }

  ghost predicate Graph(rs: seq<Record>, nodes: Nodes)
    reads nodes.Values`id, nodes.Values`kind, nodes.Values`freq, nodes.Values`left, nodes.Values`right
  {
    && Separate(nodes)
    && (forall x :: x in nodes <==> HasId(rs, x))
    && forall j :: 0 <= j < |rs| ==> MadeFrom(rs, j, nodes)
  }

  lemma {:induction false} KeptIsSubset(ids: seq<int>, left: int, right: int, gone: bool, x: int)
    requires x in Kept(ids, left, right, gone)
    ensures x in ids
  {
    var g := (ids[0] == left || ids[0] == right) && !gone;
    if x in Kept(ids[1..], left, right, g) { KeptIsSubset(ids[1..], left, right, g, x); }
  }

  lemma {:induction false} ListedIdsAreRead(rs: seq<Record>, x: int)
    requires x in ListAfter(rs)
    ensures HasId(rs, x)
  {
    var n := |rs| - 1;
    var r := rs[n];
    if x != r.id {
      KeptIsSubset(ListAfter(rs[..n]), r.left, r.right, false, x);
      ListedIdsAreRead(rs[..n], x);
      var j :| 0 <= j < n && rs[..n][j].id == x;
      assert rs[j].id == x;
    }
  }

  /** A new record adds one node; the nodes made before keep their children. */
  lemma GraphGrows(rs: seq<Record>, r: Record, nodes: Nodes, n: TreeNode)
    requires Graph(rs, nodes) && UniqueIds(rs + [r]) && n !in nodes.Values && n.id == r.id
    requires n.kind == KindOf(r.kind) && n.freq == Frequency(r.v, ToSigned(ToByte(r.c)))
    requires n.left == Find(r.left, ListAfter(rs), nodes) && n.right == Find(r.right, ListAfter(rs), nodes)
    ensures r.id !in nodes && Graph(rs + [r], nodes[r.id := n])
  {
    var to, more := rs + [r], nodes[r.id := n];
    KeysGrow(rs, r, nodes, n);
    forall j | 0 <= j < |to| ensures MadeFrom(to, j, more) {
      if j < |rs| { MadeAgain(rs, r, j, nodes, n); } else { MadeNow(rs, r, nodes, n); }
    }
  }

  lemma MadeNow(rs: seq<Record>, r: Record, nodes: Nodes, n: TreeNode)
    requires r.id !in nodes && (forall x :: x in nodes <==> HasId(rs, x))
    requires n.kind == KindOf(r.kind) && n.freq == Frequency(r.v, ToSigned(ToByte(r.c)))
    requires n.left == Find(r.left, ListAfter(rs), nodes) && n.right == Find(r.right, ListAfter(rs), nodes)
    ensures MadeFrom(rs + [r], |rs|, nodes[r.id := n])
  {
    assert (rs + [r])[..|rs|] == rs == rs[..|rs|];
    SameFind(rs, r.left, |rs|, r.id, nodes, n);
    SameFind(rs, r.right, |rs|, r.id, nodes, n);
  }

  lemma MadeAgain(rs: seq<Record>, r: Record, j: nat, nodes: Nodes, n: TreeNode)
    requires j < |rs| && MadeFrom(rs, j, nodes) && r.id !in nodes
    requires forall x :: x in nodes <==> HasId(rs, x)
    ensures MadeFrom(rs + [r], j, nodes[r.id := n])
  {
    assert (rs + [r])[..j] == rs[..j];
    SameFind(rs, rs[j].left, j, r.id, nodes, n);
    SameFind(rs, rs[j].right, j, r.id, nodes, n);
  }

  lemma KeysGrow(rs: seq<Record>, r: Record, nodes: Nodes, n: TreeNode)
    requires UniqueIds(rs + [r])
    requires forall x :: x in nodes <==> HasId(rs, x)
    ensures r.id !in nodes
    ensures forall x :: x in nodes[r.id := n] <==> HasId(rs + [r], x)
  {
    var to := rs + [r];
    assert to[|rs|] == r && forall j :: 0 <= j < |rs| ==> to[j] == rs[j];
    forall x ensures x in nodes[r.id := n] <==> HasId(to, x) {
      if x in nodes {
        var j :| 0 <= j < |rs| && rs[j].id == x;
        assert to[j].id == x;
      }
    }
  }

  lemma SameFind(rs: seq<Record>, x: int, j: nat, id: int, nodes: Nodes, n: TreeNode)
    requires j <= |rs| && id !in nodes
    requires forall y :: y in nodes <==> HasId(rs, y)
    ensures Find(x, ListAfter(rs[..j]), nodes[id := n]) == Find(x, ListAfter(rs[..j]), nodes)
  {
    if x in ListAfter(rs[..j]) {
      ListedIdsAreRead(rs[..j], x);
      var k :| 0 <= k < j && rs[..j][k].id == x;
      assert rs[k].id == x;
    }
  }

  /** The new node goes to the head of the list. */
  lemma LinkedGrows(head: TreeNode?, ids: seq<int>, nodes: Nodes, n: TreeNode)
    requires Linked(head, ids, nodes) && n !in nodes.Values && n.id !in nodes && n.next == head
    ensures Linked(n, [n.id] + ids, nodes[n.id := n])
  {
    var to, more := [n.id] + ids, nodes[n.id := n];
    forall i | 0 <= i < |to| ensures more[to[i]].next == NodeAt(to, i + 1, more) {
      if i > 0 { assert to[i] == ids[i - 1]; }
    }
  }

  /** The node constructed from the values that were read. */
  method NewNode(r: Record, source: IdSource) returns (n: TreeNode)
    modifies source
    ensures fresh(n) && n.id == r.id && n.kind == KindOf(r.kind)
    ensures n.freq == Frequency(r.v, ToSigned(ToByte(r.c))) && n.left == null && n.right == null
  {
    n := TreeNew(source);
    n.id := r.id;
    n.kind := KindOf(r.kind);
    n.freq := Frequency(r.v, ToSigned(ToByte(r.c)));
  }

  /** The body of the main loop: one record becomes one node at the head of the list. */
  method AddRecord(r: Record, first: TreeNode?, source: IdSource, ghost rs: seq<Record>, ghost nodes: Nodes)
    returns (n: TreeNode)
    requires Graph(rs, nodes) && Linked(first, ListAfter(rs), nodes) && UniqueIds(rs + [r])
    modifies source, nodes.Values`next
    ensures fresh(n) && n.id == r.id
    ensures Graph(rs + [r], nodes[r.id := n]) && Linked(n, ListAfter(rs + [r]), nodes[r.id := n])
  {
    n := NewNode(r, source);
    NoRecordZero(rs, r, nodes);
    var head := AttachChildren(n, first, r.left, r.right, ListAfter(rs), nodes);
    n.next := head;
    GraphGrows(rs, r, nodes, n);
    LinkedGrows(head, Kept(ListAfter(rs), r.left, r.right, false), nodes, n);
    assert (rs + [r])[..|rs|] == rs;
  }

  lemma NoRecordZero(rs: seq<Record>, r: Record, nodes: Nodes)
    requires Graph(rs, nodes) && UniqueIds(rs + [r])
    ensures 0 !in nodes && (r.left != r.right || r.left == 0)
  {
    var to := rs + [r];
    assert to[|rs|] == r && forall j :: 0 <= j < |rs| ==> to[j] == rs[j] && to[j].id != 0;
  }

  /** The last loop, which clears the pointers of the nodes behind the head. With one node on the
      list no node was visited, and the statement after it goes through NULL: false. */
  method ResetNext(head: TreeNode, ghost ids: seq<int>, ghost nodes: Nodes) returns (safe: bool)
    requires Linked(head, ids, nodes) && Separate(nodes)
    modifies nodes.Values`next
    ensures safe <==> |ids| > 1
    ensures safe ==> head.next == old(head.next) && forall i :: 0 < i < |ids| ==> nodes[ids[i]].next == null
  {
    var c, p: TreeNode? := head.next, null;
    ghost var i := 1;
    while c != null
      invariant 1 <= i <= |ids| && c == NodeAt(ids, i, nodes)
      invariant p == if i == 1 then null else nodes[ids[i - 1]]
      invariant head.next == old(head.next)
      invariant forall j :: 0 < j < i - 1 ==> nodes[ids[j]].next == null
      invariant forall j :: i - 1 <= j < |ids| && 0 < j ==> nodes[ids[j]].next == NodeAt(ids, j + 1, nodes)
      decreases |ids| - i
    {
      if p != null {
        p.next := null;
      }
      p := c;
      c := c.next;
      i := i + 1;
    }
    if p == null {
      return false;
    }
    p.next := null;
    safe := true;
  }

  datatype Outcome = ReturnsNull | Crashes | ReturnsTree

  /** The records read before the closing '#' or the first fault. */
  ghost function ScannedRecords(s: seq<byte>): seq<Record>
    decreases |s|
  {
    match ScanRecord(s)
    case None => []
    case Some((r, s1)) =>
      if s1 != [] && s1[0] == HASH then [r] else [r] + ScannedRecords(Resumed(s1))
  }

  ghost function Scanned(s: seq<byte>): seq<Record> {
    if s != [] && s[0] == HASH then ScannedRecords(s[1..]) else []
  }

  ghost function Prepend(rs: seq<Record>, p: Parse): Parse {
    match p
    case Malformed => Malformed
    case Parsed(more, rest) => Parsed(rs + more, rest)
  }

  /** How far the main loop has come in reading `all`: `rs` are read and `s` is left. */
  ghost predicate ReadSoFar(all: seq<byte>, rs: seq<Record>, s: seq<byte>, closed: bool) {
    if closed then ParseRecords(all) == Parsed(rs, s) && ScannedRecords(all) == rs
    else ParseRecords(all) == Prepend(rs, ParseRecords(s)) && ScannedRecords(all) == rs + ScannedRecords(s)
  }

  lemma ReadNext(all: seq<byte>, rs: seq<Record>, s: seq<byte>, r: Record, s1: seq<byte>)
    requires ReadSoFar(all, rs, s, false) && ScanRecord(s) == Some((r, s1))
    ensures rs + [r] <= ScannedRecords(all)
    ensures s1 != [] && s1[0] == HASH ==> ReadSoFar(all, rs + [r], s1[1..], true)
    ensures s1 == [] || s1[0] != HASH ==> ReadSoFar(all, rs + [r], Resumed(s1), false)
  {
    if s1 == [] || s1[0] != HASH {
      Assoc(rs, [r], ScannedRecords(Resumed(s1)));
      var p := ParseRecords(Resumed(s1));
      if p.Parsed? { Assoc(rs, [r], p.records); }
    }
  }

  lemma ReadFails(all: seq<byte>, rs: seq<Record>, s: seq<byte>)
    requires ReadSoFar(all, rs, s, false) && ScanRecord(s).None?
    ensures ParseRecords(all).Malformed?
  {
  }

  lemma ReadDone(all: seq<byte>, rs: seq<Record>, s: seq<byte>)
    requires ReadSoFar(all, rs, s, true)
    ensures ParseRecords(all) == Parsed(rs, s)
  {
  }

  lemma UniqueIdsPrefix(rs: seq<Record>, all: seq<Record>)
    requires rs <= all && UniqueIds(all)
    ensures UniqueIds(rs)
  {
  }

  /** The delimiter check: a '#' is taken and anything else pushed back, which fails for 0xFF. */
  method ReadDelimiter(fp: File) returns (closed: bool)
    modifies fp`pos
    ensures fp.data == old(fp.data)
    ensures var s := old(fp.Rest());
            closed == (s != [] && s[0] == HASH) && fp.Rest() == if closed then s[1..] else Resumed(s)
  {
    var before := fp.pos;
    var got := fp.Getc();
    var delim := ToSigned(ToByte(got));
    closed := delim == HASH;
    if !closed && delim != EOF {
      fp.pos := before;
    }
  }

  /** One turn of the main loop. */
  method ReadRecord(fp: File, first: TreeNode?, source: IdSource,
                    ghost all: seq<byte>, ghost rs: seq<Record>, ghost nodes: Nodes)
    returns (r: Option<Record>, head: TreeNode?, closed: bool)
    requires ReadSoFar(all, rs, fp.Rest(), false) && UniqueIds(ScannedRecords(all))
    requires Graph(rs, nodes) && Linked(first, ListAfter(rs), nodes)
    modifies fp`pos, source, nodes.Values`next
    ensures fp.data == old(fp.data)
    ensures r.None? ==> ParseRecords(all).Malformed?
    ensures r.Some? ==> head != null && fresh(head) && head.id == r.value.id
    ensures r.Some? ==> ReadSoFar(all, rs + [r.value], fp.Rest(), closed) && rs + [r.value] <= ScannedRecords(all)
    ensures r.Some? ==> var more := nodes[r.value.id := head];
                        Graph(rs + [r.value], more) && Linked(head, ListAfter(rs + [r.value]), more)
  {
    hide Kept, MadeFrom, HasId, Suffix;
    hide ReadSoFar, Graph, Linked, ParseRecords, ScannedRecords, ScanRecord, UniqueIds, ListAfter;
    head, closed := first, false;
    ghost var s := fp.Rest();
    r := ScanfRecord(fp);
    if r.None? {
      ReadFails(all, rs, s);
      return;
    }
    ReadNext(all, rs, s, r.value, fp.Rest());
    UniqueIdsPrefix(rs + [r.value], ScannedRecords(all));
    head := AddRecord(r.value, first, source, rs, nodes);
    closed := ReadDelimiter(fp);
  }

  /** The main loop, up to the closing '#' or the first fault. */
  method ReadRecords(fp: File, source: IdSource) returns (head: TreeNode?, ghost rs: seq<Record>, ghost nodes: Nodes)
    requires UniqueIds(ScannedRecords(fp.Rest()))
    modifies fp`pos, source
    ensures fp.data == old(fp.data)
    ensures head == null ==> ParseRecords(old(fp.Rest())).Malformed?
    ensures head != null ==> ParseRecords(old(fp.Rest())) == Parsed(rs, fp.Rest()) && rs != []
    ensures head != null ==> fresh(nodes.Values) && Graph(rs, nodes) && Linked(head, ListAfter(rs), nodes)
  {
    hide ReadSoFar, Graph, Linked, ParseRecords, ScannedRecords, ScanRecord, UniqueIds, ListAfter;
    head, nodes, rs := null, map[], [];
    ghost var all := fp.Rest();
    var closed := false;
    ReadStart(all);
    while !closed
      invariant fp.data == old(fp.data)
      invariant ReadSoFar(all, rs, fp.Rest(), closed)
      invariant fresh(nodes.Values) && rs <= ScannedRecords(all)
      invariant Graph(rs, nodes) && Linked(head, ListAfter(rs), nodes)
      invariant closed ==> rs != [] && head != null
      decreases !closed, |ScannedRecords(all)| - |rs|
    {
      var r;
      r, head, closed := ReadRecord(fp, head, source, all, rs, nodes);
      if r.None? {
        return null, [], map[];
      }
      nodes := nodes[r.value.id := head];
      rs := rs + [r.value];
    }
    ReadDone(all, rs, fp.Rest());
  }

  lemma ReadStart(all: seq<byte>)
    ensures ReadSoFar(all, [], all, false) && Graph([], map[]) && Linked(null, ListAfter([]), map[])
    ensures [] <= ScannedRecords(all)
  {
    hide ScanRecord;
    assert [] + ScannedRecords(all) == ScannedRecords(all);
    var p := ParseRecords(all);
    if p.Parsed? { assert [] + p.records == p.records; }
  }

  lemma HeadOfList(rs: seq<Record>, head: TreeNode, nodes: Nodes)
    requires rs != [] && Linked(head, ListAfter(rs), nodes)
    ensures ListAfter(rs) != [] && rs[|rs| - 1].id in nodes && head == nodes[rs[|rs| - 1].id]
  {
  }

  /** What tree_deserialize does with a file holding `s`, of which `rest` is left. NULL for a
      malformed file; otherwise the last node read, with the graph its records describe, and
      the file left just after the closing '#'. A list of one node makes the final loop crash. */
  ghost predicate Rebuilt(s: seq<byte>, rest: seq<byte>, outcome: Outcome, root: TreeNode?, nodes: Nodes)
    reads nodes.Values`id, nodes.Values`kind, nodes.Values`freq, nodes.Values`left, nodes.Values`right
  {
    match ParseTree(s)
    case Malformed => outcome == ReturnsNull
    case Parsed(rs, after) =>
      && rest == after && rs != []
      && outcome == (if |ListAfter(rs)| > 1 then ReturnsTree else Crashes)
      && Graph(rs, nodes) && rs[|rs| - 1].id in nodes && root == nodes[rs[|rs| - 1].id]
  }

  /** tree_deserialize, for a file whose records have unique ids. */
  method Deserialize(fp: File, source: IdSource) returns (outcome: Outcome, root: TreeNode?, ghost nodes: Nodes)
    requires UniqueIds(Scanned(fp.Rest()))
    modifies fp`pos, source
    ensures fp.data == old(fp.data)
    ensures Rebuilt(old(fp.Rest()), fp.Rest(), outcome, root, nodes)
  {
    hide Graph, ParseRecords, ScannedRecords, ScanRecord, UniqueIds, ListAfter;
    root, nodes := null, map[];
    var delim := fp.Getc();
    if delim != HASH {
      return ReturnsNull, null, map[];
    }
    ghost var rs;
    root, rs, nodes := ReadRecords(fp, source);
    if root == null {
      return ReturnsNull, null, map[];
    }
    HeadOfList(rs, root, nodes);
    GraphSeparate(rs, nodes);
    var safe := ResetNext(root, ListAfter(rs), nodes);
    outcome := if safe then ReturnsTree else Crashes;
  }

  lemma GraphSeparate(rs: seq<Record>, nodes: Nodes)
    requires Graph(rs, nodes)
    ensures Separate(nodes)
  {
  }

  /** The nodes of the subtree `t` that stay on the list when `t` is complete: a left child
      that was next to its unlinked right sibling. */
  ghost function Leftovers(t: Tree): seq<int> {
    match t
    case Leaf(_, _) => []
    case Node(_, _, l, r) => (if r.Leaf? then [l.id] else Leftovers(r)) + Leftovers(l)
  }

  lemma {:induction false} LeftoversAreIds(t: Tree, x: int)
    requires x in Leftovers(t)
    ensures x in Ids(t) && (GoodIds(t) ==> x != t.id)
  {
    var l, r := t.left, t.right;
    if x in Leftovers(l) { LeftoversAreIds(l, x); }
    if r.Node? && x in Leftovers(r) { LeftoversAreIds(r, x); }
    RootIsId(l);
    assert x in Ids(l) || x in Ids(r);
  }

  lemma RootIsId(t: Tree)
    ensures t.id in Ids(t)
  {
  }

  lemma {:induction false} KeptWithoutHits(ids: seq<int>, left: int, right: int, gone: bool)
    requires left !in ids && right !in ids
    ensures Kept(ids, left, right, gone) == ids
  {
    if ids != [] { KeptWithoutHits(ids[1..], left, right, false); }
  }

  lemma {:induction false} KeptConcat(a: seq<int>, b: seq<int>, left: int, right: int, gone: bool)
    requires a != [] && left !in a && right !in a
    ensures Kept(a + b, left, right, gone) == a + Kept(b, left, right, false)
  {
    assert (a + b)[1..] == a[1..] + b;
    if |a| == 1 { assert a[1..] + b == b; } else { KeptConcat(a[1..], b, left, right, false); }
  }

  /** Unlinking the children r and l of a node when the list is r, its leftovers, l, and more. */
  lemma UnlinkChildren(l: int, r: int, between: seq<int>, more: seq<int>)
    requires l != r && l !in between && r !in between && l !in more && r !in more
    ensures Kept([r] + between + [l] + more, l, r, false) == (if between == [] then [l] else between) + more
  {
    var ids := [r] + between + [l] + more;
    assert ids[1..] == between + ([l] + more);
    KeptWithoutHits(more, l, r, true);
    KeptWithoutHits(more, l, r, false);
    assert ([l] + more)[1..] == more;
    if between == [] {
      assert [] + ([l] + more) == [l] + more;
    } else {
      KeptConcat(between, [l] + more, l, r, true);
    }
  }

  lemma ListAfterMore(rs: seq<Record>, r: Record)
    ensures ListAfter(rs + [r]) == [r.id] + Kept(ListAfter(rs), r.left, r.right, false)
  {
    assert (rs + [r])[..|rs|] == rs;
  }

  /** After the records of a whole tree, its root is at the head of the list, then its
      leftovers, then what was there before. */
  lemma {:induction false} ListAfterTree(before: seq<Record>, t: Tree)
    requires GoodIds(t) && forall x :: x in ListAfter(before) ==> x != 0 && x !in Ids(t)
    ensures ListAfter(before + Records(t)) == [t.id] + Leftovers(t) + ListAfter(before)
    decreases t
  {
    hide ListAfter, Kept, Ids, GoodIds;
    var ids, last := ListAfter(before), RecordOf(t);
    match t
    case Leaf(_, _) =>
      RootIsId(t);
      ListAfterMore(before, last);
      KeptWithoutHits(ids, 0, 0, false);
    case Node(_, _, l, r) =>
      SubtreeIds(t);
      ListAfterTree(before, l);
      AfterLeft(t, ids);
      ListAfterTree(before + Records(l), r);
      ListAfterNode(before, t);
  }

  lemma ListAfterNode(before: seq<Record>, t: Tree)
    requires t.Node? && GoodIds(t) && forall x :: x in ListAfter(before) ==> x != 0 && x !in Ids(t)
    requires var mid := before + Records(t.left);
             && ListAfter(mid) == [t.left.id] + Leftovers(t.left) + ListAfter(before)
             && ListAfter(mid + Records(t.right)) == [t.right.id] + Leftovers(t.right) + ListAfter(mid)
    ensures ListAfter(before + Records(t)) == [t.id] + Leftovers(t) + ListAfter(before)
  {
    hide ListAfter, Kept, Ids, GoodIds, Leftovers, Records;
    var ids, l, r := ListAfter(before), t.left, t.right;
    NodeParts(t);
    var inner, more := before + Records(l) + Records(r), Leftovers(l) + ids;
    ChildrenApart(t, ids);
    assert ListAfter(inner) == [r.id] + Leftovers(r) + [l.id] + more;
    UnlinkChildren(l.id, r.id, Leftovers(r), more);
    ListAfterMore(inner, RecordOf(t));
    assert before + Records(t) == inner + [RecordOf(t)];
    NoLeftovers(r);
  }

  lemma NodeParts(t: Tree)
    requires t.Node?
    ensures Leftovers(t) == (if t.right.Leaf? then [t.left.id] else Leftovers(t.right)) + Leftovers(t.left)
    ensures Records(t) == Records(t.left) + Records(t.right) + [RecordOf(t)]
  {
  }

  lemma NoLeftovers(t: Tree)
    ensures Leftovers(t) == [] <==> t.Leaf?
    decreases t
  {
    if t.Node? { NoLeftovers(t.right); }
  }

  lemma SubtreeIds(t: Tree)
    requires t.Node? && GoodIds(t)
    ensures GoodIds(t.left) && GoodIds(t.right) && t.left.id != 0 && t.right.id != 0
    ensures forall x :: x in Ids(t.left) ==> x !in Ids(t.right) && x in Ids(t)
    ensures forall x :: x in Ids(t.right) ==> x !in Ids(t.left) && x in Ids(t)
  {
    forall x ensures Ids(t.left)[x] + Ids(t.right)[x] <= Ids(t)[x] <= 1 {}
    RootIsId(t.left);
    RootIsId(t.right);
  }

  /** The children's ids occur once among the ids on the list. */
  lemma ChildrenApart(t: Tree, ids: seq<int>)
    requires t.Node? && GoodIds(t) && forall x :: x in ids ==> x !in Ids(t)
    ensures var l, r, more := t.left.id, t.right.id, Leftovers(t.left) + ids;
            l != r && l !in Leftovers(t.right) && r !in Leftovers(t.right) && l !in more && r !in more
  {
    var l, r := t.left, t.right;
    SubtreeIds(t);
    RootIsId(l);
    RootIsId(r);
    forall x | x in Leftovers(l) ensures x != l.id && x in Ids(l) { LeftoversAreIds(l, x); }
    forall x | x in Leftovers(r) ensures x != r.id && x in Ids(r) { LeftoversAreIds(r, x); }
  }

  /** Every character, also the 0 of internal nodes, fits a signed char. */
  ghost predicate CharsFit(t: Tree) {
    && t.freq.c == ToSigned(ToByte(t.freq.c))
    && (t.Node? ==> CharsFit(t.left) && CharsFit(t.right))
  }

  /** The last record of a tree is its root's; the children's records come before it. */
  ghost function Inner(t: Tree): seq<Record> {
    if t.Leaf? then [] else Records(t.left) + Records(t.right)
  }

  /** The node of the last record of `t`, when these records are read after `before`. */
  lemma RootMadeFrom(rs: seq<Record>, before: seq<Record>, t: Tree, after: seq<Record>, nodes: Nodes)
    requires rs == before + Records(t) + after && Graph(rs, nodes)
    ensures var n, ids := Find(t.id, [t.id], nodes), ListAfter(before + Inner(t));
            && n != null && n.id == t.id && n.kind == (if t.Leaf? then LEAF else INTERNAL)
            && n.freq == Frequency(t.freq.v, ToSigned(ToByte(t.freq.c)))
            && n.left == Find(RecordOf(t).left, ids, nodes) && n.right == Find(RecordOf(t).right, ids, nodes)
  {
    var mid := before + Inner(t);
    assert Records(t) == Inner(t) + [RecordOf(t)];
    assert rs == mid + [RecordOf(t)] + after;
    assert rs[|mid|] == RecordOf(t) && rs[..|mid|] == mid;
    assert MadeFrom(rs, |mid|, nodes);
  }

  /** The graph the records of a tree describe is that tree: lookup by id finds each child on
      the list, whatever leftovers are there. */
  lemma {:induction false} GraphIsTree(rs: seq<Record>, before: seq<Record>, t: Tree, after: seq<Record>, nodes: Nodes)
    requires rs == before + Records(t) + after && Graph(rs, nodes)
    requires GoodIds(t) && CharsFit(t) && forall x :: x in ListAfter(before) ==> x != 0 && x !in Ids(t)
    ensures t.id in nodes && Rep(nodes[t.id], t, nodes.Values)
    decreases t
  {
    hide ListAfter, Graph, Records, Ids, GoodIds, Leftovers;
    RootMadeFrom(rs, before, t, after, nodes);
    if t.Node? { NodeParts(t); }
    match t
    case Leaf(_, _) =>
      assert before + Inner(t) == before;
    case Node(_, _, l, r) =>
      SubtreeIds(t);
      var more, last := before + Records(l), [RecordOf(t)];
      assert rs == before + Records(l) + (Records(r) + last + after) == more + Records(r) + (last + after);
      GraphIsTree(rs, before, l, Records(r) + last + after, nodes);
      ListAfterTree(before, l);
      AfterLeft(t, ListAfter(before));
      GraphIsTree(rs, more, r, last + after, nodes);
      ListAfterTree(more, r);
      assert before + Inner(t) == more + Records(r);
  }

  /** After the left subtree, nothing on the list has an id of the right one. */
  lemma AfterLeft(t: Tree, ids: seq<int>)
    requires t.Node? && GoodIds(t) && forall x :: x in ids ==> x != 0 && x !in Ids(t)
    ensures forall x :: x in [t.left.id] + Leftovers(t.left) + ids ==> x != 0 && x !in Ids(t.right)
  {
    SubtreeIds(t);
    RootIsId(t.left);
    forall x | x in Leftovers(t.left) ensures x in Ids(t.left) { LeftoversAreIds(t.left, x); }
  }

  ghost function IdSeq(rs: seq<Record>): seq<int> {
    seq(|rs|, i requires 0 <= i < |rs| => rs[i].id)
  }

  lemma IdSeqConcat(a: seq<Record>, b: seq<Record>)
    ensures IdSeq(a + b) == IdSeq(a) + IdSeq(b)
  {
  }

  lemma {:induction false} RecordIds(t: Tree)
    ensures multiset(IdSeq(Records(t))) == Ids(t)
  {
    hide IdSeq;
    assert IdSeq([RecordOf(t)]) == [t.id] by { IdSeqOne(RecordOf(t)); }
    if t.Node? {
      RecordIds(t.left);
      RecordIds(t.right);
      IdSeqConcat(Records(t.left), Records(t.right));
      IdSeqConcat(Records(t.left) + Records(t.right), [RecordOf(t)]);
    }
  }

  lemma IdSeqOne(r: Record)
    ensures IdSeq([r]) == [r.id]
  {
  }

  lemma {:induction false} RecordChildren(t: Tree, i: nat)
    requires GoodIds(t) && i < |Records(t)|
    ensures Records(t)[i].left != Records(t)[i].right || Records(t)[i].left == 0
  {
    if t.Node? {
      SubtreeIds(t);
      RootIsId(t.left);
      RootIsId(t.right);
      var n := |Records(t.left)|;
      if i < n { RecordChildren(t.left, i); }
      else if i < n + |Records(t.right)| { RecordChildren(t.right, i - n); }
    }
  }

  lemma DistinctElements(s: seq<int>, i: nat, j: nat)
    requires i < j < |s| && NoRepeats(multiset(s))
    ensures s[i] != s[j]
  {
    assert s == s[..j] + [s[j]] + s[j + 1..];
    assert s[i] in s[..j];
    assert multiset(s)[s[j]] == multiset(s[..j])[s[j]] + 1 + multiset(s[j + 1..])[s[j]];
  }

  /** The records of a tree with good ids meet what the reader relies on. */
  lemma TreeUniqueIds(t: Tree)
    requires GoodIds(t)
    ensures UniqueIds(Records(t))
  {
    var rs := Records(t);
    RecordIds(t);
    forall i, j | 0 <= i < j < |rs| ensures rs[i].id != rs[j].id {
      DistinctElements(IdSeq(rs), i, j);
    }
    forall i | 0 <= i < |rs| ensures rs[i].id != 0 && (rs[i].left != rs[i].right || rs[i].left == 0) {
      RecordChildren(t, i);
      assert IdSeq(rs)[i] in multiset(IdSeq(rs));
    }
  }

  lemma {:induction false} ScannedIsParsed(s: seq<byte>)
    requires ParseRecords(s).Parsed?
    ensures ScannedRecords(s) == ParseRecords(s).records
    decreases |s|
  {
    hide ScanRecord;
    var (r, s1) := ScanRecord(s).value;
    if !(s1 != [] && s1[0] == HASH) { ScannedIsParsed(Resumed(s1)); }
  }

  /** tree_deserialize may be called on what tree_serialize wrote for a tree. */
  lemma TreeTextHasUniqueIds(t: Tree, rest: seq<byte>)
    requires GoodIds(t)
    ensures UniqueIds(Scanned(TreeAsText(t) + rest))
  {
    ParsePrintedTree(t, rest);
    ScannedIsParsed((TreeAsText(t) + rest)[1..]);
    TreeUniqueIds(t);
  }

  /** The records of a tree are read back as that tree, in shape, kind, id and frequency, and
      the file is left just after them. A tree that is one leaf makes the program crash
      instead: the tree comes back if and only if its root is internal. */
  lemma TreeIsRebuilt(s: seq<byte>, t: Tree, rest: seq<byte>, left: seq<byte>,
                      outcome: Outcome, root: TreeNode?, nodes: Nodes)
    requires GoodIds(t) && CharsFit(t) && ParseTree(s) == Parsed(Records(t), rest)
    requires Rebuilt(s, left, outcome, root, nodes)
    ensures left == rest && outcome == (if t.Node? then ReturnsTree else Crashes)
    ensures root != null && Rep(root, t, nodes.Values)
  {
    hide ListAfter, Records, Graph, Leftovers, GoodIds, CharsFit, Rep, ParseTree, Ids;
    var rs := Records(t);
    assert [] + rs + [] == rs && [] + rs == rs;
    EmptyList();
    ListAfterTree([], t);
    GraphIsTree(rs, [], t, [], nodes);
    NoLeftovers(t);
    RootIsLast(t);
  }

  lemma EmptyList()
    ensures ListAfter([]) == []
  {
  }

  lemma RootIsLast(t: Tree)
    ensures Records(t) != [] && Records(t)[|Records(t)| - 1] == RecordOf(t) && RecordOf(t).id == t.id
  {
  }
}
