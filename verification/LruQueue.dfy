/** A set of the cache: its lines, and the linked queue that orders them by last use. */
module LruQueue {
  import opened LruSpec
  import opened LruFetch

  class Line {
    var valid: bool
    var tag: int
    const accessed: array<int>

    /** make_lines for one line; the block's bytes are whatever malloc returns. */
    constructor (blockSize: nat)
      ensures !valid && tag == 0 && fresh(accessed) && accessed.Length == blockSize
    {
      accessed := new int[blockSize];
      valid, tag := false, 0;
    }
  }

  class LRUNode {
    const line: Line
    var next: LRUNode?

    constructor (line: Line)
      ensures this.line == line && next == null
    {
      this.line, next := line, null;
    }
  }

  ghost function At(ns: seq<LRUNode>, i: nat): LRUNode? {
    if i < |ns| then ns[i] else null
  }

  /** Following `next` from `head` visits the nodes `ns`. */
  ghost predicate Linked(head: LRUNode?, ns: seq<LRUNode>)
    reads ns`next
  {
    head == At(ns, 0) && forall i {:trigger ns[i].next} :: 0 <= i < |ns| ==> ns[i].next == At(ns, i + 1)
  }

  ghost function MovedToFront<T>(s: seq<T>, i: nat): seq<T>
    requires i < |s|
  {
    [s[i]] + s[..i] + s[i + 1..]
  }

  /** The pointers `was` linked the nodes; the predecessor of node i now skips it, and node i
      points to what was the first node. */
  lemma MovedIsLinked(ns: seq<LRUNode>, i: nat, was: seq<LRUNode?>)
    requires i < |ns| && (forall j, k :: 0 <= j < k < |ns| ==> ns[j] != ns[k]) && |was| == |ns|
    requires forall j {:trigger was[j]} :: 0 <= j < |ns| ==> was[j] == At(ns, j + 1)
    requires forall j :: 0 <= j < |ns| && j != i && j != i - 1 ==> ns[j].next == was[j]
    requires i > 0 ==> ns[i - 1].next == was[i]
    requires ns[i].next == if i == 0 then was[0] else ns[0]
    ensures Linked(ns[i], MovedToFront(ns, i))
  {
    var to := MovedToFront(ns, i);
    forall j | 0 <= j < |to| ensures to[j].next == At(to, j + 1) {
      var o := if j == 0 then i else if j <= i then j - 1 else j;
      assert to[j] == ns[o];
      assert was[o] == At(ns, o + 1) && was[i] == At(ns, i + 1);
    }
  }

  ghost function NodesOf(ns: seq<LRUNode>): set<LRUNode> {
    set n | n in ns
  }

  ghost function LinesOf(ns: seq<LRUNode>): set<Line> {
    set n | n in ns :: n.line
  }

  ghost function BytesOf(ns: seq<LRUNode>): set<array<int>> {
    set n | n in ns :: n.line.accessed
  }

  ghost function Blocks(all: set<Line>): set<array<int>> {
    set l | l in all :: l.accessed
  }

  ghost function SlotOf(n: LRUNode): Slot
    reads n.line, n.line.accessed
  {
    Slot(n.line.valid, n.line.tag, n.line.accessed[..])
  }

  /** Node i's line is slot i. */
  ghost predicate Holds(ns: seq<LRUNode>, q: seq<Slot>)
    reads LinesOf(ns), BytesOf(ns)
  {
    |ns| == |q| && forall i :: 0 <= i < |ns| ==> SlotOf(ns[i]) == q[i]
  }

  lemma HoldsMoved(ns: seq<LRUNode>, q: seq<Slot>, i: nat)
    requires Holds(ns, q) && i < |ns|
    ensures |q| == |ns| && Holds(MovedToFront(ns, i), MovedToFront(q, i))
  {
    var to, r := MovedToFront(ns, i), MovedToFront(q, i);
    forall j | 0 <= j < |to| ensures SlotOf(to[j]) == r[j] {
      var o := if j == 0 then i else if j <= i then j - 1 else j;
      assert to[j] == ns[o] && r[j] == q[o];
    }
  }

  lemma HoldsSize(ns: seq<LRUNode>, q: seq<Slot>)
    requires Holds(ns, q)
    ensures |q| == |ns|
  {
  }

  /** Line i now holds the tag; the other lines hold what `q` says. */
  lemma HoldsFilled(ns: seq<LRUNode>, q: seq<Slot>, i: nat, tag: int)
    requires i < |ns| == |q| && OwnLines(ns)
    requires forall j :: 0 <= j < |ns| && j != i ==> SlotOf(ns[j]) == q[j]
    requires SlotOf(ns[i]) == q[i].(valid := true, tag := tag)
    ensures Holds(ns, q[i := q[i].(valid := true, tag := tag)])
  {
  }

  /** No two nodes share a line or a block. */
  ghost predicate OwnLines(ns: seq<LRUNode>) {
    forall i, j :: 0 <= i < j < |ns| ==> ns[i].line != ns[j].line && ns[i].line.accessed != ns[j].line.accessed
  }

  /** What never changes about a set's nodes: no two share a line or a block, blocks have
      `blockSize` bytes, and the lines are those in `all`. */
  ghost predicate Static(ns: seq<LRUNode>, all: set<Line>, blockSize: nat) {
    && OwnLines(ns) && LinesOf(ns) == all
    && forall n :: n in ns ==> n.line.accessed.Length == blockSize
  }

  lemma StaticMoved(ns: seq<LRUNode>, i: nat, all: set<Line>, blockSize: nat)
    requires i < |ns| && Static(ns, all, blockSize)
    ensures Static(MovedToFront(ns, i), all, blockSize)
    ensures forall j, k :: 0 <= j < k < |ns| ==> ns[j] != ns[k]
  {
    var to := MovedToFront(ns, i);
    MovedElements(ns, i);
    assert OwnLines(to) by {
      forall j, k | 0 <= j < k < |to| ensures to[j].line != to[k].line && to[j].line.accessed != to[k].line.accessed {
        var o := if j == 0 then i else if j <= i then j - 1 else j;
        var p := if k <= i then k - 1 else k;
        assert to[j] == ns[o] && to[k] == ns[p];
      }
    }
  }

  lemma MovedElements<T>(s: seq<T>, i: nat)
    requires i < |s|
    ensures forall x :: x in MovedToFront(s, i) <==> x in s
  {
    assert s == s[..i] + [s[i]] + s[i + 1..];
  }

  lemma {:induction false} StopsAtIs(q: seq<Slot>, tag: int, i: nat)
    requires i < |q| && forall j :: 0 <= j < i ==> q[j].valid && q[j].tag != tag
    requires !q[i].valid || q[i].tag == tag || i == |q| - 1
    ensures StopsAt(q, tag) == i
  {
    if i > 0 {
      assert forall j :: 0 <= j < |q| - 1 ==> q[1..][j] == q[j + 1];
      StopsAtIs(q[1..], tag, i - 1);
    }
  }

  /** make_lines: unused lines, each with a block of its own. */
  method MakeLines(lineCount: nat, blockSize: nat) returns (lines: array<Line?>, ghost ls: seq<Line>)
    ensures fresh(lines) && lines.Length == |ls| == lineCount && lines[..] == ls
    ensures forall l :: l in ls ==> fresh(l) && fresh(l.accessed) && !l.valid && l.accessed.Length == blockSize
    ensures forall i, j :: 0 <= i < j < |ls| ==> ls[i] != ls[j] && ls[i].accessed != ls[j].accessed
  {
    lines := new Line?[lineCount](_ => null);
    ls := [];
    var i := 0;
    while i < lineCount
      invariant 0 <= i <= lineCount && |ls| == i && lines[..i] == ls
      invariant forall l :: l in ls ==> fresh(l) && fresh(l.accessed) && !l.valid && l.accessed.Length == blockSize
      invariant forall i, j :: 0 <= i < j < |ls| ==> ls[i] != ls[j] && ls[i].accessed != ls[j].accessed
    {
      var line := new Line(blockSize);
      lines[i] := line;
      ls := ls + [line];
      i := i + 1;
    }
  }

  /** lru_init_queue: one node for each line, chained in order. */
  method InitQueue(lines: array<Line?>, ghost ls: seq<Line>) returns (s: LRUNode?, ghost ns: seq<LRUNode>)
    requires lines[..] == ls
    ensures |ns| == |ls| && forall i :: 0 <= i < |ns| ==> ns[i].line == ls[i] && fresh(ns[i])
    ensures Linked(s, ns)
  {
    s, ns := null, [];
    var last: LRUNode? := null;
    var i := 0;
    while i < lines.Length
      invariant 0 <= i <= lines.Length && |ns| == i
      invariant forall j :: 0 <= j < i ==> ns[j].line == ls[j] && fresh(ns[j])
      invariant forall j, k :: 0 <= j < k < i ==> ns[j] != ns[k]
      invariant Linked(s, ns) && last == if i == 0 then null else ns[i - 1]
    {
      assert lines[i] == ls[i];
      var node := new LRUNode(lines[i]);
      if last == null {
        s := node;
      } else {
        last.next := node;
      }
      last := node;
      ns := ns + [node];
      i := i + 1;
    }
  }

  /** What the lines of these nodes hold. */
  ghost function SlotsOf(ns: seq<LRUNode>): seq<Slot>
    reads LinesOf(ns), BytesOf(ns)
  {
    seq(|ns|, i requires 0 <= i < |ns| reads LinesOf(ns), BytesOf(ns) => SlotOf(ns[i]))
  }

  /** Nodes for unused lines make a queue in order. */
  lemma NewSet(ns: seq<LRUNode>, ls: seq<Line>, blockSize: nat)
    requires |ns| == |ls| && forall i :: 0 <= i < |ns| ==> ns[i].line == ls[i]
    requires forall l :: l in ls ==> !l.valid && l.accessed.Length == blockSize
    requires forall i, j :: 0 <= i < j < |ls| ==> ls[i] != ls[j] && ls[i].accessed != ls[j].accessed
    ensures Static(ns, LinesOf(ns), blockSize) && Holds(ns, SlotsOf(ns))
    ensures |SlotsOf(ns)| == |ns| && AllUnused(SlotsOf(ns)) && Settled(SlotsOf(ns))
    ensures forall l :: l in LinesOf(ns) <==> l in ls
    ensures BytesOf(ns) == Blocks(LinesOf(ns)) == set l | l in ls :: l.accessed
    ensures forall n :: n in NodesOf(ns) <==> n in ns
  {
    forall l ensures l in LinesOf(ns) <==> l in ls {
      if l in ls {
        var i :| 0 <= i < |ls| && ls[i] == l;
        assert ns[i].line == l;
      }
    }
  }

  class CacheSet {
    const lines: array<Line?>
    const lineCount: nat
    const blockSize: nat
    var lruQueue: LRUNode?
    ghost const all: set<Line>      // the lines of the set
    ghost const own: set<object>    // the objects of the set
    ghost var nodes: seq<LRUNode>   // the queue
    ghost var slots: seq<Slot>      // what the queue's lines hold

    /** make_sets and lru_init for one set. */
    constructor (lineCount: nat, blockSize: nat)
      ensures Whole() && this.lineCount == lineCount && this.blockSize == blockSize
      ensures |slots| == lineCount && AllUnused(slots) && fresh(lines)
      ensures forall l: Line :: l in all <==> l in lines[..]
      ensures fresh(own)
    {
      hide Static, Holds, Linked, SlotsOf, Settled, AllUnused, NodesOf, LinesOf, BytesOf, Blocks;
      var lines, ls := MakeLines(lineCount, blockSize);
      var queue, ns := InitQueue(lines, ls);
      this.lines, this.lineCount, this.blockSize, lruQueue := lines, lineCount, blockSize, queue;
      NewSet(ns, ls, blockSize);
      all, nodes := LinesOf(ns), ns;
      own := {this} + NodesOf(ns) + LinesOf(ns) + Blocks(LinesOf(ns));
      slots := SlotsOf(ns);
    }

    /** The objects of this set. */
    ghost function Footprint(): set<object>
      reads this
    {
      var s: set<object> := {this};
      s + NodesOf(nodes) + all + Blocks(all)
    }

    /** The queue orders the set's lines. */
    ghost predicate Shape()
      reads this, nodes`next, LinesOf(nodes), BytesOf(nodes)
    {
      && |nodes| == lineCount
      && Static(nodes, all, blockSize)
      && Linked(lruQueue, nodes)
      && Holds(nodes, slots)
    }

    ghost predicate Valid()
      reads this, nodes`next, LinesOf(nodes), BytesOf(nodes)
    {
      Shape() && Settled(slots)
    }

    /** The set is in order and made of its own objects. */
    ghost predicate Whole()
      reads this, own
    {
      && Footprint() == own && LinesOf(nodes) <= own && BytesOf(nodes) <= own
      && Valid()
    }

    /** The pointer that led to the node, in `prev` or at the head of the queue, skips it; the
        node points to what is then the first one and becomes the head. */
    method Relink(prev: LRUNode?, current: LRUNode, ghost ns: seq<LRUNode>, ghost i: nat)
      requires Linked(lruQueue, ns) && i < |ns| && current == ns[i]
      requires forall j, k :: 0 <= j < k < |ns| ==> ns[j] != ns[k]
      requires prev == if i == 0 then null else ns[i - 1]
      modifies this`lruQueue, ns`next
      ensures Linked(lruQueue, MovedToFront(ns, i))
      ensures forall n :: n in ns ==> SlotOf(n) == old(SlotOf(n))
    {
      ghost var was := seq(|ns|, j requires 0 <= j < |ns| reads ns`next => ns[j].next);
      if prev == null {
        lruQueue := current.next;
      } else {
        prev.next := current.next;
      }
      current.next := lruQueue;
      lruQueue := current;
      MovedIsLinked(ns, i, was);
    }

    /** The queue is relinked; the lines stay as they are. */
    method MoveToFront(prev: LRUNode?, current: LRUNode, ghost i: nat)
      requires Shape() && i < |nodes| && current == nodes[i]
      requires prev == if i == 0 then null else nodes[i - 1]
      modifies this`lruQueue, this`nodes, this`slots, nodes`next
      ensures Shape() && nodes == MovedToFront(old(nodes), i) && slots == MovedToFront(old(slots), i)
    {
      hide Linked, Static, SlotOf;
      ghost var ns, q := nodes, slots;
      HoldsSize(ns, q);
      StaticMoved(ns, i, all, blockSize);
      Relink(prev, current, ns, i);
      HoldsMoved(ns, q, i);
      nodes, slots := MovedToFront(ns, i), MovedToFront(q, i);
    }

    /** What the pass decides at the line it is at. */
    method Decide(line: Line, tag: int, last: bool, ghost i: nat) returns (stop: bool, access: Access)
      requires Shape() && i < |nodes| && line == nodes[i].line
      modifies line, this`slots
      ensures Shape() && Decided(old(slots), slots, tag, last, i, stop, access)
    {
      hide Linked;
      stop := true;
      if line.valid && line.tag == tag {
        access := HIT;
      } else if !line.valid {
        line.valid := true;
        line.tag := tag;
        access := COLD_MISS;
      } else if last {
        line.tag := tag;
        access := CONFLICT_MISS;
      } else {
        stop, access := false, HIT;
      }
      if stop {
        HoldsFilled(nodes, slots, i, tag);
        slots := slots[i := slots[i].(valid := true, tag := tag)];
      }
    }

    /** The pass, up to the line at which it stops. */
    method Pass(tag: int) returns (prev: LRUNode?, current: LRUNode, access: Access, ghost i: nat)
      requires Valid() && lineCount > 0
      modifies this`slots, LinesOf(nodes)
      ensures Shape() && i < |nodes| && current == nodes[i] && prev == if i == 0 then null else nodes[i - 1]
      ensures Passed(old(slots), tag, i) && Decided(old(slots), slots, tag, i == |nodes| - 1, i, true, access)
    {
      hide Holds, Static, Settled, Decided;
      ghost var q := slots;
      HoldsSize(nodes, slots);
      assert Passed(q, tag, 0);
      i, prev, current, access := 0, null, lruQueue, HIT;
      var stop := false;
      while !stop
        invariant Shape() && i < |nodes|
        invariant current == nodes[i] && prev == (if i == 0 then null else nodes[i - 1])
        invariant Passed(q, tag, i)
        invariant if stop then Decided(q, slots, tag, i == |nodes| - 1, i, true, access) else slots == q
        decreases !stop, |nodes| - i
      {
        stop, access := Decide(current.line, tag, current.next == null, i);
        DecidedAt(q, slots, tag, current.next == null, i, stop, access);
        if !stop {
          prev := current;
          current := current.next;
          i := i + 1;
        }
      }
    }

    /** lru_fetch: one pass over the queue. The line it stops at comes first afterwards. */
    method Fetch(tag: int) returns (line: Line, access: Access)
      requires Valid() && lineCount > 0
      modifies this`lruQueue, this`nodes, this`slots, nodes`next, LinesOf(nodes)
      ensures Valid()
      ensures slots == Fetched(old(slots), tag) && access == FetchKind(old(slots), tag)
      ensures nodes != [] && slots != [] && line == nodes[0].line && NodesOf(nodes) == old(NodesOf(nodes))
    {
      hide Holds, Static, Settled, Decided, Passed, Fetched, FetchKind, Linked;
      ghost var q, was := slots, nodes;
      HoldsSize(nodes, slots);
      var prev, current, stopAccess, i := Pass(tag);
      line, access := current.line, stopAccess;
      FetchDone(q, slots, tag, i, access);
      MoveToFront(prev, current, i);
      MovedElements(was, i);
      assert nodes[0] == current;
    }
  }

  /** The pass has gone by the first `i` lines. */
  ghost predicate Passed(q: seq<Slot>, tag: int, i: nat) {
    i < |q| && forall j :: 0 <= j < i ==> q[j].valid && q[j].tag != tag
  }

  ghost predicate Decided(q: seq<Slot>, to: seq<Slot>, tag: int, last: bool, i: nat, stop: bool, access: Access) {
    && i < |q|
    && stop == (!q[i].valid || q[i].tag == tag || last)
    && (stop ==> access == if !q[i].valid then COLD_MISS else if q[i].tag == tag then HIT else CONFLICT_MISS)
    && to == if stop then q[i := q[i].(valid := true, tag := tag)] else q
  }

  lemma DecidedAt(q: seq<Slot>, to: seq<Slot>, tag: int, last: bool, i: nat, stop: bool, access: Access)
    requires Passed(q, tag, i) && Decided(q, to, tag, last, i, stop, access)
    ensures !stop ==> !last && to == q && (i + 1 < |q| ==> Passed(q, tag, i + 1))
  {
  }

  lemma FetchDone(q: seq<Slot>, to: seq<Slot>, tag: int, i: nat, access: Access)
    requires Settled(q) && Passed(q, tag, i) && Decided(q, to, tag, i == |q| - 1, i, true, access)
    ensures MovedToFront(to, i) == Fetched(q, tag) && access == FetchKind(q, tag)
    ensures Settled(MovedToFront(to, i))
  {
    StopsAtIs(q, tag, i);
    FetchIsLruStep(q, tag);
  }
}
