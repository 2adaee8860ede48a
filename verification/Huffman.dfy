/** The Huffman algorithm: count, make leaves, merge. */
module Huffman {
  import opened Bytes
  import opened Sequences
  import opened HuffmanTree
  import opened Optimality
  import opened TreeNodes
  import opened PQueue

  const NUMBER_OF_CHARS: nat := 256

  /** The characters `compute_freq` sees: `c` is a signed char, so byte 0xFF reads as EOF. */
  function Counted(text: seq<byte>): seq<byte> {
    if text == [] || text[0] == 255 then [] else [text[0]] + Counted(text[1..])
  }

  lemma {:induction false} CountedAll(text: seq<byte>)
    ensures Counted(text) == text <==> 255 !in text
  {
    if text != [] { CountedAll(text[1..]); }
  }

  lemma {:induction false} CountedUpTo(text: seq<byte>, p: nat)
    requires p <= |text| && 255 !in text[..p] && (p < |text| ==> text[p] == 255)
    ensures Counted(text) == text[..p]
  {
    if p > 0 {
      assert text[1..][..p - 1] == text[..p][1..];
      CountedUpTo(text[1..], p - 1);
    }
  }

  /** Where the first 0xFF stands, or the end. */
  lemma {:induction false} FirstEof(text: seq<byte>) returns (p: nat)
    ensures p <= |text| && 255 !in text[..p] && (p < |text| ==> text[p] == 255)
  {
    if text == [] || text[0] == 255 {
      p := 0;
    } else {
      var k := FirstEof(text[1..]);
      p := k + 1;
      assert text[..p] == [text[0]] + text[1..][..k];
    }
  }

  /** The pairs of the frequency table with a positive count, from its first `k` entries. */
  ghost function Entries(text: seq<byte>, k: nat): multiset<Frequency>
    requires k <= NUMBER_OF_CHARS
  {
    if k == 0 then multiset{}
    else Entries(text, k - 1) + Entry(text, k - 1)
  }

  ghost function Entry(text: seq<byte>, b: byte): multiset<Frequency> {
    if b in text then multiset{Frequency(multiset(text)[b], ToSigned(b))} else multiset{}
  }

  method ComputeFreq(text: seq<byte>) returns (table: array<Frequency>)
    ensures fresh(table) && table.Length == NUMBER_OF_CHARS
    ensures forall i :: 0 <= i < NUMBER_OF_CHARS ==>
              table[i] == Frequency(multiset(Counted(text))[i], ToSigned(i))
  {
    table := new Frequency[NUMBER_OF_CHARS](i requires 0 <= i < NUMBER_OF_CHARS => Frequency(0, ToSigned(i)));
    var p := 0;
    var c := ToSigned(ToByte(GetC(text, p)));
    while c != EOF
      invariant p <= |text| && 255 !in text[..p]
      invariant c == ToSigned(ToByte(GetC(text, p)))
      invariant forall i :: 0 <= i < NUMBER_OF_CHARS ==>
                  table[i] == Frequency(multiset(text[..p])[i], ToSigned(i))
      decreases |text| - p
    {
      var i := 0;
      while i < NUMBER_OF_CHARS
        invariant 0 <= i <= text[p]
        invariant forall j :: 0 <= j < NUMBER_OF_CHARS ==>
                    table[j] == Frequency(multiset(text[..p])[j], ToSigned(j))
      {
        if table[i].c == c {
          table[i] := Frequency(table[i].v + 1, c);
          break;
        }
        i := i + 1;
      }
      assert text[..p + 1] == text[..p] + [text[p]];
      p := p + 1;
      c := ToSigned(ToByte(GetC(text, p)));
    }
    CountedUpTo(text, p);
  }

  ghost function SymbolCount(x: Frequency): Tree -> int {
    (t: Tree) => Symbols(t)[x]
  }

  ghost function IdCount(i: int): Tree -> int {
    (t: Tree) => Ids(t)[i]
  }

  /** The forest over the table entries `e`; each id from `first` up to `bound` is used once. */
  ghost predicate ForestOver(f: seq<Tree>, e: multiset<Frequency>, first: nat, bound: nat) {
    && (forall i :: 0 <= i < |f| ==> Summed(f[i]))
    && (forall x :: Sum(f, SymbolCount(x)) == e[x])
    && (forall i :: Sum(f, IdCount(i)) == if first <= i < bound then 1 else 0)
  }

  /** How many of the characters below `k` occur. */
  ghost function Smaller(text: seq<byte>, k: nat): nat
    requires k <= NUMBER_OF_CHARS
  {
    if k == 0 then 0 else Smaller(text, k - 1) + if (k - 1) as byte in text then 1 else 0
  }

  /** The leaves are numbered from `first` in the order of their characters. */
  ghost predicate LeavesNumbered(t: Tree, text: seq<byte>, first: nat) {
    match t
    case Leaf(id, f) => id == first + Smaller(text, ToByte(f.c))
    case Node(_, _, l, r) => LeavesNumbered(l, text, first) && LeavesNumbered(r, text, first)
  }

  /** The lighter tree was taken first and is on the left, and a node is made after its children. */
  ghost predicate Built(t: Tree) {
    t.Node? ==>
      && t.left.freq.v <= t.right.freq.v && t.left.id < t.id && t.right.id < t.id
      && Built(t.left) && Built(t.right)
  }

  ghost predicate Grown(f: seq<Tree>, text: seq<byte>, first: nat, bound: nat) {
    forall i :: 0 <= i < |f| ==> Built(f[i]) && LeavesNumbered(f[i], text, first) && f[i].id < bound
  }

  lemma GrownLeaf(f: seq<Tree>, g: seq<Tree>, text: seq<byte>, first: nat, bound: nat, x: Frequency)
    requires Grown(f, text, first, bound) && bound == first + Smaller(text, ToByte(x.c))
    requires multiset(g) == multiset(f + [Leaf(bound, x)])
    ensures Grown(g, text, first, bound + 1)
  {
    forall i | 0 <= i < |g|
      ensures Built(g[i]) && LeavesNumbered(g[i], text, first) && g[i].id < bound + 1 {
      assert g[i] in multiset(f + [Leaf(bound, x)]);
    }
  }

  /** Merging the two first trees of a sorted queue puts the lighter one on the left. */
  lemma GrownMerged(f: seq<Tree>, g: seq<Tree>, text: seq<byte>, first: nat, bound: nat)
    requires Grown(f, text, first, bound) && Sorted(f) && |f| >= 2
    requires multiset(g) == multiset(f[2..] + [Join(bound, f[0], f[1])])
    ensures Grown(g, text, first, bound + 1)
  {
    var n := Join(bound, f[0], f[1]);
    assert f[0].freq.v <= f[1].freq.v;
    forall i | 0 <= i < |g|
      ensures Built(g[i]) && LeavesNumbered(g[i], text, first) && g[i].id < bound + 1 {
      assert g[i] in multiset(f[2..] + [n]);
    }
  }

  lemma ForestRearranged(f: seq<Tree>, g: seq<Tree>, e: multiset<Frequency>, first: nat, bound: nat)
    requires ForestOver(f, e, first, bound) && multiset(f) == multiset(g)
    ensures ForestOver(g, e, first, bound)
  {
    forall i | 0 <= i < |g| ensures Summed(g[i]) {
      assert g[i] in multiset(f);
    }
    forall x ensures Sum(g, SymbolCount(x)) == e[x] {
      SumPermutation(f, g, SymbolCount(x));
    }
    forall i ensures Sum(g, IdCount(i)) == Sum(f, IdCount(i)) {
      SumPermutation(f, g, IdCount(i));
    }
  }

  lemma ForestGrows(f: seq<Tree>, e: multiset<Frequency>, first: nat, bound: nat, x: Frequency)
    requires ForestOver(f, e, first, bound) && first <= bound
    ensures ForestOver(f + [Leaf(bound, x)], e + multiset{x}, first, bound + 1)
  {
    var n := Leaf(bound, x);
    forall y ensures Sum(f + [n], SymbolCount(y)) == (e + multiset{x})[y] {
      SumConcat(f, [n], SymbolCount(y));
      assert SymbolCount(y)(n) == multiset{x}[y];
    }
    forall i ensures Sum(f + [n], IdCount(i)) == if first <= i < bound + 1 then 1 else 0 {
      SumConcat(f, [n], IdCount(i));
      assert IdCount(i)(n) == multiset{bound}[i];
    }
  }

  lemma ForestMerged(f: seq<Tree>, g: seq<Tree>, e: multiset<Frequency>, first: nat, bound: nat)
    requires ForestOver(f, e, first, bound) && first <= bound && |f| >= 2
    requires g == f[2..] + [Join(bound, f[0], f[1])]
    ensures ForestOver(g, e, first, bound + 1)
  {
    var n := Join(bound, f[0], f[1]);
    forall x ensures Sum(g, SymbolCount(x)) == e[x] {
      SumAfterMerge(f, n, g, SymbolCount(x));
      assert SymbolCount(x)(n) == SymbolCount(x)(f[0]) + SymbolCount(x)(f[1]);
    }
    forall i ensures Sum(g, IdCount(i)) == if first <= i < bound + 1 then 1 else 0 {
      SumAfterMerge(f, n, g, IdCount(i));
      assert IdCount(i)(n) == IdCount(i)(f[0]) + IdCount(i)(f[1]) + multiset{bound}[i];
    }
  }

  /** The statements that create a leaf node. */
  method LeafNode(source: IdSource, freq: Frequency) returns (n: TreeNode)
    modifies source
    ensures fresh(n) && n.id == old(source.ids) && source.ids == old(source.ids) + 1
    ensures n.kind == LEAF && n.freq == freq && n.left == null && n.right == null
  {
    n := TreeNew(source);
    n.kind := LEAF;
    n.freq := freq;
    n.left := null;
    n.right := null;
  }

  /** The statements that create an internal node over two nodes. */
  method InternalNode(source: IdSource, l: TreeNode, r: TreeNode) returns (n: TreeNode)
    modifies source
    ensures fresh(n) && n.id == old(source.ids) && source.ids == old(source.ids) + 1
    ensures n.kind == INTERNAL && n.freq == Frequency(l.freq.v + r.freq.v, 0) && n.left == l && n.right == r
  {
    n := TreeNew(source);
    n.left := l;
    n.right := r;
    n.freq := n.freq.(v := l.freq.v + r.freq.v);
  }

  lemma RepLeaf(n: TreeNode, s: set<TreeNode>)
    requires n.kind == LEAF && n.left == null && n.right == null
    ensures Rep(n, Leaf(n.id, n.freq), s + {n})
  {
  }

  lemma RepInternal(n: TreeNode, l: TreeNode, t: Tree, r: TreeNode, u: Tree, s: set<TreeNode>)
    requires Rep(l, t, s) && Rep(r, u, s)
    requires n.kind == INTERNAL && n.left == l && n.right == r && n.freq == Frequency(l.freq.v + r.freq.v, 0)
    ensures Rep(n, Join(n.id, t, u), s + {n})
  {
    RepGrows(l, t, s, s + {n});
    RepGrows(r, u, s, s + {n});
  }

  /** The queue's forest over the entries `e` of the text, with ids from `first`. */
  ghost predicate Forest(f: seq<Tree>, text: seq<byte>, e: multiset<Frequency>, first: nat, bound: nat) {
    0 < first <= bound && ForestOver(f, e, first, bound) && Grown(f, text, first, bound)
  }

  /** One leaf joins the queue: the body of the loop of `create_tree_nodes`. */
  method AddLeaf(pq: PriorityQueue, source: IdSource, freq: Frequency,
                 ghost text: seq<byte>, ghost e: multiset<Frequency>, ghost first: nat)
    requires pq.Valid() && pq.count < MAXSIZE && source.ids == first + Smaller(text, ToByte(freq.c))
    requires Forest(pq.forest, text, e, first, source.ids) && AllLeaves(pq.forest)
    modifies pq, pq.queue, source
    ensures pq.Valid() && pq.queue == old(pq.queue) && pq.count == old(pq.count) + 1
    ensures source.ids == old(source.ids) + 1
    ensures Forest(pq.forest, text, e + multiset{freq}, first, source.ids) && AllLeaves(pq.forest)
  {
    ghost var f := pq.forest;
    var n := LeafNode(source, freq);
    RepLeaf(n, pq.space);
    pq.Enqueue(n, Leaf(n.id, freq));
    LeafAdded(f, e, first, n.id, freq, pq.forest);
    GrownLeaf(f, pq.forest, text, first, n.id, freq);
  }

  /** The leaves for the table entries with a positive count, in the queue, numbered in the order
      of their characters. */
  method CreateTreeNodes(table: array<Frequency>, pq: PriorityQueue, source: IdSource, ghost text: seq<byte>)
    requires table.Length == NUMBER_OF_CHARS && 255 !in text
    requires forall i :: 0 <= i < NUMBER_OF_CHARS ==>
               table[i] == Frequency(multiset(text)[i], ToSigned(i))
    requires pq.Valid() && pq.count == 0 && source.ids > 0
    modifies pq, pq.queue, source
    ensures pq.Valid() && pq.queue == old(pq.queue) && pq.count < MAXSIZE
    ensures Forest(pq.forest, text, Entries(text, NUMBER_OF_CHARS), old(source.ids), source.ids)
    ensures AllLeaves(pq.forest)
  {
    hide Forest, Rep, Entries, Entry, AllLeaves, Smaller;
    ghost var first := source.ids;
    assert multiset(text)[255] == 0;
    NoEntries(text, first);
    assert pq.forest == [];
    var i := 0;
    while i < NUMBER_OF_CHARS
      invariant 0 <= i <= NUMBER_OF_CHARS && source.ids == first + Smaller(text, i)
      invariant pq.Valid() && pq.queue == old(pq.queue)
      invariant pq.count <= if i < NUMBER_OF_CHARS then i else i - 1
      invariant Forest(pq.forest, text, Entries(text, i), first, source.ids) && AllLeaves(pq.forest)
    {
      EntriesMore(text, i);
      if table[i].v > 0 {
        AddLeaf(pq, source, table[i], text, Entries(text, i), first);
      }
      i := i + 1;
    }
  }

  lemma NoEntries(text: seq<byte>, first: nat)
    requires first > 0
    ensures Smaller(text, 0) == 0 && Forest([], text, Entries(text, 0), first, first) && AllLeaves([])
  {
  }

  lemma EntriesMore(text: seq<byte>, k: byte)
    ensures var v := multiset(text)[k];
            Entries(text, k + 1) == if v > 0 then Entries(text, k) + multiset{Frequency(v, ToSigned(k))}
                                    else Entries(text, k)
    ensures Smaller(text, k + 1) == Smaller(text, k) + if multiset(text)[k] > 0 then 1 else 0
    ensures ToByte(ToSigned(k)) == k
  {
  }

  lemma LeafAdded(f: seq<Tree>, e: multiset<Frequency>, first: nat, bound: nat, x: Frequency, g: seq<Tree>)
    requires ForestOver(f, e, first, bound) && first <= bound && AllLeaves(f)
    requires multiset(g) == multiset(f + [Leaf(bound, x)])
    ensures ForestOver(g, e + multiset{x}, first, bound + 1) && AllLeaves(g)
  {
    var h := f + [Leaf(bound, x)];
    ForestGrows(f, e, first, bound, x);
    ForestRearranged(h, g, e + multiset{x}, first, bound + 1);
    forall i | 0 <= i < |g| ensures g[i].Leaf? {
      assert g[i] in multiset(h);
    }
  }

  /** The body of the merge loop. */
  method MergeFirstTwo(pq: PriorityQueue, source: IdSource, ghost text: seq<byte>, ghost e: multiset<Frequency>,
                       ghost first: nat, ghost f0: seq<Tree>)
    requires pq.Valid() && 1 < pq.count < MAXSIZE
    requires Forest(pq.forest, text, e, first, source.ids) && Reaches(f0, pq.forest)
    modifies pq, pq.queue, source
    ensures pq.Valid() && pq.queue == old(pq.queue) && pq.count == old(pq.count) - 1
    ensures Forest(pq.forest, text, e, first, source.ids) && Reaches(f0, pq.forest)
    ensures |old(pq.forest)| >= 2
    ensures multiset(pq.forest)
         == multiset(old(pq.forest)[2..] + [Join(old(source.ids), old(pq.forest)[0], old(pq.forest)[1])])
  {
    hide Rep, Forest, Reaches, Join, Stands;
    ghost var f := pq.forest;
    var l := pq.Dequeue();
    var r := pq.Dequeue();
    assert pq.forest == f[2..];
    var n := InternalNode(source, l, r);
    RepInternal(n, l, f[0], r, f[1], pq.space);
    pq.Enqueue(n, Join(n.id, f[0], f[1]));
    ForestJoined(f0, f, text, e, first, n.id, pq.forest);
  }

  /** The merge loop. Whatever order `qsort` gives to trees of equal weight, the root it
      returns is over the given entries, the lighter of two siblings is on the left, and no tree
      over the same weights is cheaper. */
  method BuildTree(pq: PriorityQueue, source: IdSource, ghost text: seq<byte>, ghost e: multiset<Frequency>,
                   ghost first: nat) returns (root: TreeNode?, ghost t: Tree)
    requires pq.Valid() && pq.count < MAXSIZE
    requires Forest(pq.forest, text, e, first, source.ids) && AllLeaves(pq.forest)
    modifies pq, pq.queue, source
    ensures root == null <==> old(pq.forest) == []
    ensures root != null ==> Rep(root, t, pq.space) && CodeTree(t, e) && Numbered(t, text, first, source.ids)
  {
    ghost var f0 := pq.forest;
    ReachesStart(f0);
    while pq.Size() > 1
      invariant pq.Valid() && pq.queue == old(pq.queue) && pq.count < MAXSIZE
      invariant Forest(pq.forest, text, e, first, source.ids)
      invariant Reaches(f0, pq.forest) && (pq.count == 0 <==> f0 == [])
      decreases pq.count
    {
      MergeFirstTwo(pq, source, text, e, first, f0);
    }
    ghost var f := pq.forest;
    t := if f == [] then Leaf(0, Frequency(0, 0)) else f[0];
    root := pq.Dequeue();
    if root != null {
      assert f == [t];
      LastTree(f0, t, text, e, first, source.ids);
    }
  }

  /** What the algorithm promises of its tree over the table entries `e`. */
  ghost predicate CodeTree(t: Tree, e: multiset<Frequency>) {
    Summed(t) && GoodIds(t) && Symbols(t) == e && Cheapest(t) && Built(t)
  }

  /** The ids are those from `first` up to `bound`, the leaves come first. */
  ghost predicate Numbered(t: Tree, text: seq<byte>, first: nat, bound: nat) {
    LeavesNumbered(t, text, first) && forall i :: Ids(t)[i] == if first <= i < bound then 1 else 0
  }

  /** At every internal node the lighter child is on the left, and both were made before it. */
  lemma LighterLeft(t: Tree)
    requires Built(t) && t.Node?
    ensures t.left.freq.v <= t.right.freq.v && t.left.id < t.id && t.right.id < t.id
    ensures Built(t.left) && Built(t.right)
  {
  }

  /** A leaf's number is the count of smaller characters of the text. */
  lemma {:induction false} SmallerCounts(text: seq<byte>, k: nat)
    requires k <= NUMBER_OF_CHARS
    ensures Smaller(text, k) == |set b: byte | b in text && b < k|
  {
    if k > 0 {
      SmallerCounts(text, k - 1);
      var s, r := set b: byte | b in text && b < k, set b: byte | b in text && b < k - 1;
      var x: byte := k - 1;
      assert s == if x in text then r + {x} else r;
    } else {
      assert (set b: byte | b in text && b < k) == {};
    }
  }

  lemma TreesJoined(f0: seq<Tree>, f: seq<Tree>, e: multiset<Frequency>, first: nat, bound: nat, g: seq<Tree>)
    requires ForestOver(f, e, first, bound) && first <= bound && |f| >= 2 && Sorted(f) && Reaches(f0, f)
    requires multiset(g) == multiset(f[2..] + [Join(bound, f[0], f[1])])
    ensures ForestOver(g, e, first, bound + 1) && Reaches(f0, g)
  {
    var h := f[2..] + [Join(bound, f[0], f[1])];
    ForestMerged(f, h, e, first, bound);
    ForestRearranged(h, g, e, first, bound + 1);
    assert MergeStep(f, g);
    ReachesMerge(f0, f, g);
  }

  lemma ForestJoined(f0: seq<Tree>, f: seq<Tree>, text: seq<byte>, e: multiset<Frequency>, first: nat, bound: nat,
                     g: seq<Tree>)
    requires Forest(f, text, e, first, bound) && |f| >= 2 && Sorted(f) && Reaches(f0, f)
    requires multiset(g) == multiset(f[2..] + [Join(bound, f[0], f[1])])
    ensures Forest(g, text, e, first, bound + 1) && Reaches(f0, g)
  {
    hide ForestOver, Grown, Reaches;
    TreesJoined(f0, f, e, first, bound, g);
    GrownMerged(f, g, text, first, bound);
  }

  lemma LastTree(f0: seq<Tree>, t: Tree, text: seq<byte>, e: multiset<Frequency>, first: nat, bound: nat)
    requires Reaches(f0, [t]) && Forest([t], text, e, first, bound)
    ensures CodeTree(t, e) && Numbered(t, text, first, bound)
  {
    ReachesEnd(f0, t);
    assert [t][0] == t;
    forall i ensures Ids(t)[i] == if first <= i < bound then 1 else 0 {
      SumOfOne(t, IdCount(i));
    }
    forall x ensures Symbols(t)[x] == e[x] {
      SumOfOne(t, SymbolCount(x));
    }
  }

  /** NULL for an input without a character to count; otherwise the root of a cheapest tree
      over exactly the characters counted and their frequencies. */
  method HuffmanBuildTree(text: seq<byte>, source: IdSource)
    returns (root: TreeNode?, ghost t: Tree, ghost s: set<TreeNode>)
    requires source.ids > 0
    modifies source
    ensures root == null <==> Counted(text) == []
    ensures root != null ==> Rep(root, t, s) && CodeTree(t, Entries(Counted(text), NUMBER_OF_CHARS))
    ensures root != null ==> Numbered(t, Counted(text), old(source.ids), source.ids)
  {
    ghost var read, first := Counted(text), source.ids;
    CountedStops(text);
    var pq := new PriorityQueue();
    var table := ComputeFreq(text);
    CreateTreeNodes(table, pq, source, read);
    ForestEmptyIff(pq.forest, read, first, source.ids);
    root, t := BuildTree(pq, source, read, Entries(read, NUMBER_OF_CHARS), first);
    s := pq.space;
  }

  lemma {:induction false} CountedStops(text: seq<byte>)
    ensures 255 !in Counted(text)
  {
    if text != [] && text[0] != 255 { CountedStops(text[1..]); }
  }

  /** `x` is the table entry of the character `b`, which occurs. */
  ghost predicate IsEntry(text: seq<byte>, b: byte, x: Frequency) {
    b in text && x == Frequency(multiset(text)[b], ToSigned(b))
  }

  lemma OneEntry(text: seq<byte>, k: byte, x: Frequency)
    ensures Entry(text, k)[x] == if IsEntry(text, k, x) then 1 else 0
    ensures IsEntry(text, k, x) ==> forall b: byte :: b != k ==> !IsEntry(text, b, x)
  {
  }

  lemma {:induction false} EntriesHave(text: seq<byte>, k: nat, x: Frequency)
    requires k <= NUMBER_OF_CHARS
    ensures Entries(text, k)[x] == if exists b: byte :: b < k && IsEntry(text, b, x) then 1 else 0
  {
    hide IsEntry, Entry;
    if k > 0 {
      EntriesHave(text, k - 1, x);
      OneEntry(text, k - 1, x);
    }
  }

  lemma ForestEmptyIff(f: seq<Tree>, text: seq<byte>, first: nat, bound: nat)
    requires ForestOver(f, Entries(text, NUMBER_OF_CHARS), first, bound) && AllLeaves(f)
    ensures f == [] <==> text == []
  {
    if text != [] {
      var x := Frequency(multiset(text)[text[0]], ToSigned(text[0]));
      EntriesHave(text, NUMBER_OF_CHARS, x);
      assert IsEntry(text, text[0], x);
      assert Sum(f, SymbolCount(x)) == 1;
    }
    if f != [] {
      var x := f[0].freq;
      SymbolSumNonNegative(f[1..], x);
      assert SymbolCount(x)(f[0]) == 1;
      assert Sum(f, SymbolCount(x)) >= 1;
      EntriesHave(text, NUMBER_OF_CHARS, x);
    }
  }

  lemma {:induction false} SymbolSumNonNegative(f: seq<Tree>, x: Frequency)
    ensures Sum(f, SymbolCount(x)) >= 0
  {
    if f != [] { SymbolSumNonNegative(f[1..], x); }
  }
}
