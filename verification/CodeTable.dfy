/** The code table, and the two walks that read codes back. Strings of '1' and '0'
    characters are sequences of bits here. */
module CodeTable {
  import opened Options
  import opened Bytes
  import opened HuffmanTree
  import opened TreeNodes
  import opened Huffman

  /** The code of each character: the path to its leaf, 1 for left and 0 for right. */
  ghost function Codes(t: Tree, path: seq<Bit>): map<byte, seq<Bit>> {
    match t
    case Leaf(_, f) => map[ToByte(f.c) := path]
    case Node(_, _, l, r) => Codes(l, path + [1]) + Codes(r, path + [0])
  }

  ghost function CodeOf(t: Tree, ch: byte): seq<Bit>
    requires ch in Codes(t, [])
  {
    Codes(t, [])[ch]
  }

  /** No two leaves have the same character. */
  ghost predicate DistinctChars(t: Tree) {
    t.Node? ==>
      && DistinctChars(t.left)
      && DistinctChars(t.right)
      && Codes(t.left, []).Keys !! Codes(t.right, []).Keys
  }

  class EncodeTable {
    var table: array<Option<seq<Bit>>>

    /** Each character of the tree has its code here, and no other has one. */
    ghost predicate Holds(t: Tree)
      reads this, table
    {
      && table.Length == NUMBER_OF_CHARS
      && forall ch: byte :: table[ch] == if ch in Codes(t, []) then Some(CodeOf(t, ch)) else None
    }

    /** table_build: the slots are empty, then filled by one walk over the tree. */
    constructor (root: TreeNode, ghost t: Tree, ghost s: set<TreeNode>)
      requires Rep(root, t, s)
      ensures fresh(table) && Holds(t)
    {
      table := new Option<seq<Bit>>[NUMBER_OF_CHARS](_ => None);
      new;
      RecGenTable(root, [], t, s);
    }

    /** rec_gen_table: the slots of this subtree's characters get their codes, no other
        slot changes. */
    method RecGenTable(node: TreeNode, b: seq<Bit>, ghost t: Tree, ghost s: set<TreeNode>)
      requires Rep(node, t, s) && table.Length == NUMBER_OF_CHARS
      modifies table
      ensures forall ch: byte :: table[ch] ==
                if ch in Codes(t, b) then Some(Codes(t, b)[ch]) else old(table[ch])
      decreases t
    {
      if node.kind == INTERNAL {
        RecGenTable(node.left, b + [1], t.left, s);
        RecGenTable(node.right, b + [0], t.right, s);
      } else {
        table[ToByte(node.freq.c)] := Some(b);
      }
    }

    /** table_bit_encode: a character without a code makes the program read through NULL. */
    method BitEncode(ch: byte, ghost t: Tree) returns (code: Option<seq<Bit>>)
      requires Holds(t)
      ensures code.Some? <==> ch in Codes(t, [])
      ensures code.Some? ==> code.value == CodeOf(t, ch)
    {
      code := table[ch];
    }
  }

  /** What following bits from the root finds. */
  datatype Walk = Stuck | Reached(c: int, used: nat)

  /** decode_one: read bits until a leaf; Stuck when the bits run out first. */
  ghost function WalkDown(t: Tree, bits: seq<Bit>): (w: Walk)
    ensures w.Reached? ==> w.used <= |bits|
    ensures t.Node? && w.Reached? ==> w.used > 0
  {
    match t
    case Leaf(_, f) => Reached(f.c, 0)
    case Node(_, _, l, r) =>
      if bits == [] then Stuck
      else
        var w := WalkDown(if bits[0] == 1 then l else r, bits[1..]);
        if w.Stuck? then Stuck else Reached(w.c, w.used + 1)
  }

  /** huffman_find returns -1 when it would leave a leaf; it asserts that it stops at a leaf. */
  datatype Found = Character(c: int) | MinusOne | AssertionFails

  ghost function Find(t: Tree, bits: seq<Bit>): Found {
    if bits == [] then
      if t.Leaf? then Character(t.freq.c) else AssertionFails
    else if t.Leaf? then MinusOne
    else Find(if bits[0] == 1 then t.left else t.right, bits[1..])
  }

  method HuffmanFind(tree: TreeNode, encoding: seq<Bit>, ghost t: Tree, ghost s: set<TreeNode>) returns (r: Found)
    requires Rep(tree, t, s)
    ensures r == Find(t, encoding)
  {
    var tr := tree;
    ghost var u := t;
    var i := 0;
    while i < |encoding|
      invariant 0 <= i <= |encoding|
      invariant Rep(tr, u, s) && Find(u, encoding[i..]) == Find(t, encoding)
    {
      if encoding[i] == 1 {
        if tr.left == null { return MinusOne; }
        tr, u := tr.left, u.left;
      } else {
        if tr.right == null { return MinusOne; }
        tr, u := tr.right, u.right;
      }
      i := i + 1;
    }
    r := if tr.kind == LEAF then Character(tr.freq.c) else AssertionFails;
  }

  lemma {:induction false} CodesExtend(t: Tree, path: seq<Bit>)
    ensures Codes(t, path).Keys == Codes(t, []).Keys
    ensures forall ch :: ch in Codes(t, []) ==> Codes(t, path)[ch] == path + Codes(t, [])[ch]
  {
    hide Codes;
    CodesParts(t, path);
    CodesParts(t, []);
    if t.Node? {
      CodesExtend(t.left, path + [1]);
      CodesExtend(t.left, [1]);
      CodesExtend(t.right, path + [0]);
      CodesExtend(t.right, [0]);
      assert [] + [1] == [1] && [] + [0] == [0];
    }
  }

  lemma CodesParts(t: Tree, path: seq<Bit>)
    ensures t.Leaf? ==> Codes(t, path) == map[ToByte(t.freq.c) := path]
    ensures t.Node? ==> Codes(t, path) == Codes(t.left, path + [1]) + Codes(t.right, path + [0])
  {
  }

  lemma CodeOfNode(t: Tree, ch: byte)
    requires t.Node?
    ensures ch in Codes(t, []) <==> ch in Codes(t.left, []) || ch in Codes(t.right, [])
    ensures ch in Codes(t.right, []) ==> CodeOf(t, ch) == [0] + CodeOf(t.right, ch)
    ensures ch in Codes(t.left, []) && ch !in Codes(t.right, []) ==> CodeOf(t, ch) == [1] + CodeOf(t.left, ch)
  {
    CodesExtend(t.left, [1]);
    CodesExtend(t.right, [0]);
    assert [] + [1] == [1] && [] + [0] == [0];
  }

  /** A character's code followed by any bits takes the decoder to a leaf of that character,
      using exactly the code; huffman_find finds the same leaf. */
  lemma {:induction false} CodeLeadsToLeaf(t: Tree, ch: byte, rest: seq<Bit>)
    requires ch in Codes(t, [])
    ensures exists c :: ToByte(c) == ch && WalkDown(t, CodeOf(t, ch) + rest) == Reached(c, |CodeOf(t, ch)|)
                     && Find(t, CodeOf(t, ch)) == Character(c)
  {
    if t.Leaf? {
      assert [] + rest == rest;
      assert ToByte(t.freq.c) == ch;
    } else {
      CodeOfNode(t, ch);
      var u, b: Bit := if ch in Codes(t.right, []) then t.right else t.left, if ch in Codes(t.right, []) then 0 else 1;
      CodeLeadsToLeaf(u, ch, rest);
      var code := CodeOf(t, ch);
      assert code == [b] + CodeOf(u, ch);
      AfterFirst(b, CodeOf(u, ch), rest);
    }
  }

  lemma AfterFirst(b: Bit, code: seq<Bit>, rest: seq<Bit>)
    ensures ([b] + code + rest)[0] == b && ([b] + code + rest)[1..] == code + rest && ([b] + code)[1..] == code
  {
  }

  /** Conversely, the bits that take the decoder to a leaf are that leaf's code. */
  lemma {:induction false} WalkFollowsCode(t: Tree, bits: seq<Bit>)
    requires DistinctChars(t) && WalkDown(t, bits).Reached?
    ensures var w := WalkDown(t, bits);
            ToByte(w.c) in Codes(t, []) && CodeOf(t, ToByte(w.c)) == bits[..w.used]
  {
    if t.Node? {
      var u := if bits[0] == 1 then t.left else t.right;
      WalkFollowsCode(u, bits[1..]);
      var w := WalkDown(u, bits[1..]);
      CodeOfNode(t, ToByte(w.c));
      assert bits[..w.used + 1] == [bits[0]] + bits[1..][..w.used];
    }
  }

  /** The codes are prefix-free, so a run of codes can be cut apart in one way only. */
  lemma CodesPrefixFree(t: Tree, a: byte, b: byte)
    requires a in Codes(t, []) && b in Codes(t, []) && CodeOf(t, a) <= CodeOf(t, b)
    ensures a == b
  {
    var x, y := CodeOf(t, a), CodeOf(t, b);
    CodeLeadsToLeaf(t, a, y[|x|..]);
    CodeLeadsToLeaf(t, b, []);
    assert x + y[|x|..] == y == y + [];
  }

  /** Every bit string long enough starts with a code: the tree leaves no gap. */
  lemma {:induction false} CodesComplete(t: Tree, bits: seq<Bit>)
    requires |bits| >= Height(t)
    ensures WalkDown(t, bits).Reached?
  {
    if t.Node? {
      CodesComplete(if bits[0] == 1 then t.left else t.right, bits[1..]);
    }
  }

  /** The bits the encoder writes for `text`. */
  ghost function EncodeText(t: Tree, text: seq<byte>): seq<Bit>
    requires forall b :: b in text ==> b in Codes(t, [])
  {
    if text == [] then [] else CodeOf(t, text[0]) + EncodeText(t, text[1..])
  }

  /** The characters the decoder writes for `bits`; it stops when decode_one returns EOF. */
  ghost function DecodeBits(t: Tree, bits: seq<Bit>): seq<byte>
    requires t.Node?
    decreases |bits|
  {
    var w := WalkDown(t, bits);
    if w.Stuck? || w.c == EOF then [] else [ToByte(w.c)] + DecodeBits(t, bits[w.used..])
  }

  /** The leaf characters are values of a signed char. */
  ghost predicate SignedChars(t: Tree) {
    match t
    case Leaf(_, f) => f.c == ToSigned(ToByte(f.c))
    case Node(_, _, l, r) => SignedChars(l) && SignedChars(r)
  }

  lemma {:induction false} WalkGivesSignedChar(t: Tree, bits: seq<Bit>)
    requires SignedChars(t) && WalkDown(t, bits).Reached?
    ensures WalkDown(t, bits).c == ToSigned(ToByte(WalkDown(t, bits).c))
  {
    if t.Node? { WalkGivesSignedChar(if bits[0] == 1 then t.left else t.right, bits[1..]); }
  }

  /** Decoding the codes of a text gives the text back and then stops. */
  lemma {:induction false} DecodeEncodeText(t: Tree, text: seq<byte>)
    requires t.Node? && SignedChars(t) && 255 !in text
    requires forall b :: b in text ==> b in Codes(t, [])
    ensures DecodeBits(t, EncodeText(t, text)) == text
  {
    if text == [] {
      assert WalkDown(t, []).Stuck?;
    } else {
      var ch, rest := text[0], EncodeText(t, text[1..]);
      var code := CodeOf(t, ch);
      CodeLeadsToLeaf(t, ch, rest);
      WalkGivesSignedChar(t, code + rest);
      assert (code + rest)[|code|..] == rest;
      DecodeEncodeText(t, text[1..]);
    }
  }
}
