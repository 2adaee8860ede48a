/** The tree built for a text: which codes it has and how many bits they take. */
module CodeLength {
  import opened Bytes
  import opened Sequences
  import opened HuffmanTree
  import opened Optimality
  import opened Huffman
  import opened CodeTable

  /** The tree's leaves are exactly the characters of `text` with their frequencies. */
  ghost predicate TreeFor(t: Tree, text: seq<byte>) {
    Symbols(t) == Entries(text, NUMBER_OF_CHARS)
  }

  /** Each leaf of `t` holds its character's frequency in `text`. */
  ghost predicate CountsFrom(t: Tree, text: seq<byte>) {
    match t
    case Leaf(_, f) => f.v == multiset(text)[ToByte(f.c)]
    case Node(_, _, l, r) => CountsFrom(l, text) && CountsFrom(r, text)
  }

  lemma EntryOf(text: seq<byte>, x: Frequency)
    requires x in Entries(text, NUMBER_OF_CHARS)
    ensures Entries(text, NUMBER_OF_CHARS)[x] == 1 && ToByte(x.c) in text
    ensures x == Frequency(multiset(text)[ToByte(x.c)], ToSigned(ToByte(x.c)))
  {
    EntriesHave(text, NUMBER_OF_CHARS, x);
  }

  lemma {:induction false} CodesAreSymbols(t: Tree, ch: byte) returns (x: Frequency)
    requires ch in Codes(t, [])
    ensures x in Symbols(t) && ToByte(x.c) == ch
  {
    if t.Leaf? {
      x := t.freq;
    } else {
      CodeOfNode(t, ch);
      if ch in Codes(t.right, []) { x := CodesAreSymbols(t.right, ch); } else { x := CodesAreSymbols(t.left, ch); }
    }
  }

  lemma {:induction false} SymbolsHaveCodes(t: Tree, x: Frequency)
    requires x in Symbols(t)
    ensures ToByte(x.c) in Codes(t, [])
  {
    if t.Node? {
      CodeOfNode(t, ToByte(x.c));
      if x in Symbols(t.left) { SymbolsHaveCodes(t.left, x); } else { SymbolsHaveCodes(t.right, x); }
    }
  }

  /** A subtree of the tree for `text` has distinct, signed characters with the right counts. */
  lemma {:induction false} SubtreeFor(t: Tree, text: seq<byte>)
    requires forall x :: Symbols(t)[x] <= Entries(text, NUMBER_OF_CHARS)[x]
    ensures DistinctChars(t) && SignedChars(t) && CountsFrom(t, text)
  {
    match t
    case Leaf(_, f) =>
      assert f in Symbols(t);
      EntryOf(text, f);
    case Node(_, _, l, r) =>
      SubtreeFor(l, text);
      SubtreeFor(r, text);
      forall ch | ch in Codes(l, []) ensures ch !in Codes(r, []) {
        if ch in Codes(r, []) {
          var x := CodesAreSymbols(l, ch);
          var y := CodesAreSymbols(r, ch);
          EntryOf(text, x);
          EntryOf(text, y);
        }
      }
  }

  /** The tree for a text codes the characters of the text, each by one leaf, and no others. */
  lemma TreeForCodes(t: Tree, text: seq<byte>)
    requires TreeFor(t, text)
    ensures DistinctChars(t) && SignedChars(t) && CountsFrom(t, text)
    ensures forall ch: byte :: ch in Codes(t, []) <==> ch in text
  {
    hide Codes, CodeOf, Symbols, Entries;
    SubtreeFor(t, text);
    forall ch: byte ensures ch in Codes(t, []) <==> ch in text {
      if ch in text {
        var x := Frequency(multiset(text)[ch], ToSigned(ch));
        EntriesHave(text, NUMBER_OF_CHARS, x);
        assert IsEntry(text, ch, x);
        SymbolsHaveCodes(t, x);
      }
      if ch in Codes(t, []) {
        var x := CodesAreSymbols(t, ch);
        EntryOf(text, x);
      }
    }
  }

  /** Leaves weighted by their character's count in `text`, times their depth below `d`. */
  ghost function TextDepth(t: Tree, d: nat, text: seq<byte>): nat {
    match t
    case Leaf(_, f) => multiset(text)[ToByte(f.c)] * d
    case Node(_, _, l, r) => TextDepth(l, d + 1, text) + TextDepth(r, d + 1, text)
  }

  lemma {:induction false} TextDepthIsDepthSum(t: Tree, d: nat, text: seq<byte>)
    requires CountsFrom(t, text)
    ensures TextDepth(t, d, text) == DepthSum(t, d)
  {
    if t.Node? {
      TextDepthIsDepthSum(t.left, d + 1, text);
      TextDepthIsDepthSum(t.right, d + 1, text);
    }
  }

  lemma {:induction false} TextDepthGrows(t: Tree, d: nat, ch: byte, text: seq<byte>)
    requires DistinctChars(t)
    ensures TextDepth(t, d, [ch] + text) ==
            TextDepth(t, d, text) + if ch in Codes(t, []) then d + |CodeOf(t, ch)| else 0
  {
    match t
    case Leaf(_, f) =>
      var n := multiset(text)[ToByte(f.c)];
      assert multiset([ch] + text)[ToByte(f.c)] == if ch == ToByte(f.c) then n + 1 else n;
    case Node(_, _, l, r) =>
      TextDepthGrows(l, d + 1, ch, text);
      TextDepthGrows(r, d + 1, ch, text);
      CodeOfNode(t, ch);
  }

  lemma {:induction false} TextDepthIsCodeLength(t: Tree, d: nat, text: seq<byte>)
    requires DistinctChars(t) && forall b :: b in text ==> b in Codes(t, [])
    ensures TextDepth(t, d, text) == d * |text| + |EncodeText(t, text)|
  {
    if text == [] {
      TextDepthEmpty(t, d);
    } else {
      var rest := text[1..];
      TextDepthIsCodeLength(t, d, rest);
      TextDepthGrows(t, d, text[0], rest);
      assert text == [text[0]] + rest;
      assert |EncodeText(t, text)| == |CodeOf(t, text[0])| + |EncodeText(t, rest)|;
      OneMore(d, |rest|);
    }
  }

  lemma {:induction false} TextDepthEmpty(t: Tree, d: nat)
    ensures TextDepth(t, d, []) == 0
  {
    if t.Node? {
      TextDepthEmpty(t.left, d + 1);
      TextDepthEmpty(t.right, d + 1);
    }
  }

  /** The bits written number the sum of frequency times depth; the leaves count the text. */
  lemma EncodedLength(t: Tree, text: seq<byte>)
    requires TreeFor(t, text)
    ensures forall b :: b in text ==> b in Codes(t, [])
    ensures |EncodeText(t, text)| == DepthSum(t, 0) == PathLength(t)
    ensures Total(t) == |text|
  {
    TreeForCodes(t, text);
    TextDepthIsDepthSum(t, 0, text);
    TextDepthIsDepthSum(t, 1, text);
    TextDepthIsCodeLength(t, 0, text);
    TextDepthIsCodeLength(t, 1, text);
    PathLengthIsDepthSum(t, 0);
    PathLengthIsDepthSum(t, 1);
  }

  /** For the tree the merge loop builds: the root counts the text, and the bits written
      number the sum of the internal nodes' frequencies. */
  lemma EncodedLengthIsInternalSum(t: Tree, text: seq<byte>)
    requires TreeFor(t, text) && Summed(t)
    ensures t.freq.v == |text|
    ensures forall b :: b in text ==> b in Codes(t, [])
    ensures |EncodeText(t, text)| == InternalSum(t)
  {
    EncodedLength(t, text);
    PathLengthIsInternalSum(t);
  }

  ghost function LeafSeq(t: Tree): seq<Frequency> {
    match t
    case Leaf(_, f) => [f]
    case Node(_, _, l, r) => LeafSeq(l) + LeafSeq(r)
  }

  ghost function Weighs(w: int): Frequency -> int {
    (f: Frequency) => One(w, f.v)
  }

  lemma {:induction false} LeafSeqMeasures(t: Tree, w: int)
    ensures Symbols(t) == multiset(LeafSeq(t)) && Occurs(t, w) == Sum(LeafSeq(t), Weighs(w))
  {
    if t.Node? {
      LeafSeqMeasures(t.left, w);
      LeafSeqMeasures(t.right, w);
      SumConcat(LeafSeq(t.left), LeafSeq(t.right), Weighs(w));
    }
  }

  /** No tree with the same characters encodes the text in fewer bits. */
  lemma ShortestEncoding(t: Tree, u: Tree, text: seq<byte>)
    requires TreeFor(t, text) && Cheapest(t) && TreeFor(u, text)
    ensures forall b :: b in text ==> b in Codes(t, []) && b in Codes(u, [])
    ensures |EncodeText(t, text)| <= |EncodeText(u, text)|
  {
    EncodedLength(t, text);
    EncodedLength(u, text);
    forall w ensures Occurs(u, w) == Occurs(t, w) {
      LeafSeqMeasures(t, w);
      LeafSeqMeasures(u, w);
      SumPermutation(LeafSeq(t), LeafSeq(u), Weighs(w));
    }
  }
}
