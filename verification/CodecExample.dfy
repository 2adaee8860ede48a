/** One file, byte by byte. */
module CodecExample {
  import opened Bytes
  import opened HuffmanTree
  import opened Huffman
  import opened CodeTable
  import opened Optimality
  import opened CodeLength
  import opened BitBytes
  import opened TreeText
  import opened TreeFormat
  import opened Codec
  import opened Sequences

  /** The text "aab". */
  function Aab(): seq<byte> {
    [97, 97, 98]
  }

  lemma AabEntry(b: byte, x: Frequency)
    ensures IsEntry(Aab(), b, x) <==> (b == 97 && x == Frequency(2, 97)) || (b == 98 && x == Frequency(1, 98))
  {
    var m := multiset(Aab());
    assert m[97] == 2 && m[98] == 1;
    assert b in Aab() <==> b == 97 || b == 98;
  }

  lemma AabEntries()
    ensures Entries(Aab(), NUMBER_OF_CHARS) == multiset{Frequency(2, 97), Frequency(1, 98)}
  {
    hide Entries, IsEntry, Aab;
    var e, m := Entries(Aab(), NUMBER_OF_CHARS), multiset{Frequency(2, 97), Frequency(1, 98)};
    forall x ensures e[x] == m[x] {
      EntriesHave(Aab(), NUMBER_OF_CHARS, x);
      AabEntry(97, x);
      AabEntry(98, x);
      forall b: byte ensures IsEntry(Aab(), b, x) ==> b == 97 || b == 98 { AabEntry(b, x); }
    }
  }

  lemma AabSmaller()
    ensures Smaller(Aab(), 97) == 0 && Smaller(Aab(), 98) == 1
  {
    hide Smaller;
    SmallerCounts(Aab(), 97);
    SmallerCounts(Aab(), 98);
    assert (set b: byte | b in Aab() && b < 97) == {};
    assert (set b: byte | b in Aab() && b < 98) == {97};
  }

  lemma {:induction false} LeavesOf(t: Tree)
    ensures t.Leaf? ==> |Symbols(t)| == 1
    ensures t.Node? ==> |Symbols(t)| >= 2
  {
    if t.Node? {
      LeavesOf(t.left);
      LeavesOf(t.right);
    }
  }

  lemma TwoOf(x: Frequency, y: Frequency, a: Frequency, b: Frequency)
    requires multiset{x, y} == multiset{a, b} && a != b
    ensures (x == a && y == b) || (x == b && y == a)
  {
    assert x in multiset{a, b} && y in multiset{a, b} && a in multiset{x, y} && b in multiset{x, y};
  }

  /** A tree over two entries is two leaves under a root. */
  lemma TwoLeaves(t: Tree, a: Frequency, b: Frequency)
    requires Symbols(t) == multiset{a, b} && a != b
    ensures t.Node? && t.left.Leaf? && t.right.Leaf?
    ensures (t.left.freq == a && t.right.freq == b) || (t.left.freq == b && t.right.freq == a)
  {
    assert |Symbols(t)| == 2;
    LeavesOf(t);
    LeavesOf(t.left);
    LeavesOf(t.right);
    TwoOf(t.left.freq, t.right.freq, a, b);
  }

  lemma AabLeaf(l: Tree)
    requires l.Leaf? && LeavesNumbered(l, Aab(), 1)
    ensures l.freq.c == 97 ==> l.id == 1
    ensures l.freq.c == 98 ==> l.id == 2
  {
    hide Smaller, Aab;
    AabSmaller();
    assert ToByte(97) == 97 && ToByte(98) == 98;
  }

  lemma RootOfTwo(t: Tree, text: seq<byte>)
    requires t.Node? && Summed(t) && LeavesNumbered(t, text, 1)
    ensures t.freq == Frequency(t.left.freq.v + t.right.freq.v, 0)
    ensures LeavesNumbered(t.left, text, 1) && LeavesNumbered(t.right, text, 1)
  {
  }

  /** The tree of "aab": b, the lighter, is on the left; a was made first. */
  lemma AabTree(t: Tree, bound: nat)
    requires CodeTree(t, Entries(Aab(), NUMBER_OF_CHARS)) && Numbered(t, Aab(), 1, bound)
    ensures t == Node(3, Frequency(3, 0), Leaf(2, Frequency(1, 98)), Leaf(1, Frequency(2, 97)))
  {
    hide Entries, Cheapest, GoodIds, Aab, Smaller, LeavesNumbered, Summed, Built, Symbols, Ids;
    AabEntries();
    TwoLeaves(t, Frequency(2, 97), Frequency(1, 98));
    LighterLeft(t);
    RootOfTwo(t, Aab());
    AabLeaf(t.left);
    AabLeaf(t.right);
    RootIsThree(t, bound);
  }

  lemma RootIsThree(t: Tree, bound: nat)
    requires t.Node? && t.left.Leaf? && t.right.Leaf? && t.left.id == 2 && t.right.id == 1
    requires forall i :: Ids(t)[i] == if 1 <= i < bound then 1 else 0
    ensures t.id == 3
  {
    assert Ids(t) == multiset{2, 1, t.id};
    assert Ids(t)[t.id] == 1 && t.id != 1 && t.id != 2;
    assert Ids(t)[3] == if t.id == 3 then 1 else 0;
  }

  /** The codes are 1 for b and 0 for a. */
  lemma AabBits(t: Tree)
    requires t == Node(3, Frequency(3, 0), Leaf(2, Frequency(1, 98)), Leaf(1, Frequency(2, 97)))
    ensures forall b :: b in Aab() ==> b in Codes(t, [])
    ensures EncodeText(t, Aab()) == [0, 0, 1]
  {
    CodeOfNode(t, 97);
    CodeOfNode(t, 98);
    assert CodeOf(t, 97) == [0] && CodeOf(t, 98) == [1];
    assert Aab()[1..] == [97, 98] && [97, 98][1..] == [98] && [98][1..] == [];
    assert EncodeText(t, [98]) == [1] && EncodeText(t, [97, 98]) == [0, 1];
  }

  lemma OneDigit(n: nat)
    requires n < 10
    ensures PrintInt(n) == [48 + n]
  {
  }

  lemma TwoDigits(n: nat)
    requires 10 <= n < 100
    ensures PrintInt(n) == [48 + n / 10, 48 + n % 10]
  {
    OneDigit(n / 10);
  }

  /** A record of five numbers of one digit and a character of one or two. */
  lemma SmallRecord(kind: nat, id: nat, v: nat, c: nat, left: nat, right: nat)
    requires kind < 10 && id < 10 && v < 10 && c < 100 && left < 10 && right < 10
    ensures var chars := if c < 10 then [48 + c] else [48 + c / 10, 48 + c % 10];
            RecordText(Record(kind, id, v, c, left, right))
            == [48 + kind, 32, 48 + id, 32, 48 + v, 32] + chars + [32, 48 + left, 32, 48 + right, 44]
  {
    hide PrintInt, RecordText;
    RowOf(Record(kind, id, v, c, left, right));
    OneDigit(kind);
    OneDigit(id);
    OneDigit(v);
    OneDigit(left);
    OneDigit(right);
    if c < 10 { OneDigit(c); } else { TwoDigits(c); }
  }

  lemma ThreeRecords(a: Record, b: Record, c: Record)
    ensures Flat([a, b, c], RecordText) == RecordText(a) + RecordText(b) + RecordText(c)
  {
    hide RecordText, Flat;
    assert [a, b, c] == [a] + ([b] + [c]);
    FlatConcat([a], [b] + [c], RecordText);
    FlatConcat([b], [c], RecordText);
    FlatOne(a, RecordText);
    FlatOne(b, RecordText);
    FlatOne(c, RecordText);
  }

  lemma AabText(t: Tree)
    requires t == Node(3, Frequency(3, 0), Leaf(2, Frequency(1, 98)), Leaf(1, Frequency(2, 97)))
    ensures TreeAsText(t)
         == [35] + [49, 32, 50, 32, 49, 32, 57, 56, 32, 48, 32, 48, 44]
            + [49, 32, 49, 32, 50, 32, 57, 55, 32, 48, 32, 48, 44]
            + [48, 32, 51, 32, 51, 32, 48, 32, 50, 32, 49, 44] + [35]
  {
    hide RecordText, Flat;
    assert Records(t) == [Record(1, 2, 1, 98, 0, 0), Record(1, 1, 2, 97, 0, 0), Record(0, 3, 3, 0, 2, 1)];
    ThreeRecords(Record(1, 2, 1, 98, 0, 0), Record(1, 1, 2, 97, 0, 0), Record(0, 3, 3, 0, 2, 1));
    SmallRecord(1, 2, 1, 98, 0, 0);
    SmallRecord(1, 1, 2, 97, 0, 0);
    SmallRecord(0, 3, 3, 0, 2, 1);
  }

  lemma ThreeBits()
    ensures Pack([0, 0, 1]) == [241]
  {
    assert Repeat(1, 4) + [0] + [0, 0, 1] == [1, 1, 1, 1, 0, 0, 0, 1];
  }

  /** The file of "aab" is "#1 2 1 98 0 0,1 1 2 97 0 0,0 3 3 0 2 1,#" and the byte 0xF1. */
  lemma FileOfAab(file: seq<byte>, t: Tree)
    requires FileOf(file, t, Aab())
    ensures file
         == [35] + [49, 32, 50, 32, 49, 32, 57, 56, 32, 48, 32, 48, 44]
            + [49, 32, 49, 32, 50, 32, 57, 55, 32, 48, 32, 48, 44]
            + [48, 32, 51, 32, 51, 32, 48, 32, 50, 32, 49, 44] + [35] + [241]
  {
    hide CodeTree, Numbered, TreeAsText, EncodeText, Pack, Codes, Aab;
    var bound :| Numbered(t, Aab(), 1, bound);
    AabTree(t, bound);
    AabBits(t);
    AabText(t);
    ThreeBits();
  }
}
