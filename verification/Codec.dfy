/** The two programs: huffc writes a tree and the codes of a text, huffd reads them back. */
module Codec {
  import opened Bytes
  import opened Options
  import opened HuffmanTree
  import opened TreeNodes
  import opened Huffman
  import opened CodeTable
  import opened CodeLength
  import opened BitBytes
  import opened BitsIO
  import opened TreeText
  import opened TreeRebuild

  /** The file of a text: the tree, then the packed bits of the codes. */
  ghost predicate FileOf(file: seq<byte>, t: Tree, text: seq<byte>) {
    && CodeTree(t, Entries(text, NUMBER_OF_CHARS)) && (exists bound :: Numbered(t, text, 1, bound))
    && (forall b :: b in text ==> b in Codes(t, []))
    && file == TreeAsText(t) + Pack(EncodeText(t, text))
  }

  /** bits_io_write_tree: the number of nodes, or -1 for a file that is not being written. */
  method WriteTree(bfile: BitsIOFile, n: TreeNode, ghost t: Tree, ghost s: set<TreeNode>) returns (r: int)
    requires Rep(n, t, s) && bfile.Writing() && bfile.AllBits() == []
    modifies bfile`base, bfile.fp`data
    ensures r == Size(t) && bfile.Writing() && bfile.AllBits() == []
    ensures bfile.base == old(bfile.base) + TreeAsText(t)
  {
    if bfile.mode != 'w' {
      return -1;
    }
    assert bfile.fp.data == bfile.base;
    Serialize(n, bfile.fp, t, s);
    bfile.base := bfile.fp.data;
    r := TreeSize(n, t, s);
  }

  /** The codes of the characters seen so far. */
  lemma {:induction false} EncodeTextMore(t: Tree, text: seq<byte>, ch: byte)
    requires forall b :: b in text + [ch] ==> b in Codes(t, [])
    ensures forall b :: b in text ==> b in Codes(t, [])
    ensures EncodeText(t, text + [ch]) == EncodeText(t, text) + CodeOf(t, ch)
  {
    forall b | b in text ensures b in Codes(t, []) { assert b in text + [ch]; }
    assert ch in text + [ch];
    if text == [] {
      assert text + [ch] == [ch];
    } else {
      assert (text + [ch])[1..] == text[1..] + [ch];
      EncodeTextMore(t, text[1..], ch);
    }
  }

  /** The inner loop of encoder_encode. */
  method WriteCode(bfile: BitsIOFile, code: seq<Bit>) returns (ok: bool)
    requires bfile.Writing()
    modifies bfile, bfile.fp`data
    ensures ok && bfile.Writing() && bfile.base == old(bfile.base) && bfile.AllBits() == old(bfile.AllBits()) + code
  {
    hide BitsIOFile.Writing;
    var p := 0;
    while p < |code|
      invariant 0 <= p <= |code|
      invariant bfile.Writing() && bfile.base == old(bfile.base)
      invariant bfile.AllBits() == old(bfile.AllBits()) + code[..p]
    {
      var r := bfile.WriteBit(code[p]);
      if r == EOF {
        return false;
      }
      assert code[..p + 1] == code[..p] + [code[p]];
      p := p + 1;
    }
    assert code[..p] == code;
    ok := true;
  }

  datatype Encoding = NoTree | NullCode(ch: byte) | Encoded(count: nat)

  /** `ch` is the first character of the text that has no code. */
  ghost predicate FirstWithout(t: Tree, text: seq<byte>, ch: byte) {
    exists i :: IsFirstWithout(t, text, ch, i)
  }

  ghost predicate IsFirstWithout(t: Tree, text: seq<byte>, ch: byte, i: int) {
    && 0 <= i < |text| && text[i] == ch && ch !in Codes(t, [])
    && forall j :: 0 <= j < i ==> text[j] in Codes(t, [])
  }

  /** The outer loop of encoder_encode: a character without a code makes it read through NULL. */
  method WriteText(bfile: BitsIOFile, etab: EncodeTable, text: seq<byte>, ghost t: Tree) returns (r: Encoding)
    requires bfile.Writing() && bfile.AllBits() == [] && etab.Holds(t)
    modifies bfile, bfile.fp`data
    ensures bfile.Writing() && bfile.base == old(bfile.base)
    ensures if forall b :: b in text ==> b in Codes(t, [])
            then r == Encoded(|text|) && bfile.AllBits() == EncodeText(t, text)
            else r.NullCode? && FirstWithout(t, text, r.ch)
  {
    hide Codes, CodeOf, BitsIOFile.Writing;
    var i := 0;
    while i < |text|
      invariant 0 <= i <= |text|
      invariant bfile.Writing() && bfile.base == old(bfile.base)
      invariant forall b :: b in text[..i] ==> b in Codes(t, [])
      invariant bfile.AllBits() == EncodeText(t, text[..i])
    {
      var code := etab.BitEncode(text[i], t);
      if code.None? {
        assert forall j :: 0 <= j < i ==> text[j] in text[..i];
        assert IsFirstWithout(t, text, text[i], i);
        return NullCode(text[i]);
      }
      assert text[..i + 1] == text[..i] + [text[i]];
      EncodeTextMore(t, text[..i], text[i]);
      var ok := WriteCode(bfile, code.value);
      i := i + 1;
    }
    assert text[..i] == text;
    r := Encoded(i);
  }

  /** encoder_encode and encoder_free, for the tree `t`. */
  method EncodeWith(root: TreeNode, text: seq<byte>, ghost t: Tree, ghost s: set<TreeNode>)
    returns (r: Encoding, file: seq<byte>)
    requires Rep(root, t, s)
    ensures if forall b :: b in text ==> b in Codes(t, [])
            then r == Encoded(|text|) && file == TreeAsText(t) + Pack(EncodeText(t, text))
            else r.NullCode? && FirstWithout(t, text, r.ch)
  {
    hide Rep, EncodeText, Codes, Pack, TreeAsText;
    var etab := new EncodeTable(root, t, s);
    var fp := new File([]);
    var bfile := new BitsIOFile(fp, 'w');
    var _ := WriteTree(bfile, root, t, s);
    assert bfile.base == TreeAsText(t);
    r := WriteText(bfile, etab, text, t);
    var _ := bfile.CloseWriter();
    file := fp.data;
  }

  /** huffc. An input with nothing to count gives no tree. A byte 0xFF is not counted, so it
      has no code and encoding stops there; otherwise the file of the text is written. */
  method Compress(text: seq<byte>) returns (r: Encoding, file: seq<byte>)
    ensures r.NoTree? <==> Counted(text) == []
    ensures r.NullCode? <==> Counted(text) != [] && 255 in text
    ensures r.NullCode? ==> r.ch == 255
    ensures r.Encoded? ==> r.count == |text| && exists t :: FileOf(file, t, text)
  {
    hide EncodeText, Codes, Pack, TreeAsText, Counted;
    var source := new IdSource();
    var root, t, s := HuffmanBuildTree(text, source);
    if root == null {
      CountedAll(text);
      return NoTree, [];
    }
    assert TreeFor(t, Counted(text));
    AllHaveCodes(t, text);
    r, file := EncodeWith(root, text, t, s);
    if r.NullCode? { FirstIs255(t, text, r.ch); }
    assert r.Encoded? ==> FileOf(file, t, text);
  }

  /** Every character of the text has a code exactly when none was left uncounted. */
  lemma AllHaveCodes(t: Tree, text: seq<byte>)
    requires TreeFor(t, Counted(text))
    ensures (forall b :: b in text ==> b in Codes(t, [])) <==> Counted(text) == text
    ensures Counted(text) == text <==> 255 !in text
  {
    TreeForCodes(t, Counted(text));
    CountedStops(text);
    CountedAll(text);
  }

  /** The first character without a code is 0xFF, where counting stopped. */
  lemma FirstIs255(t: Tree, text: seq<byte>, ch: byte)
    requires TreeFor(t, Counted(text)) && FirstWithout(t, text, ch)
    ensures ch == 255
  {
    hide Counted, Codes, TreeFor;
    TreeForCodes(t, Counted(text));
    var p := FirstEof(text);
    var i :| IsFirstWithout(t, text, ch, i);
    CountedUpTo(text, p);
    assert forall j :: 0 <= j < p ==> text[j] in text[..p];
  }

  /** decode_one: the walk of the table's codes, bit by bit. */
  method DecodeOne(bfile: BitsIOFile, tree: TreeNode, ghost t: Tree, ghost s: set<TreeNode>) returns (ch: int)
    requires Rep(tree, t, s) && bfile.Reading()
    modifies bfile, bfile.fp`pos
    ensures bfile.Reading()
    ensures match WalkDown(t, old(bfile.Remaining()))
            case Stuck => ch == EOF
            case Reached(c, used) => ch == c && bfile.Remaining() == old(bfile.Remaining())[used..]
  {
    hide Unpack, BitsIOFile.Reading;
    var p := tree;
    ghost var u, all, i := t, bfile.Remaining(), 0;
    assert all[0..] == all;
    while p.kind != LEAF
      invariant bfile.Reading() && Rep(p, u, s)
      invariant 0 <= i <= |all| && bfile.Remaining() == all[i..]
      invariant WalkDown(t, all) == Later(WalkDown(u, all[i..]), i)
      decreases u
    {
      var bit := bfile.ReadBit();
      if bit == EOF {
        return EOF;
      } else if bit == 1 {
        p, u := p.left, u.left;
      } else {
        p, u := p.right, u.right;
      }
      i := i + 1;
    }
    ch := p.freq.c;
  }

  ghost function Later(w: Walk, i: nat): Walk {
    if w.Stuck? then Stuck else Reached(w.c, w.used + i)
  }

  /** decoder_decode: characters until decode_one returns EOF. */
  method DecodeText(bfile: BitsIOFile, tree: TreeNode, ghost t: Tree, ghost s: set<TreeNode>) returns (out: seq<byte>)
    requires Rep(tree, t, s) && t.Node? && bfile.Reading()
    modifies bfile, bfile.fp`pos
    ensures out == DecodeBits(t, old(bfile.Remaining()))
  {
    hide DecodeBits, Unpack, Rep;
    out := [];
    var ch := 0;
    ghost var all := bfile.Remaining();
    while ch != EOF
      invariant bfile.Reading()
      invariant out + (if ch == EOF then [] else DecodeBits(t, bfile.Remaining())) == DecodeBits(t, all)
      decreases ch != EOF, |bfile.Remaining()|
    {
      DecodeStep(t, bfile.Remaining(), out);
      ch := DecodeOne(bfile, tree, t, s);
      if ch != EOF {
        out := out + [ToByte(ch)];
      }
    }
  }

  lemma DecodeStep(t: Tree, bits: seq<Bit>, out: seq<byte>)
    requires t.Node?
    ensures var w := WalkDown(t, bits);
            var stops := w.Stuck? || w.c == EOF;
            && (stops ==> DecodeBits(t, bits) == [])
            && (!stops ==> out + DecodeBits(t, bits) == out + [ToByte(w.c)] + DecodeBits(t, bits[w.used..]))
  {
  }

  /** The file holds a tree and, after it, bytes the writer may have packed. */
  ghost predicate HoldsTree(file: seq<byte>, t: Tree, payload: seq<byte>) {
    GoodIds(t) && CharsFit(t) && Packed(payload) && ParseTree(file) == Parsed(Records(t), payload)
  }

  datatype Decoding = NullTree | NullList | Decoded(text: seq<byte>)

  /** huffd, for a file that holds a tree: a tree that is one leaf makes it crash, and any
      other is followed until the bits run out. */
  method Expand(file: seq<byte>, ghost t: Tree, ghost payload: seq<byte>) returns (r: Decoding)
    requires HoldsTree(file, t, payload)
    ensures r == if t.Node? then Decoded(DecodeBits(t, Unpack(payload))) else NullList
  {
    hide Rep, DecodeBits, Rebuilt, ParseTree, GoodIds, CharsFit, Records, Packed, UniqueIds, Unpack;
    var fp := new File(file);
    var bfile := new BitsIOFile(fp, 'r');
    var source := new IdSource();
    assert fp.Rest() == file;
    HeldTreeHasUniqueIds(file, t);
    var outcome, root, nodes := Deserialize(fp, source);
    TreeIsRebuilt(file, t, payload, fp.Rest(), outcome, root, nodes);
    if outcome == ReturnsNull {
      return NullTree;
    }
    if outcome == Crashes {
      return NullList;
    }
    assert bfile.Remaining() == Unpack(payload) by {
      assert [] + Unpack(payload) == Unpack(payload);
    }
    var text := DecodeText(bfile, root, t, nodes.Values);
    r := Decoded(text);
  }

  /** huffd on a file that does not parse: the tree is NULL and nothing is decoded. */
  method ExpandMalformed(file: seq<byte>) returns (r: Decoding)
    requires ParseTree(file).Malformed? && UniqueIds(Scanned(file))
    ensures r == NullTree
  {
    var fp := new File(file);
    var source := new IdSource();
    assert fp.Rest() == file;
    var outcome, root, nodes := Deserialize(fp, source);
    r := if outcome == ReturnsNull then NullTree else NullList;
  }

  lemma HeldTreeHasUniqueIds(file: seq<byte>, t: Tree)
    requires GoodIds(t) && ParseTree(file).Parsed? && ParseTree(file).records == Records(t)
    ensures UniqueIds(Scanned(file))
  {
    ScannedIsParsed(file[1..]);
    TreeUniqueIds(t);
  }

  /** At least two different characters. */
  ghost predicate TwoDistinct(text: seq<byte>) {
    exists a, b :: a in text && b in text && a != b
  }

  lemma {:induction false} SomeCode(t: Tree) returns (ch: byte)
    ensures ch in Codes(t, [])
  {
    if t.Leaf? { ch := ToByte(t.freq.c); } else { ch := SomeCode(t.left); CodeOfNode(t, ch); }
  }

  /** The tree has an internal root exactly when the text has two different characters. */
  lemma RootIsInternal(t: Tree, text: seq<byte>)
    requires TreeFor(t, text)
    ensures t.Node? <==> TwoDistinct(text)
  {
    TreeForCodes(t, text);
    if t.Node? {
      var a := SomeCode(t.left);
      var b := SomeCode(t.right);
      CodeOfNode(t, a);
      CodeOfNode(t, b);
      assert a in text && b in text && a != b;
    } else {
      forall a | a in text ensures a == ToByte(t.freq.c) {
        assert a in Codes(t, []);
      }
    }
  }

  lemma {:induction false} BuiltCharsFit(t: Tree)
    requires SignedChars(t) && Summed(t)
    ensures CharsFit(t)
  {
    if t.Node? {
      BuiltCharsFit(t.left);
      BuiltCharsFit(t.right);
    }
  }

  /** What huffd finds in the file huffc wrote. */
  lemma FileHoldsTree(file: seq<byte>, t: Tree, text: seq<byte>)
    requires FileOf(file, t, text)
    ensures HoldsTree(file, t, Pack(EncodeText(t, text)))
    ensures Unpack(Pack(EncodeText(t, text))) == EncodeText(t, text)
    ensures 255 !in text && t.Node? ==> DecodeBits(t, EncodeText(t, text)) == text
    ensures t.Node? <==> TwoDistinct(text)
  {
    assert TreeFor(t, text);
    TreeForCodes(t, text);
    BuiltCharsFit(t);
    UnpackPack(EncodeText(t, text));
    ParsePrintedTree(t, Pack(EncodeText(t, text)));
    RootIsInternal(t, text);
    if 255 !in text && t.Node? { DecodeEncodeText(t, text); }
  }

  /** What the file costs: after the tree come as many bits as the internal nodes' frequencies
      add up to, seven to a byte, and no tree for the text would take fewer bytes. The root
      counts the text. */
  lemma PayloadSize(file: seq<byte>, t: Tree, text: seq<byte>, u: Tree)
    requires FileOf(file, t, text) && TreeFor(u, text)
    ensures t.freq.v == |text|
    ensures |file| == |TreeAsText(t)| + (InternalSum(t) + 6) / 7
    ensures forall b :: b in text ==> b in Codes(u, [])
    ensures |file| - |TreeAsText(t)| <= |Pack(EncodeText(u, text))|
  {
    assert TreeFor(t, text);
    EncodedLengthIsInternalSum(t, text);
    ShortestEncoding(t, u, text);
    UnpackPack(EncodeText(t, text));
    UnpackPack(EncodeText(u, text));
  }

  /** huffc, then huffd on its output. */
  datatype Trip = Refused(why: Encoding) | Finished(what: Decoding)

  /** The round trip gives the input back if and only if the input has at least two different
      bytes and no byte 0xFF. Otherwise one of the programs stops: huffc without a tree or at
      the first 0xFF, or huffd on the tree of a single character. */
  method CompressThenExpand(text: seq<byte>) returns (r: Trip)
    ensures r == Finished(Decoded(text)) <==> 255 !in text && TwoDistinct(text)
    ensures Counted(text) == [] ==> r == Refused(NoTree)
    ensures Counted(text) != [] && 255 in text ==> r == Refused(NullCode(255))
    ensures Counted(text) != [] && 255 !in text && !TwoDistinct(text) ==> r == Finished(NullList)
  {
    var e, file := Compress(text);
    CountedAll(text);
    NothingCounted(text);
    if !e.Encoded? {
      return Refused(e);
    }
    ghost var t :| FileOf(file, t, text);
    FileHoldsTree(file, t, text);
    var d := Expand(file, t, Pack(EncodeText(t, text)));
    r := Finished(d);
  }

  lemma NothingCounted(text: seq<byte>)
    ensures Counted(text) == [] && 255 !in text ==> !TwoDistinct(text)
  {
    CountedAll(text);
  }
}
