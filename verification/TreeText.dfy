/** The text form of a tree: '#', one record a node with children first, '#'. */
module TreeText {
  import opened Bytes
  import opened Options
  import opened Sequences
  import opened HuffmanTree
  import opened TreeNodes
  import opened BitsIO

  const HASH: byte := 35
  const COMMA: byte := 44
  const SPACE: byte := 32
  const MINUS: byte := 45
  const PLUS: byte := 43

  predicate IsDigit(b: byte) {
    48 <= b <= 57
  }

  predicate IsSpace(b: byte) {
    b == 32 || 9 <= b <= 13
  }

  /** `r` is what is left of `s` after something was read. */
  predicate Suffix(r: seq<byte>, s: seq<byte>) {
    |r| <= |s| && r == s[|s| - |r|..]
  }

  lemma SuffixOfSuffix(q: seq<byte>, r: seq<byte>, s: seq<byte>)
    requires Suffix(q, r) && Suffix(r, s)
    ensures Suffix(q, s)
  {
  }

  function LastDigit(n: nat): (d: byte)
    ensures IsDigit(d) && n == 10 * (n / 10) + d - 48
  {
    48 + n % 10
  }

  /** fprintf of a non-negative "%d". */
  function Digits(n: nat): seq<byte> {
    if n < 10 then [LastDigit(n)] else Digits(n / 10) + [LastDigit(n)]
  }

  /** fprintf of "%d". */
  function PrintInt(n: int): seq<byte> {
    if n < 0 then [MINUS] + Digits(-n) else Digits(n)
  }

  /** The digits at the front of `s` continue the number `acc`; what follows them is left. */
  function ScanDigits(s: seq<byte>, acc: nat): (r: (nat, seq<byte>))
    ensures Suffix(r.1, s)
  {
    if s == [] || !IsDigit(s[0]) then (acc, s) else ScanDigits(s[1..], 10 * acc + s[0] - 48)
  }

  function SkipSpace(s: seq<byte>): (r: seq<byte>)
    ensures Suffix(r, s)
  {
    if s == [] || !IsSpace(s[0]) then s else SkipSpace(s[1..])
  }

  /** A sign and at least one digit. */
  function ScanSigned(a: seq<byte>): (r: Option<(int, seq<byte>)>)
    ensures r.Some? ==> Suffix(r.value.1, a) && |r.value.1| < |a|
  {
    if a == [] then None
    else if a[0] == MINUS then
      match ScanNumber(a[1..])
      case None => None
      case Some((n, rest)) => Some((-n, rest))
    else ScanNumber(if a[0] == PLUS then a[1..] else a)
  }

  function ScanNumber(b: seq<byte>): (r: Option<(int, seq<byte>)>)
    ensures r.Some? ==> Suffix(r.value.1, b) && |r.value.1| < |b|
  {
    if b == [] || !IsDigit(b[0]) then None else Some(ScanDigits(b, 0))
  }

  /** fscanf of "%d": white space may come first. */
  function ScanInt(s: seq<byte>): (r: Option<(int, seq<byte>)>)
    ensures r.Some? ==> Suffix(r.value.1, s) && |r.value.1| < |s|
  {
    var a := SkipSpace(s);
    var r := ScanSigned(a);
    if r.Some? then SuffixOfSuffix(r.value.1, a, s); r else r
  }

  /** fprintf of `ns` with "%d", a space between two and a comma at the end. */
  function IntsText(ns: seq<int>): seq<byte> {
    if ns == [] then []
    else PrintInt(ns[0]) + ([Separator(ns)] + IntsText(ns[1..]))
  }

  /** fscanf of `k` numbers: None when fewer are read. */
  function ScanInts(k: nat, s: seq<byte>): (r: Option<(seq<int>, seq<byte>)>)
    ensures r.Some? ==> |r.value.0| == k && Suffix(r.value.1, s) && |r.value.1| + k <= |s|
  {
    if k == 0 then Some(([], s))
    else
      match ScanInt(s)
      case None => None
      case Some((n, s1)) =>
        match ScanInts(k - 1, s1)
        case None => None
        case Some((ns, rest)) =>
          SuffixOfSuffix(rest, s1, s);
          Some(([n] + ns, rest))
  }

  datatype Record = Record(kind: int, id: int, v: int, c: int, left: int, right: int)

  /** fprintf of "%d %d %d %d %d %d,". */
  function RecordText(r: Record): seq<byte> {
    IntsText([r.kind, r.id, r.v, r.c, r.left, r.right])
  }

  /** fscanf of "%d %d %d %d %d %d,": None when fewer than six numbers are read. */
  function ScanRecord(s: seq<byte>): (r: Option<(Record, seq<byte>)>)
    ensures r.Some? ==> Suffix(r.value.1, s) && |r.value.1| < |s|
  {
    match ScanInts(6, s)
    case None => None
    case Some((ns, t)) =>
      var rest := if t != [] && t[0] == COMMA then t[1..] else t;
      SuffixOfSuffix(rest, t, s);
      Some((Record(ns[0], ns[1], ns[2], ns[3], ns[4], ns[5]), rest))
  }

  lemma ScanDigitStep(d: byte, rest: seq<byte>, acc: nat)
    requires IsDigit(d)
    ensures ScanDigits([d] + rest, acc) == ScanDigits(rest, 10 * acc + d - 48)
  {
    hide Suffix;
    assert ([d] + rest)[1..] == rest;
  }

  /** Reading the printed digits of n leaves the rest to be read with n accumulated. */
  lemma {:induction false} ScanDigitsBack(n: nat, rest: seq<byte>)
    ensures ScanDigits(Digits(n) + rest, 0) == ScanDigits(rest, n)
  {
    hide ScanDigits, Digits;
    DigitsSplit(n, rest);
    if n < 10 {
      ScanDigitStep(LastDigit(n), rest, 0);
    } else {
      var m, d := n / 10, LastDigit(n);
      ScanDigitsBack(m, [d] + rest);
      ScanDigitStep(d, rest, m);
    }
  }

  lemma DigitsSplit(n: nat, rest: seq<byte>)
    ensures n < 10 ==> Digits(n) == [LastDigit(n)]
    ensures n >= 10 ==> Digits(n) + rest == Digits(n / 10) + ([LastDigit(n)] + rest)
  {
  }

  lemma {:induction false} DigitsStart(n: nat)
    ensures Digits(n) != [] && IsDigit(Digits(n)[0])
  {
    if n >= 10 { DigitsStart(n / 10); }
  }

  lemma ScanPrintedDigits(m: nat, rest: seq<byte>)
    requires rest != [] && !IsDigit(rest[0])
    ensures ScanNumber(Digits(m) + rest) == Some((m, rest))
  {
    ScanDigitsBack(m, rest);
    DigitsStart(m);
  }

  lemma SkipNoSpace(p: seq<byte>)
    requires p != [] && !IsSpace(p[0])
    ensures SkipSpace(p) == SkipSpace([SPACE] + p) == p
  {
    assert ([SPACE] + p)[1..] == p;
  }

  lemma ScanPrintedSigned(n: int, rest: seq<byte>)
    requires rest != [] && !IsDigit(rest[0])
    ensures var p := PrintInt(n) + rest;
            p != [] && !IsSpace(p[0]) && ScanSigned(p) == Some((n, rest))
  {
    hide Suffix, ScanNumber;
    var m := if n < 0 then -n else n;
    ScanPrintedDigits(m, rest);
    DigitsStart(m);
    if n < 0 {
      assert PrintInt(n) + rest == [MINUS] + (Digits(m) + rest);
      assert ([MINUS] + (Digits(m) + rest))[1..] == Digits(m) + rest;
    }
  }

  /** Reading a printed number gives it back, and stops at the first byte that is no digit. */
  lemma ScanPrintedInt(n: int, rest: seq<byte>)
    requires rest != [] && !IsDigit(rest[0])
    ensures ScanInt(PrintInt(n) + rest) == Some((n, rest))
    ensures ScanInt([SPACE] + (PrintInt(n) + rest)) == Some((n, rest))
  {
    ScanPrintedSigned(n, rest);
    SkipNoSpace(PrintInt(n) + rest);
  }

  lemma ScanIntsStep(ns: seq<int>, s: seq<byte>, s1: seq<byte>, end: seq<byte>)
    requires ns != [] && ScanInt(s) == Some((ns[0], s1))
    requires ScanInts(|ns| - 1, s1) == Some((ns[1..], end))
    ensures ScanInts(|ns|, s) == Some((ns, end))
  {
    HeadTail(ns);
  }

  function Separator(ns: seq<int>): byte {
    if |ns| == 1 then COMMA else SPACE
  }

  lemma NoInts(ns: seq<int>, s: seq<byte>)
    requires ns == []
    ensures IntsText(ns) == [] && ScanInts(0, s) == Some((ns, s))
  {
  }

  /** What follows the first printed number. */
  lemma {:induction false} ScanLaterInts(ns: seq<int>, rest: seq<byte>)
    requires ns != []
    ensures ScanInts(|ns| - 1, [Separator(ns)] + (IntsText(ns[1..]) + rest)) == Some((ns[1..], [COMMA] + rest))
    decreases |ns|, 0
  {
    hide ScanInts, IntsText;
    if |ns| == 1 {
      NoInts(ns[1..], [COMMA] + rest);
      assert [] + rest == rest;
    } else {
      ScanPrintedInts(ns[1..], rest);
    }
  }

  /** Printed numbers read back, and the stream is left at their final comma. */
  lemma {:induction false} ScanPrintedInts(ns: seq<int>, rest: seq<byte>)
    requires ns != []
    ensures ScanInts(|ns|, IntsText(ns) + rest) == Some((ns, [COMMA] + rest))
    ensures ScanInts(|ns|, [SPACE] + (IntsText(ns) + rest)) == Some((ns, [COMMA] + rest))
    decreases |ns|, 1
  {
    var s1: seq<byte> := [Separator(ns)] + (IntsText(ns[1..]) + rest);
    ScanLaterInts(ns, rest);
    ScanPrintedInt(ns[0], s1);
    ScanIntsStep(ns, PrintInt(ns[0]) + s1, s1, [COMMA] + rest);
    ScanIntsStep(ns, [SPACE] + (PrintInt(ns[0]) + s1), s1, [COMMA] + rest);
    IntsTextSplit(ns, rest);
  }

  lemma IntsTextSplit(ns: seq<int>, rest: seq<byte>)
    requires ns != []
    ensures IntsText(ns) + rest == PrintInt(ns[0]) + ([Separator(ns)] + (IntsText(ns[1..]) + rest))
  {
  }

  /** A printed record reads back, and the stream is left just after its comma. */
  lemma ScanPrintedRecord(r: Record, rest: seq<byte>)
    ensures ScanRecord(RecordText(r) + rest) == Some((r, rest))
  {
    ScanPrintedInts([r.kind, r.id, r.v, r.c, r.left, r.right], rest);
    assert ([COMMA] + rest)[1..] == rest;
  }

  /** The record of a node: its children are given by their ids, 0 for none. */
  function RecordOf(t: Tree): Record {
    match t
    case Leaf(id, f) => Record(1, id, f.v, f.c, 0, 0)
    case Node(id, f, l, r) => Record(0, id, f.v, f.c, l.id, r.id)
  }

  /** The records in the order they are written: children before their parent. */
  ghost function Records(t: Tree): seq<Record> {
    match t
    case Leaf(_, _) => [RecordOf(t)]
    case Node(_, _, l, r) => Records(l) + Records(r) + [RecordOf(t)]
  }

  ghost function TreeAsText(t: Tree): seq<byte> {
    [HASH] + Flat(Records(t), RecordText) + [HASH]
  }

  /** What the reader makes of the text: the records up to the closing '#' and what follows
      it, or Malformed where the program returns NULL. */
  datatype Parse = Malformed | Parsed(records: seq<Record>, rest: seq<byte>)

  /** Where reading goes on after a record that the closing '#' does not follow: the next byte is
      pushed back, except that 0xFF is EOF once it is a signed `char` and so is lost. */
  function Resumed(s: seq<byte>): (r: seq<byte>)
    ensures |r| <= |s|
  {
    if s != [] && ToSigned(s[0]) == EOF then s[1..] else s
  }

  ghost function ParseRecords(s: seq<byte>): Parse
    decreases |s|
  {
    match ScanRecord(s)
    case None => Malformed
    case Some((r, s1)) =>
      if s1 != [] && s1[0] == HASH then Parsed([r], s1[1..])
      else
        match ParseRecords(Resumed(s1))
        case Malformed => Malformed
        case Parsed(rs, rest) => Parsed([r] + rs, rest)
  }

  ghost function ParseTree(s: seq<byte>): Parse {
    if s != [] && s[0] == HASH then ParseRecords(s[1..]) else Malformed
  }

  lemma RecordTextStart(r: Record)
    ensures RecordText(r) != [] && RecordText(r)[0] != HASH && ToSigned(RecordText(r)[0]) != EOF
  {
    DigitsStart(if r.kind < 0 then -r.kind else r.kind);
    var p := PrintInt(r.kind);
    assert p != [] && p[0] != HASH;
  }

  lemma ParseLast(s: seq<byte>, r: Record, s1: seq<byte>)
    requires ScanRecord(s) == Some((r, s1)) && s1 != [] && s1[0] == HASH
    ensures ParseRecords(s) == Parsed([r], s1[1..])
  {
  }

  lemma ParseMore(s: seq<byte>, r: Record, s1: seq<byte>, rs: seq<Record>, rest: seq<byte>)
    requires ScanRecord(s) == Some((r, s1)) && (s1 == [] || s1[0] != HASH)
    requires ParseRecords(Resumed(s1)) == Parsed(rs, rest)
    ensures ParseRecords(s) == Parsed([r] + rs, rest)
  {
  }

  lemma {:induction false} ParsePrintedRecords(rs: seq<Record>, rest: seq<byte>)
    requires rs != []
    ensures ParseRecords(Flat(rs, RecordText) + ([HASH] + rest)) == Parsed(rs, rest)
  {
    hide ScanRecord, ParseRecords, RecordText;
    var r, later := rs[0], rs[1..];
    var end := [HASH] + rest;
    var s1 := Flat(later, RecordText) + end;
    assert Flat(rs, RecordText) + end == RecordText(r) + s1;
    ScanPrintedRecord(r, s1);
    if later == [] {
      assert s1 == end && end[1..] == rest;
      HeadTail(rs);
      ParseLast(RecordText(r) + s1, r, s1);
    } else {
      RecordTextStart(later[0]);
      assert s1[0] == RecordText(later[0])[0];
      ParsePrintedRecords(later, rest);
      ParseMore(RecordText(r) + s1, r, s1, later, rest);
      HeadTail(rs);
    }
  }

  /** The text printed for a tree reads back as its records, and the stream is left exactly
      at the first byte after the closing '#'. */
  lemma ParsePrintedTree(t: Tree, rest: seq<byte>)
    ensures ParseTree(TreeAsText(t) + rest) == Parsed(Records(t), rest)
  {
    var s := Flat(Records(t), RecordText) + ([HASH] + rest);
    assert TreeAsText(t) + rest == [HASH] + s && ([HASH] + s)[1..] == s;
    ParsePrintedRecords(Records(t), rest);
  }

  method PrintRecord(fp: File, r: Record)
    modifies fp`data
    ensures fp.data == old(fp.data) + RecordText(r)
  {
    fp.data := fp.data + RecordText(r);
  }

  /** tree_serialize_rec. */
  method SerializeRec(n: TreeNode, fp: File, ghost t: Tree, ghost s: set<TreeNode>)
    requires Rep(n, t, s)
    modifies fp`data
    ensures fp.data == old(fp.data) + Flat(Records(t), RecordText)
    decreases t
  {
    hide RecordText, Flat;
    var left := if n.left == null then 0 else n.left.id;
    var right := if n.right == null then 0 else n.right.id;
    var kind := if n.kind == LEAF then 1 else 0;
    if n.kind != LEAF {
      if n.left != null { SerializeRec(n.left, fp, t.left, s); }
      if n.right != null { SerializeRec(n.right, fp, t.right, s); }
      FlatConcat(Records(t.left), Records(t.right), RecordText);
      FlatConcat(Records(t.left) + Records(t.right), [RecordOf(t)], RecordText);
    }
    PrintRecord(fp, Record(kind, n.id, n.freq.v, n.freq.c, left, right));
    FlatOne(RecordOf(t), RecordText);
  }

  /** tree_serialize. */
  method Serialize(n: TreeNode, fp: File, ghost t: Tree, ghost s: set<TreeNode>)
    requires Rep(n, t, s)
    modifies fp`data
    ensures fp.data == old(fp.data) + TreeAsText(t)
  {
    hide RecordText, Flat, Records;
    var _ := fp.Putc(HASH);
    SerializeRec(n, fp, t, s);
    var _ := fp.Putc(HASH);
  }

  /** One fscanf of a record: the file position moves just past it. */
  method ScanfRecord(fp: File) returns (r: Option<Record>)
    modifies fp`pos
    ensures fp.data == old(fp.data)
    ensures r.None? <==> ScanRecord(old(fp.Rest())).None?
    ensures r.Some? ==> ScanRecord(old(fp.Rest())) == Some((r.value, fp.Rest()))
  {
    if fp.pos > |fp.data| {
      return None;
    }
    var scan := ScanRecord(fp.data[fp.pos..]);
    if scan.None? {
      return None;
    }
    var rest := scan.value.1;
    SuffixOfSuffix(rest, fp.data[fp.pos..], fp.data);
    fp.pos := |fp.data| - |rest|;
    r := Some(scan.value.0);
  }
}
