/** What the text of a tree looks like, byte by byte, and which texts are read as one. */
module TreeFormat {
  import opened Bytes
  import opened Options
  import opened HuffmanTree
  import opened TreeText
  import opened Sequences

  /** The value of decimal digits. */
  ghost function Value(ds: seq<byte>): nat
    requires AllDigits(ds)
  {
    if ds == [] then 0
    else
      var n := |ds| - 1;
      assert forall i :: 0 <= i < n ==> ds[..n][i] == ds[i];
      10 * Value(ds[..n]) + ds[n] - 48
  }

  ghost predicate AllDigits(ds: seq<byte>) {
    forall i :: 0 <= i < |ds| ==> 48 <= ds[i] <= 57
  }

  /** `p` is the usual decimal form of `n`: '-' (byte 45) stands first exactly when n is negative;
      the rest are digits without a leading zero, and their value is the magnitude. */
  ghost predicate Decimal(p: seq<byte>, n: int) {
    && p != [] && (p[0] == 45 <==> n < 0)
    && var ds := if n < 0 then p[1..] else p;
       ds != [] && AllDigits(ds) && (|ds| > 1 ==> ds[0] != 48) && Value(ds) == if n < 0 then -n else n
  }

  /** Each further digit multiplies the value by ten. */
  lemma ValueMore(ds: seq<byte>, d: byte)
    requires AllDigits(ds) && 48 <= d <= 57
    ensures Value([]) == 0 && AllDigits(ds + [d]) && Value(ds + [d]) == 10 * Value(ds) + d - 48
  {
    assert (ds + [d])[..|ds|] == ds;
  }

  lemma {:induction false} DigitsAre(n: nat)
    ensures Digits(n) != [] && AllDigits(Digits(n)) && Value(Digits(n)) == n
    ensures |Digits(n)| > 1 ==> Digits(n)[0] != 48
    ensures n > 0 ==> Digits(n)[0] != 48
  {
    ValueMore([], LastDigit(n));
    if n < 10 {
      assert [] + [LastDigit(n)] == [LastDigit(n)];
    } else {
      DigitsAre(n / 10);
      ValueMore(Digits(n / 10), LastDigit(n));
    }
  }

  /** Digits without a leading zero are determined by their value. */
  lemma {:induction false} DigitsUnique(ds: seq<byte>)
    requires ds != [] && AllDigits(ds) && (|ds| > 1 ==> ds[0] != 48)
    ensures ds == Digits(Value(ds))
    ensures ds[0] != 48 ==> Value(ds) > 0
  {
    var n := |ds| - 1;
    var rest, d := ds[..n], ds[n];
    assert ds == rest + [d] && AllDigits(rest);
    ValueMore(rest, d);
    if rest == [] {
      ValueMore([], d);
    } else {
      assert rest[0] == ds[0];
      DigitsUnique(rest);
    }
  }

  /** fprintf of "%d" writes the decimal form of the number, and nothing else is one. */
  lemma PrintIntIsDecimal(n: int, p: seq<byte>)
    ensures p == PrintInt(n) <==> Decimal(p, n)
  {
    var m := if n < 0 then -n else n;
    DigitsAre(m);
    if Decimal(p, n) {
      DigitsUnique(if n < 0 then p[1..] else p);
      if n < 0 { HeadTail(p); }
    }
  }

  /** `p` is some spelling of `n` that fscanf takes for "%d": white space, then '+' (byte 43),
      '-' or no sign, then digits, leading zeros allowed. */
  ghost predicate Spelled(p: seq<byte>, n: int) {
    exists i, j :: SpelledAt(p, n, i, j)
  }

  ghost predicate SpelledAt(p: seq<byte>, n: int, i: int, j: int) {
    && 0 <= i <= j < |p| && (forall h :: 0 <= h < i ==> p[h] == 32 || 9 <= p[h] <= 13)
    && (j == i || (j == i + 1 && (p[i] == 43 || p[i] == 45)))
    && AllDigits(p[j..]) && n == if p[i] == 45 then -(Value(p[j..]) as int) else Value(p[j..])
  }

  lemma {:induction false} SpacesEnd(s: seq<byte>) returns (i: nat)
    ensures i <= |s| && SkipSpace(s) == s[i..]
    ensures forall h :: 0 <= h < i ==> IsSpace(s[h])
    ensures i < |s| ==> !IsSpace(s[i])
  {
    if s == [] || !IsSpace(s[0]) {
      i := 0;
    } else {
      var k := SpacesEnd(s[1..]);
      i := k + 1;
      assert forall h :: 0 < h < i ==> s[h] == s[1..][h - 1];
    }
  }

  lemma OneFurther(read: seq<byte>, s: seq<byte>, k: nat)
    requires k < |s|
    ensures s[..k + 1] == [s[0]] + s[1..][..k] && s[k + 1..] == s[1..][k..]
    ensures read + s[..k + 1] == read + [s[0]] + s[1..][..k]
  {
  }

  lemma {:induction false} DigitsEnd(read: seq<byte>, s: seq<byte>) returns (m: nat)
    requires AllDigits(read)
    ensures m <= |s| && AllDigits(s[..m]) && (m < |s| ==> !IsDigit(s[m]))
    ensures AllDigits(read + s[..m]) && ScanDigits(s, Value(read)) == (Value(read + s[..m]), s[m..])
    decreases |s|
  {
    hide Value, Suffix;
    if s == [] || !IsDigit(s[0]) {
      m := 0;
      assert read + s[..0] == read;
    } else {
      ValueMore(read, s[0]);
      var rest := s[1..];
      var k := DigitsEnd(read + [s[0]], rest);
      m := k + 1;
      OneFurther(read, s, k);
    }
  }

  lemma ScannedFrom(s: seq<byte>, i: nat, j: nat)
    requires i <= j <= |s| && SkipSpace(s) == s[i..]
    requires j == if i < |s| && (s[i] == 43 || s[i] == 45) then i + 1 else i
    ensures ScanInt(s) == match ScanNumber(s[j..])
                          case None => None
                          case Some((n, rest)) => Some((if i < |s| && s[i] == 45 then -n else n, rest))
  {
    hide ScanNumber, ScanSigned, SkipSpace, Suffix;
    var a := SkipSpace(s);
    AfterSign(a);
    if i < j {
      assert a[0] == s[i] && a[1..] == s[j..];
    } else {
      assert a == s[j..] && (a != [] ==> a[0] == s[i]);
    }
  }

  lemma AfterSign(a: seq<byte>)
    ensures var signed := a != [] && (a[0] == 43 || a[0] == 45);
            ScanSigned(a) == match ScanNumber(if signed then a[1..] else a)
                             case None => None
                             case Some((n, rest)) => Some((if signed && a[0] == 45 then -n else n, rest))
  {
    hide ScanNumber, Suffix;
  }

  /** What is read, and where the spaces, the sign and the digits end. */
  lemma ScanIntAt(s: seq<byte>) returns (i: nat, j: nat, end: nat, v: int)
    ensures i <= j <= end <= |s|
    ensures (forall h :: 0 <= h < i ==> IsSpace(s[h])) && (i < |s| ==> !IsSpace(s[i]))
    ensures j == if i < |s| && (s[i] == 43 || s[i] == 45) then i + 1 else i
    ensures AllDigits(s[j..end]) && (end < |s| ==> !IsDigit(s[end]))
    ensures end > j ==> SpelledAt(s[..end], v, i, j)
    ensures ScanInt(s) == if end == j then None else Some((v, s[end..]))
  {
    hide ScanInt, SkipSpace, ScanDigits, Suffix, Value, AllDigits, SpelledAt;
    i := SpacesEnd(s);
    j := if i < |s| && (s[i] == 43 || s[i] == 45) then i + 1 else i;
    var rest := s[j..];
    assert AllDigits([]) && Value([]) == 0 by { NoDigits(); }
    var k := DigitsEnd([], rest);
    end := j + k;
    assert [] + rest[..k] == rest[..k] == s[j..end] && rest[k..] == s[end..];
    ScannedFrom(s, i, j);
    NumberFrom(s, j, end);
    v := if i < |s| && s[i] == 45 then -(Value(s[j..end]) as int) else Value(s[j..end]);
    if k > 0 { SpelledFrom(s, i, j, end, v); }
  }

  lemma NumberFrom(s: seq<byte>, j: nat, end: nat)
    requires j <= end <= |s| && AllDigits(s[j..end]) && (end < |s| ==> !IsDigit(s[end]))
    requires ScanDigits(s[j..], 0) == (Value(s[j..end]), s[end..])
    ensures ScanNumber(s[j..]) == if end == j then None else Some((Value(s[j..end]) as int, s[end..]))
  {
    hide ScanDigits, Value, Suffix;
    assert j < end ==> s[j..][0] == s[j..end][0];
    assert j < |s| ==> s[j..][0] == s[j];
  }

  lemma NoDigits()
    ensures AllDigits([]) && Value([]) == 0
  {
  }

  lemma SpelledFrom(s: seq<byte>, i: nat, j: nat, end: nat, v: int)
    requires i <= j < end <= |s| && AllDigits(s[j..end])
    requires forall h :: 0 <= h < i ==> IsSpace(s[h])
    requires j == i || (j == i + 1 && (s[i] == 43 || s[i] == 45))
    requires v == if s[i] == 45 then -(Value(s[j..end]) as int) else Value(s[j..end])
    ensures SpelledAt(s[..end], v, i, j)
  {
    hide Value;
    assert s[..end][j..] == s[j..end];
  }

  /** The spaces, the sign and the digits of a spelling end where reading ends. */
  lemma OneSpelling(s: seq<byte>, m: nat, i1: int, j1: int, n: int, i: nat, j: nat, end: nat)
    requires m <= |s| && SpelledAt(s[..m], n, i1, j1) && (m == |s| || !IsDigit(s[m]))
    requires i <= j <= end <= |s|
    requires (forall h :: 0 <= h < i ==> IsSpace(s[h])) && (i < |s| ==> !IsSpace(s[i]))
    requires j == if i < |s| && (s[i] == 43 || s[i] == 45) then i + 1 else i
    requires AllDigits(s[j..end]) && (end < |s| ==> !IsDigit(s[end]))
    ensures i1 == i && j1 == j < m == end
  {
    var p := s[..m];
    assert p[j1..][0] == p[j1] == s[j1];
    assert i1 == i;
    assert j1 == j;
    var ours, theirs := s[j..end], p[j1..];
    assert forall h :: j <= h < end ==> s[h] == ours[h - j];
    assert forall h :: j <= h < m ==> s[h] == theirs[h - j];
  }

  /** fscanf of "%d" reads a number exactly when a spelling of it comes first; what is left does
      not begin with a digit. */
  lemma ScanIntIs(s: seq<byte>, n: int, m: nat)
    requires m <= |s|
    ensures ScanInt(s) == Some((n, s[m..])) <==> Spelled(s[..m], n) && (m == |s| || !(48 <= s[m] <= 57))
  {
    hide ScanInt, SpelledAt;
    var i, j, end, v := ScanIntAt(s);
    if Spelled(s[..m], n) && (m == |s| || !(48 <= s[m] <= 57)) {
      var i1, j1 :| SpelledAt(s[..m], n, i1, j1);
      OneSpelling(s, m, i1, j1, n, i, j, end);
      SpelledValue(s[..end], n, v, i, j);
    }
    if ScanInt(s) == Some((n, s[m..])) {
      assert |s[m..]| == |s[end..]|;
      assert SpelledAt(s[..m], n, i, j);
    }
  }

  lemma SpelledValue(p: seq<byte>, n: int, v: int, i: int, j: int)
    requires SpelledAt(p, n, i, j) && SpelledAt(p, v, i, j)
    ensures n == v
  {
  }

  /** Six decimal numbers with a space (byte 32) between two and a comma (byte 44) at the end. */
  ghost predicate IsRecord(b: seq<byte>, kind: int, id: int, v: int, c: int, left: int, right: int) {
    exists p0, p1, p2, p3, p4, p5 :: IsRow(b, p0, p1, p2, p3, p4, p5)
      && Decimal(p0, kind) && Decimal(p1, id) && Decimal(p2, v) && Decimal(p3, c) && Decimal(p4, left)
      && Decimal(p5, right)
  }

  ghost predicate IsRow(b: seq<byte>, p0: seq<byte>, p1: seq<byte>, p2: seq<byte>, p3: seq<byte>,
                        p4: seq<byte>, p5: seq<byte>) {
    b == p0 + [32] + p1 + [32] + p2 + [32] + p3 + [32] + p4 + [32] + p5 + [44]
  }

  lemma RowOf(r: Record)
    ensures IsRow(RecordText(r), PrintInt(r.kind), PrintInt(r.id), PrintInt(r.v), PrintInt(r.c),
                  PrintInt(r.left), PrintInt(r.right))
  {
    hide PrintInt, IntsText;
    var ns := [r.kind, r.id, r.v, r.c, r.left, r.right];
    Ints(ns);
    Ints(ns[1..]);
    Ints(ns[1..][1..]);
    Ints(ns[1..][1..][1..]);
    Ints(ns[1..][1..][1..][1..]);
    Ints(ns[1..][1..][1..][1..][1..]);
    Ints(ns[1..][1..][1..][1..][1..][1..]);
  }

  lemma Ints(ns: seq<int>)
    ensures ns == [] ==> IntsText(ns) == []
    ensures ns != [] ==>
              IntsText(ns) == PrintInt(ns[0]) + (if |ns| == 1 then [44] else [32]) + IntsText(ns[1..])
  {
  }

  /** A record's text is its six numbers, in this order. */
  lemma RecordTextIs(r: Record)
    ensures IsRecord(RecordText(r), r.kind, r.id, r.v, r.c, r.left, r.right)
  {
    hide Decimal, PrintInt, IsRow;
    RowOf(r);
    PrintIntIsDecimal(r.kind, PrintInt(r.kind));
    PrintIntIsDecimal(r.id, PrintInt(r.id));
    PrintIntIsDecimal(r.v, PrintInt(r.v));
    PrintIntIsDecimal(r.c, PrintInt(r.c));
    PrintIntIsDecimal(r.left, PrintInt(r.left));
    PrintIntIsDecimal(r.right, PrintInt(r.right));
  }

  /** The text of a tree: '#' (byte 35), the records of the left subtree, those of the right one,
      the record of the root, '#'. A leaf is of kind 1 with 0 for its children. */
  lemma TreeTextIs(t: Tree)
    ensures t.Leaf? ==>
              exists r :: TreeAsText(t) == [35] + r + [35] && IsRecord(r, 1, t.id, t.freq.v, t.freq.c, 0, 0)
    ensures t.Node? ==>
              exists x, y, r :: TreeAsText(t.left) == [35] + x + [35] && TreeAsText(t.right) == [35] + y + [35]
                             && TreeAsText(t) == [35] + x + y + r + [35]
                             && IsRecord(r, 0, t.id, t.freq.v, t.freq.c, t.left.id, t.right.id)
  {
    hide IsRecord, RecordText, Flat;
    RecordTextIs(RecordOf(t));
    var r := RecordText(RecordOf(t));
    FlatOne(RecordOf(t), RecordText);
    if t.Node? {
      var x, y := Flat(Records(t.left), RecordText), Flat(Records(t.right), RecordText);
      FlatConcat(Records(t.left), Records(t.right), RecordText);
      FlatConcat(Records(t.left) + Records(t.right), [RecordOf(t)], RecordText);
      assert TreeAsText(t.left) == [35] + x + [35] && TreeAsText(t.right) == [35] + y + [35];
      assert TreeAsText(t) == [35] + x + y + r + [35];
    }
  }

  // ----- reading -----

  /** Six numbers are read one after the other, and then a comma (byte 44) if there is one. */
  ghost predicate SixFrom(s: seq<byte>, r: Record, rest: seq<byte>) {
    exists s1, s2, s3, s4, s5, t :: SixReads(s, r, s1, s2, s3, s4, s5, t) && rest == PastComma(t)
  }

  ghost predicate SixReads(s: seq<byte>, r: Record, s1: seq<byte>, s2: seq<byte>, s3: seq<byte>, s4: seq<byte>,
                           s5: seq<byte>, t: seq<byte>) {
    && Reads(s, r.kind, s1) && Reads(s1, r.id, s2) && Reads(s2, r.v, s3)
    && Reads(s3, r.c, s4) && Reads(s4, r.left, s5) && Reads(s5, r.right, t)
  }

  ghost function PastComma(t: seq<byte>): seq<byte> {
    if t != [] && t[0] == 44 then t[1..] else t
  }

  ghost predicate Reads(s: seq<byte>, n: int, rest: seq<byte>) {
    ScanInt(s) == Some((n, rest))
  }

  /** The first number and the others. */
  lemma FirstOf(k: nat, s: seq<byte>, ns: seq<int>, t: seq<byte>) returns (s1: seq<byte>)
    requires ScanInts(k + 1, s) == Some((ns, t))
    ensures |ns| == k + 1 && Reads(s, ns[0], s1) && ScanInts(k, s1) == Some((ns[1..], t))
  {
    hide ScanInt, Suffix;
    s1 := ScanInt(s).value.1;
  }

  lemma OneBefore(all: seq<int>, s: seq<byte>, s1: seq<byte>, ns: seq<int>, t: seq<byte>)
    requires all != [] && all == [all[0]] + ns
    requires Reads(s, all[0], s1) && ScanInts(|ns|, s1) == Some((ns, t))
    ensures ScanInts(|all|, s) == Some((all, t))
  {
    ScanIntsStep(all, s, s1, t);
  }

  lemma SixAre(s: seq<byte>, r: Record, t: seq<byte>)
    ensures ScanInts(6, s) == Some(([r.kind, r.id, r.v, r.c, r.left, r.right], t)) <==>
            exists s1, s2, s3, s4, s5 :: SixReads(s, r, s1, s2, s3, s4, s5, t)
  {
    hide ScanInts, Reads;
    NoInts([], t);
    if ScanInts(6, s) == Some(([r.kind, r.id, r.v, r.c, r.left, r.right], t)) {
      var s1 := FirstOf(5, s, [r.kind, r.id, r.v, r.c, r.left, r.right], t);
      var s2 := FirstOf(4, s1, [r.id, r.v, r.c, r.left, r.right], t);
      var s3 := FirstOf(3, s2, [r.v, r.c, r.left, r.right], t);
      var s4 := FirstOf(2, s3, [r.c, r.left, r.right], t);
      var s5 := FirstOf(1, s4, [r.left, r.right], t);
      var s6 := FirstOf(0, s5, [r.right], t);
      NoInts([], s6);
      assert SixReads(s, r, s1, s2, s3, s4, s5, t);
    }
    if exists s1, s2, s3, s4, s5 :: SixReads(s, r, s1, s2, s3, s4, s5, t) {
      var s1, s2, s3, s4, s5 :| SixReads(s, r, s1, s2, s3, s4, s5, t);
      OneBefore([r.right], s5, t, [], t);
      OneBefore([r.left, r.right], s4, s5, [r.right], t);
      OneBefore([r.c, r.left, r.right], s3, s4, [r.left, r.right], t);
      OneBefore([r.v, r.c, r.left, r.right], s2, s3, [r.c, r.left, r.right], t);
      OneBefore([r.id, r.v, r.c, r.left, r.right], s1, s2, [r.v, r.c, r.left, r.right], t);
      OneBefore([r.kind, r.id, r.v, r.c, r.left, r.right], s, s1, [r.id, r.v, r.c, r.left, r.right], t);
    }
  }

  lemma ScanRecordIs(s: seq<byte>, r: Record, rest: seq<byte>)
    ensures ScanRecord(s) == Some((r, rest)) <==> SixFrom(s, r, rest)
  {
    hide ScanInts, Reads, Suffix;
    var six := [r.kind, r.id, r.v, r.c, r.left, r.right];
    if ScanRecord(s) == Some((r, rest)) {
      assert ScanInts(6, s).value.0 == six;
      SixAre(s, r, ScanInts(6, s).value.1);
    }
    if SixFrom(s, r, rest) {
      var s1, s2, s3, s4, s5, t :| SixReads(s, r, s1, s2, s3, s4, s5, t) && rest == PastComma(t);
      SixAre(s, r, t);
    }
  }

  /** The records of `rs` follow one another from `s` on, the last one followed by '#' (byte 35),
      no other; a byte 0xFF behind one that is not the last is lost. */
  ghost predicate Follow(s: seq<byte>, rs: seq<Record>, rest: seq<byte>)
    decreases |rs|
  {
    && rs != [] && ScanRecord(s).Some? && ScanRecord(s).value.0 == rs[0]
    && var s1 := ScanRecord(s).value.1;
       var closed := s1 != [] && s1[0] == 35;
       if |rs| == 1 then closed && rest == s1[1..]
       else !closed && Follow(if s1 != [] && s1[0] == 255 then s1[1..] else s1, rs[1..], rest)
  }

  lemma {:induction false} RecordsFollow(s: seq<byte>, rs: seq<Record>, rest: seq<byte>)
    ensures ParseRecords(s) == Parsed(rs, rest) <==> Follow(s, rs, rest)
    decreases |s|
  {
    hide ScanRecord, Suffix;
    if ScanRecord(s).Some? {
      var s1 := ScanRecord(s).value.1;
      var next := if s1 != [] && s1[0] == 255 then s1[1..] else s1;
      assert Resumed(s1) == next;
      if rs != [] {
        assert rs == [rs[0]] + rs[1..];
        RecordsFollow(next, rs[1..], rest);
      }
    }
  }

  /** A file holds these records if and only if they follow its first byte, a '#'. */
  lemma ParseTreeIs(s: seq<byte>, rs: seq<Record>, rest: seq<byte>)
    ensures ParseTree(s) == Parsed(rs, rest) <==> s != [] && s[0] == 35 && Follow(s[1..], rs, rest)
  {
    if s != [] { RecordsFollow(s[1..], rs, rest); }
  }

  /** The size is the number of nodes: each has its own id and its own record. */
  lemma {:induction false} SizeIsNodes(t: Tree)
    ensures Size(t) == |Ids(t)| == |Records(t)|
  {
    if t.Node? {
      SizeIsNodes(t.left);
      SizeIsNodes(t.right);
    }
  }
}
