/** The self-describing byte format: up to seven bits, marked off by a delimiter.
    A byte is read as its eight bits, most significant first. */
module BitBytes {
  import opened Bytes

  const NO_BITS_WRITTEN: byte := 254   // 0b11111110
  const ALL_BITS_READ: byte := 128     // 0b10000000
  const EOF_VALUE: byte := 255         // 0b11111111

  /** (b << 1) | bit, or (b << 1) + bit, in an unsigned char. */
  function Shl(b: byte, bit: Bit): byte {
    (2 * b + bit) % 256
  }

  ghost function ByteOf(s: seq<Bit>): byte
    requires |s| == 8
  {
    Weigh(s[0], s[1], s[2], s[3], s[4], s[5], s[6], s[7])
  }

  /** Eight bits, the highest first, as a number. */
  function Weigh(a: Bit, b: Bit, c: Bit, d: Bit, e: Bit, f: Bit, g: Bit, h: Bit): (n: byte)
    ensures n >= 128 <==> a == 1
  {
    var top: int := 128 * (a as int) + 64 * (b as int) + 32 * (c as int) + 16 * (d as int);
    top + 8 * (e as int) + 4 * (f as int) + 2 * (g as int) + (h as int)
  }

  ghost function BitsOf(b: byte): (s: seq<Bit>)
    ensures |s| == 8 && ByteOf(s) == b
  {
    var b1 := b / 2;
    var b2 := b1 / 2;
    var b3 := b2 / 2;
    var b4 := b3 / 2;
    var b5 := b4 / 2;
    var b6 := b5 / 2;
    [b6 / 2, b6 % 2, b5 % 2, b4 % 2, b3 % 2, b2 % 2, b1 % 2, b % 2]
  }

  lemma ShlShifts(s: seq<Bit>, bit: Bit)
    requires |s| == 8
    ensures Shl(ByteOf(s), bit) == ByteOf(s[1..] + [bit])
    ensures ByteOf(s) >= 128 <==> s[0] == 1
  {
    hide Shl, Weigh;
    var u := s[1..] + [bit];
    assert u[0] == s[1] && u[1] == s[2] && u[2] == s[3] && u[3] == s[4];
    assert u[4] == s[5] && u[5] == s[6] && u[6] == s[7] && u[7] == bit;
    WeighShl(s[0], s[1], s[2], s[3], s[4], s[5], s[6], s[7], bit);
  }

  /** The highest bit is lost, the others move up, and the new one is the lowest. */
  lemma WeighShl(a: Bit, b: Bit, c: Bit, d: Bit, e: Bit, f: Bit, g: Bit, h: Bit, i: Bit)
    ensures Shl(Weigh(a, b, c, d, e, f, g, h), i) == Weigh(b, c, d, e, f, g, h, i)
  {
    hide Shl;
    ShlDropsTop(Weigh(a, b, c, d, e, f, g, h), i);
  }

  lemma ShlDropsTop(b: byte, bit: Bit)
    ensures Shl(b, bit) as int == 2 * (b as int) + (bit as int) - if b >= 128 then 256 else 0
  {
  }

  /** Equal bytes have equal bits. */
  lemma {:induction false} SameTopBits(s: seq<Bit>, u: seq<Bit>, n: nat)
    requires |s| == |u| == 8 && ByteOf(s) == ByteOf(u) && n <= 8
    ensures forall i :: 0 <= i < n ==> s[i] == u[i]
    decreases n
  {
    if n > 0 {
      ShlShifts(s, 0);
      ShlShifts(u, 0);
      SameTopBits(s[1..] + [0], u[1..] + [0], n - 1);
      forall i | 0 <= i < n ensures s[i] == u[i] {
        if i > 0 { assert (s[1..] + [0])[i - 1] == (u[1..] + [0])[i - 1]; }
      }
    }
  }

  ghost function Repeat(bit: Bit, n: nat): seq<Bit> {
    seq(n, _ => bit)
  }

  /** The write buffer holding `bits`: unwritten positions are 1, then the delimiter 0. */
  ghost function WriteBuffer(bits: seq<Bit>): byte
    requires |bits| <= 7
  {
    ByteOf(Repeat(1, 7 - |bits|) + [0] + bits)
  }

  /** The read buffer with `bits` still to deliver: then the marker 1 and zeros. */
  ghost function ReadBuffer(bits: seq<Bit>): byte
    requires |bits| <= 7
  {
    ByteOf(bits + [1] + Repeat(0, 7 - |bits|))
  }

  lemma WriteBufferFacts(bits: seq<Bit>)
    requires |bits| <= 7
    ensures WriteBuffer(bits) == NO_BITS_WRITTEN <==> bits == []
    ensures WriteBuffer(bits) != EOF_VALUE
    ensures WriteBuffer(bits) < 128 <==> |bits| == 7
    ensures forall bit: Bit :: |bits| < 7 ==> Shl(WriteBuffer(bits), bit) == WriteBuffer(bits + [bit])
  {
    var k := 7 - |bits|;
    var s := Repeat(1, k) + [0] + bits;
    assert s[k] == 0;
    if bits == [] {
      assert s == [1, 1, 1, 1, 1, 1, 1, 0];
    } else {
      assert ByteOf(s) <= 253;
    }
    ShlShifts(s, 0);
    forall bit: Bit | k > 0 ensures Shl(WriteBuffer(bits), bit) == WriteBuffer(bits + [bit]) {
      WriteBufferShl(bits, bit);
    }
  }

  lemma WriteBufferShl(bits: seq<Bit>, bit: Bit)
    requires |bits| < 7
    ensures Shl(WriteBuffer(bits), bit) == WriteBuffer(bits + [bit])
  {
    hide ByteOf, Shl;
    var k := 7 - |bits|;
    var s := Repeat(1, k) + [0] + bits;
    ShlShifts(s, bit);
    assert s[1..] + [bit] == Repeat(1, k - 1) + [0] + (bits + [bit]);
  }

  lemma ReadBufferFacts(bits: seq<Bit>)
    requires |bits| <= 7
    ensures ReadBuffer(bits) == ALL_BITS_READ <==> bits == []
    ensures |bits| <= 6 ==> ReadBuffer(bits) != EOF_VALUE
    ensures bits != [] ==> (ReadBuffer(bits) >= 128 <==> bits[0] == 1)
    ensures bits != [] ==> Shl(ReadBuffer(bits), 0) == ReadBuffer(bits[1..])
  {
    var k := |bits|;
    var s := bits + [1] + Repeat(0, 7 - k);
    assert s[k] == 1;
    if k <= 6 { assert s[7] == 0; }
    if k == 0 {
      assert s == [1, 0, 0, 0, 0, 0, 0, 0];
    } else {
      assert ByteOf(s) != 128 by {
        if s[0] == 1 { assert ByteOf(s) > 128; }
      }
      ShlShifts(s, 0);
      assert s[1..] + [0] == bits[1..] + [1] + Repeat(0, 8 - k);
    }
  }

  /** The bits in a byte: what follows its first 0. */
  ghost function Payload(b: byte): (bits: seq<Bit>)
    requires b != EOF_VALUE
    ensures |bits| <= 7 && b == WriteBuffer(bits)
  {
    var s := BitsOf(b);
    var k := FirstZero(s, 0);
    SplitAtZero(s, k);
    s[k + 1..]
  }

  lemma SplitAtZero(s: seq<Bit>, k: nat)
    requires |s| == 8 && k < 8 && s[k] == 0 && forall i: nat :: i < k ==> s[i] == 1
    ensures WriteBuffer(s[k + 1..]) == ByteOf(s)
  {
    hide ByteOf;
    assert s == Repeat(1, k) + [0] + s[k + 1..];
  }

  ghost function FirstZero(s: seq<Bit>, k: nat): (z: nat)
    requires |s| == 8 && k <= 8 && ByteOf(s) != EOF_VALUE
    requires forall i: nat :: i < k ==> s[i] == 1
    ensures k <= z < 8 && s[z] == 0 && forall i: nat :: i < z ==> s[i] == 1
    decreases 8 - k
  {
    if k < 8 && s[k] == 0 then k
    else
      FirstZero(s, k + 1)
  }

  lemma PayloadOfBuffer(bits: seq<Bit>)
    requires |bits| <= 7
    ensures WriteBuffer(bits) != EOF_VALUE && Payload(WriteBuffer(bits)) == bits
  {
    WriteBufferFacts(bits);
    WriteBufferInjective(bits, Payload(WriteBuffer(bits)));
  }

  lemma WriteBufferInjective(a: seq<Bit>, b: seq<Bit>)
    requires |a| <= 7 && |b| <= 7 && WriteBuffer(a) == WriteBuffer(b)
    ensures a == b
  {
    var s, u := Repeat(1, 7 - |a|) + [0] + a, Repeat(1, 7 - |b|) + [0] + b;
    SameTopBits(s, u, 8);
    assert s[7 - |a|] == 0 && u[7 - |b|] == 0;
    assert |a| == |b|;
    assert a == s[8 - |a|..] && b == u[8 - |b|..];
  }

  /** The bytes for `bits`: seven to a byte, the rest in a last byte. */
  ghost function Pack(bits: seq<Bit>): seq<byte> {
    if bits == [] then []
    else if |bits| <= 7 then [WriteBuffer(bits)]
    else [WriteBuffer(bits[..7])] + Pack(bits[7..])
  }

  /** Bytes the writer may produce: 0xFE holds no bits and 0xFF has no delimiter. */
  ghost predicate Packed(bytes: seq<byte>) {
    forall i :: 0 <= i < |bytes| ==> bytes[i] != NO_BITS_WRITTEN && bytes[i] != EOF_VALUE
  }

  /** The bits in a sequence of bytes. */
  ghost function Unpack(bytes: seq<byte>): seq<Bit>
    requires Packed(bytes)
  {
    if bytes == [] then [] else Payload(bytes[0]) + Unpack(bytes[1..])
  }

  lemma {:induction false} PackConcat(n: nat, a: seq<Bit>, b: seq<Bit>)
    requires |a| == 7 * n
    ensures Pack(a + b) == Pack(a) + Pack(b)
  {
    hide WriteBuffer;
    if n == 0 {
      assert a + b == b;
    } else if n == 1 {
      assert (a + b)[..7] == a && (a + b)[7..] == b;
      if b == [] { assert a + b == a; }
    } else {
      PackConcat(n - 1, a[7..], b);
      assert (a + b)[..7] == a[..7] && (a + b)[7..] == a[7..] + b;
    }
  }

  lemma PackShort(b: seq<Bit>, bit: Bit)
    requires |b| < 7
    ensures Pack([]) == [] && Pack([] + [bit]) == [252 + bit]
    ensures b != [] ==> |Pack(b)| == 1 && Pack(b + [bit]) == [(2 * Pack(b)[0] + bit) % 256]
  {
    hide WriteBuffer;
    WriteBufferShl(b, bit);
    WriteBufferShl([], bit);
    WriteBufferFacts([]);
  }

  lemma PackAfter(n: nat, a: seq<Bit>, b: seq<Bit>, bits: seq<Bit>, bit: Bit)
    requires |a| == 7 * n && |b| < 7 && bits == a + b
    ensures b == [] ==> Pack(bits + [bit]) == Pack(bits) + [252 + bit]
    ensures b != [] ==>
              var p := Pack(bits);
              p != [] && Pack(bits + [bit]) == p[..|p| - 1] + [(2 * p[|p| - 1] + bit) % 256]
  {
    hide WriteBuffer, Pack;
    assert bits + [bit] == a + (b + [bit]);
    PackConcat(n, a, b);
    PackConcat(n, a, b + [bit]);
    PackShort(b, bit);
  }

  /** What one more bit does to the bytes: after a multiple of seven it begins a new one, 252 or
      253; otherwise it is shifted into the last one. */
  lemma PackOneMore(bits: seq<Bit>, bit: Bit)
    ensures Pack([]) == []
    ensures |bits| % 7 == 0 ==> Pack(bits + [bit]) == Pack(bits) + [252 + bit]
    ensures |bits| % 7 != 0 ==>
              var p := Pack(bits);
              p != [] && Pack(bits + [bit]) == p[..|p| - 1] + [(2 * p[|p| - 1] + bit) % 256]
  {
    hide WriteBuffer, Pack;
    var n, k := |bits| / 7, |bits| % 7;
    var a, b := bits[..|bits| - k], bits[|bits| - k..];
    assert bits == a + b && |b| == k;
    PackAfter(n, a, b, bits, bit);
    PackShort([], bit);
  }

  /** Packing loses nothing: n bits take ceil(n / 7) bytes, none of them 0xFF, and the bits
      in these bytes are the bits packed. */
  lemma {:induction false} UnpackPack(bits: seq<Bit>)
    ensures |Pack(bits)| == (|bits| + 6) / 7
    ensures Packed(Pack(bits)) && Unpack(Pack(bits)) == bits
  {
    hide WriteBuffer, Payload;
    if bits == [] {
    } else if |bits| <= 7 {
      WriteBufferFacts(bits);
      PayloadOfBuffer(bits);
      assert Pack(bits)[1..] == [];
    } else {
      var head := bits[..7];
      WriteBufferFacts(head);
      PayloadOfBuffer(head);
      UnpackPack(bits[7..]);
      assert Pack(bits)[1..] == Pack(bits[7..]);
      assert bits == head + bits[7..];
    }
  }
}
