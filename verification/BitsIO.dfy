/** Bit files. A file is its bytes and a read position; all its operations succeed. */
module BitsIO {
  import opened Bytes
  import opened BitBytes

  class File {
    var data: seq<byte>
    var pos: nat

    constructor (data: seq<byte>)
      ensures this.data == data && pos == 0
    {
      this.data, pos := data, 0;
    }

    /** What is still to be read. */
    ghost function Rest(): seq<byte>
      reads this
    {
      if pos <= |data| then data[pos..] else []
    }

    method Putc(b: byte) returns (r: int)
      modifies this`data
      ensures r == b && data == old(data) + [b]
    {
      data := data + [b];
      r := b;
    }

    method Getc() returns (r: int)
      modifies this`pos
      ensures old(Rest()) == [] ==> r == EOF && pos == old(pos)
      ensures old(Rest()) != [] ==> r == old(Rest())[0] && pos == old(pos) + 1 && Rest() == old(Rest())[1..]
    {
      r := GetC(data, pos);
      if pos < |data| {
        pos := pos + 1;
      }
    }
  }

  /** What the writer keeps: `whole` is in the file, seven bits to a byte, `tail` in `buffer`. */
  ghost predicate Written(data: seq<byte>, whole: seq<Bit>, tail: seq<Bit>, buffer: byte, count: nat) {
    && data == Pack(whole) && |whole| == 7 * count
    && |tail| <= 6 && buffer == WriteBuffer(tail)
  }

  lemma WriteStep(data: seq<byte>, whole: seq<Bit>, tail: seq<Bit>, buffer: byte, count: nat, bit: Bit)
    requires Written(data, whole, tail, buffer, count)
    ensures var b, to := Shl(buffer, bit), tail + [bit];
            if b >= 128 then Written(data, whole, to, b, count)
            else b != EOF_VALUE && Written(data + [b], whole + to, [], NO_BITS_WRITTEN, count + 1)
  {
    WriteBufferFacts(tail);
    WriteBufferFacts(tail + [bit]);
    WriteBufferFacts([]);
    PackConcat(count, whole, tail + [bit]);
  }

  lemma LastByte(data: seq<byte>, whole: seq<Bit>, tail: seq<Bit>, buffer: byte, count: nat)
    requires Written(data, whole, tail, buffer, count)
    ensures buffer == NO_BITS_WRITTEN ==> data == Pack(whole + tail) && count == (|whole + tail| + 6) / 7
    ensures buffer != NO_BITS_WRITTEN ==> data + [buffer] == Pack(whole + tail) && buffer != EOF_VALUE
                                          && count + 1 == (|whole + tail| + 6) / 7
  {
    WriteBufferFacts(tail);
    PackConcat(count, whole, tail);
  }

  /** The reader takes a byte from the file: its bits are the next ones. */
  lemma TakeByte(rest: seq<byte>)
    requires rest != [] && Packed(rest)
    ensures rest[0] != EOF_VALUE && Payload(rest[0]) != [] && Packed(rest[1..])
    ensures Unpack(rest) == Payload(rest[0]) + Unpack(rest[1..])
  {
    WriteBufferFacts(Payload(rest[0]));
  }

  /** The reader takes a bit from its buffer. */
  lemma TakeBit(bits: seq<Bit>, buffer: byte, later: seq<Bit>)
    requires 0 < |bits| <= 7 && buffer == ReadBuffer(bits)
    ensures buffer / 128 == bits[0] && Shl(buffer, 0) == ReadBuffer(bits[1..])
    ensures (bits + later)[0] == bits[0] && (bits + later)[1..] == bits[1..] + later
  {
    ReadBufferFacts(bits);
  }

  /** How `bits_io_read_bit` lines a byte up: shifting in a 1, then zeros, until the delimiter
      is on top, and once more. `c` is the byte after some shifts. */
  ghost predicate Aligning(c: byte, p: seq<Bit>, ones: nat, shift: Bit)
    requires |p| <= 7
  {
    && ones <= 7 - |p|
    && shift == (if ones == 7 - |p| then 1 else 0)
    && c == ByteOf(Shifted(p, ones))
  }

  ghost function Shifted(p: seq<Bit>, ones: nat): (s: seq<Bit>)
    requires ones + |p| <= 7
    ensures |s| == 8
  {
    if ones == 7 - |p| then Repeat(1, ones) + [0] + p
    else Repeat(1, ones) + [0] + p + [1] + Repeat(0, 6 - |p| - ones)
  }

  lemma AlignStep(c: byte, p: seq<Bit>, ones: nat, shift: Bit)
    requires |p| <= 7 && Aligning(c, p, ones, shift)
    ensures c >= 128 <==> ones > 0
    ensures ones > 0 ==> Aligning(Shl(c, shift), p, ones - 1, 0)
    ensures ones == 0 ==> Shl(c, shift) == ReadBuffer(p)
  {
    hide Shifted, ByteOf, Shl, Repeat;
    ShlShifts(Shifted(p, ones), shift);
    ShiftedStep(p, ones, shift);
  }

  lemma ShiftedStep(p: seq<Bit>, ones: nat, shift: Bit)
    requires ones + |p| <= 7 && shift == if ones == 7 - |p| then 1 else 0
    ensures var s := Shifted(p, ones);
            && s[0] == (if ones > 0 then 1 else 0)
            && s[1..] + [shift] == if ones > 0 then Shifted(p, ones - 1) else p + [1] + Repeat(0, 7 - |p|)
  {
  }

  class BitsIOFile {
    const fp: File
    const mode: char
    var count: nat
    var buffer: byte
    ghost var base: seq<byte>       // what the file held before the first bit was written
    ghost var whole: seq<Bit>       // the bits written to the file
    ghost var bits: seq<Bit>        // the bits in the buffer

    /** bits_io_open. */
    constructor (fp: File, mode: char)
      ensures this.fp == fp && this.mode == mode && count == 0
      ensures mode == 'w' ==> Writing() && base == fp.data && AllBits() == []
      ensures mode != 'w' ==> bits == [] && buffer == ReadBuffer(bits)
    {
      this.fp, this.mode, count := fp, mode, 0;
      buffer := if mode == 'w' then NO_BITS_WRITTEN else ALL_BITS_READ;
      base, whole, bits := fp.data, [], [];
      new;
      WriteBufferFacts([]);
      ReadBufferFacts([]);
    }

    ghost predicate Writing()
      reads this, fp
    {
      && mode == 'w'
      && base <= fp.data
      && Written(fp.data[|base|..], whole, bits, buffer, count)
    }

    /** The bits written so far. */
    ghost function AllBits(): seq<Bit>
      reads this
    {
      whole + bits
    }

    /** bits_io_write_bit: the file and the buffer now hold one more bit. */
    method WriteBit(bit: Bit) returns (r: int)
      requires Writing()
      modifies this, fp`data
      ensures Writing() && AllBits() == old(AllBits()) + [bit] && base == old(base) && r == bit
    {
      hide Pack, WriteBuffer;
      ghost var data := fp.data[|base|..];
      WriteStep(data, whole, bits, buffer, count, bit);
      assert whole + (bits + [bit]) == AllBits() + [bit];
      bits := bits + [bit];
      buffer := Shl(buffer, bit);
      if buffer / 128 == 0 {
        var put := fp.Putc(buffer);
        buffer := ToByte(put);
        count := count + 1;
        if buffer == EOF_VALUE {
          return EOF;
        }
        assert fp.data[|base|..] == data + [buffer];
        assert whole + bits + [] == whole + bits;
        whole, bits := whole + bits, [];
        buffer := NO_BITS_WRITTEN;
      }
      r := bit;
    }

    /** bits_io_close, when writing: the file ends in the packed bits. */
    method CloseWriter() returns (r: int)
      requires Writing()
      modifies this, fp`data
      ensures fp.data == old(base) + Pack(old(AllBits()))
      ensures count == (|old(AllBits())| + 6) / 7 && r == 0
    {
      ghost var data := fp.data[|base|..];
      assert fp.data == base + data;
      LastByte(data, whole, bits, buffer, count);
      if mode == 'w' && buffer != NO_BITS_WRITTEN {
        var put := fp.Putc(buffer);
        buffer := ToByte(put);
        count := count + 1;
        if buffer == EOF_VALUE {
          return EOF;
        }
      }
      r := 0;
    }

    ghost predicate Reading()
      reads this, fp
    {
      && mode != 'w'
      && |bits| <= 6 && buffer == ReadBuffer(bits)
      && Packed(fp.Rest())
    }

    /** The bits still to be delivered. */
    ghost function Remaining(): seq<Bit>
      requires Reading()
      reads this, fp
    {
      bits + Unpack(fp.Rest())
    }

    /** bits_io_read_bit: the next bit, or EOF, now and ever after, when there is none.
        `count` goes up with each byte taken from the file. */
    method ReadBit() returns (r: int)
      requires Reading()
      modifies this, fp`pos
      ensures Reading() && fp.data == old(fp.data)
      ensures count - old(count) == fp.pos - old(fp.pos)
      ensures old(fp.pos) <= |fp.data| ==> fp.pos <= |fp.data|
      ensures old(Remaining()) == [] ==> r == EOF && Remaining() == []
      ensures old(Remaining()) != [] ==> r == old(Remaining())[0] && Remaining() == old(Remaining())[1..]
    {
      hide Unpack, Packed, ReadBuffer, Shl, Payload;
      ReadBufferFacts(bits);
      if buffer == EOF_VALUE {
        return EOF;
      }
      if buffer == ALL_BITS_READ {
        var ended := Refill();
        if ended {
          return EOF;
        }
      }
      TakeBit(bits, buffer, Unpack(fp.Rest()));
      var b := buffer;
      buffer := Shl(b, 0);
      bits := bits[1..];
      r := b / 128;
    }

    /** When the buffer has no more bits, it gets those of the next byte, if there is one. */
    method Refill() returns (ended: bool)
      requires Reading() && bits == []
      modifies this`count, this`bits, this`buffer, fp`pos
      ensures |bits| <= 7 && buffer == ReadBuffer(bits) && Packed(fp.Rest()) && fp.data == old(fp.data)
      ensures count - old(count) == fp.pos - old(fp.pos)
      ensures old(fp.pos) <= |fp.data| ==> fp.pos <= |fp.data|
      ensures ended <==> old(Remaining()) == []
      ensures ended <==> bits == []
      ensures bits + Unpack(fp.Rest()) == old(Remaining())
    {
      hide Packed, ReadBuffer, Shl, Payload;
      var c := NextByte();
      ended := c == EOF_VALUE;
      if ended {
        return;
      }
      buffer := Align(c);
    }

    /** The byte taken from the file when the buffer has no more bits. */
    method NextByte() returns (c: byte)
      requires Reading() && bits == []
      modifies this`count, this`bits, fp`pos
      ensures Packed(fp.Rest()) && fp.data == old(fp.data)
      ensures count - old(count) == fp.pos - old(fp.pos)
      ensures old(fp.pos) <= |fp.data| ==> fp.pos <= |fp.data|
      ensures old(Remaining()) == [] ==> c == EOF_VALUE && bits == [] && fp.Rest() == []
      ensures old(Remaining()) != [] ==> c != EOF_VALUE && bits == Payload(c) != []
                                         && old(Remaining()) == bits + Unpack(fp.Rest())
    {
      ghost var rest := fp.Rest();
      assert [] + Unpack(rest) == Unpack(rest);
      if rest != [] { TakeByte(rest); }
      var got := fp.Getc();
      c := ToByte(got);
      assert c == EOF_VALUE <==> rest == [];
      if c != EOF_VALUE {
        count := count + 1;
        bits := Payload(c);
      }
    }

    /** The shifts that bring the first written bit to the top and the marker below the last. */
    method Align(b: byte) returns (result: byte)
      requires b != EOF_VALUE
      ensures result == ReadBuffer(Payload(b))
    {
      ghost var p := Payload(b);
      ghost var ones: nat := 7 - |p|;
      var c := b;
      AlignStep(c, p, ones, 1);
      if c < 128 {
        result := Shl(c, 1);
      } else {
        var shift: Bit := 1;
        while c >= 128
          invariant 0 <= ones && Aligning(c, p, ones, shift)
          decreases ones
        {
          AlignStep(c, p, ones, shift);
          c := Shl(c, shift);
          shift := 0;
          ones := ones - 1;
        }
        AlignStep(c, p, ones, shift);
        result := Shl(c, 0);
      }
    }
  }

  /** The bits are written to the file, and the file is closed; the writer counted `bytes`. */
  method WriteAll(fp: File, bits: seq<Bit>) returns (bytes: nat)
    modifies fp`data
    ensures fp.data == old(fp.data) + Pack(bits) && bytes == (|bits| + 6) / 7
  {
    hide Pack, WriteBuffer;
    var bfile := new BitsIOFile(fp, 'w');
    var i := 0;
    while i < |bits|
      invariant 0 <= i <= |bits| && bfile.Writing() && bfile.base == old(fp.data)
      invariant bfile.AllBits() == bits[..i]
    {
      var _ := bfile.WriteBit(bits[i]);
      assert bits[..i + 1] == bits[..i] + [bits[i]];
      i := i + 1;
    }
    assert bits[..i] == bits;
    var _ := bfile.CloseWriter();
    bytes := bfile.count;
  }

  lemma NoBitsNoBytes(rest: seq<byte>)
    requires Packed(rest) && Unpack(rest) == []
    ensures rest == []
  {
    if rest != [] { TakeByte(rest); }
  }

  /** What asking for the bit number `i` returns. */
  ghost function BitOrEof(bits: seq<Bit>, i: nat): int {
    if i < |bits| then bits[i] else EOF
  }

  ghost function After(bits: seq<Bit>, n: nat): seq<Bit> {
    if n < |bits| then bits[n..] else []
  }

  lemma AfterStep(bits: seq<Bit>, n: nat)
    ensures var now := After(bits, n);
            && (now == [] ==> BitOrEof(bits, n) == EOF && After(bits, n + 1) == [])
            && (now != [] ==> BitOrEof(bits, n) == now[0] && After(bits, n + 1) == now[1..])
            && (now == [] <==> n >= |bits|)
    ensures After(bits, 0) == bits
  {
  }

  /** Asking `asked` times for a bit of the file: its bits come in order, then only EOF. Once all
      bits were asked for, the reader has counted all bytes. */
  method ReadBack(data: seq<byte>, asked: nat) returns (back: seq<int>, taken: nat)
    requires Packed(data)
    ensures |back| == asked
    ensures var bits := Unpack(data);
            && (forall i :: 0 <= i < asked ==> back[i] == BitOrEof(bits, i))
            && (asked >= |bits| ==> taken == |data|)
  {
    hide Packed, Unpack, ReadBuffer, After, BitOrEof;
    var fp := new File(data);
    var bfile := new BitsIOFile(fp, 'r');
    ghost var bits := Unpack(data);
    back := [];
    AfterStep(bits, 0);
    assert fp.Rest() == data && [] + Unpack(data) == Unpack(data);
    while |back| < asked
      invariant |back| <= asked
      invariant bfile.Reading() && fp.data == data && bfile.count == fp.pos <= |data|
      invariant bfile.Remaining() == After(bits, |back|)
      invariant forall i :: 0 <= i < |back| ==> back[i] == BitOrEof(bits, i)
    {
      AfterStep(bits, |back|);
      var r := bfile.ReadBit();
      back := back + [r];
    }
    AfterStep(bits, asked);
    if asked >= |bits| { NoBitsNoBytes(fp.Rest()); }
    taken := bfile.count;
  }

  /** Writing bits, closing, and asking for them and for `more`: the bits come back, and then
      only EOF, however often one asks; writer and reader count the same bytes. */
  method WriteThenRead(bits: seq<Bit>, more: nat) returns (back: seq<int>, written: nat, taken: nat)
    ensures |back| == |bits| + more
    ensures forall i :: 0 <= i < |back| ==> back[i] == if i < |bits| then bits[i] else EOF
    ensures written == taken == (|bits| + 6) / 7
  {
    hide Packed, Unpack, Pack;
    var fp := new File([]);
    written := WriteAll(fp, bits);
    assert [] + Pack(bits) == Pack(bits);
    UnpackPack(bits);
    back, taken := ReadBack(fp.data, |bits| + more);
  }
}
