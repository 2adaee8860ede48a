/** The 17-byte messages between the ATMs and the bank. */
module Command {
  import opened Bytes

  const OK: byte := 0
  const CONNECT: byte := 1
  const EXIT: byte := 2
  const DEPOSIT: byte := 3
  const WITHDRAW: byte := 4
  const TRANSFER: byte := 5
  const BALANCE: byte := 6
  const NOFUNDS: byte := 7
  const ACCUNKN: byte := 9

  const MESSAGE_SIZE := 17

  /** The status codes that matter here. */
  datatype Status = Success | UnknownCommand | PipeReadError | UnknownAccount | UnknownAtm | InsufficientFunds

  /** A message once unpacked. */
  datatype Cmd = Cmd(c: byte, id: int, from: int, to: int, amt: int)

  /** What an ATM may ask for. */
  predicate Known(c: byte) {
    CONNECT <= c <= BALANCE
  }

  function Ok(f: int, t: int, a: int): Cmd {
    Cmd(OK, 0, f, t, a)
  }

  function NoFunds(f: int, a: int): Cmd {
    Cmd(NOFUNDS, 0, f, -1, a)
  }

  function AccUnkn(t: int): Cmd {
    Cmd(ACCUNKN, 0, -1, t, -1)
  }

  /** A value an int can have. */
  predicate Int32(n: int) {
    -0x8000_0000 <= n < 0x8000_0000
  }

  /** The four bytes of an int, most significant first. */
  function PackedInt(n: int): (b: seq<byte>)
    ensures |b| == 4
  {
    var u := n % 0x1_0000_0000;
    [ToByte(u / 0x100_0000), ToByte(u / 0x1_0000), ToByte(u / 0x100), ToByte(u)]
  }

  /** The bytes shifted to their places; no two share a bit, so their union is their sum. */
  function Joined(p: int, q: int, r: int, s: int): int {
    p * 0x100_0000 + q * 0x1_0000 + r * 0x100 + s
  }

  function UnpackedInt(b: seq<byte>): (n: int)
    requires |b| == 4
    ensures Int32(n)
  {
    var u := Joined(b[0], b[1], b[2], b[3]);
    Signed(u)
  }

  /** The int with the bits of an unsigned number. */
  function Signed(u: int): int {
    if u < 0x8000_0000 then u else u - 0x1_0000_0000
  }

  function Packed(m: Cmd): (b: seq<byte>)
    ensures |b| == MESSAGE_SIZE
  {
    [m.c] + PackedInt(m.id) + PackedInt(m.from) + PackedInt(m.to) + PackedInt(m.amt)
  }

  function Unpacked(b: seq<byte>): Cmd
    requires |b| == MESSAGE_SIZE
  {
    Cmd(b[0], UnpackedInt(b[1..5]), UnpackedInt(b[5..9]), UnpackedInt(b[9..13]), UnpackedInt(b[13..17]))
  }

  predicate Fits(m: Cmd) {
    Int32(m.id) && Int32(m.from) && Int32(m.to) && Int32(m.amt)
  }

  /** The bytes of a number below 2^32 make up the number. */
  lemma Digits(u: int, b: seq<byte>)
    requires 0 <= u < 0x1_0000_0000
    requires b == [ToByte(u / 0x100_0000), ToByte(u / 0x1_0000), ToByte(u / 0x100), ToByte(u)]
    ensures u == Joined(b[0], b[1], b[2], b[3])
  {
    var p, q := u / 0x100, u / 0x1_0000;
    assert q == p / 0x100 && u / 0x100_0000 == q / 0x100;
  }

  lemma Wraps(n: int)
    ensures Signed(n % 0x1_0000_0000) == n <==> Int32(n)
  {
    var q, u := n / 0x1_0000_0000, n % 0x1_0000_0000;
    assert n == q * 0x1_0000_0000 + u;
  }

  lemma IntRoundTrip(n: int)
    ensures UnpackedInt(PackedInt(n)) == n <==> Int32(n)
  {
    hide Signed, Joined, Int32, ToByte;
    Digits(n % 0x1_0000_0000, PackedInt(n));
    Wraps(n);
  }

  /** The first byte is the most significant: the bytes are the digits to base 256 of the number
      modulo 2^32, and for an int the highest bit of the first says whether it is negative. */
  lemma PackedDigits(n: int)
    ensures var p := PackedInt(n);
            n % 0x1_0000_0000
            == 0x100_0000 * (p[0] as int) + 0x1_0000 * (p[1] as int) + 0x100 * (p[2] as int) + (p[3] as int)
    ensures -0x8000_0000 <= n < 0x8000_0000 ==> (PackedInt(n)[0] >= 128 <==> n < 0)
  {
    hide ToByte;
    Digits(n % 0x1_0000_0000, PackedInt(n));
    assert n < 0 && Int32(n) ==> n % 0x1_0000_0000 == n + 0x1_0000_0000;
  }

  /** Among unsigned numbers the smaller has the smaller byte where they first differ. */
  lemma PackedOrder(m: int, n: int)
    requires 0 <= m < n < 0x1_0000_0000
    ensures var p, q := PackedInt(m), PackedInt(n);
            exists i :: 0 <= i < 4 && p[..i] == q[..i] && p[i] < q[i]
  {
    hide PackedInt;
    PackedDigits(m);
    PackedDigits(n);
    var p, q := PackedInt(m), PackedInt(n);
    if p[0] != q[0] {
      assert p[..0] == q[..0] && p[0] < q[0];
    } else if p[1] != q[1] {
      assert p[..1] == q[..1] && p[1] < q[1];
    } else if p[2] != q[2] {
      assert p[..2] == q[..2] && p[2] < q[2];
    } else {
      assert p[..3] == q[..3] && p[3] < q[3];
    }
  }

  lemma Places(p: int, q: int, r: int, s: int)
    requires 0 <= p < 256 && 0 <= q < 256 && 0 <= r < 256 && 0 <= s < 256
    ensures var u := Joined(p, q, r, s);
            && 0 <= u < 0x1_0000_0000
            && u / 0x100 == p * 0x1_0000 + q * 0x100 + r && u / 0x1_0000 == p * 0x100 + q && u / 0x100_0000 == p
            && ToByte(u / 0x100) == r && ToByte(u / 0x1_0000) == q && ToByte(u / 0x100_0000) == p && ToByte(u) == s
  {
  }

  lemma SignedBits(u: int)
    requires 0 <= u < 0x1_0000_0000
    ensures Signed(u) % 0x1_0000_0000 == u
  {
  }

  lemma BytesRoundTrip(b: seq<byte>)
    requires |b| == 4
    ensures PackedInt(UnpackedInt(b)) == b
  {
    hide Joined, Signed, ToByte;
    Places(b[0], b[1], b[2], b[3]);
    SignedBits(Joined(b[0], b[1], b[2], b[3]));
  }

  lemma PackedParts(m: Cmd)
    ensures var b := Packed(m);
            && b[0] == m.c && b[1..5] == PackedInt(m.id) && b[5..9] == PackedInt(m.from)
            && b[9..13] == PackedInt(m.to) && b[13..17] == PackedInt(m.amt)
  {
    hide PackedInt;
  }

  /** A message survives packing and unpacking exactly when its fields fit an int. */
  lemma UnpackPacked(m: Cmd)
    ensures Unpacked(Packed(m)) == m <==> Fits(m)
  {
    hide PackedInt, UnpackedInt, Packed, Int32;
    PackedParts(m);
    IntRoundTrip(m.id);
    IntRoundTrip(m.from);
    IntRoundTrip(m.to);
    IntRoundTrip(m.amt);
  }

  /** Unpacking loses nothing: every 17 bytes are the packed form of what they unpack to. */
  lemma PackUnpacked(b: seq<byte>)
    requires |b| == MESSAGE_SIZE
    ensures Fits(Unpacked(b)) && Packed(Unpacked(b)) == b
  {
    hide PackedInt, UnpackedInt;
    BytesRoundTrip(b[1..5]);
    BytesRoundTrip(b[5..9]);
    BytesRoundTrip(b[9..13]);
    BytesRoundTrip(b[13..17]);
    assert b == [b[0]] + b[1..5] + b[5..9] + b[9..13] + b[13..17];
  }

  method PackInt(n: int, out: array<byte>)
    requires out.Length == 4
    modifies out
    ensures out[..] == PackedInt(n)
  {
    var u := n % 0x1_0000_0000;
    out[0] := ToByte(u / 0x100_0000);
    out[1] := ToByte(u / 0x1_0000);
    out[2] := ToByte(u / 0x100);
    out[3] := ToByte(u);
  }

  /** The buffer that a pipe carries. */
  class Command {
    const cmd: array<byte>
    const id: array<byte>
    const from: array<byte>
    const to: array<byte>
    const amt: array<byte>

    constructor ()
      ensures Valid() && fresh(cmd) && fresh(id) && fresh(from) && fresh(to) && fresh(amt)
    {
      cmd, id, from, to, amt := new byte[1], new byte[4], new byte[4], new byte[4], new byte[4];
    }

    predicate Valid() {
      && cmd.Length == 1 && id.Length == from.Length == to.Length == amt.Length == 4
      && id != from && id != to && id != amt && from != to && from != amt && to != amt
      && cmd != id && cmd != from && cmd != to && cmd != amt
    }

    /** The 17 bytes, in order. */
    ghost function Contents(): (b: seq<byte>)
      requires Valid()
      reads cmd, id, from, to, amt
      ensures |b| == MESSAGE_SIZE
    {
      cmd[..] + id[..] + from[..] + to[..] + amt[..]
    }

    method Pack(m: Cmd)
      requires Valid()
      modifies cmd, id, from, to, amt
      ensures Contents() == Packed(m)
    {
      hide PackedInt;
      cmd[0] := m.c;
      PackInt(m.id, id);
      PackInt(m.from, from);
      PackInt(m.to, to);
      PackInt(m.amt, amt);
      assert cmd[..] == [m.c];
    }

    method Unpack() returns (m: Cmd)
      requires Valid()
      ensures m == Unpacked(Contents())
    {
      hide UnpackedInt;
      m := Cmd(cmd[0], UnpackedInt(id[..]), UnpackedInt(from[..]), UnpackedInt(to[..]), UnpackedInt(amt[..]));
      ghost var b := Contents();
      assert b[1..5] == id[..] && b[5..9] == from[..] && b[9..13] == to[..] && b[13..17] == amt[..];
    }
  }
}
