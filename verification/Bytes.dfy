/** Bytes and the signed characters that C's `char` makes of them. */
module Bytes {
  type byte = b: int | 0 <= b < 256

  type Bit = b: int | b == 0 || b == 1

  const EOF: int := -1

  /** The value of a byte stored in a signed `char`. */
  function ToSigned(b: byte): (c: int)
    ensures -128 <= c < 128 && (c - b) % 256 == 0
  {
    if b < 128 then b else b - 256
  }

  /** The value of an int stored in an `unsigned char`. */
  function ToByte(c: int): (b: byte)
    ensures 0 <= c < 256 ==> b == c
    ensures (b - c) % 256 == 0
  {
    c % 256
  }

  /** fgetc at position `p` of a file holding `s`. */
  function GetC(s: seq<byte>, p: nat): int {
    if p < |s| then s[p] else EOF
  }
}
