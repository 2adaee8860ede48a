/** How a 32-bit address is split into tag, set and byte by shifts. */
module AddressBits {

  ghost function Pow2(n: nat): (p: nat)
    ensures p > 0
  {
    if n == 0 then 1 else 2 * Pow2(n - 1)
  }

  /** An unsigned int. */
  ghost predicate Word(a: int) {
    0 <= a < Pow2(32)
  }

  /** a << k and a >> k on unsigned ints, for 0 <= k < 32. */
  ghost function Shl(a: nat, k: nat): nat {
    Mod(a * Pow2(k), Pow2(32))
  }

  ghost function Shr(a: nat, k: nat): nat {
    Div(a, Pow2(k))
  }

  function Mod(a: nat, d: nat): (r: nat)
    requires d > 0
    ensures r == a % d
  {
    a % d
  }

  function Div(a: nat, d: nat): (q: nat)
    requires d > 0
    ensures q == a / d
  {
    a / d
  }

  /** Where the shifts of bits.c are defined: none of them is by 32. */
  ghost predicate Domain(setBits: nat, blockBits: nat) {
    setBits >= 1 && blockBits >= 1 && setBits + blockBits <= 31
  }

  ghost function GetSet(a: nat, setBits: nat, blockBits: nat): nat
    requires Domain(setBits, blockBits)
  {
    var tag := 32 - (setBits + blockBits);
    Shr(Shl(a, tag), blockBits + tag)
  }

  ghost function GetLine(a: nat, setBits: nat, blockBits: nat): nat
    requires Domain(setBits, blockBits)
  {
    Shr(a, setBits + blockBits)
  }

  ghost function GetByte(a: nat, setBits: nat, blockBits: nat): nat
    requires Domain(setBits, blockBits)
  {
    var tag := 32 - (setBits + blockBits);
    var tagset := tag + setBits;
    Shr(Shl(a, tagset), tagset)
  }

  lemma {:induction false} Pow2Adds(m: nat, n: nat)
    ensures Pow2(m + n) == Pow2(m) * Pow2(n)
  {
    if m > 0 {
      Pow2Adds(m - 1, n);
      Twice(Pow2(m - 1), Pow2(n));
    }
  }

  lemma Twice(x: nat, y: nat)
    ensures 2 * x * y == 2 * (x * y)
  {
  }

  /** Quotient and remainder are the only ones. */
  lemma DivModUnique(a: int, d: int, q: int, r: int)
    requires 0 < d && 0 <= r < d && a == q * d + r
    ensures a / d == q && a % d == r
  {
    var p, s := a / d, a % d;
    assert a == p * d + s;
    assert (q - p) * d == s - r;
    if q > p { assert (q - p) * d >= d by { AtLeast(q - p, d); } }
    if q < p { assert (p - q) * d >= d by { AtLeast(p - q, d); } }
  }

  lemma AtLeast(n: int, d: int)
    requires n >= 1 && d > 0
    ensures n * d >= d
  {
    assert (n - 1) * d >= 0;
  }

  /** Shifting left and cutting to x * y keeps the low part: a * x mod (y * x) = (a mod y) * x. */
  lemma ModTimes(a: nat, x: nat, y: nat)
    requires 0 < x && 0 < y
    ensures y * x > 0 && a * x % (y * x) == a % y * x
  {
    var q, r := a / y, a % y;
    assert a == q * y + r;
    assert a * x == q * (y * x) + r * x by {
      assert a * x == (q * y + r) * x == q * y * x + r * x;
    }
    assert r * x < y * x by { AtLeast(y - r, x); }
    assert y * x > 0 by { AtLeast(y, x); }
    DivModUnique(a * x, y * x, q, r * x);
  }

  /** (r * x) / (z * x) = r / z. */
  lemma DivTimes(r: nat, x: nat, z: nat)
    requires 0 < x && 0 < z
    ensures z * x > 0 && r * x / (z * x) == r / z
  {
    var q, s := r / z, r % z;
    assert r == q * z + s;
    assert r * x == q * (z * x) + s * x by {
      assert r * x == (q * z + s) * x == q * z * x + s * x;
    }
    assert s * x < z * x by { AtLeast(z - s, x); }
    assert z * x > 0 by { AtLeast(z, x); }
    DivModUnique(r * x, z * x, q, s * x);
  }

  /** With a = q * (y * z) + r: its quotient by z, mod y, is r / z; and its two parts. */
  lemma SplitTwice(a: nat, y: nat, z: nat)
    requires 0 < y && 0 < z
    ensures y * z > 0
    ensures a % (y * z) / z == a / z % y < y
    ensures a / (y * z) == a / z / y
    ensures a % (y * z) % z == a % z
  {
    var b, c := a / z, a % z;
    var q, r := b / y, b % y;
    assert a == b * z + c && b == q * y + r;
    assert a == q * (y * z) + (r * z + c) by {
      assert b * z == (q * y + r) * z == q * y * z + r * z;
    }
    assert r * z + c < y * z by { AtLeast(y - r, z); }
    assert y * z > 0 by { AtLeast(y, z); }
    assert r * z >= 0;
    DivModUnique(a, y * z, q, r * z + c);
    DivModUnique(r * z + c, z, r, c);
  }

  /** Shifting the bits above a field out on the left, and those below it on the right. */
  lemma FieldByShifts(a: nat, lo: nat, mid: nat, hi: nat)
    ensures a * Pow2(hi) % Pow2(mid + lo + hi) / Pow2(lo + hi) == a / Pow2(lo) % Pow2(mid)
  {
    var y, z, x := Pow2(mid), Pow2(lo), Pow2(hi);
    Pow2Adds(mid, lo);
    Pow2Adds(mid + lo, hi);
    Pow2Adds(lo, hi);
    SplitTwice(a, y, z);
    ModTimes(a, x, y * z);
    DivTimes(a % (y * z), x, z);
  }

  /** What is left of a number of n + k bits above its low n bits has k bits. */
  lemma HighBits(a: nat, n: nat, k: nat)
    requires a < Pow2(k + n)
    ensures a / Pow2(n) < Pow2(k)
  {
    Pow2Adds(k, n);
    QuotientBelow(a, Pow2(n), Pow2(k));
  }

  lemma QuotientBelow(a: nat, d: nat, p: nat)
    requires 0 < d && a < p * d
    ensures a / d < p
  {
    var q, r := a / d, a % d;
    assert a == q * d + r;
    TimesGrows(p, q, d);
  }

  lemma TimesGrows(p: nat, q: nat, d: nat)
    ensures q >= p ==> q * d >= p * d
  {
    if q >= p { assert (q - p) * d >= 0; }
  }

  /** The shifts compute the fields of the address: tag, set number and byte offset, and each
      is in the range of what it indexes. */
  lemma FieldsAreDivMod(a: nat, setBits: nat, blockBits: nat)
    requires Domain(setBits, blockBits) && Word(a)
    ensures GetByte(a, setBits, blockBits) == a % Pow2(blockBits) < Pow2(blockBits)
    ensures GetSet(a, setBits, blockBits) == a / Pow2(blockBits) % Pow2(setBits) < Pow2(setBits)
    ensures GetLine(a, setBits, blockBits) == a / Pow2(blockBits) / Pow2(setBits)
    ensures GetLine(a, setBits, blockBits) < Pow2(32 - (setBits + blockBits))
  {
    hide Pow2, GetSet, GetByte, GetLine, Word;
    ByteIsMod(a, setBits, blockBits);
    SetIsDivMod(a, setBits, blockBits);
    LineIsDivDiv(a, setBits, blockBits);
    LineInRange(a, setBits, blockBits);
  }

  lemma ByteIsMod(a: nat, setBits: nat, blockBits: nat)
    requires Domain(setBits, blockBits)
    ensures GetByte(a, setBits, blockBits) == a % Pow2(blockBits) < Pow2(blockBits)
  {
    hide Pow2;
    FieldByShifts(a, 0, blockBits, 32 - blockBits);
    Pow2Zero();
  }

  lemma SetIsDivMod(a: nat, setBits: nat, blockBits: nat)
    requires Domain(setBits, blockBits)
    ensures GetSet(a, setBits, blockBits) == a / Pow2(blockBits) % Pow2(setBits) < Pow2(setBits)
  {
    hide Pow2;
    FieldByShifts(a, blockBits, setBits, 32 - (setBits + blockBits));
  }

  lemma LineInRange(a: nat, setBits: nat, blockBits: nat)
    requires Domain(setBits, blockBits) && Word(a)
    ensures GetLine(a, setBits, blockBits) < Pow2(32 - (setBits + blockBits))
  {
    hide Pow2;
    HighBits(a, setBits + blockBits, 32 - (setBits + blockBits));
  }

  lemma Pow2Zero()
    ensures Pow2(0) == 1
  {
  }

  lemma LineIsDivDiv(a: nat, setBits: nat, blockBits: nat)
    requires Domain(setBits, blockBits)
    ensures GetLine(a, setBits, blockBits) == a / Pow2(blockBits) / Pow2(setBits)
  {
    hide Pow2;
    Pow2Adds(setBits, blockBits);
    SplitTwice(a, Pow2(setBits), Pow2(blockBits));
  }

  /** The fields recompose to the address. */
  lemma Recompose(a: nat, setBits: nat, blockBits: nat)
    requires Domain(setBits, blockBits) && Word(a)
    ensures a == (GetLine(a, setBits, blockBits) * Pow2(setBits) + GetSet(a, setBits, blockBits)) * Pow2(blockBits)
                 + GetByte(a, setBits, blockBits)
  {
    hide Pow2, GetLine, GetSet, GetByte, Domain, Word;
    FieldsAreDivMod(a, setBits, blockBits);
    var b := a / Pow2(blockBits);
    assert b == b / Pow2(setBits) * Pow2(setBits) + b % Pow2(setBits);
    assert a == b * Pow2(blockBits) + a % Pow2(blockBits);
  }

  /** Two addresses have the same tag and set exactly when they lie in the same block. */
  lemma SameBlock(a: nat, b: nat, setBits: nat, blockBits: nat)
    requires Domain(setBits, blockBits) && Word(a) && Word(b)
    ensures GetLine(a, setBits, blockBits) == GetLine(b, setBits, blockBits)
            && GetSet(a, setBits, blockBits) == GetSet(b, setBits, blockBits)
            <==> a / Pow2(blockBits) == b / Pow2(blockBits)
  {
    hide Pow2, GetLine, GetSet, GetByte;
    FieldsAreDivMod(a, setBits, blockBits);
    FieldsAreDivMod(b, setBits, blockBits);
    var p, q, y := a / Pow2(blockBits), b / Pow2(blockBits), Pow2(setBits);
    assert p == p / y * y + p % y && q == q / y * y + q % y;
  }
}
