/** Machine words as numbers.  C's unsigned types are numbers below a power of two;
    `&` and `|` are defined bit by bit, `>>` and `~` by their values.  The lemmas say what
    the masks used by XenAccess compute. */
module Bits {

  type byte = x: nat | x < 0x100
  type uint32 = x: nat | x < 0x1_0000_0000
  type uint64 = x: nat | x < 0x1_0000_0000_0000_0000

  /** Bitwise conjunction. */
  function And(x: nat, y: nat): nat {
    if x == 0 || y == 0 then 0 else 2 * And(x / 2, y / 2) + Both(x % 2, y % 2)
  }

  function Both(x: nat, y: nat): nat {
    if x == 1 && y == 1 then 1 else 0
  }

  /** Bitwise disjunction. */
  function Or(x: nat, y: nat): nat
    decreases x + y
  {
    if x == 0 then y else if y == 0 then x
    else 2 * Or(x / 2, y / 2) + (if x % 2 == 1 || y % 2 == 1 then 1 else 0)
  }

  /** Bitwise complement of a 32-bit word. */
  function Not(x: uint32): uint32 {
    0xFFFF_FFFF - x
  }

  /** Conversion of a number to a 32-bit word: the low 32 bits. */
  function Trunc(x: nat): uint32 {
    x % 0x1_0000_0000
  }

  function Pow2(k: nat): (p: nat)
    ensures p >= 1
  {
    if k == 0 then 1 else 2 * Pow2(k - 1)
  }

  lemma Powers()
    ensures Pow2(0) == 1 && Pow2(1) == 2 && Pow2(7) == 0x80 && Pow2(9) == 0x200 && Pow2(10) == 0x400
    ensures Pow2(11) == 0x800 && Pow2(12) == 0x1000 && Pow2(20) == 0x10_0000 && Pow2(21) == 0x20_0000
    ensures Pow2(22) == 0x40_0000 && Pow2(24) == 0x100_0000 && Pow2(27) == 0x800_0000 && Pow2(30) == 0x4000_0000
  {
    assert Pow2(1) == 0x2;
    assert Pow2(2) == 0x4;
    assert Pow2(3) == 0x8;
    assert Pow2(4) == 0x10;
    assert Pow2(5) == 0x20;
    assert Pow2(6) == 0x40;
    assert Pow2(7) == 0x80;
    assert Pow2(8) == 0x100;
    assert Pow2(9) == 0x200;
    assert Pow2(10) == 0x400;
    assert Pow2(11) == 0x800;
    assert Pow2(12) == 0x1000;
    assert Pow2(13) == 0x2000;
    assert Pow2(14) == 0x4000;
    assert Pow2(15) == 0x8000;
    assert Pow2(16) == 0x10000;
    assert Pow2(17) == 0x20000;
    assert Pow2(18) == 0x40000;
    assert Pow2(19) == 0x80000;
    assert Pow2(20) == 0x100000;
    assert Pow2(21) == 0x200000;
    assert Pow2(22) == 0x400000;
    assert Pow2(23) == 0x800000;
    assert Pow2(24) == 0x1000000;
    assert Pow2(25) == 0x2000000;
    assert Pow2(26) == 0x4000000;
    assert Pow2(27) == 0x8000000;
    assert Pow2(28) == 0x10000000;
    assert Pow2(29) == 0x20000000;
  }

  lemma FarMultiple(d: int, m: nat)
    ensures d != 0 ==> d * m >= m || d * m + m <= 0
  {
    if d >= 1 {
      assert (d - 1) * m >= 0;
    } else {
      assert (-d - 1) * m >= 0 || d == 0;
    }
  }

  lemma QuotientNat(x: nat, p: nat)
    requires p > 0
    ensures x / p >= 0
  {
    FarMultiple(x / p, p);
    assert x == (x / p) * p + x % p;
  }

  lemma ModUnique(x: nat, m: nat, q: nat, r: nat)
    requires r < m && x == q * m + r
    ensures x / m == q && x % m == r
  {
    var d := x / m - q;
    assert x == (x / m) * m + x % m;
    assert d * m == r - x % m;
    FarMultiple(d, m);
  }

  /** Dividing by 2P is dividing by 2 and then by P. */
  lemma HalveMod(x: nat, p: nat)
    requires p >= 1
    ensures x / (2 * p) == (x / 2) / p
    ensures x % (2 * p) == 2 * ((x / 2) % p) + x % 2
  {
    var q, r := (x / 2) / p, (x / 2) % p;
    assert x / 2 == q * p + r;
    assert q * (2 * p) == 2 * (q * p);
    ModUnique(x, 2 * p, q, 2 * r + x % 2);
  }

  lemma AndBit(a: nat, b: nat, x: nat, y: nat)
    requires x < 2 && y < 2
    ensures And(2 * a + x, 2 * b + y) == 2 * And(a, b) + Both(x, y)
  {
    assert (2 * a + x) / 2 == a && (2 * b + y) / 2 == b;
  }

  /** A mask of k low ones keeps the remainder modulo 2^k. */
  lemma {:induction false} AndLow(x: nat, k: nat)
    ensures And(x, Pow2(k) - 1) == x % Pow2(k)
  {
    if k == 0 {
      assert And(x, 0) == 0;
    } else {
      var p := Pow2(k - 1);
      HalveMod(x, p);
      if x != 0 {
        AndLow(x / 2, k - 1);
        assert (2 * p - 1) / 2 == p - 1 && (2 * p - 1) % 2 == 1;
      } else {
        assert 0 % (2 * p) == 0;
      }
    }
  }

  lemma LowMask(x: nat, k: nat, p: nat)
    requires p == Pow2(k)
    ensures And(x, p - 1) == x % p
  {
    AndLow(x, k);
  }

  /** A mask shifted up by k bits selects from the quotient by 2^k. */
  lemma AndEven(x: nat, m: nat)
    ensures And(x, 2 * m) == 2 * And(x / 2, m)
  {
    AndBit(x / 2, m, x % 2, 0);
  }

  lemma AndTimes4(x: nat, m: nat)
    ensures And(x, 4 * m) == 4 * And(x / 4, m)
  {
    AndEven(x, 2 * m);
    AndEven(x / 2, m);
    assert x / 2 / 2 == x / 4;
  }

  lemma AndTimes16(x: nat, m: nat)
    ensures And(x, 16 * m) == 16 * And(x / 16, m)
  {
    AndTimes4(x, 4 * m);
    AndTimes4(x / 4, m);
    assert x / 4 / 4 == x / 16;
  }

  lemma AndTimes256(x: nat, m: nat)
    ensures And(x, 256 * m) == 256 * And(x / 256, m)
  {
    AndTimes16(x, 16 * m);
    AndTimes16(x / 16, m);
    assert x / 16 / 16 == x / 256;
  }

  lemma AndTimes4096(x: nat, m: nat)
    ensures And(x, 4096 * m) == 4096 * And(x / 4096, m)
  {
    AndTimes16(x, 256 * m);
    AndTimes256(x / 16, m);
    assert x / 16 / 256 == x / 4096;
  }

  lemma AndTimes32(x: nat, m: nat)
    ensures And(x, 32 * m) == 32 * And(x / 32, m)
  {
    AndTimes16(x, 2 * m);
    AndEven(x / 16, m);
    assert x / 16 / 2 == x / 32;
  }

  lemma AndTimes128(x: nat, m: nat)
    ensures And(x, 128 * m) == 128 * And(x / 128, m)
  {
    AndTimes32(x, 4 * m);
    AndTimes4(x / 32, m);
    assert x / 32 / 4 == x / 128;
  }

  lemma AndTimes1M(x: nat, m: nat)
    ensures And(x, 0x10_0000 * m) == 0x10_0000 * And(x / 0x10_0000, m)
  {
    AndTimes4096(x, 256 * m);
    AndTimes256(x / 4096, m);
    assert x / 4096 / 256 == x / 0x10_0000;
  }

  lemma AndTimes2M(x: nat, m: nat)
    ensures And(x, 0x20_0000 * m) == 0x20_0000 * And(x / 0x20_0000, m)
  {
    AndTimes1M(x, 2 * m);
    AndEven(x / 0x10_0000, m);
    assert x / 0x10_0000 / 2 == x / 0x20_0000;
  }

  lemma AndTimes4M(x: nat, m: nat)
    ensures And(x, 0x40_0000 * m) == 0x40_0000 * And(x / 0x40_0000, m)
  {
    AndTimes1M(x, 4 * m);
    AndTimes4(x / 0x10_0000, m);
    assert x / 0x10_0000 / 4 == x / 0x40_0000;
  }

  /** Words that occupy different ranges of bits are joined by adding them. */
  lemma {:induction false} OrDisjoint(x: nat, y: nat, k: nat)
    requires x % Pow2(k) == 0 && y < Pow2(k)
    ensures Or(x, y) == x + y
  {
    if k == 0 || x == 0 || y == 0 {
    } else {
      var p := Pow2(k - 1);
      HalveMod(x, p);
      assert x % 2 == 0 && (x / 2) % p == 0;
      OrDisjoint(x / 2, y / 2, k - 1);
    }
  }

  lemma AndTwoBits(a: nat, b: nat, x1: nat, y1: nat, x0: nat, y0: nat)
    requires x1 < 2 && y1 < 2 && x0 < 2 && y0 < 2
    ensures And(4 * a + 2 * x1 + x0, 4 * b + 2 * y1 + y0) == 4 * And(a, b) + 2 * Both(x1, y1) + Both(x0, y0)
  {
    AndBit(2 * a + x1, 2 * b + y1, x0, y0);
    AndBit(a, b, x1, y1);
  }

  /** A three-bit field is conjoined separately from the bits above it. */
  lemma AndThreeBits(a: nat, b: nat, x2: nat, y2: nat, x1: nat, y1: nat, x0: nat, y0: nat)
    requires x2 < 2 && y2 < 2 && x1 < 2 && y1 < 2 && x0 < 2 && y0 < 2
    ensures And(8 * a + 4 * x2 + 2 * x1 + x0, 8 * b + 4 * y2 + 2 * y1 + y0)
         == 8 * And(a, b) + 4 * Both(x2, y2) + 2 * Both(x1, y1) + Both(x0, y0)
  {
    AndBit(4 * a + 2 * x2 + x1, 4 * b + 2 * y2 + y1, x0, y0);
    AndTwoBits(a, b, x2, y2, x1, y1);
  }
}
