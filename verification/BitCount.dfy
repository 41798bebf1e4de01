/** The HAKMEM bit count of libxa/xenaccess/xa_memory.c, proved to count the set bits. */
module BitCount {
  import opened Bits

  /** The number of set bits. */
  function Ones(n: nat): nat {
    if n == 0 then 0 else n % 2 + Ones(n / 2)
  }

  /** Unsigned 32-bit subtraction. */
  function Sub(x: uint32, y: uint32): uint32 {
    Trunc(x + 0x1_0000_0000 - y)
  }

  /** Three bits of `n` become their sum, in each octal digit. */
  function OctalCounts(n: uint32): nat {
    Sub(Sub(n, Trunc(And(n / 2, 0xDB6D_B6DB))), Trunc(And(n / 4, 0x4924_9249)))
  }

  function KernelPdBitcount(n: uint32): nat {
    SumOfCounts(OctalCounts(n))
  }

  /** `(count + (count >> 3)) & 030707070707`, then `% 63`. */
  function SumOfCounts(count: nat): nat {
    And(Trunc(count + count / 8), 0xC71C_71C7) % 63
  }

  // ----- masks as repeated digits

  /** `d` in each of the k low octal digits. */
  function Octal(d: nat, k: nat): nat {
    if k == 0 then 0 else 8 * Octal(d, k - 1) + d
  }

  function Pow8(k: nat): nat {
    if k == 0 then 1 else 8 * Pow8(k - 1)
  }

  /** The counts by digits, for a number of k octal digits. */
  function Counts(n: nat, k: nat): int {
    n - And(n / 2, Octal(3, k)) - And(n / 4, Octal(1, k))
  }

  lemma DigitBits(d: nat)
    requires d < 8
    ensures d / 4 < 2 && 4 * (d / 4) + 2 * (d / 2 % 2) + d % 2 == d
  {
  }

  lemma AndDigit(a: nat, b: nat, x: nat, y: nat)
    requires x < 8 && y < 8
    ensures And(8 * a + x, 8 * b + y)
         == 8 * And(a, b) + 4 * Both(x / 4, y / 4) + 2 * Both(x / 2 % 2, y / 2 % 2) + Both(x % 2, y % 2)
  {
    DigitBits(x);
    DigitBits(y);
    AndThreeBits(a, b, x / 4, y / 4, x / 2 % 2, y / 2 % 2, x % 2, y % 2);
  }

  lemma HalfDigits(h: nat, d: nat, m: nat)
    requires d < 8
    ensures And((8 * h + d) / 2, 8 * m + 3) == 8 * And(h / 2, m) + d / 2
  {
    assert (8 * h + d) / 2 == 8 * (h / 2) + (4 * (h % 2) + d / 2);
    AndDigit(h / 2, m, 4 * (h % 2) + d / 2, 3);
  }

  lemma QuarterDigits(h: nat, d: nat, m: nat)
    requires d < 8
    ensures And((8 * h + d) / 4, 8 * m + 1) == 8 * And(h / 4, m) + d / 4
  {
    assert (8 * h + d) / 4 == 8 * (h / 4) + (2 * (h % 4) + d / 4);
    AndDigit(h / 4, m, 2 * (h % 4) + d / 4, 1);
  }

  lemma OnesOfBit(h: nat, x: nat)
    requires x < 2
    ensures Ones(2 * h + x) == Ones(h) + x
  {
    assert (2 * h + x) / 2 == h && (2 * h + x) % 2 == x;
  }

  lemma OnesOfBits(h: nat, x2: nat, x1: nat, x0: nat)
    requires x2 < 2 && x1 < 2 && x0 < 2
    ensures Ones(8 * h + 4 * x2 + 2 * x1 + x0) == Ones(h) + x2 + x1 + x0
  {
    var a := 2 * h + x2;
    var b := 2 * a + x1;
    OnesOfBit(h, x2);
    OnesOfBit(a, x1);
    OnesOfBit(b, x0);
    assert 2 * b + x0 == 8 * h + 4 * x2 + 2 * x1 + x0;
  }

  lemma OnesOfDigit(h: nat, d: nat)
    requires d < 8
    ensures Ones(8 * h + d) == Ones(h) + (d - d / 2 - d / 4)
  {
    DigitBits(d);
    OnesOfBits(h, d / 4, d / 2 % 2, d % 2);
  }

  lemma CountsOfDigit(h: nat, d: nat, k: nat)
    requires d < 8
    ensures Counts(8 * h + d, k + 1) == 8 * Counts(h, k) + (d - d / 2 - d / 4)
  {
    HalfDigits(h, d, Octal(3, k));
    QuarterDigits(h, d, Octal(1, k));
  }

  /** The count of the low digit, and the counts of the digits above it. */
  lemma CountsStep(n: nat, k: nat)
    requires k > 0
    ensures Counts(n, k) == 8 * Counts(n / 8, k - 1) + (Ones(n) - Ones(n / 8))
    ensures 0 <= Ones(n) - Ones(n / 8) <= 3
  {
    OnesOfDigit(n / 8, n % 8);
    CountsOfDigit(n / 8, n % 8, k - 1);
  }

  lemma {:induction false} CountsBounds(n: nat, k: nat)
    requires n < Pow8(k)
    ensures 0 <= Counts(n, k) <= Octal(3, k)
  {
    if k > 0 {
      CountsStep(n, k);
      CountsBounds(n / 8, k - 1);
    }
  }

  // ----- adding neighbouring digits, and the sum of base-64 digits

  lemma KeepDigit(a: nat, m: nat, y: nat)
    requires y < 8
    ensures And(8 * a + y, 8 * m + 7) == 8 * And(a, m) + y
  {
    AndDigit(a, m, y, 7);
  }

  lemma ClearDigit(a: nat, m: nat, y: nat)
    requires y < 8
    ensures And(8 * a + y, 8 * m) == 8 * And(a, m)
  {
    AndDigit(a, m, y, 0);
  }

  lemma PairSums(c: nat, p: nat, q: nat, r: nat)
    requires p <= 3 && q <= 3 && r <= 3 && c % 8 == r
    ensures var x := 64 * c + 8 * q + p;
      x + x / 8 == 8 * (8 * (c + c / 8) + (q + r)) + (p + q)
  {
    assert (64 * c + 8 * q + p) / 8 == 8 * c + q;
    assert 8 * c == 64 * (c / 8) + 8 * r;
  }

  /** Masking `x + x / 8` keeps the sums of pairs of octal digits, in base 64. */
  lemma PairStep(c: nat, p: nat, q: nat, r: nat, m: nat)
    requires p <= 3 && q <= 3 && r <= 3 && c % 8 == r
    ensures var x := 64 * c + 8 * q + p;
      And(x + x / 8, 64 * m + 7) == 64 * And(c + c / 8, m) + (p + q)
  {
    PairSums(c, p, q, r);
    KeepDigit(8 * (c + c / 8) + (q + r), 8 * m, p + q);
    ClearDigit(c + c / 8, m, q + r);
  }

  /** 7 in the j low base-64 digits and 3 in the one above: 030707070707 for j = 5. */
  function PairMask(j: nat): nat {
    if j == 0 then 3 else 64 * PairMask(j - 1) + 7
  }

  /** One more than the largest number of 6j + 2 bits. */
  function Range(j: nat): nat {
    if j == 0 then 4 else 64 * Range(j - 1)
  }

  /** The counts of a number by its two low octal digits and the rest. */
  lemma CountsByPairs(n: nat, k: nat)
    requires k > 1 && Counts(n / 64, k - 2) >= 0
    ensures var p, q := Ones(n) - Ones(n / 8), Ones(n / 8) - Ones(n / 64);
      && 0 <= p <= 3 && 0 <= q <= 3
      && Counts(n, k) == 64 * Counts(n / 64, k - 2) + 8 * q + p
  {
    CountsStep(n, k);
    CountsStep(n / 8, k - 1);
    assert n / 8 / 8 == n / 64;
  }

  lemma LowDigit(c: int, a: nat, d: nat)
    requires c == 8 * a + d && d <= 3
    ensures c >= 0 && c % 8 <= 3
  {
  }

  lemma CountsDigit(n: nat, k: nat)
    requires k > 0 && Counts(n / 8, k - 1) >= 0
    ensures Counts(n, k) >= 0 && Counts(n, k) % 8 <= 3
  {
    CountsStep(n, k);
    LowDigit(Counts(n, k), Counts(n / 8, k - 1), Ones(n) - Ones(n / 8));
  }

  lemma {:induction false} CountsNat(n: nat, k: nat)
    requires n < Pow8(k)
    ensures Counts(n, k) >= 0 && Counts(n, k) % 8 <= 3
  {
    if k > 0 {
      CountsNat(n / 8, k - 1);
      CountsDigit(n, k);
    }
  }

  lemma {:induction false} RangeIsPow8(j: nat, k: nat)
    requires k == 2 * j + 1
    ensures Range(j) <= Pow8(k)
  {
    if j > 0 {
      RangeIsPow8(j - 1, k - 2);
    }
  }

  lemma CastOut63(a: nat, s: nat, b: nat)
    requires a % 63 == b % 63
    ensures (64 * a + s) % 63 == (b + s) % 63
  {
  }

  lemma PairsInduct(x: nat, c: nat, p: nat, q: nat, m: nat, b: nat)
    requires x == 64 * c + 8 * q + p && p <= 3 && q <= 3 && c % 8 <= 3
    requires And(c + c / 8, m) % 63 == b % 63
    ensures And(x + x / 8, 64 * m + 7) % 63 == (b + (p + q)) % 63
  {
    PairStep(c, p, q, c % 8, m);
    CastOut63(And(c + c / 8, m), p + q, b);
  }

  lemma PairsBase(n: nat, x: nat)
    requires n < 4 && x == Counts(n, 1)
    ensures And(x + x / 8, 3) % 63 == Ones(n) % 63
  {
    SmallCounts(n);
    KeepTwo(x, n / 4);
  }

  /** Two octal digits more. */
  lemma PairsMore(n: nat, k: nat, x: nat, c: nat, m: nat)
    requires k > 1 && x == Counts(n, k) && c == Counts(n / 64, k - 2) && c % 8 <= 3
    requires And(c + c / 8, m) % 63 == Ones(n / 64) % 63
    ensures And(x + x / 8, 64 * m + 7) % 63 == Ones(n) % 63
  {
    CountsByPairs(n, k);
    PairsInduct(x, c, Ones(n) - Ones(n / 8), Ones(n / 8) - Ones(n / 64), m, Ones(n / 64));
  }

  /** The masked pair sums are congruent to the number of ones: casting out 63s adds the
      base-64 digits. */
  lemma {:induction false} PairsCountOnes(n: nat, j: nat, k: nat, x: nat)
    requires n < Range(j) && k == 2 * j + 1 && x == Counts(n, k)
    ensures And(x + x / 8, PairMask(j)) % 63 == Ones(n) % 63
    decreases j
  {
    if j == 0 {
      PairsBase(n, x);
    } else {
      RangeIsPow8(j - 1, k - 2);
      CountsNat(n / 64, k - 2);
      var c := Counts(n / 64, k - 2);
      PairsCountOnes(n / 64, j - 1, k - 2, c);
      PairsMore(n, k, x, c, PairMask(j - 1));
    }
  }

  lemma KeepSmall(d: nat, z: nat, m: nat)
    requires d < 4 && z == 0 && m == 8 * z + 3
    ensures And(d, m) == d
  {
    AndDigit(z, z, d, 3);
    assert And(z, z) == 0 && 8 * z + d == d;
  }

  lemma OneDigitCounts(n: nat, a: nat, b: nat)
    requires a == And(n / 2, 3) && b == And(n / 4, 1)
    ensures Counts(n, 1) == n - a - b
  {
    assert Octal(3, 1) == 3 && Octal(1, 1) == 1;
  }

  lemma SmallOnes(n: nat)
    requires n < 4
    ensures Ones(n) == n - n / 2
  {
    OnesOfBit(n / 2, n % 2);
  }

  lemma MaskZero(z: nat, m: nat)
    requires z == 0
    ensures And(z, m) == 0
  {
  }

  lemma SmallCounts(n: nat)
    requires n < 4
    ensures Counts(n, 1) == Ones(n) <= 2
  {
    var a, b := And(n / 2, 3), And(n / 4, 1);
    OneDigitCounts(n, a, b);
    assert a == n / 2 by { KeepSmall(n / 2, n / 4, 3); }
    assert b == 0 by { MaskZero(n / 4, 1); }
    SmallOnes(n);
  }

  lemma KeepTwo(x: nat, z: nat)
    requires x <= 2 && z == 0
    ensures And(x + x / 8, 3) == x
  {
    AndTwoBits(z, z, x / 2, 1, x % 2, 1);
    assert And(z, z) == 0;
  }

  // ----- the C formula

  lemma Masks()
    ensures Octal(3, 11) == 0xDB6D_B6DB && Octal(1, 11) == 0x4924_9249
    ensures PairMask(5) == 0xC71C_71C7
    ensures Range(5) == 0x1_0000_0000 && Pow8(11) == 0x2_0000_0000
  {
    assert Octal(3, 2) == 0x1B && Octal(3, 4) == 0x6DB && Octal(3, 6) == 0x1_B6DB && Octal(3, 8) == 0x6D_B6DB;
    assert Octal(3, 10) == 0x1B6D_B6DB;
    assert Octal(1, 2) == 9 && Octal(1, 4) == 0x249 && Octal(1, 6) == 0x9249 && Octal(1, 8) == 0x24_9249;
    assert Octal(1, 10) == 0x924_9249;
    assert PairMask(2) == 0x31C7 && PairMask(4) == 0x31C_71C7;
    assert Range(2) == 0x4000 && Range(4) == 0x400_0000;
    assert Pow8(2) == 64 && Pow8(4) == 0x1000 && Pow8(6) == 0x4_0000 && Pow8(8) == 0x100_0000;
    assert Pow8(10) == 0x4000_0000;
  }

  lemma {:induction false} AndAtMost(x: nat, y: nat)
    ensures And(x, y) <= x && And(x, y) <= y
  {
    if x != 0 && y != 0 {
      AndAtMost(x / 2, y / 2);
    }
  }

  lemma SubTwice(n: nat, a: nat, b: nat)
    requires a + b <= n < 0x1_0000_0000
    ensures Sub(Sub(n, Trunc(a)), Trunc(b)) == n - a - b
  {
  }

  lemma MaskedHalves(n: nat, m: nat, k: nat)
    ensures And(n / 2, m) + And(n / 4, k) <= n
  {
    AndAtMost(n / 2, m);
    AndAtMost(n / 4, k);
  }

  /** No borrow: the subtractions stay within the word. */
  lemma NoBorrow(n: uint32)
    ensures OctalCounts(n) == Counts(n, 11)
  {
    Masks();
    var a, b := And(n / 2, Octal(3, 11)), And(n / 4, Octal(1, 11));
    MaskedHalves(n, Octal(3, 11), Octal(1, 11));
    SubTwice(n, a, b);
  }

  lemma OnesStep(n: nat)
    ensures Ones(n) <= Ones(n / 8) + 3
  {
    OnesOfDigit(n / 8, n % 8);
  }

  lemma DigitLess(n: nat, p: nat)
    requires n < 8 * p
    ensures n / 8 < p
  {
  }

  lemma {:induction false} OnesBound(n: nat, k: nat)
    requires n < Pow8(k)
    ensures Ones(n) <= 3 * k
  {
    if k > 0 {
      OnesStep(n);
      DigitLess(n, Pow8(k - 1));
      OnesBound(n / 8, k - 1);
    } else {
      assert n == 0;
    }
  }

  lemma SmallResidue(x: nat, y: nat)
    requires x % 63 == y % 63 && y < 63
    ensures x % 63 == y
  {
  }

  lemma NoCarry(c: nat)
    requires c <= 0xDB6D_B6DB
    ensures Trunc(c + c / 8) == c + c / 8
  {
  }

  lemma CountedOnes(n: nat, c: nat)
    requires n < Range(5) && Range(5) <= Pow8(11) && c == Counts(n, 11)
    ensures And(c + c / 8, PairMask(5)) % 63 == Ones(n)
  {
    PairsCountOnes(n, 5, 11, c);
    OnesBound(n, 11);
    SmallResidue(And(c + c / 8, PairMask(5)), Ones(n));
  }

  lemma FormulaCounts(n: nat, c: nat)
    requires n < 0x1_0000_0000 && c == Counts(n, 11) && c <= 0xDB6D_B6DB
    ensures SumOfCounts(c) == Ones(n)
  {
    Masks();
    NoCarry(c);
    CountedOnes(n, c);
  }

  lemma MaskedSum(n: uint32)
    ensures OctalCounts(n) == Counts(n, 11) && OctalCounts(n) <= 0xDB6D_B6DB
  {
    Masks();
    NoBorrow(n);
    CountsBounds(n, 11);
  }

  /** The HAKMEM formula is the number of set bits, for every 32-bit word. */
  lemma BitcountIsOnes(n: uint32)
    ensures KernelPdBitcount(n) == Ones(n)
  {
    MaskedSum(n);
    FormulaCounts(n, OctalCounts(n));
  }
}
