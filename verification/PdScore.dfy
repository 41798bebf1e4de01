/** The similarity score of a page as a candidate page directory,
    libxa/xenaccess/xa_memory.c. */
module PdScore {
  import opened Bits
  import opened BitCount
  import opened PageWalk
  import Ia32

  // ----- directory entries

  /** A directory entry that can be: not all ones, and the page it names, of 2 MB or of 4 KB by bit
      7, starts at or below the size of memory. */
  predicate IsEntry(value: uint32, msize: uint32) {
    && value != 0xFFFF_FFFF
    && (if value / 128 % 2 == 1 then value / 0x20_0000 * 0x20_0000 <= msize else value / 4096 * 4096 <= msize)
  }

  function Entries(msize: uint32): uint32 -> bool {
    (value: uint32) => IsEntry(value, msize)
  }

  /** `xa_kernel_pd_valid_entry`. */
  predicate ValidEntry(value: uint32, msize: uint32) {
    && value != 0xFFFF_FFFF
    && (if GetBit(value, 7) then And(value, 0xFFE0_0000) <= msize else And(value, 0xFFFF_F000) <= msize)
  }

  function Valid(msize: uint32): uint32 -> bool {
    (value: uint32) => ValidEntry(value, msize)
  }

  lemma FrameMasks(x: nat)
    ensures GetBit(x, 7) <==> x / 128 % 2 == 1
    ensures And(x, 0xFFE0_0000) == x / 0x20_0000 % 0x800 * 0x20_0000
    ensures And(x, 0xFFFF_F000) == x / 4096 % 0x10_0000 * 4096
  {
    Ia32.Flags(x);
    Ia32.LargeBasePae(x);
    Ia32.Base32(x);
  }

  lemma WithinWord(x: nat)
    requires x < 0x1_0000_0000
    ensures x / 0x20_0000 % 0x800 == x / 0x20_0000 && x / 4096 % 0x10_0000 == x / 4096
  {
  }

  /** The code's test of an entry is that test. */
  lemma ValidEntryIff(value: uint32, msize: uint32)
    ensures ValidEntry(value, msize) <==> IsEntry(value, msize)
  {
    FrameMasks(value);
    WithinWord(value);
  }

  // ----- the specification: positions on which all non-zero words agree

  function NonZero(ws: seq<uint32>): (r: seq<uint32>)
    ensures forall i :: 0 <= i < |r| ==> r[i] != 0
  {
    if ws == [] then []
    else
      var w := ws[|ws| - 1];
      NonZero(ws[..|ws| - 1]) + (if w != 0 then [w] else [])
  }

  function Halves(ns: seq<nat>): (r: seq<nat>)
    ensures |r| == |ns| && forall i :: 0 <= i < |ns| ==> r[i] == ns[i] / 2
  {
    seq(|ns|, i requires 0 <= i < |ns| => ns[i] / 2)
  }

  predicate AllOdd(ns: seq<nat>) {
    forall i :: 0 <= i < |ns| ==> ns[i] % 2 == 1
  }

  predicate AllEven(ns: seq<nat>) {
    forall i :: 0 <= i < |ns| ==> ns[i] % 2 == 0
  }

  /** The number of the k low bit positions on which all the words have the same bit. */
  function Agreements(ns: seq<nat>, k: nat): (r: nat)
    ensures r <= k
    decreases k
  {
    if k == 0 then 0
    else (if AllOdd(ns) || AllEven(ns) then 1 else 0) + Agreements(Halves(ns), k - 1)
  }

  /** The number of entries that are no valid directory entries. */
  function Invalid(ws: seq<uint32>, valid: uint32 -> bool): nat {
    if ws == [] then 0
    else Invalid(ws[..|ws| - 1], valid) + (if valid(ws[|ws| - 1]) then 0 else 1)
  }

  /** The second non-zero word is never checked; this is what that forgives. */
  function Unchecked(ws: seq<uint32>, valid: uint32 -> bool): nat {
    var ns := NonZero(ws);
    if |ns| >= 2 && !valid(ns[1]) then 1 else 0
  }

  function Score(ws: seq<uint32>, valid: uint32 -> bool): int {
    var ns := NonZero(ws);
    (if |ns| >= 2 then Agreements(ns, 32) else 0) - (Invalid(ws, valid) - Unchecked(ws, valid))
  }

  // ----- what the accumulators hold

  /** Bits set in all the words, out of k. */
  function Ones1(ns: seq<nat>, k: nat): nat {
    if ns == [] then Pow2(k) - 1 else And(Ones1(ns[..|ns| - 1], k), ns[|ns| - 1])
  }

  /** The complement in k bits. */
  function Complement(n: nat, k: nat): nat {
    if n < Pow2(k) then Pow2(k) - 1 - n else 0
  }

  /** Bits clear in all the words, out of k. */
  function Ones0(ns: seq<nat>, k: nat): nat {
    if ns == [] then Pow2(k) - 1 else And(Ones0(ns[..|ns| - 1], k), Complement(ns[|ns| - 1], k))
  }

  lemma AndHalf(x: nat, y: nat)
    ensures And(x, y) / 2 == And(x / 2, y / 2)
    ensures And(x, y) % 2 == 1 <==> x % 2 == 1 && y % 2 == 1
  {
  }

  lemma {:induction false} Ones1Half(ns: seq<nat>, k: nat)
    requires k > 0
    ensures Ones1(ns, k) / 2 == Ones1(Halves(ns), k - 1)
    ensures Ones1(ns, k) % 2 == 1 <==> AllOdd(ns)
  {
    if ns != [] {
      var n := |ns| - 1;
      Ones1Half(ns[..n], k);
      AndHalf(Ones1(ns[..n], k), ns[n]);
      assert Halves(ns)[..n] == Halves(ns[..n]);
      assert AllOdd(ns) <==> AllOdd(ns[..n]) && ns[n] % 2 == 1;
    }
  }

  lemma ComplementHalf(n: nat, k: nat)
    requires k > 0 && n < Pow2(k)
    ensures Complement(n, k) / 2 == Complement(n / 2, k - 1)
    ensures Complement(n, k) % 2 == 1 <==> n % 2 == 0
  {
    assert Pow2(k) == 2 * Pow2(k - 1);
  }

  lemma {:induction false} Ones0Half(ns: seq<nat>, k: nat)
    requires k > 0 && forall i :: 0 <= i < |ns| ==> ns[i] < Pow2(k)
    ensures Ones0(ns, k) / 2 == Ones0(Halves(ns), k - 1)
    ensures Ones0(ns, k) % 2 == 1 <==> AllEven(ns)
  {
    if ns != [] {
      var n := |ns| - 1;
      Ones0Half(ns[..n], k);
      ComplementHalf(ns[n], k);
      AndHalf(Ones0(ns[..n], k), Complement(ns[n], k));
      assert Halves(ns)[..n] == Halves(ns[..n]);
      assert AllEven(ns) <==> AllEven(ns[..n]) && ns[n] % 2 == 0;
    }
  }

  /** Counting the bits of the two accumulators counts the agreements. */
  lemma {:induction false} OnesAreAgreements(ns: seq<nat>, k: nat)
    requires ns != [] && forall i :: 0 <= i < |ns| ==> ns[i] < Pow2(k)
    ensures Ones(Ones0(ns, k)) + Ones(Ones1(ns, k)) == Agreements(ns, k)
    decreases k
  {
    if k == 0 {
      Ones0Bound(ns, 0);
      Ones1Bound(ns, 0);
    } else {
      Ones1Half(ns, k);
      Ones0Half(ns, k);
      OnesAreAgreements(Halves(ns), k - 1);
      OnesOfBit(Ones0(ns, k) / 2, Ones0(ns, k) % 2);
      OnesOfBit(Ones1(ns, k) / 2, Ones1(ns, k) % 2);
      assert !(AllOdd(ns) && AllEven(ns)) by { assert ns[0] % 2 == 0 || ns[0] % 2 == 1; }
    }
  }

  lemma {:induction false} Ones1Bound(ns: seq<nat>, k: nat)
    ensures Ones1(ns, k) < Pow2(k)
  {
    if ns != [] {
      Ones1Bound(ns[..|ns| - 1], k);
      AndAtMost(Ones1(ns[..|ns| - 1], k), ns[|ns| - 1]);
    }
  }

  lemma {:induction false} Ones0Bound(ns: seq<nat>, k: nat)
    ensures Ones0(ns, k) < Pow2(k)
  {
    if ns != [] {
      Ones0Bound(ns[..|ns| - 1], k);
      AndAtMost(Ones0(ns[..|ns| - 1], k), Complement(ns[|ns| - 1], k));
    }
  }

  // ----- the scoring loop

  lemma {:induction false} AndCommutes(x: nat, y: nat)
    ensures And(x, y) == And(y, x)
  {
    if x != 0 && y != 0 {
      AndCommutes(x / 2, y / 2);
    }
  }

  lemma SmallMod(x: nat, p: nat)
    requires x < p
    ensures x % p == x
  {
    ModUnique(x, p, 0, x);
  }

  lemma FullMask(x: nat, k: nat)
    requires x < Pow2(k)
    ensures And(Pow2(k) - 1, x) == x
  {
    var p := Pow2(k);
    AndCommutes(p - 1, x);
    LowMask(x, k, p);
    SmallMod(x, p);
  }

  lemma PairAccumulators(v: nat, u: nat, k: nat)
    requires v < Pow2(k) && u < Pow2(k)
    ensures Ones1([v, u], k) == And(v, u)
    ensures Ones0([v, u], k) == And(Complement(v, k), Complement(u, k))
  {
    FullMask(v, k);
    FullMask(Complement(v, k), k);
    assert [v, u][..1] == [v] && [v][..0] == [];
    assert Ones1([v], k) == And(Pow2(k) - 1, v);
    assert Ones0([v], k) == And(Pow2(k) - 1, Complement(v, k));
  }

  lemma Pow32()
    ensures Pow2(32) == 0x1_0000_0000
  {
    Powers();
    assert Pow2(31) == 2 * Pow2(30) && Pow2(32) == 2 * Pow2(31);
  }

  datatype Acc = Acc(matches0: nat, matches1: nat, started: bool, correction: int)

  /** What the accumulators hold after some words. */
  function AccOf(p: seq<uint32>, valid: uint32 -> bool): Acc {
    var ns := NonZero(p);
    var penalty := Invalid(p, valid) - Unchecked(p, valid);
    if |ns| >= 2 then Acc(Ones0(ns, 32), Ones1(ns, 32), true, 0 - penalty) else Acc(0, 0, false, 0 - penalty)
  }

  lemma NotIsComplement(w: uint32)
    ensures Not(w) == Complement(w, 32)
  {
    Pow32();
  }

  lemma Snoc(p: seq<uint32>, w: uint32, valid: uint32 -> bool)
    ensures NonZero(p + [w]) == if w != 0 then NonZero(p) + [w] else NonZero(p)
    ensures Invalid(p + [w], valid) == Invalid(p, valid) + (if valid(w) then 0 else 1)
  {
    assert (p + [w])[..|p|] == p;
  }

  /** What a word does to the accumulators once they are set, or a zero before that. */
  function Joined(a: Acc, w: uint32, ok: bool): Acc {
    var c := if ok then a.correction else a.correction - 1;
    if w == 0 then a.(correction := c)
    else Acc(And(a.matches0, Not(w)), And(a.matches1, w), a.started, c)
  }

  lemma AccumulateNext(p: seq<uint32>, w: uint32, valid: uint32 -> bool)
    requires AccOf(p, valid).started || w == 0
    ensures AccOf(p + [w], valid) == Joined(AccOf(p, valid), w, valid(w))
  {
    Snoc(p, w, valid);
    NotIsComplement(w);
    var ns := NonZero(p);
    if w != 0 {
      assert (ns + [w])[..|ns|] == ns;
    }
  }

  lemma UncheckedSecond(p: seq<uint32>, v: uint32, w: uint32, valid: uint32 -> bool)
    requires NonZero(p) == [v] && w != 0
    ensures NonZero(p + [w]) == [v, w]
    ensures Invalid(p + [w], valid) - Unchecked(p + [w], valid) == Invalid(p, valid)
  {
    Snoc(p, w, valid);
  }

  /** The second non-zero word: it sets the accumulators and is not checked. */
  lemma AccumulateSecond(p: seq<uint32>, v: uint32, w: uint32, valid: uint32 -> bool)
    requires NonZero(p) == [v] && w != 0
    ensures AccOf(p + [w], valid) == Acc(And(Not(v), Not(w)), And(v, w), true, 0 - Invalid(p, valid))
  {
    Pow32();
    UncheckedSecond(p, v, w, valid);
    NotIsComplement(v);
    NotIsComplement(w);
    PairAccumulators(v, w, 32);
  }

  lemma AccBounds(ws: seq<uint32>, valid: uint32 -> bool)
    ensures AccOf(ws, valid).matches0 < 0x1_0000_0000 && AccOf(ws, valid).matches1 < 0x1_0000_0000
  {
    Pow32();
    Ones0Bound(NonZero(ws), 32);
    Ones1Bound(NonZero(ws), 32);
  }

  lemma FinalScore(ws: seq<uint32>, valid: uint32 -> bool, a: Acc)
    requires a == AccOf(ws, valid)
    ensures a.matches0 < 0x1_0000_0000 && a.matches1 < 0x1_0000_0000
    ensures KernelPdBitcount(a.matches0) + KernelPdBitcount(a.matches1) + a.correction == Score(ws, valid)
  {
    AccBounds(ws, valid);
    BitcountIsOnes(a.matches0);
    BitcountIsOnes(a.matches1);
    if a.started {
      Pow32();
      OnesAreAgreements(NonZero(ws), 32);
    }
  }

  /** Skips zeros to the second non-zero word, if there is one. */
  method FindSecond(ws: seq<uint32>, from: nat) returns (i: nat)
    requires from <= |ws|
    ensures from <= i <= |ws|
    ensures i < |ws| ==> ws[i] != 0
    ensures forall j :: from <= j < i ==> ws[j] == 0
  {
    i := from;
    while i < |ws| && ws[i] == 0
      invariant from <= i <= |ws|
      invariant forall j :: from <= j < i ==> ws[j] == 0
    {
      i := i + 1;
    }
  }

  lemma {:induction false} SkipZeros(ws: seq<uint32>, valid: uint32 -> bool, from: nat, to: nat)
    requires from <= to <= |ws| && valid(0)
    requires forall j :: from <= j < to ==> ws[j] == 0
    ensures NonZero(ws[..to]) == NonZero(ws[..from])
    ensures Invalid(ws[..to], valid) == Invalid(ws[..from], valid)
  {
    if from < to {
      SkipZeros(ws, valid, from, to - 1);
      assert ws[..to] == ws[..to - 1] + [ws[to - 1]];
      Snoc(ws[..to - 1], ws[to - 1], valid);
    }
  }

  /** The words before i are accumulated; until two non-zero ones are seen there are none. */
  predicate AtWord(ws: seq<uint32>, valid: uint32 -> bool, a: Acc, i: nat) {
    i <= |ws| && a == AccOf(ws[..i], valid) && (!a.started && i < |ws| ==> NonZero(ws[..i]) == [])
  }

  lemma FirstWord(ws: seq<uint32>, valid: uint32 -> bool, i: nat)
    requires i < |ws| && ws[i] != 0 && NonZero(ws[..i]) == []
    ensures NonZero(ws[..i + 1]) == [ws[i]]
    ensures 0 - Invalid(ws[..i + 1], valid) == AccOf(ws[..i], valid).correction - (if valid(ws[i]) then 0 else 1)
  {
    assert ws[..i + 1] == ws[..i] + [ws[i]];
    Snoc(ws[..i], ws[i], valid);
  }

  lemma SecondWord(ws: seq<uint32>, valid: uint32 -> bool, v: uint32, k: nat)
    requires k < |ws| && NonZero(ws[..k]) == [v] && ws[k] != 0
    ensures AccOf(ws[..k + 1], valid) == Acc(And(Not(v), Not(ws[k])), And(v, ws[k]), true, 0 - Invalid(ws[..k], valid))
  {
    assert ws[..k + 1] == ws[..k] + [ws[k]];
    AccumulateSecond(ws[..k], v, ws[k], valid);
  }

  lemma SingleWord(p: seq<uint32>, valid: uint32 -> bool)
    requires |NonZero(p)| == 1
    ensures AccOf(p, valid) == Acc(0, 0, false, 0 - Invalid(p, valid))
  {
  }

  /** The first non-zero word, at i, is checked; the next one sets the accumulators. */
  method Start(ws: seq<uint32>, valid: uint32 -> bool, a: Acc, i: nat) returns (r: Acc, k: nat)
    requires valid(0) && i < |ws| && ws[i] != 0
    requires a == AccOf(ws[..i], valid) && NonZero(ws[..i]) == []
    ensures i < k <= |ws|
    ensures k < |ws| ==> r == AccOf(ws[..k + 1], valid) && r.started
    ensures k == |ws| ==> r == AccOf(ws[..k], valid)
  {
    var value := ws[i];
    var correction := if valid(value) then a.correction else a.correction - 1;
    FirstWord(ws, valid, i);
    k := FindSecond(ws, i + 1);
    SkipZeros(ws, valid, i + 1, k);
    if k < |ws| {
      SecondWord(ws, valid, value, k);
      r := Acc(And(Not(value), Not(ws[k])), And(value, ws[k]), true, correction);
    } else {
      SingleWord(ws[..k], valid);
      r := Acc(0, 0, false, correction);
    }
  }

  lemma NextWord(ws: seq<uint32>, valid: uint32 -> bool, a: Acc, i: nat)
    requires i < |ws| && AtWord(ws, valid, a, i) && (a.started || ws[i] == 0)
    ensures AtWord(ws, valid, Joined(a, ws[i], valid(ws[i])), i + 1)
  {
    assert ws[..i + 1] == ws[..i] + [ws[i]];
    AccumulateNext(ws[..i], ws[i], valid);
    Snoc(ws[..i], ws[i], valid);
  }

  method ScoreWord(ws: seq<uint32>, valid: uint32 -> bool, a: Acc, i: nat) returns (r: Acc, next: nat)
    requires valid(0) && i < |ws| && AtWord(ws, valid, a, i)
    ensures i < next && AtWord(ws, valid, r, next)
  {
    if a.started || ws[i] == 0 {
      NextWord(ws, valid, a, i);
      r, next := Joined(a, ws[i], valid(ws[i])), i + 1;
    } else {
      r, next := Start(ws, valid, a, i);
      if next < |ws| {
        next := next + 1;
      }
    }
  }

  /** The scoring loop over the words of a page. */
  method ScoreWords(ws: seq<uint32>, valid: uint32 -> bool) returns (score: int)
    requires valid(0)
    ensures score == Score(ws, valid)
  {
    var a := Acc(0, 0, false, 0);
    var i := 0;
    assert NonZero(ws[..0]) == [] && Invalid(ws[..0], valid) == 0;
    while i < |ws|
      invariant AtWord(ws, valid, a, i)
    {
      a, i := ScoreWord(ws, valid, a, i);
    }
    assert ws[..i] == ws;
    FinalScore(ws, valid, a);
    score := KernelPdBitcount(a.matches0) + KernelPdBitcount(a.matches1) + a.correction;
  }

  lemma {:induction false} InvalidCounts(ws: seq<uint32>, valid: uint32 -> bool)
    ensures Unchecked(ws, valid) <= Invalid(ws, valid)
  {
    var ns := NonZero(ws);
    if |ns| >= 2 {
      var k := NonZeroAt(ws, 1);
      InvalidAt(ws, valid, k);
    }
  }

  lemma {:induction false} NonZeroAt(ws: seq<uint32>, j: nat) returns (k: nat)
    requires j < |NonZero(ws)|
    ensures k < |ws| && ws[k] == NonZero(ws)[j]
  {
    var n := |ws| - 1;
    if j < |NonZero(ws[..n])| {
      k := NonZeroAt(ws[..n], j);
    } else {
      k := n;
    }
  }

  lemma {:induction false} InvalidAt(ws: seq<uint32>, valid: uint32 -> bool, k: nat)
    requires k < |ws|
    ensures !valid(ws[k]) ==> Invalid(ws, valid) >= 1
  {
    if k < |ws| - 1 {
      InvalidAt(ws[..|ws| - 1], valid, k);
    }
  }

  lemma {:induction false} InvalidSame(ws: seq<uint32>, p: uint32 -> bool, q: uint32 -> bool)
    requires forall v: uint32 :: p(v) == q(v)
    ensures Invalid(ws, p) == Invalid(ws, q)
  {
    if ws != [] {
      InvalidSame(ws[..|ws| - 1], p, q);
    }
  }

  /** `xa_kernel_pd_score`: the loop with the code's own test of an entry. */
  method ScorePage(ws: seq<uint32>, msize: uint32) returns (score: int)
    ensures score == Score(ws, Entries(msize))
  {
    forall v: uint32
      ensures Valid(msize)(v) == Entries(msize)(v)
    {
      ValidEntryIff(v, msize);
    }
    SmallIsEntry(0, msize);
    InvalidSame(ws, Valid(msize), Entries(msize));
    score := ScoreWords(ws, Valid(msize));
  }

  /** A score never exceeds 32, and needs two non-zero words to be positive. */
  lemma ScoreBounds(ws: seq<uint32>, valid: uint32 -> bool)
    ensures Score(ws, valid) <= 32
    ensures |NonZero(ws)| < 2 ==> Score(ws, valid) <= 0
  {
    InvalidCounts(ws, valid);
  }

  // ----- the entry that is not checked

  lemma SmallIsEntry(v: uint32, msize: uint32)
    requires v <= msize && v < 0xFFFF_FFFF
    ensures IsEntry(v, msize)
  {
  }

  lemma TwoNonZero(v: uint32, u: uint32, valid: uint32 -> bool)
    requires v != 0 && u != 0
    ensures NonZero([v, u]) == [v, u]
    ensures Invalid([v, u], valid) == (if valid(v) then 0 else 1) + (if valid(u) then 0 else 1)
  {
    Snoc([], v, valid);
    Snoc([v], u, valid);
    assert [] + [v] == [v] && [v] + [u] == [v, u];
  }

  /** Zeros behind two words change nothing. */
  lemma {:induction false} PaddedPair(ws: seq<uint32>, valid: uint32 -> bool)
    requires |ws| >= 2 && ws[0] != 0 && ws[1] != 0 && valid(0)
    requires forall i :: 2 <= i < |ws| ==> ws[i] == 0
    ensures NonZero(ws) == [ws[0], ws[1]]
    ensures Invalid(ws, valid) == (if valid(ws[0]) then 0 else 1) + (if valid(ws[1]) then 0 else 1)
  {
    if |ws| == 2 {
      TwoNonZero(ws[0], ws[1], valid);
      assert ws == [ws[0], ws[1]];
    } else {
      PaddedPair(ws[..|ws| - 1], valid);
    }
  }

  lemma {:induction false} NoAgreement(k: nat, ns: seq<nat>)
    requires |ns| == 2 && ns[0] == 0 && ns[1] == Pow2(k) - 1
    ensures Agreements(ns, k) == 0
    decreases k
  {
    if k > 0 {
      assert Pow2(k) == 2 * Pow2(k - 1);
      assert ns[0] % 2 == 0 && ns[1] % 2 == 1;
      NoAgreement(k - 1, Halves(ns));
    }
  }

  lemma OneAgreement(ns: seq<nat>)
    requires |ns| == 2 && ns[0] == 1 && ns[1] == 0xFFFF_FFFF
    ensures Agreements(ns, 32) == 1
  {
    Pow32();
    assert Pow2(32) == 2 * Pow2(31);
    assert ns[0] % 2 == 1 && ns[1] % 2 == 1 && AllOdd(ns);
    NoAgreement(31, Halves(ns));
  }

  /** A page that starts with 1 and 0xFFFFFFFF and holds zeros then: the two agree on one bit.
      The second is no valid entry in any memory, and yet the score is 1: a candidate. */
  lemma UnpunishedSecond(ws: seq<uint32>, msize: uint32)
    requires msize > 0 && |ws| >= 2 && ws[0] == 1 && ws[1] == 0xFFFF_FFFF
    requires forall i :: 2 <= i < |ws| ==> ws[i] == 0
    ensures Invalid(ws, Entries(msize)) == 1 && Score(ws, Entries(msize)) == 1
  {
    SmallIsEntry(0, msize);
    SmallIsEntry(1, msize);
    PaddedPair(ws, Entries(msize));
    OneAgreement([ws[0], ws[1]]);
  }
}
