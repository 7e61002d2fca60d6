/** Rounding up to a power-of-two alignment, `(x + (a - 1)) & ~(a - 1)`. */
module Alignment {
  import opened Bits
  import opened PowerOfTwo

  /** The default alignment, that of the widest scalar type. */
  const MAX_ALIGN: nat := 16

  /** Clearing the low k of n bits rounds down to a multiple of 2^k. */
  lemma {:induction false} ClearLowBits(y: nat, k: nat, n: nat)
    requires y < Pow2(n) && k <= n
    ensures Pow2(k) <= Pow2(n) && And(y, Pow2(n) - Pow2(k)) == y - y % Pow2(k)
  {
    if k == 0 {
      ClearNone(y, n);
    } else {
      var p, q := Pow2(k - 1), Pow2(n - 1);
      assert Pow2(k) == 2 * p && Pow2(n) == 2 * q;
      ClearLowBits(y / 2, k - 1, n - 1);
      ClearOneMore(y, p, q - p, 2 * p, 2 * (q - p));
    }
  }

  lemma {:induction false} ClearNone(y: nat, n: nat)
    requires y < Pow2(n)
    ensures And(y, Pow2(n) - 1) == y && y % 1 == 0
  {
    AndMask(y, n);
    RemainderSmall(y, Pow2(n));
  }

  lemma {:induction false} ClearOneMore(y: nat, p: nat, h: nat, q: nat, d: nat)
    requires 0 < p && q == 2 * p && d == 2 * h && And(y / 2, h) == y / 2 - (y / 2) % p
    ensures And(y, d) == y - y % q
  {
    AndEven(y, h);
    HalvedRemainder(y, p);
  }

  lemma {:induction false} HalvedRemainder(y: nat, p: nat)
    requires p > 0
    ensures y - y % (2 * p) == 2 * (y / 2 - (y / 2) % p)
  {
    ModHalf(y, p);
  }

  lemma {:induction false} AndEven(y: nat, h: nat)
    ensures And(y, 2 * h) == 2 * And(y / 2, h)
  {
    AndHalves(y, 2 * h);
  }

  lemma {:induction false} RemainderSmall(y: nat, d: nat)
    requires y < d
    ensures y % d == y
  {
    DivModUnique(y, d, 0, y);
  }

  /** A power of two within a word, as `a & ~(a - 1)` needs it. */
  ghost predicate IsAlignment(a: nat) {
    exists k: nat :: k < 64 && a == Pow2(k)
  }

  lemma {:induction false} AlignmentBound(a: nat)
    requires IsAlignment(a)
    ensures 0 < a < WORD
  {
    var k: nat :| k < 64 && a == Pow2(k);
    Pow2Word();
    Pow2Monotone(k, 64);
  }

  lemma {:induction false} DefaultIsAlignment()
    ensures IsAlignment(MAX_ALIGN)
  {
    assert Pow2(4) == 2 * Pow2(3) == 4 * Pow2(2) == 8 * Pow2(1) == 16;
  }

  /** The least multiple of an alignment that is not below an address. */
  ghost predicate LeastAligned(start: nat, top: nat, alignment: nat)
    requires alignment > 0
  {
    && top <= start && start % alignment == 0
    && forall m: nat :: top <= m && m % alignment == 0 ==> start <= m
  }

  /** `(x + (a - 1)) & ~(a - 1)`. */
  function AlignUp(x: nat, a: nat): nat
    requires 0 < a < WORD && x + a - 1 < WORD
  {
    And(x + (a - 1), Not64(a - 1))
  }

  /** What it computes: the least multiple of the alignment that is not below x. */
  lemma {:induction false} AlignUpLeast(x: nat, a: nat)
    requires IsAlignment(a) && a < WORD && x + a - 1 < WORD
    ensures x <= AlignUp(x, a) < x + a && AlignUp(x, a) % a == 0
    ensures forall m: nat :: x <= m && m % a == 0 ==> AlignUp(x, a) <= m
  {
    AlignUpRoundsDown(x, a);
    RoundedDown(x + (a - 1), a);
    forall m: nat | x <= m && m % a == 0
      ensures AlignUp(x, a) <= m
    {
      MultiplesApart(m, AlignUp(x, a), a);
    }
  }

  lemma {:induction false} AlignUpRoundsDown(x: nat, a: nat)
    requires IsAlignment(a) && a < WORD && x + a - 1 < WORD
    ensures AlignUp(x, a) == (x + (a - 1)) - (x + (a - 1)) % a
  {
    var k: nat :| k < 64 && a == Pow2(k);
    Pow2Word();
    ClearLowBits(x + (a - 1), k, 64);
  }

  lemma {:induction false} RoundedDown(y: nat, a: nat)
    requires a > 0
    ensures 0 <= y - y % a && (y - y % a) % a == 0
  {
    assert y == a * (y / a) + y % a;
    DivModUnique(y - y % a, a, y / a, 0);
  }

  /** Two multiples of a that are closer than a are equal, or in order. */
  lemma {:induction false} MultiplesApart(m: nat, r: nat, a: nat)
    requires a > 0 && m % a == 0 && r % a == 0 && r - a < m
    ensures r <= m
  {
    assert m == a * (m / a) && r == a * (r / a);
    MulDistributes(m / a, r / a, a);
    if m < r {
      SmallMultiple(m / a - r / a, a);
    }
  }

  /** The first of 0, a, 2a, … that is not below x. On a word it may be 2^64. */
  function RoundUp(x: nat, a: nat): (m: nat)
    requires a > 0
    ensures x <= m < x + a
    decreases x
  {
    if x == 0 then 0 else if x <= a then a else a + RoundUp(x - a, a)
  }

  lemma {:induction false} RoundUpMultiple(x: nat, a: nat)
    requires a > 0
    ensures RoundUp(x, a) % a == 0
    decreases x
  {
    if x == 0 {
      DivModUnique(0, a, 0, 0);
    } else if x <= a {
      DivModUnique(a, a, 1, 0);
    } else {
      RoundUpMultiple(x - a, a);
      NextMultiple(RoundUp(x - a, a), a);
    }
  }

  lemma {:induction false} NextMultiple(m: nat, a: nat)
    requires a > 0 && m % a == 0
    ensures (a + m) % a == 0
  {
    assert m == a * (m / a);
    DivModUnique(a + m, a, m / a + 1, 0);
  }

  /** There is only one multiple of the alignment that close. */
  lemma {:induction false} RoundUpIs(x: nat, a: nat, m: nat)
    requires a > 0 && m % a == 0 && x <= m < x + a
    ensures RoundUp(x, a) == m
  {
    RoundUpMultiple(x, a);
    MultiplesApart(m, RoundUp(x, a), a);
    MultiplesApart(RoundUp(x, a), m, a);
  }

  lemma {:induction false} RoundUpLeast(x: nat, a: nat)
    requires a > 0
    ensures RoundUp(x, a) % a == 0
    ensures forall m: nat :: x <= m && m % a == 0 ==> RoundUp(x, a) <= m
  {
    RoundUpMultiple(x, a);
    forall m: nat | x <= m && m % a == 0
      ensures RoundUp(x, a) <= m
    {
      MultiplesApart(m, RoundUp(x, a), a);
    }
  }

  lemma {:induction false} WordIsMultiple(a: nat)
    requires IsAlignment(a) && a < WORD
    ensures WORD % a == 0
  {
    var k: nat :| k < 64 && a == Pow2(k);
    Pow2Word();
    Pow2Add(64 - k, k);
    DivModUnique(WORD, a, Pow2(64 - k), 0);
  }

  /** On words the masked sum is that multiple, wrapped. */
  lemma {:induction false} MaskedSum(x: Word, a: nat)
    requires IsAlignment(a) && a < WORD
    ensures And((x + (a - 1)) % WORD, Not64(a - 1)) == RoundUp(x, a) % WORD
  {
    if x + a - 1 < WORD {
      MaskedSumFits(x, a);
      AlignUpIsRoundUp(x, a);
      RemainderSmall(AlignUp(x, a), WORD);
    } else {
      WordIsRoundUp(x, a);
      MaskedSumPast(x, a - 1);
    }
  }

  lemma {:induction false} MaskedSumPast(x: Word, d: nat)
    requires IsAlignment(d + 1) && d + 1 < WORD && x + d >= WORD
    ensures And((x + d) % WORD, Not64(d)) == 0
  {
    DivModUnique(x + d, WORD, 1, x + d - WORD);
    MaskedSumWraps(x + d - WORD, d + 1);
  }

  lemma {:induction false} MaskedSumFits(x: nat, a: nat)
    requires 0 < a < WORD && x + a - 1 < WORD
    ensures And((x + (a - 1)) % WORD, Not64(a - 1)) == AlignUp(x, a) < WORD
  {
    assert (x + (a - 1)) % WORD == x + (a - 1);
  }

  lemma {:induction false} AlignUpIsRoundUp(x: nat, a: nat)
    requires IsAlignment(a) && a < WORD && x + a - 1 < WORD
    ensures AlignUp(x, a) == RoundUp(x, a)
  {
    AlignUpRoundsDown(x, a);
    RoundedDownIsUp(x, a);
  }

  lemma {:induction false} RoundedDownIsUp(x: nat, a: nat)
    requires a > 0
    ensures (x + (a - 1)) - (x + (a - 1)) % a == RoundUp(x, a)
  {
    var y := x + (a - 1);
    RoundedDown(y, a);
    RoundUpIs(x, a, y - y % a);
  }

  lemma {:induction false} WordIsRoundUp(x: Word, a: nat)
    requires IsAlignment(a) && a < WORD && x + a - 1 >= WORD
    ensures RoundUp(x, a) == WORD
  {
    WordIsMultiple(a);
    RoundUpIs(x, a, WORD);
  }

  lemma {:induction false} MaskedSumWraps(y: nat, a: nat)
    requires IsAlignment(a) && y < a < WORD
    ensures And(y, Not64(a - 1)) == 0
  {
    var k: nat :| k < 64 && a == Pow2(k);
    Pow2Word();
    ClearLowBits(y, k, 64);
    RemainderSmall(y, a);
  }

  /** The test `x != 0 && (x & (x - 1)) == 0` recognises the powers of two. */
  lemma {:induction false} PowerOfTwoTest(x: Word)
    ensures x != 0 && And(x, x - 1) == 0 <==> IsAlignment(x)
  {
    if x != 0 {
      var k := Binade(x);
      WordBinade(x, k);
      if x == Pow2(k) {
        AndMask(x, k);
        DivModUnique(x, Pow2(k), 1, 0);
      } else {
        TopBits(x, k);
        AndBit(x, x - 1, k);
        TestBitZero(k);
        PowerIsTop(x, k);
      }
    }
  }

  lemma {:induction false} TopBits(x: nat, k: nat)
    requires Pow2(k) < x < Pow2(k + 1)
    ensures TestBit(x, k) && TestBit(x - 1, k)
  {
    TopSet(x, k);
    TopSet(x - 1, k);
  }

  lemma {:induction false} TopSet(x: nat, k: nat)
    requires Pow2(k) <= x < Pow2(k + 1)
    ensures TestBit(x, k)
  {
    if k > 0 {
      TopSet(x / 2, k - 1);
    }
  }

  lemma {:induction false} PowerIsTop(x: nat, k: nat)
    requires Pow2(k) <= x < Pow2(k + 1) && x != Pow2(k)
    ensures !IsAlignment(x)
  {
    forall j: nat | j < 64
      ensures x != Pow2(j)
    {
      if j < k { Pow2Monotone(j, k); } else if k < j && k + 1 < j { Pow2Monotone(k + 1, j); }
    }
  }
}
