/** The C operators `&`, `|`, `^`, `~` and `>>` on unsigned words, as functions on
    natural numbers read in base two, and the laws the other modules need of them. */
module Bits {

  /** 2^64: a `size_t` or `uint64_t` is a natural number below it. */
  const WORD: nat := 0x1_0000_0000_0000_0000

  type Word = x: nat | x < WORD

  function Pow2(k: nat): (r: nat)
    ensures r >= 1
  {
    if k == 0 then 1 else 2 * Pow2(k - 1)
  }

  ghost predicate IsPow2(n: nat) {
    exists k: nat :: n == Pow2(k)
  }

  predicate TestBit(x: nat, i: nat) {
    if i == 0 then x % 2 == 1 else TestBit(x / 2, i - 1)
  }

  function And(x: nat, y: nat): (r: nat)
    ensures r <= x && r <= y
  {
    if x == 0 || y == 0 then 0
    else (if x % 2 == 1 && y % 2 == 1 then 1 else 0) + 2 * And(x / 2, y / 2)
  }

  function Or(x: nat, y: nat): nat {
    if x == 0 then y else if y == 0 then x
    else (if x % 2 == 1 || y % 2 == 1 then 1 else 0) + 2 * Or(x / 2, y / 2)
  }

  function Xor(x: nat, y: nat): nat {
    if x == 0 then y else if y == 0 then x
    else (if x % 2 != y % 2 then 1 else 0) + 2 * Xor(x / 2, y / 2)
  }

  function Shr(x: nat, k: nat): nat {
    if k == 0 then x else Shr(x / 2, k - 1)
  }

  /** `~x` on a 64-bit word. */
  function Not64(x: Word): Word {
    WORD - 1 - x
  }

  // ----- Powers of two

  lemma {:induction false} Pow2Add(a: nat, b: nat)
    ensures Pow2(a + b) == Pow2(a) * Pow2(b)
  {
    if a == 0 {
    } else {
      Pow2Add(a - 1, b);
    }
  }

  lemma {:induction false} Pow2Byte(a: nat)
    ensures Pow2(a + 8) == 256 * Pow2(a)
  {
    assert Pow2(a + 4) == 16 * Pow2(a) by { assert Pow2(a + 2) == 4 * Pow2(a); }
    assert Pow2(a + 8) == 16 * Pow2(a + 4) by { assert Pow2(a + 6) == 4 * Pow2(a + 4); }
  }

  lemma {:induction false} Pow2Word()
    ensures Pow2(64) == WORD
    ensures Pow2(63) == 0x8000_0000_0000_0000
  {
    var a: nat := 0;
    Pow2Byte(a);
    Pow2Byte(a + 8);
    Pow2Byte(a + 16);
    Pow2Byte(a + 24);
    Pow2Byte(a + 32);
    Pow2Byte(a + 40);
    Pow2Byte(a + 48);
    Pow2Byte(a + 56);
  }

  lemma {:induction false} DoubledIsPow2(p: nat)
    requires IsPow2(p)
    ensures IsPow2(2 * p)
  {
    var k: nat :| p == Pow2(k);
    assert Pow2(k + 1) == 2 * p;
  }

  lemma {:induction false} Pow2Monotone(a: nat, b: nat)
    requires a < b
    ensures 2 * Pow2(a) <= Pow2(b)
    decreases b
  {
    if a < b - 1 {
      Pow2Monotone(a, b - 1);
    }
  }

  /** Every positive number lies in exactly one binade. */
  lemma {:induction false} Binade(n: nat) returns (k: nat)
    requires n > 0
    ensures Pow2(k) <= n < Pow2(k + 1)
  {
    if n == 1 {
      k := 0;
    } else {
      var j := Binade(n / 2);
      k := j + 1;
    }
  }

  // ----- What each operator does to each bit

  lemma {:induction false} TestBitZero(i: nat)
    ensures !TestBit(0, i)
  {
    if i > 0 {
      TestBitZero(i - 1);
    }
  }

  lemma {:induction false} AndHalves(x: nat, y: nat)
    ensures And(x, y) / 2 == And(x / 2, y / 2)
    ensures And(x, y) % 2 == 1 <==> x % 2 == 1 && y % 2 == 1
  {
  }

  lemma {:induction false} AndBit(x: nat, y: nat, i: nat)
    ensures TestBit(And(x, y), i) <==> TestBit(x, i) && TestBit(y, i)
    decreases i
  {
    AndHalves(x, y);
    if i > 0 {
      AndBit(x / 2, y / 2, i - 1);
    }
  }

  lemma {:induction false} OrHalves(x: nat, y: nat)
    ensures Or(x, y) / 2 == Or(x / 2, y / 2)
    ensures Or(x, y) % 2 == 1 <==> x % 2 == 1 || y % 2 == 1
  {
  }

  lemma {:induction false} OrBit(x: nat, y: nat, i: nat)
    ensures TestBit(Or(x, y), i) <==> TestBit(x, i) || TestBit(y, i)
    decreases i
  {
    OrHalves(x, y);
    if i > 0 {
      OrBit(x / 2, y / 2, i - 1);
    }
  }

  lemma {:induction false} XorBit(x: nat, y: nat, i: nat)
    ensures TestBit(Xor(x, y), i) <==> TestBit(x, i) != TestBit(y, i)
    decreases i
  {
    if i > 0 {
      XorBit(x / 2, y / 2, i - 1);
    }
  }

  lemma {:induction false} ShrBit(x: nat, k: nat, i: nat)
    ensures TestBit(Shr(x, k), i) <==> TestBit(x, i + k)
  {
    if k > 0 {
      ShrBit(x / 2, k - 1, i);
    }
  }

  /** Complementing within `n` bits flips each of them. */
  lemma {:induction false} NotBit(n: nat, x: nat, i: nat)
    requires x < Pow2(n) && i < n
    ensures TestBit(Pow2(n) - 1 - x, i) <==> !TestBit(x, i)
  {
    if i > 0 {
      assert (Pow2(n) - 1 - x) / 2 == Pow2(n - 1) - 1 - x / 2;
      NotBit(n - 1, x / 2, i - 1);
    }
  }

  lemma {:induction false} Not64Bit(x: Word, i: nat)
    requires i < 64
    ensures TestBit(Not64(x), i) <==> !TestBit(x, i)
  {
    Pow2Word();
    NotBit(64, x, i);
  }

  /** Bit `i` of 2^k is set for i = k only. */
  lemma {:induction false} Pow2Bit(k: nat, i: nat)
    ensures TestBit(Pow2(k), i) <==> i == k
  {
    if i == 0 {
    } else if k == 0 {
      TestBitZero(i - 1);
    } else {
      Pow2Bit(k - 1, i - 1);
    }
  }

  /** Bit `i` of the mask 2^k - 1 is set for i < k only. */
  lemma {:induction false} MaskBit(k: nat, i: nat)
    ensures TestBit(Pow2(k) - 1, i) <==> i < k
  {
    if k == 0 {
      TestBitZero(i);
    } else if i > 0 {
      assert (Pow2(k) - 1) / 2 == Pow2(k - 1) - 1;
      MaskBit(k - 1, i - 1);
    }
  }

  lemma {:induction false} HighBitsClear(x: nat, n: nat, i: nat)
    requires x < Pow2(n) && n <= i
    ensures !TestBit(x, i)
  {
    if n == 0 {
      TestBitZero(i);
    } else {
      HighBitsClear(x / 2, n - 1, i - 1);
    }
  }

  /** Words that agree on their bits are equal. */
  lemma {:induction false} SameBits(n: nat, x: nat, y: nat)
    requires x < Pow2(n) && y < Pow2(n)
    requires forall i: nat :: i < n ==> (TestBit(x, i) <==> TestBit(y, i))
    ensures x == y
  {
    if n > 0 {
      assert TestBit(x, 0) <==> TestBit(y, 0);
      forall i: nat | i < n - 1
        ensures TestBit(x / 2, i) <==> TestBit(y / 2, i)
      {
        assert TestBit(x, i + 1) <==> TestBit(y, i + 1);
      }
      SameBits(n - 1, x / 2, y / 2);
    }
  }

  lemma {:induction false} OrBound(x: nat, y: nat, n: nat)
    requires x < Pow2(n) && y < Pow2(n)
    ensures Or(x, y) < Pow2(n)
  {
    if x != 0 && y != 0 {
      OrBound(x / 2, y / 2, n - 1);
    }
  }

  lemma {:induction false} XorBound(x: nat, y: nat, n: nat)
    requires x < Pow2(n) && y < Pow2(n)
    ensures Xor(x, y) < Pow2(n)
  {
    if x != 0 && y != 0 {
      XorBound(x / 2, y / 2, n - 1);
    }
  }

  lemma {:induction false} ShrBound(x: nat, k: nat)
    ensures Shr(x, k) <= x
  {
    if k > 0 {
      ShrBound(x / 2, k - 1);
    }
  }

  // ----- Masks as remainders

  /** `x & (2^k - 1)` is the remainder of x modulo 2^k. */
  lemma {:induction false} AndMask(x: nat, k: nat)
    ensures And(x, Pow2(k) - 1) == x % Pow2(k)
  {
    if k > 0 {
      var p := Pow2(k - 1);
      AndMask(x / 2, k - 1);
      ModHalf(x, p);
    }
  }

  lemma {:induction false} ModHalf(x: nat, p: nat)
    requires p > 0
    ensures x % (2 * p) == x % 2 + 2 * ((x / 2) % p)
  {
    var q, r := (x / 2) / p, (x / 2) % p;
    assert x == 2 * (q * p + r) + x % 2;
    assert x == q * (2 * p) + (2 * r + x % 2);
    DivModUnique(x, 2 * p, q, 2 * r + x % 2);
  }

  lemma {:induction false} DivModUnique(x: int, d: int, q: int, r: int)
    requires d > 0 && 0 <= r < d && x == q * d + r
    ensures x / d == q && x % d == r
  {
    var a := x / d - q;
    assert r - x % d == a * d by {
      assert x == d * (x / d) + x % d;
      MulDistributes(x / d, q, d);
    }
    SmallMultiple(a, d);
  }

  lemma {:induction false} MulDistributes(a: int, b: int, d: int)
    ensures (a - b) * d == a * d - b * d
  {
  }

  lemma {:induction false} MulAtLeast(a: nat, d: nat)
    requires a > 0
    ensures a * d >= d
  {
    if a > 1 {
      MulAtLeast(a - 1, d);
      MulDistributes(a, 1, d);
    }
  }

  /** The only multiple of d strictly between -d and d is zero. */
  lemma {:induction false} SmallMultiple(a: int, d: int)
    requires 0 < d && -d < a * d < d
    ensures a == 0
  {
    if a > 0 {
      MulAtLeast(a, d);
    } else if a < 0 {
      MulAtLeast(-a, d);
      MulDistributes(0, a, d);
    }
  }

  /** For a power of two `m`, masking with `m - 1` reduces modulo m. */
  lemma {:induction false} MaskIsMod(x: nat, m: nat)
    requires IsPow2(m)
    ensures And(x, m - 1) == x % m
  {
    var k: nat :| m == Pow2(k);
    AndMask(x, k);
  }
}
