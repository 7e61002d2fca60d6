/** Rounding a capacity up to a power of two by smearing its top bit downwards. The C
    library carries three copies of the routine, which differ in their floors. */
module PowerOfTwo {
  import opened Bits
  import opened Common

  /** 2^63, the largest request that the rounding serves. */
  const LARGEST: nat := 0x8000_0000_0000_0000

  /** The specification: halve, rounding up, until one is left. */
  function CeilPow2(n: nat): (r: nat) {
    if n <= 1 then 1 else 2 * CeilPow2((n + 1) / 2)
  }

  ghost predicate IsLeastPow2(r: nat, n: nat) {
    && IsPow2(r)
    && n <= r
    && forall p: nat :: IsPow2(p) && n <= p ==> r <= p
  }

  lemma {:induction false} CeilInBinade(n: nat, k: nat)
    requires n > 0 && Pow2(k) < n <= Pow2(k + 1)
    ensures CeilPow2(n) == Pow2(k + 1)
  {
    if k > 0 {
      CeilInBinade((n + 1) / 2, k - 1);
    } else {
      assert n == 2 && CeilPow2(1) == 1;
    }
  }

  lemma {:induction false} LeastInBinade(n: nat, k: nat)
    requires Pow2(k) < n <= Pow2(k + 1)
    ensures IsLeastPow2(Pow2(k + 1), n)
  {
    forall p: nat | IsPow2(p) && n <= p
      ensures Pow2(k + 1) <= p
    {
      var j: nat :| p == Pow2(j);
      if j < k {
        Pow2Monotone(j, k);
      } else if j > k + 1 {
        Pow2Monotone(k + 1, j);
      }
    }
  }

  /** CeilPow2 is the least power of two that is large enough. */
  lemma {:induction false} CeilIsLeast(n: nat)
    ensures IsLeastPow2(CeilPow2(n), n)
  {
    if n <= 1 {
      assert Pow2(0) == 1;
    } else {
      var k := Binade(n - 1);
      CeilInBinade(n, k);
      LeastInBinade(n, k);
    }
  }

  /** Exactly the requests up to 2^63 have a power of two that fits the word. */
  lemma {:induction false} CeilFitsWord(n: nat)
    ensures CeilPow2(n) < WORD <==> n <= LARGEST
    ensures n <= LARGEST ==> CeilPow2(n) <= LARGEST
  {
    Pow2Word();
    CeilIsLeast(n);
    assert IsPow2(LARGEST);
    var k: nat :| CeilPow2(n) == Pow2(k);
    if k > 64 {
      Pow2Monotone(64, k);
    } else if k < 63 {
      Pow2Monotone(k, 63);
    }
  }

  /** A power of two is its own rounding. */
  lemma {:induction false} CeilOfPow2(p: nat)
    requires IsPow2(p)
    ensures CeilPow2(p) == p
  {
    CeilIsLeast(p);
  }

  /** Below 2^(k+1), with the `s` bits from k downwards all set. */
  ghost predicate TopRun(x: nat, k: nat, s: nat) {
    x < Pow2(k + 1) && forall i: nat :: i <= k < i + s ==> TestBit(x, i)
  }

  lemma {:induction false} TopBit(n: nat, k: nat)
    requires Pow2(k) <= n < Pow2(k + 1)
    ensures TopRun(n, k, 1)
  {
    if !TestBit(n, k) {
      forall i: nat | i < k + 1
        ensures TestBit(n, i) <==> TestBit(n % Pow2(k), i)
      {
        AndMask(n, k);
        AndBit(n, Pow2(k) - 1, i);
        MaskBit(k, i);
      }
      SameBits(k + 1, n, n % Pow2(k));
    }
  }

  /** One smearing step doubles the run of ones. */
  lemma {:induction false} SmearStep(x: nat, k: nat, s: nat)
    requires TopRun(x, k, s)
    ensures TopRun(Or(x, Shr(x, s)), k, 2 * s)
  {
    ShrBound(x, s);
    OrBound(x, Shr(x, s), k + 1);
    forall i: nat | i <= k < i + 2 * s
      ensures TestBit(Or(x, Shr(x, s)), i)
    {
      OrBit(x, Shr(x, s), i);
      ShrBit(x, s, i);
    }
  }

  lemma {:induction false} FullRun(x: nat, k: nat, s: nat)
    requires TopRun(x, k, s) && k < s
    ensures x == Pow2(k + 1) - 1
  {
    forall i: nat | i < k + 1
      ensures TestBit(x, i) <==> TestBit(Pow2(k + 1) - 1, i)
    {
      MaskBit(k + 1, i);
    }
    SameBits(k + 1, x, Pow2(k + 1) - 1);
  }

  lemma {:induction false} WordBinade(n: Word, k: nat)
    requires Pow2(k) <= n
    ensures k < 64 && Pow2(k + 1) <= WORD
  {
    Pow2Word();
    if k >= 64 {
      if k > 64 { Pow2Monotone(64, k); }
    } else if k < 63 {
      Pow2Monotone(k + 1, 64);
    }
  }

  /** One assignment `n |= n >> s`. */
  method SmearBy(x: Word, s: nat, ghost k: nat) returns (y: Word)
    requires TopRun(x, k, s) && Pow2(k + 1) <= WORD
    ensures TopRun(y, k, 2 * s)
  {
    SmearStep(x, k, s);
    y := Or(x, Shr(x, s));
  }

  /** The six shift-or assignments set every bit below the top one. */
  method SmearOnes(x: Word) returns (n: Word)
    requires x > 0
    ensures forall k: nat :: Pow2(k) <= x < Pow2(k + 1) ==> n == Pow2(k + 1) - 1
  {
    ghost var k := Binade(x);
    WordBinade(x, k);
    TopBit(x, k);
    n := SmearBy(x, 1, k);
    n := SmearBy(n, 2, k);
    n := SmearBy(n, 4, k);
    n := SmearBy(n, 8, k);
    n := SmearBy(n, 16, k);
    n := SmearBy(n, 32, k);
    FullRun(n, k, 64);
    BinadeUnique(x, k);
  }

  lemma {:induction false} BinadeUnique(x: nat, k: nat)
    requires Pow2(k) <= x < Pow2(k + 1)
    ensures forall j: nat :: Pow2(j) <= x < Pow2(j + 1) ==> j == k
  {
    forall j: nat | Pow2(j) <= x < Pow2(j + 1)
      ensures j == k
    {
      if j < k {
        if j + 1 < k { Pow2Monotone(j + 1, k); }
      } else if k < j {
        if k + 1 < j { Pow2Monotone(k + 1, j); }
      }
    }
  }

  /** The decrement, the smearing and the wrapping increment. */
  method SmearUp(request: Word) returns (n: Word)
    requires request >= 2
    ensures n == if request <= LARGEST then CeilPow2(request) else 0
  {
    n := SmearOnes(request - 1);
    ghost var k := Binade(request - 1);
    WordBinade(request - 1, k);
    CeilInBinade(request, k);
    CeilFitsWord(request);
    n := (n + 1) % WORD;
  }

  /** Hash map capacities: never below 16. */
  method MapNextPowerOfTwo(n: Word) returns (r: Word)
    ensures n <= LARGEST ==> IsLeastPow2(r, Max(n, 16)) && r == CeilPow2(Max(n, 16))
    ensures n > LARGEST ==> r == 0
  {
    CeilIsLeast(Max(n, 16));
    if n < 16 {
      return 16;
    }
    r := SmearUp(n);
  }

  /** Queue capacities: zero stays zero, anything else is at least 8. */
  method QueueRoundToPowerOfTwo(n: Word) returns (r: Word)
    ensures r == QueueRound(n)
    ensures 0 < n <= LARGEST ==> IsLeastPow2(r, Max(n, 8))
  {
    CeilIsLeast(Max(n, 8));
    if n == 0 {
      return 0;
    }
    if n < 8 {
      return 8;
    }
    r := SmearUp(n);
  }

  function QueueRound(n: Word): nat {
    if n == 0 || n > LARGEST then 0 else CeilPow2(Max(n, 8))
  }

  /** Ring buffer capacities: at least 1. */
  method RingNextPowerOfTwo(n: Word) returns (r: Word)
    ensures n <= LARGEST ==> IsLeastPow2(r, Max(n, 1)) && r == CeilPow2(Max(n, 1))
    ensures n > LARGEST ==> r == 0
  {
    CeilIsLeast(Max(n, 1));
    if n <= 1 {
      return 1;
    }
    r := SmearUp(n);
  }

  // ----- Going round a power-of-two buffer

  /** An index that has gone past the end of `n` slots at most once, brought back. */
  function Wrap(x: nat, n: nat): (i: nat)
    requires x < 2 * n
    ensures i < n
  {
    if x < n then x else x - n
  }

  lemma {:induction false} WrapIsMod(x: nat, n: nat)
    requires x < 2 * n
    ensures x % n == Wrap(x, n)
  {
    if x >= n {
      DivModUnique(x, n, 1, x - n);
    }
  }

  /** `x & mask` brings an index back into a power-of-two buffer. */
  lemma {:induction false} MaskWraps(x: nat, n: nat)
    requires IsPow2(n) && x < 2 * n
    ensures And(x, n - 1) == Wrap(x, n)
  {
    MaskIsMod(x, n);
    WrapIsMod(x, n);
  }

  /** The slot that step `i` of a probe from `start` inspects: `(start + i) & mask`. */
  function ProbeSlot(start: nat, i: nat, capacity: nat): (slot: nat)
    requires capacity > 0
  {
    And(start + i, capacity - 1)
  }

  /** Over a power-of-two table, `capacity` probe steps visit every slot, each once. */
  lemma {:induction false} ProbeVisitsEachOnce(start: nat, capacity: nat, slot: nat)
    requires IsPow2(capacity) && slot < capacity
    ensures exists i: nat :: i < capacity && ProbeSlot(start, i, capacity) == slot
    ensures forall i: nat, j: nat ::
              i < capacity && j < capacity && ProbeSlot(start, i, capacity) == slot == ProbeSlot(start, j, capacity)
              ==> i == j
  {
    var d := (slot - start) % capacity;
    ModOfSum(start, d, capacity, slot);
    MaskIsMod(start + d, capacity);
    assert ProbeSlot(start, d, capacity) == slot;
    forall i: nat, j: nat | i < capacity && j < capacity && ProbeSlot(start, i, capacity) == slot == ProbeSlot(start, j, capacity)
      ensures i == j
    {
      MaskIsMod(start + i, capacity);
      MaskIsMod(start + j, capacity);
      SameRemainder(start + i, start + j, capacity);
    }
  }

  lemma {:induction false} ModOfSum(start: nat, d: nat, m: nat, slot: nat)
    requires m > 0 && slot < m && d == (slot - start) % m
    ensures (start + d) % m == slot
  {
    var q := (slot - start) / m;
    assert slot - start == m * q + d;
    DivModUnique(start + d, m, -q, slot);
  }

  lemma {:induction false} SameRemainder(a: int, b: int, m: int)
    requires m > 0 && a % m == b % m && -m < a - b < m
    ensures a == b
  {
    assert a == m * (a / m) + a % m;
    assert b == m * (b / m) + b % m;
    MulDistributes(a / m, b / m, m);
    SmallMultiple(a / m - b / m, m);
  }
}
