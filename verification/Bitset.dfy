/** The bitset: indices below a capacity, packed into 64-bit words. The last word may hold
    stray bits past the capacity, which a union with a larger set can leave there. */
module Bitset {
  import opened Bits

  const BITS_PER_WORD: nat := 64

  function WordsFor(capacity: nat): nat {
    (capacity + BITS_PER_WORD - 1) / BITS_PER_WORD
  }

  // ----- Bits of a word array

  predicate BitAt(ws: seq<Word>, i: nat) {
    i / BITS_PER_WORD < |ws| && TestBit(ws[i / BITS_PER_WORD], i % BITS_PER_WORD)
  }

  /** All positions that hold a one, stray ones included. */
  ghost function Raw(ws: seq<Word>): set<nat> {
    set i: nat | i < BITS_PER_WORD * |ws| && BitAt(ws, i)
  }

  /** `1 << (i % 64)`. */
  function Bit(i: nat): (w: Word)
    ensures TestBit(w, i % BITS_PER_WORD)
  {
    Pow2Word();
    Pow2Bit(i % BITS_PER_WORD, i % BITS_PER_WORD);
    Pow2Monotone(i % BITS_PER_WORD, 64);
    Pow2(i % BITS_PER_WORD)
  }

  function OrWord(x: Word, y: Word): Word {
    Pow2Word();
    OrBound(x, y, 64);
    Or(x, y)
  }

  function AndWord(x: Word, y: Word): Word {
    And(x, y)
  }

  function XorWord(x: Word, y: Word): Word {
    Pow2Word();
    XorBound(x, y, 64);
    Xor(x, y)
  }

  /** `(w & (1 << k)) != 0` tests bit k. */
  lemma {:induction false} MaskedNonZero(w: Word, i: nat)
    ensures And(w, Bit(i)) != 0 <==> TestBit(w, i % BITS_PER_WORD)
  {
    var k := i % BITS_PER_WORD;
    AndBit(w, Bit(i), k);
    if !TestBit(w, k) {
      forall j: nat | j < 64
        ensures TestBit(And(w, Bit(i)), j) <==> TestBit(0, j)
      {
        AndBit(w, Bit(i), j);
        Pow2Bit(k, j);
        TestBitZero(j);
      }
      Pow2Word();
      SameBits(64, And(w, Bit(i)), 0);
    } else {
      TestBitZero(k);
    }
  }

  /** What rewriting one word does, if it affects bit `i` only. */
  lemma {:induction false} OneBitChanged(ws: seq<Word>, i: nat, w: Word)
    requires i / BITS_PER_WORD < |ws|
    requires forall j: nat :: j < 64 && j != i % BITS_PER_WORD ==> (TestBit(w, j) <==> TestBit(ws[i / BITS_PER_WORD], j))
    ensures var ws' := ws[i / BITS_PER_WORD := w];
            Raw(ws') == if TestBit(w, i % BITS_PER_WORD) then Raw(ws) + {i} else Raw(ws) - {i}
  {
    var ws' := ws[i / BITS_PER_WORD := w];
    forall j: nat | j != i
      ensures j in Raw(ws') <==> j in Raw(ws)
    {
      if j / BITS_PER_WORD == i / BITS_PER_WORD {
        assert j % BITS_PER_WORD != i % BITS_PER_WORD;
      }
    }
  }

  lemma {:induction false} SetBitIn(w: Word, i: nat)
    ensures forall j: nat :: j < 64 ==> (TestBit(OrWord(w, Bit(i)), j) <==> TestBit(w, j) || j == i % BITS_PER_WORD)
  {
    forall j: nat | j < 64
      ensures TestBit(OrWord(w, Bit(i)), j) <==> TestBit(w, j) || j == i % BITS_PER_WORD
    {
      OrBit(w, Bit(i), j);
      Pow2Bit(i % BITS_PER_WORD, j);
    }
  }

  lemma {:induction false} ClearBitIn(w: Word, i: nat)
    ensures forall j: nat :: j < 64 ==> (TestBit(AndWord(w, Not64(Bit(i))), j) <==> TestBit(w, j) && j != i % BITS_PER_WORD)
  {
    forall j: nat | j < 64
      ensures TestBit(AndWord(w, Not64(Bit(i))), j) <==> TestBit(w, j) && j != i % BITS_PER_WORD
    {
      AndBit(w, Not64(Bit(i)), j);
      Not64Bit(Bit(i), j);
      Pow2Bit(i % BITS_PER_WORD, j);
    }
  }

  lemma {:induction false} ToggleBitIn(w: Word, i: nat)
    ensures forall j: nat :: j < 64 ==> (TestBit(XorWord(w, Bit(i)), j) <==> (TestBit(w, j) != (j == i % BITS_PER_WORD)))
  {
    forall j: nat | j < 64
      ensures TestBit(XorWord(w, Bit(i)), j) <==> (TestBit(w, j) != (j == i % BITS_PER_WORD))
    {
      XorBit(w, Bit(i), j);
      Pow2Bit(i % BITS_PER_WORD, j);
    }
  }

  // ----- Tail mask

  function GetTailMask(capacity: nat): Word {
    var rem := capacity % BITS_PER_WORD;
    Pow2Word();
    Pow2Monotone(rem, 64);
    if rem == 0 then WORD - 1 else Pow2(rem) - 1
  }

  /** The mask keeps exactly the bits of the last word that lie below the capacity. */
  lemma {:induction false} TailMaskBit(capacity: nat, i: nat)
    requires 0 < capacity && i / BITS_PER_WORD == WordsFor(capacity) - 1
    ensures TestBit(GetTailMask(capacity), i % BITS_PER_WORD) <==> i < capacity
  {
    var rem := capacity % BITS_PER_WORD;
    Pow2Word();
    if rem == 0 {
      MaskBit(64, i % BITS_PER_WORD);
    } else {
      MaskBit(rem, i % BITS_PER_WORD);
    }
  }

  // ----- Member sets

  ghost function Below(s: set<nat>, n: nat): set<nat> {
    set i | i in s && i < n
  }

  class Bitset {
    var capacity: nat
    var words: array<Word>

    ghost predicate Valid()
      reads this
    {
      words.Length == WordsFor(capacity)
    }

    ghost function Bits(): set<nat>
      reads this, words
    {
      Raw(words[..])
    }

    /** The indices below the capacity whose bit is set. */
    ghost function Members(): set<nat>
      reads this, words
    {
      Below(Bits(), capacity)
    }

    /** No stray bits. */
    ghost predicate Clean()
      reads this, words
    {
      Bits() == Members()
    }

    constructor (capacity: nat)
      requires capacity > 0
      ensures Valid() && this.capacity == capacity && Members() == {} && Clean() && fresh(words)
    {
      this.capacity := capacity;
      words := new Word[WordsFor(capacity)];
      new;
      ClearAll();
    }

    method ClearAll()
      modifies words
      ensures Bits() == {} && Members() == {} && Clean()
    {
      forall i | 0 <= i < words.Length {
        words[i] := 0;
      }
      forall i: nat
        ensures i !in Bits()
      {
        TestBitZero(i % BITS_PER_WORD);
      }
    }

    method Set(index: nat)
      requires Valid() && index < capacity
      modifies words
      ensures Bits() == old(Bits()) + {index} && Members() == old(Members()) + {index}
      ensures Clean() <==> old(Clean())
    {
      ghost var was := words[..];
      var w := words[index / BITS_PER_WORD];
      SetBitIn(w, index);
      OneBitChanged(was, index, OrWord(w, Bit(index)));
      words[index / BITS_PER_WORD] := OrWord(w, Bit(index));
      assert words[..] == was[index / BITS_PER_WORD := OrWord(w, Bit(index))];
    }

    method Clear(index: nat)
      requires Valid() && index < capacity
      modifies words
      ensures Bits() == old(Bits()) - {index} && Members() == old(Members()) - {index}
      ensures Clean() <==> old(Clean())
    {
      ghost var was := words[..];
      var w := words[index / BITS_PER_WORD];
      ClearBitIn(w, index);
      OneBitChanged(was, index, AndWord(w, Not64(Bit(index))));
      words[index / BITS_PER_WORD] := AndWord(w, Not64(Bit(index)));
      assert words[..] == was[index / BITS_PER_WORD := AndWord(w, Not64(Bit(index)))];
    }

    method Toggle(index: nat)
      requires Valid() && index < capacity
      modifies words
      ensures Bits() == (if index in old(Bits()) then old(Bits()) - {index} else old(Bits()) + {index})
      ensures Members() == (if index in old(Members()) then old(Members()) - {index} else old(Members()) + {index})
      ensures Clean() <==> old(Clean())
    {
      ghost var was := words[..];
      var w := words[index / BITS_PER_WORD];
      ToggleBitIn(w, index);
      OneBitChanged(was, index, XorWord(w, Bit(index)));
      words[index / BITS_PER_WORD] := XorWord(w, Bit(index));
      assert words[..] == was[index / BITS_PER_WORD := XorWord(w, Bit(index))];
    }

    method Get(index: nat) returns (isSet: bool)
      requires Valid() && index < capacity
      ensures isSet <==> index in Members()
    {
      MaskedNonZero(words[index / BITS_PER_WORD], index);
      isSet := And(words[index / BITS_PER_WORD], Bit(index)) != 0;
    }

    method SetAll()
      requires Valid()
      modifies words
      ensures (forall i: nat :: i in Members() <==> i < capacity) && Clean()
    {
      forall i | 0 <= i < words.Length {
        words[i] := WORD - 1;
      }
      if words.Length > 0 {
        words[words.Length - 1] := And(words[words.Length - 1], GetTailMask(capacity));
      }
      AllOnes(words[..], capacity);
    }

    /** The union of the member sets results if and only if the stray bits of the source
        below this capacity are members already; and no stray bit is left if and only if
        there was none and the source has none for this last word. */
    method Union(src: Bitset)
      requires Valid() && src.Valid() && words != src.words
      modifies words
      ensures Bits() == old(Bits()) + Below(src.Bits(), BITS_PER_WORD * words.Length)
      ensures (Members() == old(Members()) + Below(src.Members(), capacity)) <==>
              (forall i :: i in src.Bits() && src.capacity <= i < capacity ==> i in old(Members()))
      ensures Clean() <==>
              old(Clean()) && forall i :: i in src.Bits() ==> !(capacity <= i < BITS_PER_WORD * words.Length)
    {
      UnionMembers(Bits(), capacity, src.Bits(), src.capacity, BITS_PER_WORD * words.Length);
      UnionWords(src);
    }

    /** `dst[i] |= src[i]` over the words that both have. */
    method UnionWords(src: Bitset)
      requires Valid() && src.Valid() && words != src.words
      modifies words
      ensures Bits() == old(Bits()) + Below(src.Bits(), BITS_PER_WORD * words.Length)
    {
      var count := if words.Length < src.words.Length then words.Length else src.words.Length;
      ghost var was, other := words[..], src.words[..];
      for i := 0 to count
        invariant src.words[..] == other
        invariant forall j :: 0 <= j < i ==> words[j] == OrWord(was[j], other[j])
        invariant forall j :: i <= j < words.Length ==> words[j] == was[j]
      {
        words[i] := OrWord(words[i], src.words[i]);
      }
      UnionBits(was, other, words[..]);
    }

    /** The intersection of the member sets results if and only if every member lies in a
        word that the source has and is no stray bit there; and no stray bit is left if and
        only if the source has the word of each and not the bit. */
    method Intersection(src: Bitset)
      requires Valid() && src.Valid() && words != src.words
      modifies words
      ensures forall i :: i in Bits() <==> i in old(Bits()) && (i < BITS_PER_WORD * src.words.Length ==> i in src.Bits())
      ensures (Members() == old(Members()) * src.Members()) <==>
              (forall i :: i in old(Members()) ==> i < BITS_PER_WORD * src.words.Length && (i in src.Bits() ==> i < src.capacity))
      ensures Clean() <==>
              forall i :: i in old(Bits()) && capacity <= i ==> i < BITS_PER_WORD * src.words.Length && i !in src.Bits()
    {
      ghost var was := Bits();
      IntersectionWords(src);
      IntersectionMembers(was, capacity, src.Bits(), src.capacity, BITS_PER_WORD * src.words.Length, Bits());
    }

    /** `dst[i] &= src[i]` over the words that both have; the other words stay. */
    method IntersectionWords(src: Bitset)
      requires Valid() && src.Valid() && words != src.words
      modifies words
      ensures forall i :: i in Bits() <==> i in old(Bits()) && (i < BITS_PER_WORD * src.words.Length ==> i in src.Bits())
    {
      var count := if words.Length < src.words.Length then words.Length else src.words.Length;
      ghost var was, other := words[..], src.words[..];
      for i := 0 to count
        invariant src.words[..] == other
        invariant forall j :: 0 <= j < i ==> words[j] == AndWord(was[j], other[j])
        invariant forall j :: i <= j < words.Length ==> words[j] == was[j]
      {
        words[i] := AndWord(words[i], src.words[i]);
      }
      IntersectionBits(was, other, words[..]);
    }

    /** The difference of the member sets results if and only if no member is a stray bit of
        the source; and no stray bit is left if and only if the source has them all. */
    method Difference(src: Bitset)
      requires Valid() && src.Valid() && words != src.words
      modifies words
      ensures Bits() == old(Bits()) - src.Bits()
      ensures (Members() == old(Members()) - src.Members()) <==>
              (forall i :: i in old(Members()) && i in src.Bits() ==> i < src.capacity)
      ensures Clean() <==> forall i :: i in old(Bits()) && capacity <= i ==> i in src.Bits()
    {
      DifferenceMembers(Bits(), capacity, src.Bits(), src.capacity);
      DifferenceWords(src);
    }

    /** `dst[i] &= ~src[i]` over the words that both have. */
    method DifferenceWords(src: Bitset)
      requires Valid() && src.Valid() && words != src.words
      modifies words
      ensures Bits() == old(Bits()) - src.Bits()
    {
      var count := if words.Length < src.words.Length then words.Length else src.words.Length;
      ghost var was, other := words[..], src.words[..];
      for i := 0 to count
        invariant src.words[..] == other
        invariant forall j :: 0 <= j < i ==> words[j] == AndWord(was[j], Not64(other[j]))
        invariant forall j :: i <= j < words.Length ==> words[j] == was[j]
      {
        words[i] := AndWord(words[i], Not64(src.words[i]));
      }
      DifferenceBits(was, other, words[..]);
    }

    /** Equality of capacities and member sets, whatever the stray bits. */
    method Equals(other: Bitset) returns (equal: bool)
      requires Valid() && other.Valid()
      ensures equal <==> capacity == other.capacity && Members() == other.Members()
    {
      if capacity != other.capacity {
        return false;
      }
      if words.Length == 0 {
        return true;
      }
      var last := words.Length - 1;
      for i := 0 to last
        invariant forall j :: 0 <= j < i ==> words[j] == other.words[j]
      {
        if words[i] != other.words[i] {
          FullWordsDiffer(words[..], other.words[..], capacity, i);
          return false;
        }
      }
      var tailMask := GetTailMask(capacity);
      equal := AndWord(words[last], tailMask) == AndWord(other.words[last], tailMask);
      LastWordDecides(words[..], other.words[..], capacity);
    }
  }

  lemma {:induction false} AllOnes(ws: seq<Word>, capacity: nat)
    requires |ws| == WordsFor(capacity)
    requires forall i :: 0 <= i < |ws| - 1 ==> ws[i] == WORD - 1
    requires |ws| > 0 ==> ws[|ws| - 1] == And(WORD - 1, GetTailMask(capacity))
    ensures forall i: nat :: i in Raw(ws) <==> i < capacity
  {
    forall i: nat
      ensures i in Raw(ws) <==> i < capacity
    {
      Pow2Word();
      MaskBit(64, i % BITS_PER_WORD);
      if |ws| > 0 && i / BITS_PER_WORD == |ws| - 1 {
        AndBit(WORD - 1, GetTailMask(capacity), i % BITS_PER_WORD);
        TailMaskBit(capacity, i);
      }
    }
  }

  // ----- The set operations, bit by bit

  lemma {:induction false} UnionBits(a: seq<Word>, b: seq<Word>, r: seq<Word>)
    requires |r| == |a|
    requires forall j :: 0 <= j < |a| ==> r[j] == if j < |b| then OrWord(a[j], b[j]) else a[j]
    ensures Raw(r) == Raw(a) + Below(Raw(b), BITS_PER_WORD * |a|)
  {
    forall i: nat
      ensures i in Raw(r) <==> i in Raw(a) + Below(Raw(b), BITS_PER_WORD * |a|)
    {
      var w := i / BITS_PER_WORD;
      if w < |a| && w < |b| {
        OrBit(a[w], b[w], i % BITS_PER_WORD);
      }
    }
  }

  lemma {:induction false} IntersectionBits(a: seq<Word>, b: seq<Word>, r: seq<Word>)
    requires |r| == |a|
    requires forall j :: 0 <= j < |a| ==> r[j] == if j < |b| then AndWord(a[j], b[j]) else a[j]
    ensures forall i :: i in Raw(r) <==> i in Raw(a) && (i < BITS_PER_WORD * |b| ==> i in Raw(b))
  {
    forall i: nat
      ensures i in Raw(r) <==> i in Raw(a) && (i < BITS_PER_WORD * |b| ==> i in Raw(b))
    {
      var w := i / BITS_PER_WORD;
      if w < |a| && w < |b| {
        AndBit(a[w], b[w], i % BITS_PER_WORD);
      }
    }
  }

  lemma {:induction false} DifferenceBits(a: seq<Word>, b: seq<Word>, r: seq<Word>)
    requires |r| == |a|
    requires forall j :: 0 <= j < |a| ==> r[j] == if j < |b| then AndWord(a[j], Not64(b[j])) else a[j]
    ensures Raw(r) == Raw(a) - Raw(b)
  {
    forall i: nat
      ensures i in Raw(r) <==> i in Raw(a) - Raw(b)
    {
      var w := i / BITS_PER_WORD;
      if w < |a| && w < |b| {
        AndBit(a[w], Not64(b[w]), i % BITS_PER_WORD);
        Not64Bit(b[w], i % BITS_PER_WORD);
      }
    }
  }

  /** Two words that differ do so in some bit. */
  lemma {:induction false} DifferingBit(x: Word, y: Word) returns (k: nat)
    requires x != y
    ensures k < 64 && TestBit(x, k) != TestBit(y, k)
  {
    Pow2Word();
    if forall i: nat :: i < 64 ==> (TestBit(x, i) <==> TestBit(y, i)) {
      SameBits(64, x, y);
    }
    k :| k < 64 && TestBit(x, k) != TestBit(y, k);
  }

  lemma {:induction false} FullWordsDiffer(a: seq<Word>, b: seq<Word>, capacity: nat, w: nat)
    requires |a| == |b| == WordsFor(capacity) && w + 1 < |a| && a[w] != b[w]
    ensures Below(Raw(a), capacity) != Below(Raw(b), capacity)
  {
    var k := DifferingBit(a[w], b[w]);
    var i := BITS_PER_WORD * w + k;
    assert i / BITS_PER_WORD == w && i % BITS_PER_WORD == k;
    assert BitAt(a, i) != BitAt(b, i);
    assert i in Below(Raw(a), capacity) <==> BitAt(a, i);
    assert i in Below(Raw(b), capacity) <==> BitAt(b, i);
  }

  lemma {:induction false} LastWordDecides(a: seq<Word>, b: seq<Word>, capacity: nat)
    requires |a| == |b| == WordsFor(capacity) && |a| > 0
    requires forall j :: 0 <= j < |a| - 1 ==> a[j] == b[j]
    ensures var last, m := |a| - 1, GetTailMask(capacity);
            AndWord(a[last], m) == AndWord(b[last], m) <==> Below(Raw(a), capacity) == Below(Raw(b), capacity)
  {
    var last, m := |a| - 1, GetTailMask(capacity);
    if AndWord(a[last], m) == AndWord(b[last], m) {
      forall i: nat
        ensures i in Below(Raw(a), capacity) <==> i in Below(Raw(b), capacity)
      {
        if i / BITS_PER_WORD == last {
          TailMaskBit(capacity, i);
          AndBit(a[last], m, i % BITS_PER_WORD);
          AndBit(b[last], m, i % BITS_PER_WORD);
        }
      }
    } else {
      var k := DifferingBit(AndWord(a[last], m), AndWord(b[last], m));
      var i := BITS_PER_WORD * last + k;
      assert i / BITS_PER_WORD == last && i % BITS_PER_WORD == k;
      TailMaskBit(capacity, i);
      AndBit(a[last], m, k);
      AndBit(b[last], m, k);
      assert i in Below(Raw(a), capacity) <==> BitAt(a, i);
      assert i in Below(Raw(b), capacity) <==> BitAt(b, i);
    }
  }

  // ----- Exactly when these are the operations on member sets

  lemma {:induction false} UnionMembers(dst: set<nat>, n: nat, src: set<nat>, m: nat, top: nat)
    requires n <= top
    ensures var result := dst + Below(src, top);
            && ((Below(result, n) == Below(dst, n) + Below(Below(src, m), n)) <==>
                (forall i :: i in src && m <= i < n ==> i in Below(dst, n)))
            && (result == Below(result, n) <==> dst == Below(dst, n) && forall i :: i in src ==> !(n <= i < top))
  {
    var result := dst + Below(src, top);
    if Below(result, n) == Below(dst, n) + Below(Below(src, m), n) {
      forall i | i in src && m <= i < n
        ensures i in Below(dst, n)
      {
        assert i in Below(result, n);
      }
    }
    if result == Below(result, n) {
      forall i | i in dst || (i in src && i < top)
        ensures i < n
      {
        assert i in Below(result, n);
      }
    }
  }

  lemma {:induction false} IntersectionMembers(dst: set<nat>, n: nat, src: set<nat>, m: nat, top: nat, result: set<nat>)
    requires forall i :: i in result <==> i in dst && (i < top ==> i in src)
    requires forall i :: i in src ==> i < top
    ensures (Below(result, n) == Below(dst, n) * Below(src, m)) <==>
            (forall i :: i in Below(dst, n) ==> i < top && (i in src ==> i < m))
    ensures result == Below(result, n) <==> forall i :: i in dst && n <= i ==> i < top && i !in src
  {
    if Below(result, n) == Below(dst, n) * Below(src, m) {
      forall i | i in Below(dst, n)
        ensures i < top && (i in src ==> i < m)
      {
        assert i in Below(result, n) <==> i in Below(dst, n) * Below(src, m);
      }
    } else {
      var i :| (i in Below(result, n)) != (i in Below(dst, n) * Below(src, m));
      assert i in Below(dst, n);
    }
    if result == Below(result, n) {
      forall i | i in dst && n <= i
        ensures i < top && i !in src
      {
        assert i !in Below(result, n);
      }
    }
  }

  lemma {:induction false} DifferenceMembers(dst: set<nat>, n: nat, src: set<nat>, m: nat)
    ensures (Below(dst - src, n) == Below(dst, n) - Below(src, m)) <==>
            (forall i :: i in Below(dst, n) && i in src ==> i < m)
    ensures dst - src == Below(dst - src, n) <==> forall i :: i in dst && n <= i ==> i in src
  {
    if Below(dst - src, n) == Below(dst, n) - Below(src, m) {
      forall i | i in Below(dst, n) && i in src
        ensures i < m
      {
        assert i !in Below(dst - src, n);
      }
    }
    if dst - src == Below(dst - src, n) {
      forall i | i in dst && n <= i
        ensures i in src
      {
        assert i !in Below(dst - src, n);
      }
    }
  }

  /** Stray bits do leak: after a union with a larger set, a further union passes on an
      element that its source does not have. */
  method StrayBitLeaks() returns (a: Bitset, c: Bitset)
    ensures a.Valid() && c.Valid() && 20 !in a.Members() && c.Members() == {20}
  {
    a := new Bitset(10);
    var b := new Bitset(64);
    c := new Bitset(64);
    b.Set(20);
    a.Union(b);
    c.Union(a);
  }

  // ----- Whole runs over sets of one capacity

  /** A call on the sets of a family, which are named by their positions. */
  datatype Op =
    | OpSet(j: nat, index: nat)
    | OpClear(j: nat, index: nat)
    | OpToggle(j: nat, index: nat)
    | OpGet(j: nat, index: nat)
    | OpSetAll(j: nat)
    | OpClearAll(j: nat)
    | OpUnion(j: nat, k: nat)
    | OpIntersection(j: nat, k: nat)
    | OpDifference(j: nat, k: nat)
    | OpEquals(j: nat, k: nat)

  /** What the debug assertions and the headers ask of a call: indices below the capacity
      and, for the operations on two sets, no overlap. */
  predicate Legal(op: Op, sets: nat, capacity: nat) {
    && op.j < sets
    && (op.OpSet? || op.OpClear? || op.OpToggle? || op.OpGet? ==> op.index < capacity)
    && (op.OpUnion? || op.OpIntersection? || op.OpDifference? ==> op.k < sets && op.k != op.j)
    && (op.OpEquals? ==> op.k < sets)
  }

  ghost function Full(capacity: nat): (all: set<nat>)
    ensures forall i: nat :: i in all <==> i < capacity
  {
    if capacity == 0 then {} else Full(capacity - 1) + {capacity - 1}
  }

  /** The call on sets of indices. */
  ghost function Changed(m: seq<set<nat>>, op: Op, capacity: nat): set<nat>
    requires Legal(op, |m|, capacity)
  {
    match op
    case OpSet(j, i) => m[j] + {i}
    case OpClear(j, i) => m[j] - {i}
    case OpToggle(j, i) => if i in m[j] then m[j] - {i} else m[j] + {i}
    case OpGet(j, _) => m[j]
    case OpSetAll(_) => Full(capacity)
    case OpClearAll(_) => {}
    case OpUnion(j, k) => m[j] + m[k]
    case OpIntersection(j, k) => m[j] * m[k]
    case OpDifference(j, k) => m[j] - m[k]
    case OpEquals(j, _) => m[j]
  }

  ghost function SetsAfter(m: seq<set<nat>>, op: Op, capacity: nat): seq<set<nat>>
    requires Legal(op, |m|, capacity)
  {
    m[op.j := Changed(m, op, capacity)]
  }

  /** What the calls that only look at the sets answer. */
  ghost function Answer(m: seq<set<nat>>, op: Op, capacity: nat): bool
    requires Legal(op, |m|, capacity)
  {
    match op
    case OpGet(j, i) => i in m[j]
    case OpEquals(j, k) => m[j] == m[k]
    case _ => true
  }

  ghost predicate AllLegal(ops: seq<Op>, sets: nat, capacity: nat) {
    forall i :: 0 <= i < |ops| ==> Legal(ops[i], sets, capacity)
  }

  ghost function Answers(m: seq<set<nat>>, ops: seq<Op>, capacity: nat): seq<bool>
    requires AllLegal(ops, |m|, capacity)
    decreases |ops|
  {
    if ops == [] then [] else
      [Answer(m, ops[0], capacity)] + Answers(SetsAfter(m, ops[0], capacity), ops[1..], capacity)
  }

  ghost function SetsAfterAll(m: seq<set<nat>>, ops: seq<Op>, capacity: nat): seq<set<nat>>
    requires AllLegal(ops, |m|, capacity)
    decreases |ops|
  {
    if ops == [] then m else SetsAfterAll(SetsAfter(m, ops[0], capacity), ops[1..], capacity)
  }

  /** A set of this capacity without stray bits, and its members. */
  ghost predicate Holds(b: Bitset, capacity: nat, members: set<nat>)
    reads b, b.words
  {
    b.Valid() && b.capacity == capacity && b.Clean() && b.Members() == members
  }

  ghost predicate Separate(sets: seq<Bitset>)
    reads sets
  {
    forall j, k :: 0 <= j < k < |sets| ==> sets[j].words != sets[k].words
  }

  ghost predicate Family(sets: seq<Bitset>, capacity: nat, m: seq<set<nat>>)
    reads sets, set b | b in sets :: b.words
  {
    && |sets| == |m| && Separate(sets)
    && forall j :: 0 <= j < |sets| ==> Holds(sets[j], capacity, m[j])
  }

  /** A call on one set. */
  method PerformOne(b: Bitset, op: Op, ghost m: seq<set<nat>>, capacity: nat) returns (answer: bool)
    requires Legal(op, |m|, capacity) && Holds(b, capacity, m[op.j])
    requires !op.OpUnion? && !op.OpIntersection? && !op.OpDifference? && !op.OpEquals?
    modifies b.words
    ensures Holds(b, capacity, Changed(m, op, capacity)) && answer == Answer(m, op, capacity)
  {
    answer := true;
    match op {
      case OpSet(_, i) => b.Set(i);
      case OpClear(_, i) => b.Clear(i);
      case OpToggle(_, i) => b.Toggle(i);
      case OpGet(_, i) => answer := b.Get(i);
      case OpSetAll(_) => b.SetAll();
      case OpClearAll(_) => b.ClearAll();
    }
  }

  /** A call on two sets of one capacity: without stray bits they stay without, and the
      three operations are those on sets. */
  method PerformTwo(b: Bitset, c: Bitset, op: Op, ghost m: seq<set<nat>>, capacity: nat) returns (answer: bool)
    requires op.OpUnion? || op.OpIntersection? || op.OpDifference? || op.OpEquals?
    requires Legal(op, |m|, capacity) && Holds(b, capacity, m[op.j]) && Holds(c, capacity, m[op.k])
    requires op.OpEquals? || b.words != c.words
    modifies b.words
    ensures Holds(b, capacity, Changed(m, op, capacity)) && answer == Answer(m, op, capacity)
  {
    answer := true;
    match op {
      case OpUnion(_, _) => b.Union(c);
      case OpIntersection(_, _) => b.Intersection(c);
      case OpDifference(_, _) => b.Difference(c);
      case OpEquals(_, _) => answer := b.Equals(c);
    }
  }

  /** One call, on sets that stay without stray bits. */
  method Perform(sets: seq<Bitset>, op: Op, ghost m: seq<set<nat>>, capacity: nat) returns (answer: bool)
    requires Family(sets, capacity, m) && Legal(op, |m|, capacity)
    modifies set b | b in sets :: b.words
    ensures Family(sets, capacity, SetsAfter(m, op, capacity)) && answer == Answer(m, op, capacity)
  {
    if op.OpUnion? || op.OpIntersection? || op.OpDifference? || op.OpEquals? {
      answer := PerformTwo(sets[op.j], sets[op.k], op, m, capacity);
    } else {
      answer := PerformOne(sets[op.j], op, m, capacity);
    }
  }

  /** Over every run among sets of one capacity no stray bit appears, and the sets are, and
      answer as, sets of indices. */
  method Replay(sets: seq<Bitset>, ops: seq<Op>, ghost m: seq<set<nat>>, capacity: nat) returns (answers: seq<bool>)
    requires Family(sets, capacity, m) && AllLegal(ops, |m|, capacity)
    modifies set b | b in sets :: b.words
    ensures Family(sets, capacity, SetsAfterAll(m, ops, capacity)) && answers == Answers(m, ops, capacity)
    decreases |ops|
  {
    if ops == [] {
      return [];
    }
    var answer := Perform(sets, ops[0], m, capacity);
    var rest := Replay(sets, ops[1..], SetsAfter(m, ops[0], capacity), capacity);
    answers := [answer] + rest;
  }
}
