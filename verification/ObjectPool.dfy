/** The object pool: equal slots in one block of memory, the free ones chained through
    their own first words by byte offsets. In debug builds a bitset shadows the chain. */
module ObjectPool {
  import opened Bits
  import opened Common
  import opened Alignment
  import Bitset

  /** `(size_t)-1`, which ends the free list. */
  const END_OF_LIST: Word := WORD - 1

  const WORD_BYTES: nat := 8

  // ----- The free list

  /** The byte offset of a slot. */
  function Offset(slot: nat, stride: nat): nat {
    slot * stride
  }

  lemma {:induction false} OffsetSlot(slot: nat, stride: nat)
    requires stride > 0
    ensures Offset(slot, stride) / stride == slot && Offset(slot, stride) % stride == 0
  {
    DivModUnique(slot * stride, stride, slot, 0);
  }

  lemma {:induction false} OffsetBelow(slot: nat, capacity: nat, stride: nat)
    requires slot < capacity && stride > 0
    ensures Offset(slot, stride) + stride <= Offset(capacity, stride)
  {
    MulAtLeast(capacity - slot, stride);
    MulDistributes(capacity, slot, stride);
  }

  /** The link that leads to the slots `rest`. */
  function LinkTo(rest: seq<nat>, stride: nat): nat {
    if rest == [] then END_OF_LIST else Offset(rest[0], stride)
  }

  ghost predicate NoRepeats(s: seq<nat>) {
    forall i, j :: 0 <= i < j < |s| ==> s[i] != s[j]
  }

  /** `chain` is the list that starts at offset `head`: it ends, repeats no slot, and each
      slot's first word holds the offset of the next. */
  ghost predicate IsFreeList(words: seq<Word>, head: nat, stride: nat, chain: seq<nat>) {
    && NoRepeats(chain)
    && head == LinkTo(chain, stride)
    && forall i :: 0 <= i < |chain| ==> chain[i] < |words| && words[chain[i]] == LinkTo(chain[i + 1..], stride)
  }

  /** Offsets of slots are distinct from each other and from the end mark. */
  ghost predicate Addressable(capacity: nat, stride: nat) {
    stride > 0 && Offset(capacity, stride) < WORD
  }

  /** The memory determines the list: there is only one to be followed from `head`. */
  lemma {:induction false} FreeListUnique(words: seq<Word>, head: nat, stride: nat, a: seq<nat>, b: seq<nat>)
    requires Addressable(|words|, stride)
    requires IsFreeList(words, head, stride, a) && IsFreeList(words, head, stride, b)
    ensures a == b
    decreases |a|
  {
    if a != [] { OffsetBelow(a[0], |words|, stride); OffsetSlot(a[0], stride); }
    if b != [] { OffsetBelow(b[0], |words|, stride); OffsetSlot(b[0], stride); }
    if a != [] {
      FreeListUnique(words, words[a[0]], stride, a[1..], b[1..]);
      assert a == [a[0]] + a[1..] && b == [b[0]] + b[1..];
    }
  }

  /** Writing to a slot that is not free leaves the list alone. */
  lemma {:induction false} WriteOutside(words: seq<Word>, head: nat, stride: nat, chain: seq<nat>, slot: nat, w: Word)
    requires IsFreeList(words, head, stride, chain) && slot < |words| && slot !in chain
    ensures IsFreeList(words[slot := w], head, stride, chain)
  {
  }

  /** Pushing a slot that is not free. */
  lemma {:induction false} PushFree(words: seq<Word>, head: nat, stride: nat, chain: seq<nat>, slot: nat)
    requires IsFreeList(words, head, stride, chain) && slot < |words| && slot !in chain && head < WORD
    ensures IsFreeList(words[slot := head], Offset(slot, stride), stride, [slot] + chain)
  {
    var words', chain' := words[slot := head], [slot] + chain;
    assert chain'[1..] == chain;
    forall i | 0 <= i < |chain'|
      ensures words'[chain'[i]] == LinkTo(chain'[i + 1..], stride)
    {
      if i > 0 {
        assert chain'[i + 1..] == chain[i..];
      }
    }
  }

  /** Distinct slots below the capacity are at most as many. */
  lemma {:induction false} Pigeonhole(s: seq<nat>, n: nat)
    requires NoRepeats(s) && forall i :: 0 <= i < |s| ==> s[i] < n
    ensures |s| <= n
  {
    if n == 0 {
    } else if n - 1 in s {
      var k :| 0 <= k < |s| && s[k] == n - 1;
      Pigeonhole(s[..k] + s[k + 1..], n - 1);
    } else {
      Pigeonhole(s, n - 1);
    }
  }

  /** Free and taken slots together are all of them. */
  lemma {:induction false} FreeAndTaken(free: seq<nat>, taken: set<nat>, n: nat)
    requires NoRepeats(free) && (forall i :: 0 <= i < |free| ==> free[i] < n) && (forall i :: i in taken ==> i < n)
    requires forall i :: 0 <= i < n ==> (i in free <==> i !in taken)
    ensures |free| + |taken| == n
  {
    if n == 0 {
      assert taken == {};
      Pigeonhole(free, 0);
    } else if n - 1 in free {
      var k :| 0 <= k < |free| && free[k] == n - 1;
      var rest := free[..k] + free[k + 1..];
      forall i | 0 <= i < n - 1
        ensures i in rest <==> i in free
      {
        if i in free {
          var j :| 0 <= j < |free| && free[j] == i;
          assert rest[if j < k then j else j - 1] == i;
        }
      }
      FreeAndTaken(rest, taken, n - 1);
    } else {
      FreeAndTaken(free, taken - {n - 1}, n - 1);
    }
  }

  // ----- Slots as memory

  function MinSlotSize(objectSize: nat): nat {
    if objectSize < WORD_BYTES then WORD_BYTES else objectSize
  }

  function ChosenAlignment(requested: nat): (alignment: nat)
    ensures requested == 0 || IsAlignment(requested) ==> IsAlignment(alignment)
  {
    DefaultIsAlignment();
    if requested == 0 then MAX_ALIGN else requested
  }

  /** The stride holds an object and a link, and keeps the alignment. */
  function Stride(objectSize: nat, alignment: nat): (stride: nat)
    requires IsAlignment(alignment) && objectSize + WORD_BYTES + alignment < WORD
    ensures MinSlotSize(objectSize) <= stride && stride % alignment == 0
  {
    AlignmentBound(alignment);
    AlignUpLeast(MinSlotSize(objectSize), alignment);
    AlignUp(MinSlotSize(objectSize), alignment)
  }

  /** The least stride that holds an object and a link and keeps the requested alignment, or
      that of 16 bytes. */
  lemma {:induction false} StrideIsLeast(objectSize: nat, requested: nat)
    requires requested == 0 || IsAlignment(requested)
    requires objectSize + WORD_BYTES + ChosenAlignment(requested) < WORD
    ensures LeastAligned(Stride(objectSize, ChosenAlignment(requested)), if objectSize < 8 then 8 else objectSize,
                         if requested == 0 then 16 else requested)
  {
    AlignUpLeast(MinSlotSize(objectSize), ChosenAlignment(requested));
  }

  /** Objects in different slots do not overlap and lie inside the block; they are aligned if
      and only if the block is. */
  lemma {:induction false} SlotsApart(base: nat, capacity: nat, objectSize: nat, alignment: nat, a: nat, b: nat)
    requires IsAlignment(alignment) && objectSize + WORD_BYTES + alignment < WORD
    requires a < capacity && b < capacity && a != b
    ensures var stride := Stride(objectSize, alignment);
            && stride >= WORD_BYTES
            && (Offset(a, stride) + objectSize <= Offset(b, stride) || Offset(b, stride) + objectSize <= Offset(a, stride))
            && Offset(a, stride) + objectSize <= Offset(capacity, stride)
            && ((base + Offset(a, stride)) % alignment == 0 <==> base % alignment == 0)
  {
    var stride := Stride(objectSize, alignment);
    OffsetBelow(a, capacity, stride);
    if a < b { OffsetBelow(a, b, stride); } else { OffsetBelow(b, a, stride); }
    MultipleShifts(base, a, stride, alignment);
  }

  lemma {:induction false} MultipleShifts(base: nat, n: nat, stride: nat, alignment: nat)
    requires alignment > 0 && stride % alignment == 0
    ensures (base + Offset(n, stride)) % alignment == base % alignment
  {
    var p, q := base / alignment, stride / alignment;
    assert base == p * alignment + base % alignment && stride == q * alignment;
    assert n * stride == (n * q) * alignment by {
      assert n * (q * alignment) == (n * q) * alignment;
    }
    assert (p + n * q) * alignment == p * alignment + (n * q) * alignment;
    DivModUnique(base + n * stride, alignment, p + n * q, base % alignment);
  }

  /** The slots in address order. */
  ghost function UpTo(n: nat): (s: seq<nat>)
    ensures |s| == n && forall i :: 0 <= i < n ==> s[i] == i
  {
    seq(n, i requires 0 <= i < n => i)
  }

  /** Links every slot to the next one and ends the list at the last. */
  method WireFreeList(words: array<Word>, stride: nat)
    requires words.Length > 0 && Addressable(words.Length, stride)
    modifies words
    ensures IsFreeList(words[..], 0, stride, UpTo(words.Length))
  {
    var capacity := words.Length;
    for i := 0 to capacity - 1
      invariant forall j :: 0 <= j < i ==> words[j] == Offset(j + 1, stride)
    {
      OffsetBelow(i + 1, capacity, stride);
      words[i] := Offset(i + 1, stride);
    }
    words[capacity - 1] := END_OF_LIST;
    forall i | 0 <= i < capacity
      ensures words[i] == LinkTo(UpTo(capacity)[i + 1..], stride)
    {
      if i + 1 < capacity {
        assert UpTo(capacity)[i + 1..][0] == i + 1;
      }
    }
  }

  /** The address of an object that is in use. */
  ghost predicate InUse(base: nat, capacity: nat, stride: nat, free: seq<nat>, address: nat) {
    exists slot :: 0 <= slot < capacity && slot !in free && address == base + Offset(slot, stride)
  }

  datatype Returned = Accepted | OutsidePool | Misaligned | NotTaken

  // ----- The pool

  class ObjectPool {
    const memory: nat
    const stride: nat
    const capacity: nat
    var freeListOffset: Word
    var freeCount: nat
    /** The first word of each slot, which the pool and the users share. */
    var words: array<Word>
    var allocatedBits: Bitset.Bitset
    /** The free slots, in the order in which they will be handed out. */
    ghost var chain: seq<nat>

    ghost predicate Valid()
      reads this, words, allocatedBits, allocatedBits.words
    {
      && Addressable(capacity, stride)
      && words.Length == capacity > 0
      && allocatedBits.words != words
      && allocatedBits.Valid() && allocatedBits.capacity == capacity
      && IsFreeList(words[..], freeListOffset, stride, chain)
      && freeCount == |chain|
      && forall s :: 0 <= s < capacity ==> (s in chain <==> s !in allocatedBits.Members())
    }

    /** The slot is in use. */
    ghost predicate Taken(slot: nat)
      reads this
    {
      slot < capacity && slot !in chain
    }

    constructor (base: nat, capacity: nat, stride: nat)
      requires capacity > 0 && Addressable(capacity, stride)
      ensures Valid() && fresh(words) && fresh(allocatedBits) && fresh(allocatedBits.words)
      ensures memory == base && this.capacity == capacity && this.stride == stride
      ensures chain == UpTo(capacity)
    {
      memory := base;
      this.capacity := capacity;
      this.stride := stride;
      words := new Word[capacity];
      allocatedBits := new Bitset.Bitset(capacity);
      freeListOffset, freeCount := 0, capacity;
      chain := UpTo(capacity);
      new;
      WireFreeList(words, stride);
      forall s | 0 <= s < capacity
        ensures s in chain && s !in allocatedBits.Members()
      {
        assert chain[s] == s;
      }
    }

    /** Hands out the first free slot, or nothing when there is none. */
    method TakeObject() returns (object_: Option<nat>)
      requires Valid()
      modifies `freeListOffset, `freeCount, `chain, allocatedBits.words
      ensures Valid()
      ensures if old(chain) == [] then object_ == None && chain == [] else
                && object_ == Some(memory + Offset(old(chain)[0], stride))
                && chain == old(chain)[1..] && Taken(old(chain)[0])
    {
      if freeListOffset == END_OF_LIST {
        EndMeansEmpty(words[..], freeListOffset, stride, chain);
        return None;
      }
      HeadSlot(words[..], freeListOffset, stride, chain);
      var objAddr := memory + freeListOffset;
      var slotIndex := freeListOffset / stride;
      freeListOffset := words[slotIndex];
      freeCount := freeCount - 1;
      var taken := allocatedBits.Get(slotIndex);
      assert !taken;
      allocatedBits.Set(slotIndex);
      chain := chain[1..];
      return Some(objAddr);
    }

    /** Takes back an object, which becomes the first to be handed out again. The three
        assertions of a debug build reject every address that is not one of an object in
        use, before anything has changed. */
    method ReturnObject(objAddr: nat) returns (outcome: Returned)
      requires Valid()
      modifies `freeListOffset, `freeCount, `chain, words, allocatedBits.words
      ensures Valid()
      ensures outcome == Accepted <==> InUse(memory, capacity, stride, old(chain), objAddr)
      ensures outcome == Accepted ==> memory <= objAddr && chain == [(objAddr - memory) / stride] + old(chain)
      ensures outcome != Accepted ==> chain == old(chain) && words[..] == old(words[..])
    {
      if objAddr < memory || objAddr - memory >= capacity * stride {
        BeyondPool(memory, objAddr, capacity, stride);
        return OutsidePool;
      }
      var byteOffset: Word := objAddr - memory;
      if byteOffset % stride != 0 {
        BetweenSlots(memory, byteOffset, stride);
        return Misaligned;
      }
      var slotIndex := byteOffset / stride;
      SlotOfOffset(byteOffset, capacity, stride);
      var taken := allocatedBits.Get(slotIndex);
      if !taken {
        OnlySlot(memory, slotIndex, stride);
        return NotTaken;
      }
      PushBack(slotIndex, byteOffset);
      outcome := Accepted;
    }

    method PushBack(slotIndex: nat, byteOffset: Word)
      requires Valid() && Taken(slotIndex) && byteOffset == Offset(slotIndex, stride)
      modifies `freeListOffset, `freeCount, `chain, words, allocatedBits.words
      ensures Valid() && chain == [slotIndex] + old(chain)
    {
      ghost var was := words[..];
      PushFree(was, freeListOffset, stride, chain, slotIndex);
      allocatedBits.Clear(slotIndex);
      words[slotIndex] := freeListOffset;
      assert words[..] == was[slotIndex := freeListOffset];
      freeListOffset := byteOffset;
      freeCount := freeCount + 1;
      chain := [slotIndex] + chain;
    }

    /** A user may write anything to an object it holds. */
    method UserWrite(slot: nat, w: Word)
      requires Valid()
      modifies words
      ensures Valid() && words[..] == if Taken(slot) then old(words[..])[slot := w] else old(words[..])
    {
      if slot >= capacity {
        return;
      }
      var taken := allocatedBits.Get(slot);
      if taken {
        ghost var was := words[..];
        WriteOutside(was, freeListOffset, stride, chain, slot, w);
        words[slot] := w;
        assert words[..] == was[slot := w];
      }
    }

    /** No object is in use. */
    method IsEmpty() returns (isEmpty: bool)
      requires Valid()
      ensures isEmpty <==> allocatedBits.Members() == {}
      ensures |allocatedBits.Members()| == capacity - freeCount
    {
      FreeAndTaken(chain, allocatedBits.Members(), capacity);
      isEmpty := freeCount == capacity;
    }

    /** Every object is in use. */
    method IsFull() returns (isFull: bool)
      requires Valid()
      ensures isFull <==> forall s :: 0 <= s < capacity ==> s in allocatedBits.Members()
    {
      isFull := freeCount == 0;
      if freeCount != 0 {
        assert chain[0] in chain;
      }
    }

    /** The walk of the debug print: it never reports a corrupt offset or a cycle, and marks
        exactly the free slots, which are those that the bitset does not have. */
    method DebugWalk() returns (freeSlots: array<bool>, corrupt: bool, cycle: bool, visitedCount: nat)
      requires Valid()
      ensures !corrupt && !cycle && visitedCount == freeCount
      ensures fresh(freeSlots) && freeSlots.Length == capacity
      ensures forall s :: 0 <= s < capacity ==> (freeSlots[s] <==> s in chain)
      ensures forall s :: 0 <= s < capacity ==> (freeSlots[s] <==> s !in allocatedBits.Members())
    {
      freeSlots := new bool[capacity](_ => false);
      corrupt, cycle, visitedCount := false, false, 0;
      var currOffset: Word := freeListOffset;
      Pigeonhole(chain, capacity);
      assert chain[0..] == chain && chain[..0] == [];
      while currOffset != END_OF_LIST
        invariant visitedCount <= |chain|
        invariant IsFreeList(words[..], currOffset, stride, chain[visitedCount..])
        invariant forall s :: 0 <= s < capacity ==> (freeSlots[s] <==> s in chain[..visitedCount])
        decreases |chain| - visitedCount
      {
        ghost var rest := chain[visitedCount..];
        HeadSlot(words[..], currOffset, stride, rest);
        var slotIndex := currOffset / stride;
        if slotIndex >= capacity || currOffset % stride != 0 {
          corrupt := true;
          break;
        }
        if visitedCount >= capacity || freeSlots[slotIndex] {
          cycle := true;
          break;
        }
        freeSlots[slotIndex] := true;
        assert chain[..visitedCount + 1] == chain[..visitedCount] + [slotIndex];
        assert rest[1..] == chain[visitedCount + 1..];
        visitedCount := visitedCount + 1;
        currOffset := words[slotIndex];
      }
      EndMeansEmpty(words[..], currOffset, stride, chain[visitedCount..]);
      assert chain[..visitedCount] == chain;
    }
  }

  lemma {:induction false} SlotOfOffset(byteOffset: nat, capacity: nat, stride: nat)
    requires stride > 0 && byteOffset % stride == 0 && byteOffset < Offset(capacity, stride)
    ensures byteOffset / stride < capacity && Offset(byteOffset / stride, stride) == byteOffset
  {
    var slot := byteOffset / stride;
    MulDistributes(slot, capacity, stride);
    if slot > capacity {
      MulAtLeast(slot - capacity, stride);
    }
  }

  lemma {:induction false} BeyondPool(memory: nat, objAddr: nat, capacity: nat, stride: nat)
    requires stride > 0 && (objAddr < memory || objAddr - memory >= Offset(capacity, stride))
    ensures forall slot :: 0 <= slot < capacity ==> objAddr != memory + Offset(slot, stride)
  {
    forall slot | 0 <= slot < capacity
      ensures objAddr != memory + Offset(slot, stride)
    {
      OffsetBelow(slot, capacity, stride);
    }
  }

  lemma {:induction false} BetweenSlots(memory: nat, byteOffset: nat, stride: nat)
    requires stride > 0 && byteOffset % stride != 0
    ensures forall slot: nat :: memory + byteOffset != memory + Offset(slot, stride)
  {
    forall slot: nat
      ensures byteOffset != Offset(slot, stride)
    {
      OffsetSlot(slot, stride);
    }
  }

  lemma {:induction false} OnlySlot(memory: nat, slotIndex: nat, stride: nat)
    requires stride > 0
    ensures forall slot: nat :: memory + Offset(slotIndex, stride) == memory + Offset(slot, stride) ==> slot == slotIndex
  {
    OffsetSlot(slotIndex, stride);
    forall slot: nat
      ensures Offset(slotIndex, stride) == Offset(slot, stride) ==> slot == slotIndex
    {
      OffsetSlot(slot, stride);
    }
  }

  /** The alignment defaults, the stride is computed, and the slots are chained. */
  method Create(base: nat, capacity: nat, objectSize: nat, requestedAlignment: nat) returns (pool: ObjectPool)
    requires capacity > 0 && objectSize > 0
    requires requestedAlignment == 0 || IsAlignment(requestedAlignment)
    requires objectSize + WORD_BYTES + ChosenAlignment(requestedAlignment) < WORD
    requires Offset(capacity, Stride(objectSize, ChosenAlignment(requestedAlignment))) < WORD
    ensures pool.Valid() && fresh(pool) && pool.memory == base && pool.capacity == capacity
    ensures LeastAligned(pool.stride, if objectSize < 8 then 8 else objectSize,
                         if requestedAlignment == 0 then 16 else requestedAlignment)
    ensures pool.chain == UpTo(capacity)
  {
    StrideIsLeast(objectSize, requestedAlignment);
    var alignment := ChosenAlignment(requestedAlignment);
    pool := new ObjectPool(base, capacity, Stride(objectSize, alignment));
  }

  lemma {:induction false} EndMeansEmpty(words: seq<Word>, head: nat, stride: nat, chain: seq<nat>)
    requires Addressable(|words|, stride) && IsFreeList(words, head, stride, chain)
    ensures head == END_OF_LIST <==> chain == []
  {
    if chain != [] {
      OffsetBelow(chain[0], |words|, stride);
    }
  }

  /** A list that has not ended starts with the slot at its head offset. */
  lemma {:induction false} HeadSlot(words: seq<Word>, head: nat, stride: nat, chain: seq<nat>)
    requires Addressable(|words|, stride) && IsFreeList(words, head, stride, chain) && head != END_OF_LIST
    ensures chain != [] && chain[0] == head / stride < |words| && head % stride == 0 && head == Offset(chain[0], stride)
  {
    OffsetSlot(chain[0], stride);
  }

  // ----- Whole runs

  datatype Op = OpTake | OpReturn(address: nat) | OpWrite(slot: nat, w: Word)

  datatype Answer = Handed(object_: Option<nat>) | Back(accepted: bool) | Written

  /** A stack of free slots, which does not know about memory. */
  ghost function StackAfter(base: nat, capacity: nat, stride: nat, free: seq<nat>, op: Op): seq<nat>
    requires stride > 0
  {
    match op
    case OpTake => if free == [] then [] else free[1..]
    case OpReturn(a) => if InUse(base, capacity, stride, free, a) && base <= a then [(a - base) / stride] + free else free
    case OpWrite(_, _) => free
  }

  ghost function StackAnswer(base: nat, capacity: nat, stride: nat, free: seq<nat>, op: Op): Answer {
    match op
    case OpTake => Handed(if free == [] then None else Some(base + Offset(free[0], stride)))
    case OpReturn(a) => Back(InUse(base, capacity, stride, free, a))
    case OpWrite(_, _) => Written
  }

  ghost function StackAnswers(base: nat, capacity: nat, stride: nat, free: seq<nat>, ops: seq<Op>): seq<Answer>
    requires stride > 0
    decreases |ops|
  {
    if ops == [] then [] else
      [StackAnswer(base, capacity, stride, free, ops[0])]
      + StackAnswers(base, capacity, stride, StackAfter(base, capacity, stride, free, ops[0]), ops[1..])
  }

  /** One call on the pool, or a write by a user to an object it holds. */
  method Perform(pool: ObjectPool, op: Op) returns (answer: Answer)
    requires pool.Valid()
    modifies pool`freeListOffset, pool`freeCount, pool`chain, pool.words, pool.allocatedBits.words
    ensures pool.Valid()
    ensures pool.chain == StackAfter(pool.memory, pool.capacity, pool.stride, old(pool.chain), op)
    ensures answer == StackAnswer(pool.memory, pool.capacity, pool.stride, old(pool.chain), op)
  {
    match op {
      case OpTake =>
        var taken := pool.TakeObject();
        answer := Handed(taken);
      case OpReturn(a) =>
        var outcome := pool.ReturnObject(a);
        answer := Back(outcome == Accepted);
      case OpWrite(slot, w) =>
        pool.UserWrite(slot, w);
        answer := Written;
    }
  }

  /** Over every run, whatever the users write to the objects they hold, the pool answers
      as a stack of free slots would. */
  method Replay(pool: ObjectPool, ops: seq<Op>) returns (answers: seq<Answer>)
    requires pool.Valid()
    modifies pool`freeListOffset, pool`freeCount, pool`chain, pool.words, pool.allocatedBits.words
    ensures pool.Valid()
    ensures answers == StackAnswers(pool.memory, pool.capacity, pool.stride, old(pool.chain), ops)
    decreases |ops|
  {
    if ops == [] {
      return [];
    }
    var answer := Perform(pool, ops[0]);
    var rest := Replay(pool, ops[1..]);
    answers := [answer] + rest;
  }
}
