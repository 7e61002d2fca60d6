/** The circular queue: a power-of-two buffer that doubles when full and can be resized
    on request. */
module Queue {
  import opened Bits
  import opened Common
  import opened PowerOfTwo

  const DEFAULT_GROWTH_CAPACITY: nat := 8

  // ----- The indices, without the elements

  /** Capacity, number of elements, and the indices of the oldest element and of the next
      write. */
  datatype Control = Control(capacity: nat, size: nat, head: nat, tail: nat)

  /** What every operation keeps: `tail` is congruent to `head + size`, but it may equal
      the capacity where it should be zero. */
  ghost predicate Sound(c: Control) {
    if c.capacity == 0 then c == Control(0, 0, 0, 0) else
      && IsPow2(c.capacity) && DEFAULT_GROWTH_CAPACITY <= c.capacity <= LARGEST
      && c.size <= c.capacity && c.head < c.capacity
      && (c.tail == Wrap(c.head + c.size, c.capacity) || (c.tail == c.capacity && Wrap(c.head + c.size, c.capacity) == 0))
  }

  /** The write index is where the next element has to go. */
  predicate InStep(c: Control) {
    c.capacity > 0 ==> c.tail < c.capacity
  }

  /** The next write stays inside the buffer: it has room and is in step, or it grows first. */
  predicate WriteSafe(c: Control) {
    c.size < c.capacity ==> c.tail < c.capacity
  }

  /** The next enqueue has room, or a buffer of twice the size can be counted. */
  predicate CanGrow(c: Control) {
    c.size < c.capacity || c.capacity < LARGEST
  }

  /** The capacity that a request for `target` slots leads to. */
  function ReserveCapacity(c: Control, target: Word): nat
    requires c.size < WORD
  {
    var newCap := QueueRound(target);
    if newCap < c.size then QueueRound(c.size) else newCap
  }

  predicate NoAllocation(c: Control, target: Word)
    requires c.size < WORD
  {
    var newCap := ReserveCapacity(c, target);
    newCap == 0 || newCap == c.capacity
  }

  /** Reserve gives up the buffer, keeps it, or moves to a new one; after a move `tail` is
      set to `size`, which is not wrapped. */
  function ReserveControl(c: Control, target: Word): Control
    requires c.size < WORD
  {
    var newCap := ReserveCapacity(c, target);
    if newCap == c.capacity && c.capacity > 0 then c
    else if newCap == 0 then Control(0, c.size, 0, 0)
    else Control(newCap, c.size, 0, c.size)
  }

  function GrowthTarget(c: Control): nat {
    if c.capacity > 0 then c.capacity * 2 else DEFAULT_GROWTH_CAPACITY
  }

  /** The index after `i`, going round; the code computes it as `(i + 1) & mask`. */
  function Advance(i: nat, capacity: nat): nat {
    if i + 1 == capacity then 0 else i + 1
  }

  lemma {:induction false} MaskAdvances(i: nat, capacity: nat)
    requires IsPow2(capacity) && i < capacity
    ensures And(i + 1, capacity - 1) == Advance(i, capacity)
  {
    MaskWraps(i + 1, capacity);
  }

  function EnqueueControl(c: Control): Control
    requires Sound(c) && WriteSafe(c) && CanGrow(c)
  {
    var g := if c.size >= c.capacity then ReserveControl(c, GrowthTarget(c)) else c;
    g.(size := g.size + 1, tail := Advance(g.tail, g.capacity))
  }

  function DequeueControl(c: Control): Control
    requires c.capacity > 0
  {
    if c.size == 0 then c else c.(size := c.size - 1, head := Advance(c.head, c.capacity))
  }

  function ClearControl(c: Control): Control {
    c.(size := 0, head := 0, tail := 0)
  }

  // ----- When the indices stay right

  lemma {:induction false} QueueRoundFits(n: Word)
    requires 0 < n <= LARGEST
    ensures n <= QueueRound(n) && IsPow2(QueueRound(n)) && 8 <= QueueRound(n) <= LARGEST
  {
    CeilIsLeast(Max(n, 8));
    CeilFitsWord(Max(n, 8));
  }

  lemma {:induction false} QueueRoundOfPow2(p: Word)
    requires IsPow2(p) && 8 <= p <= LARGEST
    ensures QueueRound(p) == p
  {
    CeilOfPow2(p);
  }

  /** A power of two below 2^63 can be doubled within the bound. */
  lemma {:induction false} DoublingFits(p: nat)
    requires IsPow2(p) && p < LARGEST
    ensures 2 * p <= LARGEST
  {
    Pow2Word();
    var k: nat :| p == Pow2(k);
    if k >= 63 {
      if k > 63 { Pow2Monotone(63, k); }
    } else {
      Pow2Monotone(k, 63);
    }
  }

  lemma {:induction false} ReserveSound(c: Control, target: Word)
    requires Sound(c) && c.size < WORD
    ensures Sound(ReserveControl(c, target))
    ensures c.size <= ReserveCapacity(c, target)
    ensures ReserveControl(c, target).size == c.size
  {
    if 0 < target <= LARGEST { QueueRoundFits(target); }
    if c.size > 0 { QueueRoundFits(c.size); }
  }

  /** The capacity that a request leads to: the least power of two, from 8 on, that holds the
      target and the elements; none if there is nothing to hold. A target above 2^63 counts
      for nothing. It needs no allocation if it is the present one or none. */
  lemma {:induction false} ReserveLeast(c: Control, target: Word)
    requires Sound(c) && c.size < WORD
    ensures var need := if target > 0x8000_0000_0000_0000 then c.size else Max(target, c.size);
            var newCap := ReserveControl(c, target).capacity;
            && (need == 0 ==> newCap == 0)
            && (need > 0 ==> IsLeastPow2(newCap, Max(need, 8)))
            && (NoAllocation(c, target) <==> newCap == 0 || newCap == c.capacity)
  {
    if 0 < target <= LARGEST { RoundIsLeast(target); }
    if c.size > 0 { RoundIsLeast(c.size); }
  }

  lemma {:induction false} RoundIsLeast(n: Word)
    requires 0 < n <= LARGEST
    ensures IsLeastPow2(QueueRound(n), Max(n, 8))
  {
    CeilIsLeast(Max(n, 8));
    CeilFitsWord(Max(n, 8));
  }

  /** Exactly when resizing leaves the write index right: nothing is reallocated and it was
      right before, or the buffer is given up, or the new capacity exceeds the size. */
  lemma {:induction false} ReserveInStep(c: Control, target: Word)
    requires Sound(c) && c.size < WORD
    ensures InStep(ReserveControl(c, target)) <==>
              var newCap := ReserveCapacity(c, target);
              if newCap == c.capacity then InStep(c) else newCap == 0 || c.size < newCap
  {
    ReserveSound(c, target);
  }

  /** Growing always ends in step, with room for one more. */
  lemma {:induction false} GrowthSound(c: Control)
    requires Sound(c) && c.size >= c.capacity && c.capacity < LARGEST
    ensures var g := ReserveControl(c, GrowthTarget(c));
            Sound(g) && g == Control(GrowthTarget(c), c.size, 0, c.size) && c.size < g.capacity
  {
    if c.capacity > 0 {
      DoublingFits(c.capacity);
      DoubledIsPow2(c.capacity);
      QueueRoundOfPow2(2 * c.capacity);
    } else {
    }
    ReserveSound(c, GrowthTarget(c));
  }

  lemma {:induction false} EnqueueSound(c: Control)
    requires Sound(c) && WriteSafe(c) && CanGrow(c)
    ensures Sound(EnqueueControl(c)) && InStep(EnqueueControl(c))
    ensures EnqueueControl(c).size == c.size + 1
    ensures EnqueueControl(c).capacity ==
              if c.size < c.capacity then c.capacity else if c.capacity == 0 then 8 else 2 * c.capacity
  {
    if c.size >= c.capacity {
      GrowthSound(c);
    } else {
    }
  }

  // ----- Runs of calls other than Reserve

  datatype Call = CallEnqueue | CallDequeue | CallClear

  function AfterCall(c: Control, call: Call): Control
    requires Sound(c) && (call.CallEnqueue? ==> WriteSafe(c) && CanGrow(c))
  {
    match call
    case CallEnqueue => EnqueueControl(c)
    case CallDequeue => if c.capacity == 0 then c else DequeueControl(c)
    case CallClear => ClearControl(c)
  }

  lemma {:induction false} AfterCallSound(c: Control, call: Call)
    requires Sound(c) && (call.CallEnqueue? ==> WriteSafe(c) && CanGrow(c))
    ensures Sound(AfterCall(c, call))
    ensures InStep(c) ==> InStep(AfterCall(c, call))
  {
    match call
    case CallEnqueue => EnqueueSound(c);
    case CallDequeue =>
    case CallClear =>
  }

  /** No enqueue of the run writes outside the buffer. */
  ghost predicate RunSafe(c: Control, calls: seq<Call>)
    requires Sound(c)
    decreases |calls|
  {
    calls == [] ||
    if calls[0].CallEnqueue? && !WriteSafe(c) then false
    else if calls[0].CallEnqueue? && !CanGrow(c) then true
    else (AfterCallSound(c, calls[0]); RunSafe(AfterCall(c, calls[0]), calls[1..]))
  }

  lemma {:induction false} InStepRunsSafe(c: Control, calls: seq<Call>)
    requires Sound(c) && InStep(c)
    ensures RunSafe(c, calls)
    decreases |calls|
  {
    if calls != [] && !(calls[0].CallEnqueue? && !CanGrow(c)) {
      AfterCallSound(c, calls[0]);
      InStepRunsSafe(AfterCall(c, calls[0]), calls[1..]);
    }
  }

  /** The exact condition for a queue to be usable: every further run of enqueues, dequeues
      and clears is safe if and only if `tail` is below the capacity. */
  lemma {:induction false} UsableIffInStep(c: Control)
    requires Sound(c)
    ensures (forall calls :: RunSafe(c, calls)) <==> InStep(c)
  {
    if InStep(c) {
      forall calls
        ensures RunSafe(c, calls)
      {
        InStepRunsSafe(c, calls);
      }
    } else {
      UnsafeRun(c);
    }
  }

  /** Otherwise an enqueue, or a dequeue and an enqueue, already goes wrong. */
  lemma {:induction false} UnsafeRun(c: Control)
    requires Sound(c) && !InStep(c)
    ensures !RunSafe(c, if c.size < c.capacity then [CallEnqueue] else [CallDequeue, CallEnqueue])
  {
    if c.size == c.capacity {
      var d := DequeueControl(c);
      assert AfterCall(c, CallDequeue) == d;
      var calls := [CallDequeue, CallEnqueue];
      assert calls[1..] == [CallEnqueue];
      assert !RunSafe(d, [CallEnqueue]);
    }
  }

  /** Such a queue exists: eight elements in sixteen slots, trimmed to fit. The next dequeue
      makes room, and the enqueue after it would write to slot 8 of 8. */
  lemma {:induction false} ShrinkToFitBreaks()
    ensures var c := Control(16, 8, 0, 8);
            && Sound(c) && InStep(c)
            && var t := ReserveControl(c, 8);
               && t == Control(8, 8, 0, 8)
               && Sound(t) && !RunSafe(t, [CallDequeue, CallEnqueue])
  {
    assert Pow2(3) == 8 && Pow2(4) == 16 by { assert Pow2(2) == 4; }
    assert IsPow2(8) && IsPow2(16);
    UnsafeRun(Control(8, 8, 0, 8));
  }

  // ----- The queue itself

  /** The elements from `head` on, going round the buffer. */
  ghost function Unrolled<T>(buffer: seq<T>, head: nat, size: nat): (s: seq<T>)
    requires size <= |buffer| && (head < |buffer| || size == 0)
    ensures |s| == size
    ensures forall i :: 0 <= i < size ==> s[i] == buffer[Wrap(head + i, |buffer|)]
  {
    seq(size, i requires 0 <= i < size => buffer[Wrap(head + i, |buffer|)])
  }

  lemma {:induction false} UnrolledAppend<T>(buffer: seq<T>, head: nat, size: nat, x: T)
    requires head < |buffer| && size < |buffer|
    ensures var t := Wrap(head + size, |buffer|);
            Unrolled(buffer[t := x], head, size + 1) == Unrolled(buffer, head, size) + [x]
  {
  }

  lemma {:induction false} UnrolledRest<T>(buffer: seq<T>, head: nat, size: nat)
    requires head < |buffer| && 0 < size <= |buffer|
    ensures Unrolled(buffer, head, size) == [buffer[head]] + Unrolled(buffer, Advance(head, |buffer|), size - 1)
  {
  }

  /** A buffer filled from the front in two parts holds the elements in order. */
  lemma {:induction false} UnrolledLinear<T>(buffer: seq<T>, head: nat, size: nat, linear: seq<T>)
    requires head < |buffer| && size <= |buffer| && size <= |linear|
    requires forall i :: 0 <= i < size && head + i < |buffer| ==> linear[i] == buffer[head + i]
    requires forall i :: 0 <= i < size - (|buffer| - head) ==> linear[|buffer| - head + i] == buffer[i]
    ensures Unrolled(linear, 0, size) == Unrolled(buffer, head, size)
  {
    forall i | 0 <= i < size
      ensures linear[i] == buffer[Wrap(head + i, |buffer|)]
    {
      if head + i >= |buffer| {
        assert linear[|buffer| - head + (i - (|buffer| - head))] == buffer[i - (|buffer| - head)];
      }
    }
  }

  class Queue<T(0)> {
    var data: array?<T>
    var capacity: nat
    var mask: nat
    var size: nat
    var head: nat
    var tail: nat

    ghost function Indices(): Control
      reads this
    {
      Control(capacity, size, head, tail)
    }

    ghost predicate Valid()
      reads this
    {
      && Sound(Indices())
      && (data == null <==> capacity == 0)
      && (data != null ==> data.Length == capacity && mask == capacity - 1)
    }

    ghost function Contents(): (s: seq<T>)
      requires Valid()
      reads this, data
      ensures |s| == size
    {
      if data == null then [] else Unrolled(data[..], head, size)
    }

    constructor (initialCapacity: Word, allocOk: bool)
      ensures Valid() && Contents() == [] && InStep(Indices())
      ensures capacity == if allocOk then QueueRound(initialCapacity) else 0
      ensures data != null ==> fresh(data)
    {
      data, head, tail, size, mask, capacity := null, 0, 0, 0, 0, 0;
      new;
      capacity := QueueRoundToPowerOfTwo(initialCapacity);
      mask := if capacity > 0 then capacity - 1 else WORD - 1;
      if 0 < initialCapacity <= LARGEST { QueueRoundFits(initialCapacity); }
      if capacity > 0 {
        if allocOk {
          data := new T[capacity];
        } else {
          capacity, mask := 0, 0;
        }
      }
    }

    /** The two-part copy of a wrapped buffer to the front of a new one. */
    method Linearize(newData: array<T>)
      requires Valid() && data != null && newData != data && size <= newData.Length
      modifies newData
      ensures Unrolled(newData[..], 0, size) == Contents()
    {
      ghost var was := data[..];
      var firstPartCount := capacity - head;
      if size <= firstPartCount {
        forall i | 0 <= i < size {
          newData[i] := data[head + i];
        }
      } else {
        forall i | 0 <= i < firstPartCount {
          newData[i] := data[head + i];
        }
        forall i | 0 <= i < size - firstPartCount {
          newData[firstPartCount + i] := data[i];
        }
      }
      assert data[..] == was;
      UnrolledLinear(was, head, size, newData[..]);
    }

    /** Switches to a new buffer that holds the elements from its front on. `tail` becomes
        `size`, which is one past the end if the buffer is just large enough. */
    method Adopt(newData: array<T>)
      requires Valid() && Unrolled(newData[..], 0, if size <= newData.Length then size else 0) == Contents()
      requires IsPow2(newData.Length) && DEFAULT_GROWTH_CAPACITY <= newData.Length <= LARGEST && size <= newData.Length
      modifies this
      ensures Valid() && Contents() == old(Contents()) && data == newData
      ensures Indices() == Control(newData.Length, old(size), 0, old(size))
    {
      data, head, tail, capacity, mask := newData, 0, size, newData.Length, newData.Length - 1;
    }

    method Reserve(target: Word, allocOk: bool) returns (ok: bool)
      requires Valid()
      modifies this
      ensures Valid() && Contents() == old(Contents())
      ensures Indices() == if ok then ReserveControl(old(Indices()), target) else old(Indices())
      ensures ok == (allocOk || NoAllocation(old(Indices()), target))
      ensures ok && 0 < target <= LARGEST ==> target <= capacity
      ensures !ok ==> data == old(data)
      ensures data == old(data) || data == null || fresh(data)
    {
      ReserveSound(Indices(), target);
      if 0 < target <= LARGEST { QueueRoundFits(target); }
      if size > 0 { QueueRoundFits(size); }
      var newCap := QueueRoundToPowerOfTwo(target);
      if newCap < size {
        newCap := QueueRoundToPowerOfTwo(size);
      }
      if newCap == capacity && data != null {
        return true;
      }
      if newCap == 0 {
        data, capacity, mask, head, tail := null, 0, 0, 0, 0;
        return true;
      }
      if !allocOk {
        return false;
      }
      var newData := new T[newCap];
      if data != null && size > 0 {
        Linearize(newData);
      }
      Adopt(newData);
      return true;
    }

    method ShrinkToFit(allocOk: bool) returns (ok: bool)
      requires Valid()
      modifies this
      ensures Valid() && Contents() == old(Contents())
      ensures ok == (allocOk || NoAllocation(old(Indices()), old(size)))
      ensures Indices() == if ok then ReserveControl(old(Indices()), old(size)) else old(Indices())
      ensures ok ==> (InStep(Indices()) <==>
        if capacity == old(capacity) then old(InStep(Indices())) else capacity == 0 || size < capacity)
    {
      ReserveInStep(Indices(), size);
      ok := Reserve(size, allocOk);
    }

    /** Emplace and the copy of the element into the slot it returns. */
    method Enqueue(x: T, allocOk: bool) returns (ok: bool)
      requires Valid() && WriteSafe(Indices()) && CanGrow(Indices())
      modifies this, data
      ensures Valid()
      ensures ok == (allocOk || old(size < capacity))
      ensures Contents() == old(Contents()) + if ok then [x] else []
      ensures ok ==> Indices() == EnqueueControl(old(Indices())) && InStep(Indices())
      ensures ok ==> capacity == if old(size < capacity) then old(capacity) else if old(capacity) == 0 then 8 else 2 * old(capacity)
      ensures data == old(data) || (data != null && fresh(data))
    {
      EnqueueSound(Indices());
      ok := EnsureRoom(allocOk);
      if ok {
        Write(x);
      }
    }

    method EnsureRoom(allocOk: bool) returns (ok: bool)
      requires Valid() && WriteSafe(Indices()) && CanGrow(Indices())
      modifies this
      ensures Valid() && Contents() == old(Contents())
      ensures ok == (allocOk || old(size < capacity))
      ensures ok ==> size < capacity && tail < capacity
      ensures Indices() == if ok && old(size >= capacity)
                             then ReserveControl(old(Indices()), GrowthTarget(old(Indices()))) else old(Indices())
      ensures data == old(data) || (data != null && fresh(data))
    {
      ok := true;
      if size >= capacity {
        GrowthSound(Indices());
        var newCap := if capacity > 0 then capacity * 2 else DEFAULT_GROWTH_CAPACITY;
        ok := Reserve(newCap, allocOk);
      }
    }

    /** `(i + 1) & mask`. */
    method IndexAfter(i: nat) returns (j: nat)
      requires Valid() && i < capacity
      ensures j == Advance(i, capacity)
    {
      MaskAdvances(i, capacity);
      j := And(i + 1, mask);
    }

    /** Writes at `tail`, which is in range, and moves it on. */
    method Write(x: T)
      requires Valid() && size < capacity && tail < capacity
      modifies `tail, `size, data
      ensures Valid() && Contents() == old(Contents()) + [x] && InStep(Indices())
      ensures Indices() == old(Indices()).(size := old(size) + 1, tail := Advance(old(tail), old(capacity)))
    {
      ghost var was := data[..];
      UnrolledAppend(was, head, size, x);
      var next := IndexAfter(tail);
      data[tail] := x;
      assert data[..] == was[tail := x];
      tail := next;
      size := size + 1;
    }

    method Dequeue() returns (out: Option<T>)
      requires Valid()
      modifies `head, `size
      ensures Valid()
      ensures if old(Contents()) == [] then out == None && Contents() == [] else
                out == Some(old(Contents())[0]) && Contents() == old(Contents())[1..]
      ensures InStep(Indices()) <==> old(InStep(Indices()))
      ensures Indices() == if old(capacity) == 0 then old(Indices()) else DequeueControl(old(Indices()))
    {
      if size == 0 {
        return None;
      }
      UnrolledRest(data[..], head, size);
      out := Some(data[head]);
      head := IndexAfter(head);
      size := size - 1;
    }

    method Peek() returns (out: Option<T>)
      requires Valid()
      ensures out == if Contents() == [] then None else Some(Contents()[0])
    {
      if size == 0 {
        return None;
      }
      UnrolledRest(data[..], head, size);
      return Some(data[head]);
    }

    method Clear()
      requires Valid()
      modifies `size, `head, `tail
      ensures Valid() && Contents() == [] && InStep(Indices())
      ensures Indices() == ClearControl(old(Indices()))
    {
      size, head, tail := 0, 0, 0;
    }

    /** One call, against the plain sequence. Of the requests to reserve, those for more than
        the size are passed on. */
    method Perform(op: Op<T>) returns (answer: Option<T>)
      requires Valid() && InStep(Indices()) && size < LARGEST
      modifies this, data
      ensures Valid() && InStep(Indices()) && Contents() == SeqAfter(old(Contents()), op)
      ensures answer == SeqAnswer(old(Contents()), op)
      ensures data == old(data) || data == null || fresh(data)
    {
      answer := None;
      match op {
        case OpEnqueue(x) =>
          var ok := Enqueue(x, true);
        case OpDequeue =>
          answer := Dequeue();
        case OpClear =>
          Clear();
        case OpReserve(target) =>
          if size < target <= LARGEST {
            ReserveMore(target);
          }
      }
    }

    /** A request for more than the size leaves the queue usable. */
    method ReserveMore(target: Word)
      requires Valid() && InStep(Indices()) && size < target <= LARGEST
      modifies this
      ensures Valid() && InStep(Indices()) && Contents() == old(Contents())
      ensures data == old(data) || data == null || fresh(data)
    {
      ReserveInStep(Indices(), target);
      QueueRoundFits(target);
      var ok := Reserve(target, true);
    }

    /** Over every run, while allocation succeeds, the buffer answers as a sequence. */
    method Replay(ops: seq<Op<T>>) returns (answers: seq<Option<T>>)
      requires Valid() && InStep(Indices()) && size + |ops| <= LARGEST
      modifies this, data
      ensures Valid() && answers == SeqAnswers(old(Contents()), ops)
      decreases |ops|
    {
      if ops == [] {
        return [];
      }
      var answer := Perform(ops[0]);
      var rest := Replay(ops[1..]);
      answers := [answer] + rest;
    }
  }

  // ----- Whole runs

  datatype Op<T> = OpEnqueue(x: T) | OpDequeue | OpClear | OpReserve(target: Word)

  /** What a plain sequence does with one call. */
  function SeqAfter<T>(s: seq<T>, op: Op<T>): (after: seq<T>)
    ensures |after| <= |s| + 1
  {
    match op
    case OpEnqueue(x) => s + [x]
    case OpDequeue => if s == [] then [] else s[1..]
    case OpClear => []
    case OpReserve(_) => s
  }

  function SeqAnswer<T>(s: seq<T>, op: Op<T>): Option<T> {
    if op.OpDequeue? && s != [] then Some(s[0]) else None
  }

  function SeqAnswers<T>(s: seq<T>, ops: seq<Op<T>>): seq<Option<T>>
    decreases |ops|
  {
    if ops == [] then [] else [SeqAnswer(s, ops[0])] + SeqAnswers(SeqAfter(s, ops[0]), ops[1..])
  }
}
