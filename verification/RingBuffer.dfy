/** The ring buffer: a power-of-two buffer of fixed capacity that, when full, either
    rejects a push or drops its oldest element. */
module RingBuffer {
  import opened Bits
  import opened Common
  import opened PowerOfTwo
  import Queue

  // ----- What a ring buffer is for

  datatype Op<+T> = OpPush(x: T) | OpPop | OpClear

  /** A bounded sequence: a push to a full one drops the oldest element or does nothing. */
  function After<T>(s: seq<T>, capacity: nat, overwrite: bool, op: Op<T>): seq<T> {
    match op
    case OpPush(x) =>
      if |s| < capacity then s + [x] else if overwrite && s != [] then s[1..] + [x] else s
    case OpPop => if s == [] then [] else s[1..]
    case OpClear => []
  }

  function AfterAll<T>(s: seq<T>, capacity: nat, overwrite: bool, ops: seq<Op<T>>): seq<T>
    decreases |ops|
  {
    if ops == [] then s else AfterAll(After(s, capacity, overwrite, ops[0]), capacity, overwrite, ops[1..])
  }

  /** What a call takes out of the buffer: the element it returns, drops or clears. */
  function Leaving<T>(s: seq<T>, capacity: nat, overwrite: bool, op: Op<T>): seq<T> {
    match op
    case OpPush(_) => if |s| < capacity || !overwrite || s == [] then [] else [s[0]]
    case OpPop => if s == [] then [] else [s[0]]
    case OpClear => s
  }

  function LeavingAll<T>(s: seq<T>, capacity: nat, overwrite: bool, ops: seq<Op<T>>): seq<T>
    decreases |ops|
  {
    if ops == [] then [] else
      Leaving(s, capacity, overwrite, ops[0])
      + LeavingAll(After(s, capacity, overwrite, ops[0]), capacity, overwrite, ops[1..])
  }

  function AcceptedNow<T>(s: seq<T>, capacity: nat, overwrite: bool, op: Op<T>): seq<T> {
    if op.OpPush? && (overwrite || |s| < capacity) then [op.x] else []
  }

  /** The elements of the pushes that are accepted; in overwrite mode, all of them. */
  function Accepted<T>(s: seq<T>, capacity: nat, overwrite: bool, ops: seq<Op<T>>): seq<T>
    decreases |ops|
  {
    if ops == [] then [] else
      AcceptedNow(s, capacity, overwrite, ops[0])
      + Accepted(After(s, capacity, overwrite, ops[0]), capacity, overwrite, ops[1..])
  }

  function Pushes<T>(ops: seq<Op<T>>): seq<T>
    decreases |ops|
  {
    if ops == [] then [] else (if ops[0].OpPush? then [ops[0].x] else []) + Pushes(ops[1..])
  }

  /** How full the buffer is after a run in overwrite mode, from the calls alone. */
  function Level<T>(level: nat, capacity: nat, ops: seq<Op<T>>): nat
    decreases |ops|
  {
    if ops == [] then level else
      var next := match ops[0]
                  case OpPush(_) => if level < capacity then level + 1 else level
                  case OpPop => if level == 0 then 0 else level - 1
                  case OpClear => 0;
      Level(next, capacity, ops[1..])
  }

  /** The newest `n` elements. */
  function Newest<T>(s: seq<T>, n: nat): seq<T>
    requires n <= |s|
  {
    s[|s| - n..]
  }

  /** First in, first out over any run: what has left, followed by what is held, is what was
      held at the start followed by the accepted pushes. */
  lemma {:induction false} NothingLostOrReordered<T>(s: seq<T>, capacity: nat, overwrite: bool, ops: seq<Op<T>>)
    requires |s| <= capacity && capacity > 0
    ensures LeavingAll(s, capacity, overwrite, ops) + AfterAll(s, capacity, overwrite, ops)
            == s + Accepted(s, capacity, overwrite, ops)
    ensures |AfterAll(s, capacity, overwrite, ops)| <= capacity
    decreases |ops|
  {
    if ops != [] {
      var op, rest := ops[0], ops[1..];
      var next := After(s, capacity, overwrite, op);
      NothingLostOrReordered(next, capacity, overwrite, rest);
      Regroup(Leaving(s, capacity, overwrite, op), LeavingAll(next, capacity, overwrite, rest),
              AfterAll(next, capacity, overwrite, rest), s, next, AcceptedNow(s, capacity, overwrite, op),
              Accepted(next, capacity, overwrite, rest));
    }
  }

  lemma {:induction false} Regroup<T>(gone: seq<T>, later: seq<T>, held: seq<T>, s: seq<T>, next: seq<T>, now: seq<T>, accepted: seq<T>)
    requires gone + next == s + now && later + held == next + accepted
    ensures (gone + later) + held == s + (now + accepted)
  {
    assert (gone + later) + held == gone + (later + held);
    assert gone + (next + accepted) == (gone + next) + accepted;
    assert (s + now) + accepted == s + (now + accepted);
  }

  lemma {:induction false} OverwriteAcceptsAll<T>(s: seq<T>, capacity: nat, ops: seq<Op<T>>)
    ensures Accepted(s, capacity, true, ops) == Pushes(ops)
    decreases |ops|
  {
    if ops != [] {
      OverwriteAcceptsAll(After(s, capacity, true, ops[0]), capacity, ops[1..]);
    }
  }

  lemma {:induction false} LevelIsLength<T>(s: seq<T>, capacity: nat, ops: seq<Op<T>>)
    requires |s| <= capacity && capacity > 0
    ensures |AfterAll(s, capacity, true, ops)| == Level(|s|, capacity, ops)
    decreases |ops|
  {
    if ops != [] {
      LevelIsLength(After(s, capacity, true, ops[0]), capacity, ops[1..]);
    }
  }

  /** In overwrite mode the buffer holds the newest of all pushes, as many as the calls
      leave room for. */
  lemma {:induction false} HoldsTheNewest<T>(s: seq<T>, capacity: nat, ops: seq<Op<T>>)
    requires |s| <= capacity && capacity > 0
    ensures Level(|s|, capacity, ops) <= |s + Pushes(ops)|
    ensures AfterAll(s, capacity, true, ops) == Newest(s + Pushes(ops), Level(|s|, capacity, ops))
  {
    NothingLostOrReordered(s, capacity, true, ops);
    OverwriteAcceptsAll(s, capacity, ops);
    LevelIsLength(s, capacity, ops);
    var gone, held := LeavingAll(s, capacity, true, ops), AfterAll(s, capacity, true, ops);
    assert (gone + held)[|gone|..] == held;
  }

  ghost predicate OnlyPushes<T>(ops: seq<Op<T>>) {
    forall i :: 0 <= i < |ops| ==> ops[i].OpPush?
  }

  /** After pushes alone, that is as many as fit. */
  lemma {:induction false} PushesFillUp<T>(level: nat, capacity: nat, ops: seq<Op<T>>)
    requires level <= capacity && OnlyPushes(ops)
    ensures Level(level, capacity, ops) == if level + |Pushes(ops)| <= capacity then level + |Pushes(ops)| else capacity
    decreases |ops|
  {
    if ops != [] {
      PushesFillUp(if level < capacity then level + 1 else level, capacity, ops[1..]);
    }
  }

  // ----- The ring buffer

  class RingBuffer<T(0)> {
    var data: array<T>
    var capacity: nat
    var mask: nat
    var head: nat
    var tail: nat
    var count: nat
    var allowOverwrite: bool

    ghost predicate Valid()
      reads this
    {
      && IsPow2(capacity) && capacity > 0
      && data.Length == capacity && mask == capacity - 1
      && tail < capacity && count <= capacity
      && head == Wrap(tail + count, capacity)
    }

    ghost function Contents(): (s: seq<T>)
      requires Valid()
      reads this, data
      ensures |s| == count
    {
      Queue.Unrolled(data[..], tail, count)
    }

    /** Beyond 2^63 the capacity wraps to zero, and the ring buffer is unusable even if the
        empty allocation succeeds. */
    constructor (requested: Word, overwrite: bool, allocOk: bool)
      requires 0 < requested
      ensures Valid() <==> allocOk && requested <= LARGEST
      ensures Valid() ==> Contents() == [] && IsLeastPow2(capacity, requested) && allowOverwrite == overwrite
      ensures !Valid() ==> capacity == 0
      ensures fresh(data)
    {
      data := new T[0];
      capacity, mask, head, tail, count := 0, 0, 0, 0, 0;
      allowOverwrite := overwrite;
      new;
      capacity := RingNextPowerOfTwo(requested);
      mask := if capacity > 0 then capacity - 1 else WORD - 1;
      if allocOk {
        data := new T[capacity];
      } else {
        capacity, mask := 0, 0;
      }
    }

    /** `(i + 1) & mask`. */
    method IndexAfter(i: nat) returns (j: nat)
      requires Valid() && i < capacity
      ensures j == Queue.Advance(i, capacity)
    {
      Queue.MaskAdvances(i, capacity);
      j := And(i + 1, mask);
    }

    method DropOldest()
      requires Valid() && count > 0
      modifies `tail, `count
      ensures Valid() && Contents() == old(Contents())[1..] && count == old(count) - 1
    {
      Queue.UnrolledRest(data[..], tail, count);
      tail := IndexAfter(tail);
      count := count - 1;
    }

    /** Makes room for one element at the head; whatever its slot held becomes the newest
        element until the caller writes to it. */
    method Emplace() returns (slot: Option<nat>)
      requires Valid()
      modifies `head, `tail, `count
      ensures Valid() && (slot == None <==> old(count) == capacity && !allowOverwrite)
      ensures slot == None ==> Contents() == old(Contents())
      ensures slot.Some? ==> slot.value < capacity && Contents() == After(old(Contents()), capacity, allowOverwrite, OpPush(data[slot.value]))
      ensures slot.Some? ==> count > 0 && slot.value == Wrap(tail + (count - 1), capacity)
    {
      if count == capacity {
        if !allowOverwrite {
          return None;
        }
        DropOldest();
      }
      Queue.UnrolledAppend(data[..], tail, count, data[head]);
      assert data[..][head := data[head]] == data[..];
      slot := Some(head);
      head := IndexAfter(head);
      count := count + 1;
    }

    method Push(x: T) returns (ok: bool)
      requires Valid()
      modifies `head, `tail, `count, data
      ensures Valid() && Contents() == After(old(Contents()), capacity, allowOverwrite, OpPush(x))
      ensures ok <==> old(count) < capacity || allowOverwrite
      ensures !ok ==> Contents() == old(Contents())
    {
      var slot := Emplace();
      if slot == None {
        return false;
      }
      ghost var was := data[..];
      NewestWritten(was, tail, count, x);
      data[slot.value] := x;
      assert data[..] == was[slot.value := x];
      return true;
    }

    method Pop() returns (out: Option<T>)
      requires Valid()
      modifies `tail, `count
      ensures Valid() && Contents() == After(old(Contents()), capacity, allowOverwrite, OpPop)
      ensures out == if old(Contents()) == [] then None else Some(old(Contents())[0])
    {
      if count == 0 {
        return None;
      }
      Queue.UnrolledRest(data[..], tail, count);
      out := Some(data[tail]);
      DropOldest();
    }

    method Peek() returns (out: Option<T>)
      requires Valid()
      ensures out == if Contents() == [] then None else Some(Contents()[0])
    {
      if count == 0 {
        return None;
      }
      Queue.UnrolledRest(data[..], tail, count);
      return Some(data[tail]);
    }

    method Clear()
      requires Valid()
      modifies `head, `tail, `count
      ensures Valid() && Contents() == []
    {
      head, tail, count := 0, 0, 0;
    }

    /** A whole run: the buffer holds what the bounded sequence holds, and the pops return
        what it gives up. */
    method Replay(ops: seq<Op<T>>) returns (popped: seq<T>)
      requires Valid()
      modifies `head, `tail, `count, data
      ensures Valid() && Contents() == AfterAll(old(Contents()), capacity, allowOverwrite, ops)
      ensures popped == Popped(old(Contents()), capacity, allowOverwrite, ops)
      decreases |ops|
    {
      if ops == [] {
        return [];
      }
      var first: seq<T> := [];
      match ops[0] {
        case OpPush(x) =>
          var ok := Push(x);
        case OpPop =>
          var out := Pop();
          if out.Some? {
            first := [out.value];
          }
        case OpClear =>
          Clear();
      }
      var rest := Replay(ops[1..]);
      popped := first + rest;
    }
  }

  /** What the pops of a run return. */
  function Popped<T>(s: seq<T>, capacity: nat, overwrite: bool, ops: seq<Op<T>>): seq<T>
    decreases |ops|
  {
    if ops == [] then [] else
      (if ops[0].OpPop? then Leaving(s, capacity, overwrite, ops[0]) else [])
      + Popped(After(s, capacity, overwrite, ops[0]), capacity, overwrite, ops[1..])
  }

  /** Without overwriting and without clearing, only pops take elements out: the run is a
      first-in-first-out queue. */
  lemma {:induction false} RejectModeIsFifo<T>(s: seq<T>, capacity: nat, ops: seq<Op<T>>)
    requires |s| <= capacity && capacity > 0 && forall i :: 0 <= i < |ops| ==> !ops[i].OpClear?
    ensures Popped(s, capacity, false, ops) + AfterAll(s, capacity, false, ops) == s + Accepted(s, capacity, false, ops)
    decreases |ops|
  {
    NothingLostOrReordered(s, capacity, false, ops);
    OnlyPopsTake(s, capacity, ops);
  }

  lemma {:induction false} OnlyPopsTake<T>(s: seq<T>, capacity: nat, ops: seq<Op<T>>)
    requires forall i :: 0 <= i < |ops| ==> !ops[i].OpClear?
    ensures Popped(s, capacity, false, ops) == LeavingAll(s, capacity, false, ops)
    decreases |ops|
  {
    if ops != [] {
      OnlyPopsTake(After(s, capacity, false, ops[0]), capacity, ops[1..]);
    }
  }

  lemma {:induction false} NewestWritten<T>(buffer: seq<T>, tail: nat, count: nat, x: T)
    requires tail < |buffer| && 0 < count <= |buffer|
    ensures var slot := Wrap(tail + (count - 1), |buffer|);
            Queue.Unrolled(buffer[slot := x], tail, count)
            == Queue.Unrolled(buffer, tail, count)[..count - 1] + [x]
  {
  }
}
