/** The linear allocator: one block of memory handed out from the front, with markers to
    roll back to. */
module LinearAlloc {
  import opened Bits
  import opened Common
  import opened Alignment

  /** An allocation that has not been rolled back. */
  datatype Block = Block(start: nat, size: nat)

  function End(b: Block): nat { b.start + b.size }

  /** The blocks lie in address order, without overlap, between two addresses. */
  ghost predicate LaidOut(live: seq<Block>, low: nat, high: nat)
    decreases |live|
  {
    if live == [] then low <= high else
      && low <= live[0].start && End(live[0]) <= high
      && live[0].size > 0
      && LaidOut(live[1..], End(live[0]), high)
  }

  /** What the layout means for two blocks, and for one. */
  lemma {:induction false} LaidOutPairwise(live: seq<Block>, low: nat, high: nat, i: nat, j: nat)
    requires LaidOut(live, low, high) && i < j < |live|
    ensures low <= live[i].start < End(live[i]) <= live[j].start < End(live[j]) <= high
  {
    if i == 0 {
      LaidOutEach(live[1..], End(live[0]), high, j - 1);
    } else {
      LaidOutPairwise(live[1..], End(live[0]), high, i - 1, j - 1);
    }
  }

  lemma {:induction false} LaidOutEach(live: seq<Block>, low: nat, high: nat, i: nat)
    requires LaidOut(live, low, high) && i < |live|
    ensures low <= live[i].start < End(live[i]) <= high
  {
    if i > 0 {
      LaidOutEach(live[1..], End(live[0]), high, i - 1);
    }
  }

  lemma {:induction false} LaidOutAppend(live: seq<Block>, low: nat, high: nat, b: Block)
    requires LaidOut(live, low, high) && high <= b.start
    requires b.size > 0
    ensures LaidOut(live + [b], low, End(b))
    decreases |live|
  {
    if live == [] {
      assert [b][1..] == [];
    } else {
      LaidOutAppend(live[1..], End(live[0]), high, b);
      assert (live + [b])[1..] == live[1..] + [b];
    }
  }

  /** The blocks that lie below an address; in a layout they come first. */
  ghost function Below(live: seq<Block>, limit: nat): (kept: seq<Block>)
    ensures |kept| <= |live| && kept == live[..|kept|]
    decreases |live|
  {
    if live == [] || End(live[0]) > limit then [] else [live[0]] + Below(live[1..], limit)
  }

  /** Rolling back keeps every block that ends below the marker, and only those. */
  lemma {:induction false} BelowLaidOut(live: seq<Block>, low: nat, high: nat, limit: nat)
    requires LaidOut(live, low, high) && low <= limit
    ensures LaidOut(Below(live, limit), low, limit)
    ensures forall b :: b in Below(live, limit) <==> b in live && End(b) <= limit
    decreases |live|
  {
    if live == [] {
    } else if End(live[0]) > limit {
      forall i | 0 <= i < |live|
        ensures End(live[i]) > limit
      {
        if i > 0 { LaidOutPairwise(live, low, high, 0, i); }
      }
    } else {
      BelowLaidOut(live[1..], End(live[0]), high, limit);
      assert live == [live[0]] + live[1..];
    }
  }

  /** What is live at a marker is what is left when later blocks are rolled back to it. */
  lemma {:induction false} BelowOwnEnd(live: seq<Block>, low: nat, high: nat, later: seq<Block>, top: nat)
    requires LaidOut(live, low, high) && LaidOut(later, high, top)
    ensures Below(live + later, high) == live
    decreases |live|
  {
    if live == [] {
      assert live + later == later;
    } else {
      BelowOwnEnd(live[1..], End(live[0]), high, later, top);
      assert (live + later)[1..] == live[1..] + later;
    }
  }

  /** A size and an alignment; alignment 0 asks for the default. */
  datatype Request = Request(size: Word, alignment: Word)

  function ChosenAlignment(r: Request): Word {
    if r.alignment == 0 then MAX_ALIGN else r.alignment
  }

  /** The caller's part: a power-of-two alignment. */
  ghost predicate Proper(r: Request) {
    r.alignment == 0 || IsAlignment(r.alignment)
  }

  lemma {:induction false} ProperChosen(r: Request)
    requires Proper(r)
    ensures IsAlignment(ChosenAlignment(r)) && 0 < ChosenAlignment(r)
  {
    DefaultIsAlignment();
    AlignmentBound(ChosenAlignment(r));
  }

  /** The first aligned address that is not below the first free one. It is 2^64, which wraps
      to zero, if no aligned address is left. */
  function StartOf(r: Request, top: nat): (start: nat)
    requires Proper(r)
    ensures top <= start < top + ChosenAlignment(r)
  {
    ProperChosen(r);
    RoundUp(top, ChosenAlignment(r))
  }

  /** The padding is the least that aligns, to the requested alignment or to 16 bytes. */
  lemma {:induction false} StartIsLeast(r: Request, top: nat)
    requires Proper(r)
    ensures LeastAligned(StartOf(r, top), top, if r.alignment == 0 then 16 else r.alignment)
  {
    ProperChosen(r);
    RoundUpLeast(top, ChosenAlignment(r));
  }

  /** In words it is at most 2^64, where it wraps. */
  lemma {:induction false} StartInWords(r: Request, top: Word)
    requires Proper(r)
    ensures StartOf(r, top) <= WORD
  {
    ProperChosen(r);
    WordIsMultiple(ChosenAlignment(r));
    RoundUpLeast(top, ChosenAlignment(r));
  }

  /** What would be allocated afterwards: `allocated + padding + SIZE`, before it wraps. */
  function EndOf(r: Request, memory: nat, used: nat): nat
    requires Proper(r)
  {
    StartOf(r, memory + used) - memory + r.size
  }

  /** The answer, and the amount allocated afterwards, for a request whose sum fits a word. */
  function AddressOf(r: Request, memory: nat, totalSize: nat, used: nat): Option<nat>
    requires Proper(r)
  {
    if r.size == 0 || EndOf(r, memory, used) > totalSize then None else Some(StartOf(r, memory + used))
  }

  function AllocatedAfter(r: Request, memory: nat, totalSize: nat, used: nat): (after: nat)
    requires Proper(r) && used <= totalSize
    ensures used <= after <= totalSize
  {
    if AddressOf(r, memory, totalSize, used) == None then used else EndOf(r, memory, used)
  }

  function Addresses(rs: seq<Request>, memory: nat, totalSize: nat, used: nat): seq<Option<nat>>
    requires (forall i :: 0 <= i < |rs| ==> Proper(rs[i])) && used <= totalSize
    decreases |rs|
  {
    if rs == [] then [] else
      [AddressOf(rs[0], memory, totalSize, used)]
      + Addresses(rs[1..], memory, totalSize, AllocatedAfter(rs[0], memory, totalSize, used))
  }

  class LinearAllocator {
    const memory: nat
    const totalSize: nat
    /** The number of bytes handed out, padding included (the field `allocated`). */
    var used: nat
    /** The blocks handed out and not rolled back. */
    ghost var live: seq<Block>

    ghost predicate Valid()
      reads this
    {
      used <= totalSize && 0 < memory && memory + totalSize < WORD && LaidOut(live, memory, memory + used)
    }

    constructor (memory: nat, totalSize: nat)
      requires 0 < memory && memory + totalSize < WORD
      ensures Valid() && this.memory == memory && this.totalSize == totalSize && used == 0 && live == []
    {
      this.memory, this.totalSize := memory, totalSize;
      used, live := 0, [];
    }

    /** An address handed out is the least one aligned as requested, or to 16 bytes, that is
        not below the first free byte. Sums are taken modulo the word size: the layout survives
        a request exactly when the sum did not wrap, or the request was refused. */
    method Allocate(r: Request) returns (address: Option<nat>)
      requires Valid() && Proper(r)
      modifies this
      ensures r.size == 0 ==> address == None && Unmoved(old(used), old(live))
      ensures r.size > 0 ==> Bumped(old(StartOf(r, memory + used)), r.size, old(used), old(live), address)
      ensures address.Some? ==>
                LeastAligned(address.value, memory + old(used), if r.alignment == 0 then 16 else r.alignment)
    {
      StartIsLeast(r, memory + used);
      address := Serve(r);
    }

    method Serve(r: Request) returns (address: Option<nat>)
      requires Valid() && Proper(r)
      modifies this
      ensures r.size == 0 ==> address == None && Unmoved(old(used), old(live))
      ensures r.size > 0 ==> Bumped(old(StartOf(r, memory + used)), r.size, old(used), old(live), address)
    {
      if r.size == 0 {
        return None;
      }
      ghost var start := StartOf(r, memory + used);
      StartInWords(r, memory + used);
      var alignedPtr := AlignedPtr(r);
      address := Bump(alignedPtr, r.size, start);
    }

    /** A request that makes the sum wrap to zero. */
    method AllocateWrapped(r: Request, ghost start: nat) returns (address: Option<nat>)
      requires Valid() && Proper(r) && StartOf(r, memory + used) == start
      requires memory < start < WORD && r.size == WORD - (start - memory)
      modifies this
      ensures address == Some(start) && used == 0 && !Valid()
    {
      address := Serve(r);
    }

    /** Its size. */
    method WrappingSize(alignment: Word) returns (size: Word, ghost start: nat)
      requires Valid() && used > 0 && Proper(Request(0, alignment)) && StartOf(Request(0, alignment), memory + used) < WORD
      ensures Proper(Request(size, alignment)) && start == StartOf(Request(size, alignment), memory + used)
      ensures memory < start < WORD && size == WORD - (start - memory)
    {
      start := StartOf(Request(0, alignment), memory + used);
      var alignedPtr := AlignedPtr(Request(0, alignment));
      size := WORD - (alignedPtr - memory);
    }

    method AlignedPtr(r: Request) returns (alignedPtr: Word)
      requires Valid() && Proper(r)
      ensures alignedPtr == StartOf(r, memory + used) % WORD
    {
      var alignment: Word := if r.alignment == 0 then MAX_ALIGN else r.alignment;
      ProperChosen(r);
      var currentPtr := memory + used;
      MaskedSum(currentPtr, alignment);
      alignedPtr := And((currentPtr + (alignment - 1)) % WORD, Not64(alignment - 1));
    }

    ghost predicate Unmoved(wasUsed: nat, wasLive: seq<Block>)
      reads this
    {
      Valid() && used == wasUsed && live == wasLive
    }

    /** The effect of a request whose first aligned address is `start`. */
    ghost predicate Bumped(start: nat, size: Word, wasUsed: nat, wasLive: seq<Block>, address: Option<nat>)
      requires memory <= start
      reads this
    {
      var end := start - memory + size;
      if end % WORD > totalSize then address == None && Unmoved(wasUsed, wasLive) else
        && address == (if start < WORD then Some(start) else None)
        && used == end % WORD && live == wasLive + [Block(start, size)]
        && (Valid() <==> end < WORD)
    }

    method Bump(alignedPtr: Word, size: Word, ghost start: nat) returns (address: Option<nat>)
      requires Valid() && size > 0 && memory + used <= start <= WORD && alignedPtr == start % WORD
      modifies this
      ensures Bumped(start, size, old(used), old(live), address)
    {
      var currentPtr := memory + used;
      PaddingIs(alignedPtr, currentPtr, start);
      var padding := (alignedPtr - currentPtr) % WORD;
      var end := (used + padding + size) % WORD;
      if end > totalSize {
        return None;
      }
      HandOut(Block(start, size), end);
      address := if alignedPtr == 0 then None else Some(alignedPtr);
    }

    method HandOut(ghost b: Block, end: nat)
      requires Valid() && memory + used <= b.start && b.size > 0
      requires end <= totalSize && (end == End(b) - memory || end + WORD <= End(b) - memory)
      modifies this
      ensures used == end && live == old(live) + [b]
      ensures Valid() <==> memory + end == End(b)
    {
      LaidOutAppend(live, memory, memory + used, b);
      LastEnds(live, memory, b);
      used := end;
      live := live + [b];
    }

    method GetMarker() returns (marker: nat)
      ensures marker == used
    {
      marker := used;
    }

    method Rewind(marker: nat)
      requires Valid()
      modifies this
      ensures Valid() && used == (if marker <= old(used) then marker else old(used))
      ensures live == if marker <= old(used) then Below(old(live), memory + marker) else old(live)
    {
      if marker <= used {
        BelowLaidOut(live, memory, memory + used, memory + marker);
        live := Below(live, memory + marker);
        used := marker;
      }
    }

    method Reset()
      requires Valid()
      modifies this
      ensures Valid() && used == 0 && live == []
    {
      used, live := 0, [];
    }

    /** A request whose sum fits a word. */
    method AllocateFitting(r: Request) returns (address: Option<nat>, ghost added: seq<Block>)
      requires Valid() && Fits(r, totalSize)
      modifies this
      ensures Valid() && address == AddressOf(r, memory, totalSize, old(used))
      ensures used == AllocatedAfter(r, memory, totalSize, old(used))
      ensures live == old(live) + added && LaidOut(added, memory + old(used), memory + used)
    {
      address, added := AllocateUnwrapped(r, StartOf(r, memory + used));
    }

    method AllocateUnwrapped(r: Request, ghost start: nat) returns (address: Option<nat>, ghost added: seq<Block>)
      requires Valid() && Proper(r) && start == StartOf(r, memory + used) && start - memory + r.size < WORD
      modifies this
      ensures Valid() && address == (if r.size == 0 || start - memory + r.size > totalSize then None else Some(start))
      ensures used == if address == None then old(used) else start - memory + r.size
      ensures live == old(live) + added && LaidOut(added, memory + old(used), memory + used)
    {
      address := Serve(r);
      added := if address == None then [] else [Block(start, r.size)];
    }

    /** A run of such requests; `later` lists the blocks it adds. */
    method AllocateAll(rs: seq<Request>) returns (addresses: seq<Option<nat>>, ghost later: seq<Block>)
      requires Valid() && AllFit(rs, totalSize)
      modifies this
      ensures Valid() && addresses == Addresses(rs, memory, totalSize, old(used))
      ensures old(used) <= used
      ensures live == old(live) + later && LaidOut(later, memory + old(used), memory + used)
      decreases |rs|
    {
      if rs == [] {
        return [], [];
      }
      ghost var low, before := used, live;
      var first, added := AllocateFitting(rs[0]);
      ghost var mid := used;
      var rest, more := AllocateAll(rs[1..]);
      LaidOutJoin(added, memory + low, memory + mid, more, memory + used);
      assert (before + added) + more == before + (added + more);
      addresses, later := [first] + rest, added + more;
    }

    /** Rolling back to a marker undoes everything allocated since, whatever it was. */
    method AllocateAndRollBack(rs: seq<Request>) returns (addresses: seq<Option<nat>>)
      requires Valid() && AllFit(rs, totalSize)
      modifies this
      ensures Valid() && used == old(used) && live == old(live)
      ensures addresses == Addresses(rs, memory, totalSize, used)
    {
      ghost var atMarker, later := live, [];
      var marker := GetMarker();
      addresses, later := AllocateAll(rs);
      BelowOwnEnd(atMarker, memory, memory + marker, later, memory + used);
      Rewind(marker);
    }

    /** Rolling back to a marker and replaying the same requests returns the same addresses. */
    method ReplayFromMarker(rs: seq<Request>) returns (first: seq<Option<nat>>, second: seq<Option<nat>>)
      requires Valid() && AllFit(rs, totalSize)
      modifies this
      ensures Valid() && first == second
    {
      first := AllocateAndRollBack(rs);
      ghost var later;
      second, later := AllocateAll(rs);
    }
  }

  /** A request whose sum does not wrap, however much is allocated. */
  ghost predicate Fits(r: Request, totalSize: nat) {
    Proper(r) && totalSize + ChosenAlignment(r) + r.size <= WORD
  }

  ghost predicate AllFit(rs: seq<Request>, totalSize: nat) {
    forall i :: 0 <= i < |rs| ==> Fits(rs[i], totalSize)
  }

  /** As soon as anything is allocated there is a size for which the sum wraps past the check: the request succeeds, its block reaches past the memory, and
      all of the memory counts as free again. */
  method WrappedRequestSucceeds(a: LinearAllocator, alignment: Word) returns (size: Word, address: Option<nat>)
    requires a.Valid() && a.used > 0 && Proper(Request(0, alignment))
    requires StartOf(Request(0, alignment), a.memory + a.used) < WORD
    modifies a
    ensures address.Some? && address.value + size > a.memory + a.totalSize && a.used == 0 && !a.Valid()
  {
    ghost var start;
    size, start := a.WrappingSize(alignment);
    address := a.AllocateWrapped(Request(size, alignment), start);
  }

  lemma {:induction false} PaddingIs(alignedPtr: Word, currentPtr: Word, start: nat)
    requires 0 < currentPtr <= start <= WORD && alignedPtr == start % WORD
    ensures (alignedPtr - currentPtr) % WORD == start - currentPtr
    ensures alignedPtr == 0 <==> start == WORD
    ensures start < WORD ==> alignedPtr == start
  {
  }

  /** The last block of a layout fixes how far it reaches. */
  lemma {:induction false} LastEnds(live: seq<Block>, low: nat, b: Block)
    requires b.size > 0
    ensures forall high: nat :: LaidOut(live + [b], low, high) ==> End(b) <= high
  {
    forall high: nat | LaidOut(live + [b], low, high)
      ensures End(b) <= high
    {
      LaidOutEach(live + [b], low, high, |live|);
    }
  }

  lemma {:induction false} LaidOutJoin(a: seq<Block>, low: nat, mid: nat, b: seq<Block>, high: nat)
    requires LaidOut(a, low, mid) && LaidOut(b, mid, high)
    ensures LaidOut(a + b, low, high)
    decreases |a|
  {
    if a == [] {
      assert a + b == b;
    } else {
      LaidOutJoin(a[1..], End(a[0]), mid, b, high);
      assert (a + b)[1..] == a[1..] + b;
    }
  }
}
