/** The memory tracker: a doubly linked list of the live allocations and a table of tags
    with byte counts and limits. */
module Tracker {
  import opened Bits
  import opened Common

  const UNKNOWN: string := "UNKNOWN"

  /** The size of the name field of a tag, terminator included. */
  const NAME_SIZE: nat := 32

  const DEFAULT_LIMIT: Word := 1024

  datatype TagEntry = TagEntry(name: string, allocatedBytes: Word, allocationLimit: Word, activeCount: nat)

  // ----- Word arithmetic

  function AddWord(a: Word, b: Word): Word { (a + b) % WORD }

  function SubWord(a: Word, b: Word): Word { (a - b) % WORD }

  // ----- Which entry a tag is charged to

  /** The first entry with this name. */
  function IndexOf(table: seq<TagEntry>, name: string): (i: nat)
    ensures i <= |table| && (forall j :: 0 <= j < i ==> table[j].name != name)
    ensures i < |table| ==> table[i].name == name
  {
    if table == [] || table[0].name == name then 0 else 1 + IndexOf(table[1..], name)
  }

  /** A name that is too long is cut off. */
  function Stored(tag: string): string {
    if |tag| < NAME_SIZE then tag else tag[..NAME_SIZE - 1]
  }

  function NewEntry(tag: string): TagEntry {
    TagEntry(Stored(tag), 0, DEFAULT_LIMIT, 0)
  }

  predicate GoesToUnknown(tag: Option<string>) {
    tag == None || tag.value == "" || tag.value == UNKNOWN
  }

  /** The entry that a tag leads to: a new one if there is none and the table has room. */
  function Route(table: seq<TagEntry>, tag: Option<string>, limit: nat): nat {
    if GoesToUnknown(tag) then 0
    else if IndexOf(table, tag.value) < |table| || |table| < limit then IndexOf(table, tag.value)
    else 0
  }

  function TableAfter(table: seq<TagEntry>, tag: Option<string>, limit: nat): seq<TagEntry> {
    if GoesToUnknown(tag) || IndexOf(table, tag.value) < |table| || |table| >= limit then table
    else table + [NewEntry(tag.value)]
  }

  /** Where a tag leads: to the first entry if it is missing, empty or literally UNKNOWN; to
      the entry of that name if there is one; otherwise, while there is room, to a new one with
      a limit of 1024 bytes and at most 31 characters of the name; and else to the first. */
  lemma {:induction false} RouteDecides(table: seq<TagEntry>, tag: Option<string>, limit: nat)
    requires table != []
    ensures var i, t := Route(table, tag, limit), TableAfter(table, tag, limit);
            && i < |t|
            && (tag == None || tag.value == "" || tag.value == "UNKNOWN" ==> i == 0 && t == table)
            && (tag.Some? && tag.value != "" && tag.value != "UNKNOWN" ==>
                  if exists j :: 0 <= j < |table| && table[j].name == tag.value then
                    t == table && t[i].name == tag.value && forall j :: 0 <= j < i ==> t[j].name != tag.value
                  else if |table| < limit then
                    && t[..|table|] == table && |t| == |table| + 1 && i == |table|
                    && t[i] == TagEntry(if |tag.value| <= 31 then tag.value else tag.value[..31], 0, 1024, 0)
                  else i == 0 && t == table)
  {
  }

  // ----- The books

  /** A live allocation: its size and the entry it is charged to. */
  datatype Charge = Charge(size: Word, owner: nat)

  function BytesOf(book: seq<Charge>, i: nat): nat {
    if book == [] then 0 else (if book[0].owner == i then book[0].size else 0) + BytesOf(book[1..], i)
  }

  function CountOf(book: seq<Charge>, i: nat): nat {
    if book == [] then 0 else (if book[0].owner == i then 1 else 0) + CountOf(book[1..], i)
  }

  function TotalOf(book: seq<Charge>): nat {
    if book == [] then 0 else book[0].size + TotalOf(book[1..])
  }

  lemma {:induction false} Removed(book: seq<Charge>, k: nat, i: nat)
    requires k < |book|
    ensures var rest := book[..k] + book[k + 1..];
            && BytesOf(book, i) == BytesOf(rest, i) + (if book[k].owner == i then book[k].size else 0)
            && CountOf(book, i) == CountOf(rest, i) + (if book[k].owner == i then 1 else 0)
            && TotalOf(book) == TotalOf(rest) + book[k].size
  {
    var rest := book[..k] + book[k + 1..];
    if k == 0 {
      assert rest == book[1..];
    } else {
      Removed(book[1..], k - 1, i);
      assert rest[1..] == book[1..][..k - 1] + book[1..][k..];
    }
  }

  /** Adding up the counters of `n` entries. */
  function SumOfBytes(book: seq<Charge>, n: nat): nat {
    if n == 0 then 0 else SumOfBytes(book, n - 1) + BytesOf(book, n - 1)
  }

  lemma {:induction false} SumIsTotal(book: seq<Charge>, n: nat)
    requires forall i :: 0 <= i < |book| ==> book[i].owner < n
    ensures SumOfBytes(book, n) == TotalOf(book)
  {
    if book == [] {
      SumOfNothing(n);
    } else {
      SumIsTotal(book[1..], n);
      SumPeels(book, n);
    }
  }

  lemma {:induction false} SumOfNothing(n: nat)
    ensures SumOfBytes([], n) == 0
  {
    if n > 0 {
      SumOfNothing(n - 1);
    }
  }

  lemma {:induction false} SumPeels(book: seq<Charge>, n: nat)
    requires book != []
    ensures SumOfBytes(book, n) == SumOfBytes(book[1..], n) + if book[0].owner < n then book[0].size else 0
  {
    if n > 0 {
      SumPeels(book, n - 1);
    }
  }

  // ----- When the counters are right

  /** The counters of entry `i` are those of the allocations charged to it; bytes are
      counted modulo the word size. */
  ghost predicate EntryRight(e: TagEntry, book: seq<Charge>, i: nat) {
    e.allocatedBytes == BytesOf(book, i) % WORD && e.activeCount == CountOf(book, i)
  }

  ghost predicate Balanced(table: seq<TagEntry>, book: seq<Charge>) {
    && table != [] && table[0].name == UNKNOWN
    && (forall i :: 0 <= i < |table| ==> table[i].name != "" && table[i].allocationLimit > 0)
    && (forall i :: 0 <= i < |table| ==> EntryRight(table[i], book, i))
    && (forall k :: 0 <= k < |book| ==> book[k].owner < |table|)
  }

  /** The table with an allocation of `size` bytes added to entry `i`. */
  function Charged(table: seq<TagEntry>, i: nat, size: Word): seq<TagEntry>
    requires i < |table|
  {
    table[i := table[i].(allocatedBytes := AddWord(table[i].allocatedBytes, size), activeCount := table[i].activeCount + 1)]
  }

  function Discharged(table: seq<TagEntry>, i: nat, size: Word): seq<TagEntry>
    requires i < |table| && table[i].activeCount > 0
  {
    table[i := table[i].(allocatedBytes := SubWord(table[i].allocatedBytes, size), activeCount := table[i].activeCount - 1)]
  }

  lemma {:induction false} ChargeBalanced(table: seq<TagEntry>, book: seq<Charge>, c: Charge)
    requires Balanced(table, book) && c.owner < |table|
    ensures Balanced(Charged(table, c.owner, c.size), [c] + book)
  {
    forall i | 0 <= i < |table|
      ensures EntryRight(Charged(table, c.owner, c.size)[i], [c] + book, i)
    {
      assert EntryRight(table[i], book, i);
      ChargeEntry(table[i], book, c, i);
    }
  }

  lemma {:induction false} ChargeEntry(e: TagEntry, book: seq<Charge>, c: Charge, i: nat)
    requires EntryRight(e, book, i)
    ensures if c.owner != i then EntryRight(e, [c] + book, i) else
              EntryRight(e.(allocatedBytes := AddWord(e.allocatedBytes, c.size), activeCount := e.activeCount + 1), [c] + book, i)
  {
    assert ([c] + book)[1..] == book;
  }

  lemma {:induction false} DischargeBalanced(table: seq<TagEntry>, book: seq<Charge>, k: nat)
    requires Balanced(table, book) && k < |book|
    ensures table[book[k].owner].activeCount > 0
    ensures Balanced(Discharged(table, book[k].owner, book[k].size), book[..k] + book[k + 1..])
  {
    var c, rest := book[k], book[..k] + book[k + 1..];
    DischargeEntry(table[c.owner], book, k, c.owner);
    forall i | 0 <= i < |table|
      ensures EntryRight(Discharged(table, c.owner, c.size)[i], rest, i)
    {
      assert EntryRight(table[i], book, i);
      DischargeEntry(table[i], book, k, i);
    }
  }

  lemma {:induction false} DischargeEntry(e: TagEntry, book: seq<Charge>, k: nat, i: nat)
    requires k < |book| && EntryRight(e, book, i)
    ensures var c, rest := book[k], book[..k] + book[k + 1..];
            if c.owner != i then EntryRight(e, rest, i) else
              && e.activeCount > 0
              && EntryRight(e.(allocatedBytes := SubWord(e.allocatedBytes, c.size), activeCount := e.activeCount - 1), rest, i)
  {
    Removed(book, k, i);
  }

  /** Releasing the allocation that was just made restores the table. */
  lemma {:induction false} DischargeUndoesCharge(table: seq<TagEntry>, i: nat, size: Word)
    requires i < |table|
    ensures Charged(table, i, size)[i].activeCount > 0 && Discharged(Charged(table, i, size), i, size) == table
  {
    assert Discharged(Charged(table, i, size), i, size)[i] == table[i];
  }

  lemma {:induction false} NewEntryBalanced(table: seq<TagEntry>, book: seq<Charge>, tag: string)
    requires Balanced(table, book) && NamesStored(table) && tag != ""
    ensures Balanced(table + [NewEntry(tag)], book) && NamesStored(table + [NewEntry(tag)])
  {
    NobodysBytes(book, |table|);
    var longer := table + [NewEntry(tag)];
    forall i | 0 <= i < |longer|
      ensures EntryRight(longer[i], book, i) && longer[i].name != "" && longer[i].allocationLimit > 0
    {
      if i < |table| { assert EntryRight(table[i], book, i); }
    }
  }

  lemma {:induction false} NobodysBytes(book: seq<Charge>, i: nat)
    requires forall k :: 0 <= k < |book| ==> book[k].owner < i
    ensures BytesOf(book, i) == 0 && CountOf(book, i) == 0
  {
    if book != [] {
      NobodysBytes(book[1..], i);
    }
  }

  lemma {:induction false} IndexInLonger(table: seq<TagEntry>, e: TagEntry, name: string)
    ensures IndexOf(table + [e], name) == if IndexOf(table, name) < |table| || e.name == name then IndexOf(table, name) else |table| + 1
  {
    if table != [] {
      assert (table + [e])[1..] == table[1..] + [e];
      IndexInLonger(table[1..], e, name);
    } else {
      assert ([e])[1..] == [];
    }
  }

  // ----- Charged where checked

  /** The entry that an allocation with this tag is charged to: the tag is looked up again
      by the name under which it was stored. */
  function ChargedEntry(table: seq<TagEntry>, tag: Option<string>, limit: nat): nat
    requires Route(table, tag, limit) < |TableAfter(table, tag, limit)|
  {
    var after := TableAfter(table, tag, limit);
    IndexOf(after, after[Route(table, tag, limit)].name)
  }

  ghost predicate NamesStored(table: seq<TagEntry>) {
    && table != [] && table[0].name == UNKNOWN
    && forall i :: 0 <= i < |table| ==> |table[i].name| < NAME_SIZE && table[i].name != ""
  }

  /** The entry whose limit is checked is the one that is charged, exactly if the tag is
      short, or the table is full, or no earlier tag is cut off to the same name. */
  lemma {:induction false} ChargedIsChecked(table: seq<TagEntry>, tag: Option<string>, limit: nat)
    requires NamesStored(table)
    ensures Route(table, tag, limit) < |TableAfter(table, tag, limit)|
    ensures ChargedEntry(table, tag, limit) < |TableAfter(table, tag, limit)|
    ensures ChargedEntry(table, tag, limit) == Route(table, tag, limit) <==>
            (tag.Some? ==> |tag.value| < NAME_SIZE || |table| >= limit || IndexOf(table, Stored(tag.value)) == |table|)
  {
    if GoesToUnknown(tag) || (IndexOf(table, tag.value) >= |table| && |table| >= limit) {
    } else if IndexOf(table, tag.value) < |table| {
      assert |table[IndexOf(table, tag.value)].name| < NAME_SIZE;
    } else {
      IndexInLonger(table, NewEntry(tag.value), Stored(tag.value));
    }
  }

  // ----- Limits, in bytes that are really charged

  /** No entry has gained bytes and stands above its limit. The bytes are those of the books,
      not the counters, which may have wrapped. */
  ghost predicate WithinLimits(before: seq<Charge>, after: seq<Charge>, table: seq<TagEntry>) {
    forall i :: 0 <= i < |table| ==> BytesOf(after, i) <= Max(table[i].allocationLimit, BytesOf(before, i))
  }

  /** The limit check of an allocation. */
  predicate Admitted(checked: TagEntry, size: Word) {
    AddWord(checked.allocatedBytes, size) <= checked.allocationLimit
  }

  /** What a caller can check first: the bytes of the charged entry do not wrap, and the
      entry is the checked one or has room of its own. */
  ghost predicate Guarded(table: seq<TagEntry>, book: seq<Charge>, checked: nat, charged: nat, size: Word)
    requires charged < |table|
  {
    && BytesOf(book, charged) + size < WORD
    && (charged == checked || BytesOf(book, charged) + size <= table[charged].allocationLimit)
  }

  /** An admitted allocation keeps the limits if and only if it was guarded. */
  lemma {:induction false} MallocLimitIff(table: seq<TagEntry>, book: seq<Charge>, checked: nat, charged: nat, size: Word)
    requires Balanced(table, book) && checked < |table| && charged < |table|
    requires size > 0 && Admitted(table[checked], size)
    ensures WithinLimits(book, [Charge(size, charged)] + book, table) <==> Guarded(table, book, checked, charged, size)
  {
    var c := Charge(size, charged);
    forall i | 0 <= i < |table|
      ensures BytesOf([c] + book, i) == BytesOf(book, i) + if i == charged then size else 0
    {
    }
    assert EntryRight(table[checked], book, checked);
    assert WithinLimits(book, [c] + book, table) <==> BytesOf(book, charged) + size <= table[charged].allocationLimit;
  }

  /** A reallocation that passes its check keeps the limits if and only if it does not wrap
      the bytes of the entry, or does not grow. */
  lemma {:induction false} ReallocLimitIff(table: seq<TagEntry>, book: seq<Charge>, k: nat, newSize: Word)
    requires Balanced(table, book) && k < |book|
    requires Admitted(table[book[k].owner].(allocatedBytes := SubWord(table[book[k].owner].allocatedBytes, book[k].size)), newSize)
    ensures var c := book[k];
            WithinLimits(book, [Charge(newSize, c.owner)] + (book[..k] + book[k + 1..]), table) <==>
            BytesOf(book, c.owner) - c.size + newSize < WORD || newSize <= c.size
  {
    var c, rest := book[k], book[..k] + book[k + 1..];
    var after := [Charge(newSize, c.owner)] + rest;
    assert after[1..] == rest;
    assert EntryRight(table[c.owner], book, c.owner);
    forall i | 0 <= i < |table|
      ensures BytesOf(after, i) == BytesOf(book, i) + if i == c.owner then newSize - c.size else 0
    {
      Removed(book, k, i);
    }
    Removed(book, k, c.owner);
    var b := BytesOf(book, c.owner);
    if b - c.size + newSize < WORD || newSize <= c.size {
    } else {
      assert BytesOf(after, c.owner) > Max(table[c.owner].allocationLimit, BytesOf(book, c.owner));
    }
  }

  /** An allocation of this size with this tag, if it is admitted, keeps the limits. */
  ghost predicate LimitKept(table: seq<TagEntry>, book: seq<Charge>, checked: nat, charged: nat, size: Word)
    requires checked < |table|
  {
    Admitted(table[checked], size) ==> WithinLimits(book, [Charge(size, charged)] + book, table)
  }

  /** Limits are kept by every allocation with this tag that does not wrap the bytes of its
      entry, if and only if the checked entry is the charged one, or that one has room for
      all that a new entry may be given, or its limit cannot be exceeded without wrapping. */
  lemma {:induction false} LimitKeptIff(table: seq<TagEntry>, book: seq<Charge>, tag: Option<string>, limit: nat)
    requires Balanced(table, book) && NamesStored(table)
    ensures Route(table, tag, limit) < |TableAfter(table, tag, limit)|
    ensures ChargedEntry(table, tag, limit) < |TableAfter(table, tag, limit)|
    ensures var t, checked, charged := TableAfter(table, tag, limit), Route(table, tag, limit), ChargedEntry(table, tag, limit);
            (forall size: Word :: 0 < size && BytesOf(book, charged) + size < WORD ==> LimitKept(t, book, checked, charged, size)) <==>
            || charged == checked
            || BytesOf(book, charged) + DEFAULT_LIMIT <= t[charged].allocationLimit
            || Max(BytesOf(book, charged), t[charged].allocationLimit) >= WORD - 1
  {
    ChargedIsChecked(table, tag, limit);
    TableAfterBalanced(table, book, tag, limit);
    var t, checked, charged := TableAfter(table, tag, limit), Route(table, tag, limit), ChargedEntry(table, tag, limit);
    KeptByGuard(t, book, checked, charged);
    if charged != checked {
      NewEntryAdmits(t, book, checked, charged);
    }
  }

  /** What passes the check against a new entry, and does not wrap, finds room in the charged
      entry if and only if there is room for the largest such size. */
  lemma {:induction false} NewEntryAdmits(t: seq<TagEntry>, book: seq<Charge>, checked: nat, charged: nat)
    requires checked < |t| && charged < |t| && checked != charged
    requires t[checked].allocatedBytes == 0 && t[checked].allocationLimit == DEFAULT_LIMIT
    ensures (forall size: Word :: 0 < size && BytesOf(book, charged) + size < WORD ==>
              (Admitted(t[checked], size) ==> Guarded(t, book, checked, charged, size))) <==>
            || BytesOf(book, charged) + DEFAULT_LIMIT <= t[charged].allocationLimit
            || Max(BytesOf(book, charged), t[charged].allocationLimit) >= WORD - 1
  {
    var b, l := BytesOf(book, charged), t[charged].allocationLimit;
    if b + DEFAULT_LIMIT > l && Max(b, l) < WORD - 1 {
      var size: Word := if b + DEFAULT_LIMIT < WORD then DEFAULT_LIMIT else WORD - 1 - b;
      assert Admitted(t[checked], size) && !Guarded(t, book, checked, charged, size);
    }
  }

  /** Limits are kept by every allocation with this tag, if and only if nothing is charged to
      its entry yet, or, where another entry is checked, there is room for all that a new
      entry may be given. Otherwise some size wraps past the check. */
  lemma {:induction false} AnySizeKeptIff(table: seq<TagEntry>, book: seq<Charge>, tag: Option<string>, limit: nat)
    requires Balanced(table, book) && NamesStored(table)
    ensures Route(table, tag, limit) < |TableAfter(table, tag, limit)|
    ensures ChargedEntry(table, tag, limit) < |TableAfter(table, tag, limit)|
    ensures var t, checked, charged := TableAfter(table, tag, limit), Route(table, tag, limit), ChargedEntry(table, tag, limit);
            (forall size: Word :: 0 < size ==> LimitKept(t, book, checked, charged, size)) <==>
            if charged == checked then BytesOf(book, charged) == 0
            else BytesOf(book, charged) + DEFAULT_LIMIT <= t[charged].allocationLimit
  {
    ChargedIsChecked(table, tag, limit);
    TableAfterBalanced(table, book, tag, limit);
    var t, checked, charged := TableAfter(table, tag, limit), Route(table, tag, limit), ChargedEntry(table, tag, limit);
    KeptByGuard(t, book, checked, charged);
    if charged != checked {
      NewEntryAdmitsAny(t, book, checked, charged);
    } else {
      WrapAdmits(t, book, charged);
    }
  }

  lemma {:induction false} NewEntryAdmitsAny(t: seq<TagEntry>, book: seq<Charge>, checked: nat, charged: nat)
    requires checked < |t| && charged < |t| && checked != charged
    requires t[checked].allocatedBytes == 0 && t[checked].allocationLimit == DEFAULT_LIMIT
    ensures (forall size: Word :: 0 < size ==>
              (Admitted(t[checked], size) ==> Guarded(t, book, checked, charged, size))) <==>
            BytesOf(book, charged) + DEFAULT_LIMIT <= t[charged].allocationLimit
  {
    assert Admitted(t[checked], DEFAULT_LIMIT);
  }

  /** Over an entry that is in use some size wraps past the check. */
  lemma {:induction false} WrapAdmits(t: seq<TagEntry>, book: seq<Charge>, i: nat)
    requires Balanced(t, book) && i < |t|
    ensures (forall size: Word :: 0 < size ==> (Admitted(t[i], size) ==> Guarded(t, book, i, i, size))) <==>
            BytesOf(book, i) == 0
  {
    assert EntryRight(t[i], book, i);
    var b := BytesOf(book, i);
    if b % WORD > 0 {
      var size: Word := WORD - b % WORD;
      assert Admitted(t[i], size) && !Guarded(t, book, i, i, size);
    } else if b > 0 {
      assert Admitted(t[i], 1) && !Guarded(t, book, i, i, 1);
    }
  }

  /** The theorem on one request, for all sizes. */
  lemma {:induction false} KeptByGuard(table: seq<TagEntry>, book: seq<Charge>, checked: nat, charged: nat)
    requires Balanced(table, book) && checked < |table| && charged < |table|
    ensures forall size: Word :: size > 0 ==>
      (LimitKept(table, book, checked, charged, size) <==>
       (Admitted(table[checked], size) ==> Guarded(table, book, checked, charged, size)))
  {
    forall size: Word | size > 0
      ensures LimitKept(table, book, checked, charged, size) <==>
              (Admitted(table[checked], size) ==> Guarded(table, book, checked, charged, size))
    {
      if Admitted(table[checked], size) {
        MallocLimitIff(table, book, checked, charged, size);
      }
    }
  }

  lemma {:induction false} TableAfterBalanced(table: seq<TagEntry>, book: seq<Charge>, tag: Option<string>, limit: nat)
    requires Balanced(table, book) && NamesStored(table)
    ensures Balanced(TableAfter(table, tag, limit), book) && NamesStored(TableAfter(table, tag, limit))
  {
    if TableAfter(table, tag, limit) != table {
      NewEntryBalanced(table, book, tag.value);
    }
  }

  /** While the live sizes add up to less than a word, the counters are the true sums. */
  lemma {:induction false} CountersExact(table: seq<TagEntry>, book: seq<Charge>, i: nat)
    requires Balanced(table, book) && i < |table| && TotalOf(book) < WORD
    ensures table[i].allocatedBytes == BytesOf(book, i)
  {
    PartOfTotal(book, i);
    assert EntryRight(table[i], book, i);
  }

  lemma {:induction false} PartOfTotal(book: seq<Charge>, i: nat)
    ensures BytesOf(book, i) <= TotalOf(book)
  {
    if book != [] {
      PartOfTotal(book[1..], i);
    }
  }

  // ----- The calls, on the table and the books alone

  /** What the system's realloc does. */
  datatype OsOutcome = Fails | InPlace | Moves

  /** The table of tags and the live allocations, newest first. */
  datatype Ledger = Ledger(table: seq<TagEntry>, book: seq<Charge>)

  ghost predicate Right(l: Ledger) {
    Balanced(l.table, l.book) && NamesStored(l.table)
  }

  /** The books without their k-th allocation. */
  function Without(book: seq<Charge>, k: nat): seq<Charge>
    requires k < |book|
  {
    book[..k] + book[k + 1..]
  }

  /** The entry of the k-th allocation as the limit check of a reallocation sees it. */
  ghost function Relieved(l: Ledger, k: nat): TagEntry
    requires Right(l) && k < |l.book|
  {
    var e := l.table[l.book[k].owner];
    e.(allocatedBytes := SubWord(e.allocatedBytes, l.book[k].size))
  }

  ghost function AfterMalloc(l: Ledger, size: Word, tag: Option<string>, osOk: bool, limit: nat): Ledger
    requires Right(l)
  {
    ChargedIsChecked(l.table, tag, limit);
    var t, charged := TableAfter(l.table, tag, limit), ChargedEntry(l.table, tag, limit);
    if osOk && Admitted(t[Route(l.table, tag, limit)], size) then
      Ledger(Charged(t, charged, size), [Charge(size, charged)] + l.book)
    else Ledger(t, l.book)
  }

  ghost function AfterRealloc(l: Ledger, k: nat, newSize: Word, outcome: OsOutcome): Ledger
    requires Right(l) && k < |l.book|
  {
    var c, e := l.book[k], Relieved(l, k);
    if !Admitted(e, newSize) then l
    else if outcome == Fails then Ledger(l.table, [c] + Without(l.book, k))
    else Ledger(l.table[c.owner := e.(allocatedBytes := AddWord(e.allocatedBytes, newSize))],
                [Charge(newSize, c.owner)] + Without(l.book, k))
  }

  ghost function AfterFree(l: Ledger, k: nat): Ledger
    requires Right(l) && k < |l.book|
  {
    DischargeBalanced(l.table, l.book, k);
    Ledger(Discharged(l.table, l.book[k].owner, l.book[k].size), Without(l.book, k))
  }

  ghost function AfterSetLimit(l: Ledger, limitBytes: Word, tag: Option<string>, limit: nat): Ledger
    requires Right(l)
  {
    ChargedIsChecked(l.table, tag, limit);
    var t, i := TableAfter(l.table, tag, limit), Route(l.table, tag, limit);
    Ledger(t[i := t[i].(allocationLimit := if limitBytes == 0 then WORD - 1 else limitBytes)], l.book)
  }

  /** The guard of an allocation, for the entries that its tag leads to. */
  ghost predicate GuardedCall(l: Ledger, size: Word, tag: Option<string>, limit: nat)
    requires Right(l)
  {
    ChargedIsChecked(l.table, tag, limit);
    Guarded(TableAfter(l.table, tag, limit), l.book, Route(l.table, tag, limit), ChargedEntry(l.table, tag, limit), size)
  }

  /** The guard of a reallocation. */
  ghost predicate GuardedResize(book: seq<Charge>, k: nat, newSize: Word)
    requires k < |book|
  {
    BytesOf(book, book[k].owner) - book[k].size + newSize < WORD || newSize <= book[k].size
  }

  lemma {:induction false} WithinItself(book: seq<Charge>, table: seq<TagEntry>)
    ensures WithinLimits(book, book, table)
  {
  }

  lemma {:induction false} MallocLimits(l: Ledger, size: Word, tag: Option<string>, osOk: bool, limit: nat)
    requires Right(l) && size > 0
    ensures var after := AfterMalloc(l, size, tag, osOk, limit);
            WithinLimits(l.book, after.book, after.table) <==> after.book == l.book || GuardedCall(l, size, tag, limit)
  {
    ChargedIsChecked(l.table, tag, limit);
    TableAfterBalanced(l.table, l.book, tag, limit);
    var t, checked, charged := TableAfter(l.table, tag, limit), Route(l.table, tag, limit), ChargedEntry(l.table, tag, limit);
    if osOk && Admitted(t[checked], size) {
      MallocLimitIff(t, l.book, checked, charged, size);
    }
  }

  /** An allocation is refused if the system has no memory, or if the bytes charged to the
      entry of its tag and the new ones together, as a word, are more than that entry's limit;
      in no other case. */
  lemma {:induction false} MallocAnswers(l: Ledger, size: Word, tag: Option<string>, osOk: bool, limit: nat)
    requires Right(l)
    ensures var i, t, after := Route(l.table, tag, limit), TableAfter(l.table, tag, limit), AfterMalloc(l, size, tag, osOk, limit);
            && i < |t| && (after.book == l.book <==> !osOk || (BytesOf(l.book, i) + size) % 0x1_0000_0000_0000_0000 > t[i].allocationLimit)
            && (BytesOf(l.book, i) + size < 0x1_0000_0000_0000_0000 ==>
                  (after.book == l.book <==> !osOk || BytesOf(l.book, i) + size > t[i].allocationLimit))
  {
    ChargedIsChecked(l.table, tag, limit);
    TableAfterBalanced(l.table, l.book, tag, limit);
    var i, t := Route(l.table, tag, limit), TableAfter(l.table, tag, limit);
    assert EntryRight(t[i], l.book, i);
    CheckDecides(t[i], BytesOf(l.book, i), size);
  }

  /** What the limit check decides, if the counter is right. */
  lemma {:induction false} CheckDecides(e: TagEntry, bytes: nat, size: Word)
    requires e.allocatedBytes == bytes % WORD
    ensures Admitted(e, size) <==> (bytes + size) % 0x1_0000_0000_0000_0000 <= e.allocationLimit
    ensures bytes + size < 0x1_0000_0000_0000_0000 ==> (Admitted(e, size) <==> bytes + size <= e.allocationLimit)
  {
  }

  /** A resize is refused by the limit if the bytes charged to the entry, less the old size and
      with the new one, as a word, are more than the limit; in no other case. */
  lemma {:induction false} ReallocAnswers(l: Ledger, k: nat, newSize: Word)
    requires Right(l) && k < |l.book|
    ensures var c := l.book[k];
            && BytesOf(l.book, c.owner) >= c.size
            && (Admitted(Relieved(l, k), newSize) <==>
                (BytesOf(l.book, c.owner) - c.size + newSize) % 0x1_0000_0000_0000_0000 <= l.table[c.owner].allocationLimit)
            && (BytesOf(l.book, c.owner) - c.size + newSize < 0x1_0000_0000_0000_0000 ==>
                 (Admitted(Relieved(l, k), newSize) <==>
                  BytesOf(l.book, c.owner) - c.size + newSize <= l.table[c.owner].allocationLimit))
  {
    var c := l.book[k];
    Removed(l.book, k, c.owner);
    assert EntryRight(l.table[c.owner], l.book, c.owner);
    CheckDecides(Relieved(l, k), BytesOf(l.book, c.owner) - c.size, newSize);
  }

  /** Setting a limit stores the given number of bytes, or the largest word for zero, in the
      entry that the tag leads to, and changes nothing else. */
  lemma {:induction false} SetLimitStores(l: Ledger, limitBytes: Word, tag: Option<string>, limit: nat)
    requires Right(l)
    ensures var i, t, after := Route(l.table, tag, limit), TableAfter(l.table, tag, limit), AfterSetLimit(l, limitBytes, tag, limit);
            && i < |t| && |after.table| == |t| && after.book == l.book
            && (limitBytes != 0 ==> after.table[i].allocationLimit == limitBytes)
            && (limitBytes == 0 ==> after.table[i].allocationLimit == 0xFFFF_FFFF_FFFF_FFFF)
            && after.table[i].name == t[i].name && after.table[i].allocatedBytes == t[i].allocatedBytes
            && after.table[i].activeCount == t[i].activeCount
            && forall j :: 0 <= j < |t| && j != i ==> after.table[j] == t[j]
  {
    ChargedIsChecked(l.table, tag, limit);
  }

  lemma {:induction false} ReallocLimits(l: Ledger, k: nat, newSize: Word, outcome: OsOutcome)
    requires Right(l) && k < |l.book|
    ensures var after := AfterRealloc(l, k, newSize, outcome);
            WithinLimits(l.book, after.book, after.table) <==>
            !Admitted(Relieved(l, k), newSize) || outcome == Fails || GuardedResize(l.book, k, newSize)
  {
    var c := l.book[k];
    if Admitted(Relieved(l, k), newSize) {
      if outcome == Fails {
        FrontSame(l.book, k);
      } else {
        ReallocLimitIff(l.table, l.book, k, newSize);
      }
    }
  }

  /** Moving an allocation to the front changes no sum. */
  lemma {:induction false} FrontSame(book: seq<Charge>, k: nat)
    requires k < |book|
    ensures forall i: nat :: BytesOf([book[k]] + Without(book, k), i) == BytesOf(book, i)
  {
    var front := [book[k]] + Without(book, k);
    assert front[1..] == Without(book, k);
    forall i: nat
      ensures BytesOf(front, i) == BytesOf(book, i)
    {
      Removed(book, k, i);
    }
  }

  // ----- Whole runs

  datatype Call =
    | CallMalloc(size: Word, tag: Option<string>, osOk: bool)
    | CallRealloc(k: nat, newSize: Word, outcome: OsOutcome)
    | CallFree(k: nat)
    | CallSetLimit(limitBytes: Word, tag: Option<string>)

  /** A call on the books; allocations are named by their place in the list, newest first. */
  ghost function AfterCall(l: Ledger, call: Call, limit: nat): (after: Ledger)
    requires Right(l)
    ensures Right(after)
  {
    CallKeepsRight(l, call, limit);
    CallResult(l, call, limit)
  }

  ghost function CallResult(l: Ledger, call: Call, limit: nat): Ledger
    requires Right(l)
  {
    match call
    case CallMalloc(size, tag, osOk) => if size == 0 then l else AfterMalloc(l, size, tag, osOk, limit)
    case CallRealloc(k, newSize, outcome) => if k < |l.book| && newSize > 0 then AfterRealloc(l, k, newSize, outcome) else l
    case CallFree(k) => if k < |l.book| then AfterFree(l, k) else l
    case CallSetLimit(limitBytes, tag) => AfterSetLimit(l, limitBytes, tag, limit)
  }

  ghost function AfterCalls(l: Ledger, calls: seq<Call>, limit: nat): Ledger
    requires Right(l)
    decreases |calls|
  {
    if calls == [] then l else AfterCalls(AfterCall(l, calls[0], limit), calls[1..], limit)
  }

  lemma {:induction false} AfterFirst(l: Ledger, calls: seq<Call>, n: nat, limit: nat)
    requires Right(l) && n < |calls|
    ensures AfterCalls(l, calls[..n + 1], limit) == AfterCalls(AfterCall(l, calls[0], limit), calls[1..][..n], limit)
  {
    assert calls[..n + 1][1..] == calls[1..][..n];
  }

  lemma {:induction false} CallKeepsRight(l: Ledger, call: Call, limit: nat)
    requires Right(l)
    ensures Right(CallResult(l, call, limit))
  {
    match call
    case CallMalloc(size, tag, _) =>
      ChargedIsChecked(l.table, tag, limit);
      TableAfterBalanced(l.table, l.book, tag, limit);
      ChargeBalanced(TableAfter(l.table, tag, limit), l.book, Charge(size, ChargedEntry(l.table, tag, limit)));
    case CallRealloc(k, newSize, outcome) =>
      if k < |l.book| {
        ReallocKeepsRight(l, k, newSize, outcome);
      }
    case CallFree(k) =>
      if k < |l.book| {
        DischargeBalanced(l.table, l.book, k);
      }
    case CallSetLimit(limitBytes, tag) =>
      ChargedIsChecked(l.table, tag, limit);
      TableAfterBalanced(l.table, l.book, tag, limit);
      LimitKeepsBalance(TableAfter(l.table, tag, limit), l.book, Route(l.table, tag, limit),
                        if limitBytes == 0 then WORD - 1 else limitBytes);
  }

  lemma {:induction false} ReallocKeepsRight(l: Ledger, k: nat, newSize: Word, outcome: OsOutcome)
    requires Right(l) && k < |l.book|
    ensures Right(AfterRealloc(l, k, newSize, outcome))
  {
    var c, rest := l.book[k], Without(l.book, k);
    DischargeBalanced(l.table, l.book, k);
    RechargeSame(l.table, c.owner, c.size);
    ChargeBalanced(Discharged(l.table, c.owner, c.size), rest, c);
    ChargeBalanced(Discharged(l.table, c.owner, c.size), rest, Charge(newSize, c.owner));
  }

  lemma {:induction false} LimitKeepsBalance(table: seq<TagEntry>, book: seq<Charge>, i: nat, limit: Word)
    requires Balanced(table, book) && NamesStored(table) && i < |table| && limit > 0
    ensures var t := table[i := table[i].(allocationLimit := limit)]; Balanced(t, book) && NamesStored(t)
  {
    var t := table[i := table[i].(allocationLimit := limit)];
    forall j | 0 <= j < |t|
      ensures EntryRight(t[j], book, j)
    {
      assert EntryRight(table[j], book, j);
    }
  }

  /** Names and limits are changed by no call but the one that sets a limit. */
  lemma {:induction false} LimitsUntouched(l: Ledger, call: Call, limit: nat)
    requires Right(l) && !call.CallSetLimit?
    ensures var t := if call.CallMalloc? && call.size > 0 then TableAfter(l.table, call.tag, limit) else l.table;
            var u := CallResult(l, call, limit).table;
            |u| == |t| && forall i :: 0 <= i < |t| ==> u[i].name == t[i].name && u[i].allocationLimit == t[i].allocationLimit
  {
    if call.CallMalloc? {
      ChargedIsChecked(l.table, call.tag, limit);
    }
  }

  /** No entry stands above its limit. */
  ghost predicate AllWithin(l: Ledger) {
    forall i :: 0 <= i < |l.table| ==> BytesOf(l.book, i) <= l.table[i].allocationLimit
  }

  /** What a careful caller checks before each call. */
  ghost predicate CarefulCall(l: Ledger, call: Call, limit: nat)
    requires Right(l)
  {
    match call
    case CallMalloc(size, tag, _) => GuardedCall(l, size, tag, limit)
    case CallRealloc(k, newSize, _) => k < |l.book| ==> GuardedResize(l.book, k, newSize)
    case CallFree(_) => true
    case CallSetLimit(limitBytes, tag) => limitBytes == 0 || BytesOf(l.book, Route(l.table, tag, limit)) <= limitBytes
  }

  ghost predicate Careful(l: Ledger, calls: seq<Call>, limit: nat)
    requires Right(l)
    decreases |calls|
  {
    calls == [] || (CarefulCall(l, calls[0], limit) && Careful(AfterCall(l, calls[0], limit), calls[1..], limit))
  }

  /** Over every run of careful calls no tag is ever above its limit. */
  lemma {:induction false} LimitsHold(l: Ledger, calls: seq<Call>, limit: nat)
    requires Right(l) && AllWithin(l) && Careful(l, calls, limit)
    ensures AllWithin(AfterCalls(l, calls, limit))
    decreases |calls|
  {
    if calls != [] {
      CarefulKeepsWithin(l, calls[0], limit);
      LimitsHold(AfterCall(l, calls[0], limit), calls[1..], limit);
    }
  }

  lemma {:induction false} CarefulKeepsWithin(l: Ledger, call: Call, limit: nat)
    requires Right(l) && AllWithin(l) && CarefulCall(l, call, limit)
    ensures AllWithin(AfterCall(l, call, limit))
  {
    match call
    case CallMalloc(size, tag, osOk) =>
      if size > 0 {
        MallocLimits(l, size, tag, osOk, limit);
        LimitsStay(l, tag, limit);
        WithinAfterMalloc(l, size, tag, osOk, limit);
      }
    case CallRealloc(k, newSize, outcome) =>
      if k < |l.book| && newSize > 0 {
        ReallocLimits(l, k, newSize, outcome);
        WithinStays(l, AfterRealloc(l, k, newSize, outcome));
      }
    case CallFree(k) =>
      if k < |l.book| {
        WithinAfterFree(l, k);
      }
    case CallSetLimit(_, tag) =>
      LimitsStay(l, tag, limit);
  }

  lemma {:induction false} WithinAfterMalloc(l: Ledger, size: Word, tag: Option<string>, osOk: bool, limit: nat)
    requires Right(l) && AllWithin(Ledger(TableAfter(l.table, tag, limit), l.book))
    requires var after := AfterMalloc(l, size, tag, osOk, limit); WithinLimits(l.book, after.book, after.table)
    ensures AllWithin(AfterMalloc(l, size, tag, osOk, limit))
  {
    WithinStays(Ledger(TableAfter(l.table, tag, limit), l.book), AfterMalloc(l, size, tag, osOk, limit));
  }

  lemma {:induction false} WithinStays(l: Ledger, after: Ledger)
    requires AllWithin(l) && |l.table| == |after.table|
    requires forall i :: 0 <= i < |l.table| ==> after.table[i].allocationLimit == l.table[i].allocationLimit
    requires WithinLimits(l.book, after.book, after.table)
    ensures AllWithin(after)
  {
  }

  lemma {:induction false} WithinAfterFree(l: Ledger, k: nat)
    requires Right(l) && AllWithin(l) && k < |l.book|
    ensures AllWithin(AfterFree(l, k))
  {
    forall i | 0 <= i < |l.table|
      ensures BytesOf(Without(l.book, k), i) <= BytesOf(l.book, i)
    {
      Removed(l.book, k, i);
    }
  }

  /** A new entry has no bytes and a limit. */
  lemma {:induction false} LimitsStay(l: Ledger, tag: Option<string>, limit: nat)
    requires Right(l) && AllWithin(l)
    ensures AllWithin(Ledger(TableAfter(l.table, tag, limit), l.book))
  {
    NobodysBytes(l.book, |l.table|);
  }

  // ----- The list

  const HEADER_MAGIC: nat := 0xCAFEBABE
  const FOOTER_MAGIC: nat := 0xDEADBEEF
  const FREED_MAGIC: nat := 0xAA00BB11

  /** The header in front of an allocated block, and the canary behind the block. */
  class Header {
    const tag: string
    var requestedSize: Word
    var next: Header?
    var prev: Header?
    var magic: nat
    var footer: nat

    constructor (requestedSize: Word, tag: string)
      ensures this.requestedSize == requestedSize && this.tag == tag && Intact()
    {
      this.requestedSize, this.tag := requestedSize, tag;
      magic, footer := HEADER_MAGIC, FOOTER_MAGIC;
      next, prev := null, null;
    }

    /** The integrity check: neither freed nor overwritten at either end. */
    predicate Intact()
      reads `magic, `footer
    {
      magic == HEADER_MAGIC && footer == FOOTER_MAGIC
    }
  }

  function At(nodes: seq<Header>, i: int): Header? {
    if 0 <= i < |nodes| then nodes[i] else null
  }

  /** The doubly linked list from `head` runs through these headers, each once. */
  ghost predicate IsList(head: Header?, nodes: seq<Header>)
    reads nodes`next, nodes`prev
  {
    && head == At(nodes, 0)
    && (forall i, j :: 0 <= i < j < |nodes| ==> nodes[i] != nodes[j])
    && (forall i {:trigger nodes[i].next} :: 0 <= i < |nodes| ==> nodes[i].next == At(nodes, i + 1))
    && (forall i {:trigger nodes[i].prev} :: 0 <= i < |nodes| ==> nodes[i].prev == At(nodes, i - 1))
  }

  /** The list without its k-th header, once the neighbours have been joined. */
  ghost predicate JoinedAround(head: Header?, nodes: seq<Header>, k: nat)
    reads nodes`next, nodes`prev
  {
    && k < |nodes|
    && (forall i, j :: 0 <= i < j < |nodes| ==> nodes[i] != nodes[j])
    && head == (if k == 0 then At(nodes, 1) else nodes[0])
    && (forall i {:trigger nodes[i].next} :: 0 <= i < |nodes| && i != k ==> nodes[i].next == At(nodes, if i == k - 1 then i + 2 else i + 1))
    && (forall i {:trigger nodes[i].prev} :: 0 <= i < |nodes| && i != k ==> nodes[i].prev == At(nodes, if i == k + 1 then i - 2 else i - 1))
  }

  lemma {:induction false} JoinedIsList(head: Header?, nodes: seq<Header>, k: nat)
    requires JoinedAround(head, nodes, k)
    ensures IsList(head, nodes[..k] + nodes[k + 1..])
  {
    JoinedLinks(head, nodes, k, nodes[..k] + nodes[k + 1..]);
  }

  lemma {:induction false} JoinedLinks(head: Header?, nodes: seq<Header>, k: nat, rest: seq<Header>)
    requires JoinedAround(head, nodes, k) && |rest| == |nodes| - 1
    requires forall i :: 0 <= i < |rest| ==> rest[i] == nodes[if i < k then i else i + 1]
    ensures IsList(head, rest)
  {
    forall i | 0 <= i < |rest|
      ensures rest[i].next == At(rest, i + 1) && rest[i].prev == At(rest, i - 1)
    {
      var j := if i < k then i else i + 1;
      assert nodes[j].next == At(nodes, if j == k - 1 then j + 2 else j + 1);
      assert nodes[j].prev == At(nodes, if j == k + 1 then j - 2 else j - 1);
    }
  }

  /** The books hold, for each header of the list, its size and its entry. */
  ghost predicate BooksMatch(nodes: seq<Header>, book: seq<Charge>, table: seq<TagEntry>)
    reads nodes`requestedSize
  {
    && |book| == |nodes|
    && forall i :: 0 <= i < |nodes| ==> book[i] == Charge(nodes[i].requestedSize, IndexOf(table, nodes[i].tag))
  }

  /** A new entry does not change where existing tags lead. */
  lemma {:induction false} BooksMatchLonger(nodes: seq<Header>, book: seq<Charge>, table: seq<TagEntry>, e: TagEntry)
    requires BooksMatch(nodes, book, table) && forall k :: 0 <= k < |book| ==> book[k].owner < |table|
    ensures BooksMatch(nodes, book, table + [e])
  {
    forall i | 0 <= i < |nodes|
      ensures book[i] == Charge(nodes[i].requestedSize, IndexOf(table + [e], nodes[i].tag))
    {
      IndexInLonger(table, e, nodes[i].tag);
    }
  }

  lemma {:induction false} BooksMatchAfter(nodes: seq<Header>, book: seq<Charge>, table: seq<TagEntry>, tag: Option<string>, limit: nat)
    requires BooksMatch(nodes, book, table) && forall k :: 0 <= k < |book| ==> book[k].owner < |table|
    ensures BooksMatch(nodes, book, TableAfter(table, tag, limit))
  {
    if TableAfter(table, tag, limit) != table {
      BooksMatchLonger(nodes, book, table, NewEntry(tag.value));
    }
  }

  ghost predicate SameNames(a: seq<TagEntry>, b: seq<TagEntry>) {
    |a| == |b| && forall i :: 0 <= i < |a| ==> a[i].name == b[i].name
  }

  lemma {:induction false} BooksMatchSameNames(nodes: seq<Header>, book: seq<Charge>, a: seq<TagEntry>, b: seq<TagEntry>)
    requires BooksMatch(nodes, book, a) && SameNames(a, b)
    ensures BooksMatch(nodes, book, b)
  {
    forall i | 0 <= i < |nodes|
      ensures IndexOf(a, nodes[i].tag) == IndexOf(b, nodes[i].tag)
    {
      SameNamesSameIndex(a, b, nodes[i].tag);
    }
  }

  /** A stored name leads to the first entry that has it. */
  lemma {:induction false} RouteOfStored(table: seq<TagEntry>, name: string, limit: nat)
    requires NamesStored(table) && IndexOf(table, name) < |table|
    ensures Route(table, Some(name), limit) == IndexOf(table, name) && TableAfter(table, Some(name), limit) == table
  {
    if name == UNKNOWN {
      assert table[0].name == name;
    }
  }

  /** Counters do not matter for where tags lead. */
  lemma {:induction false} SameNamesSameIndex(a: seq<TagEntry>, b: seq<TagEntry>, name: string)
    requires SameNames(a, b)
    ensures IndexOf(a, name) == IndexOf(b, name)
  {
    if a != [] && a[0].name != name {
      SameNamesSameIndex(a[1..], b[1..], name);
    }
  }

  lemma {:induction false} ChargeRight(table: seq<TagEntry>, book: seq<Charge>, rest: seq<Header>, h: Header)
    requires Balanced(table, book) && NamesStored(table) && BooksMatch(rest, book, table)
    requires IndexOf(table, h.tag) < |table|
    ensures var c := Charge(h.requestedSize, IndexOf(table, h.tag));
            var table' := Charged(table, c.owner, c.size);
            Balanced(table', [c] + book) && NamesStored(table') && BooksMatch([h] + rest, [c] + book, table')
  {
    var c := Charge(h.requestedSize, IndexOf(table, h.tag));
    ChargeBalanced(table, book, c);
    BooksMatchSameNames([h] + rest, [c] + book, table, Charged(table, c.owner, c.size));
  }

  lemma {:induction false} DischargeRight(table: seq<TagEntry>, book: seq<Charge>, before: seq<Header>, k: nat)
    requires Balanced(table, book) && NamesStored(table) && BooksMatch(before, book, table) && k < |book|
    ensures var c := book[k];
            && c.owner < |table| && table[c.owner].activeCount > 0
            && c == Charge(before[k].requestedSize, IndexOf(table, before[k].tag))
            && var table', rest := Discharged(table, c.owner, c.size), before[..k] + before[k + 1..];
               Balanced(table', book[..k] + book[k + 1..]) && NamesStored(table')
               && BooksMatch(rest, book[..k] + book[k + 1..], table') && IndexOf(table', before[k].tag) == c.owner
  {
    var c := book[k];
    DischargeBalanced(table, book, k);
    BooksMatchSameNames(before[..k] + before[k + 1..], book[..k] + book[k + 1..], table, Discharged(table, c.owner, c.size));
    SameNamesSameIndex(table, Discharged(table, c.owner, c.size), before[k].tag);
  }

  lemma {:induction false} RechargeSame(table: seq<TagEntry>, i: nat, size: Word)
    requires i < |table| && table[i].activeCount > 0
    ensures var t := Discharged(table, i, size);
            && Charged(t, i, size) == table
            && forall s: Word :: Charged(t, i, s)
                 == table[i := table[i].(allocatedBytes := AddWord(SubWord(table[i].allocatedBytes, size), s))]
  {
    var t := Discharged(table, i, size);
    assert Charged(t, i, size)[i] == table[i];
    forall s: Word
      ensures Charged(t, i, s) == table[i := table[i].(allocatedBytes := AddWord(SubWord(table[i].allocatedBytes, size), s))]
    {
      assert Charged(t, i, s)[i] == table[i].(allocatedBytes := AddWord(SubWord(table[i].allocatedBytes, size), s));
    }
  }

  lemma {:induction false} LimitKeepsBooks(table: seq<TagEntry>, book: seq<Charge>, nodes: seq<Header>, i: nat, limit: Word)
    requires Balanced(table, book) && NamesStored(table) && BooksMatch(nodes, book, table) && i < |table| && limit > 0
    ensures var t := table[i := table[i].(allocationLimit := limit)];
            Balanced(t, book) && NamesStored(t) && BooksMatch(nodes, book, t)
  {
    LimitKeepsBalance(table, book, i, limit);
    BooksMatchSameNames(nodes, book, table, table[i := table[i].(allocationLimit := limit)]);
  }

  lemma {:induction false} TotalOfPrefix(book: seq<Charge>, n: nat)
    requires n < |book|
    ensures TotalOf(book[..n + 1]) == TotalOf(book[..n]) + book[n].size
  {
    if n > 0 {
      TotalOfPrefix(book[1..], n - 1);
      assert book[..n + 1][1..] == book[1..][..n] && book[..n][1..] == book[1..][..n - 1];
    }
  }

  lemma {:induction false} NextTotal(book: seq<Charge>, n: nat, total: Word)
    requires n < |book| && total == TotalOf(book[..n]) % WORD
    ensures (total + book[n].size) % WORD == TotalOf(book[..n + 1]) % WORD
  {
    TotalOfPrefix(book, n);
  }

  ghost function Members(s: seq<Header>): set<Header> {
    set n | n in s
  }

  lemma {:induction false} MembersMoved(s: seq<Header>, k: nat, x: Header)
    requires k < |s|
    ensures Members([x] + (s[..k] + s[k + 1..])) <= Members(s) + {x}
  {
  }

  class MemoryTracker {
    var activeAllocations: Header?
    var registeredTagCount: nat
    var memoryTags: array<TagEntry>
    /** The headers of the list, newest first, and what they are charged to. */
    ghost var nodes: seq<Header>
    ghost var book: seq<Charge>

    ghost function Table(): seq<TagEntry>
      requires registeredTagCount <= memoryTags.Length
      reads `registeredTagCount, `memoryTags, memoryTags
    {
      memoryTags[..registeredTagCount]
    }

    ghost function Books(): Ledger
      requires registeredTagCount <= memoryTags.Length
      reads `registeredTagCount, `memoryTags, `book, memoryTags
    {
      Ledger(Table(), book)
    }

    ghost predicate TableRight()
      reads `registeredTagCount, `memoryTags, `book, memoryTags
    {
      && 0 < registeredTagCount <= memoryTags.Length
      && Balanced(Table(), book) && NamesStored(Table())
    }

    ghost predicate Valid()
      reads this, memoryTags, nodes`next, nodes`prev, nodes`requestedSize
    {
      && TableRight()
      && IsList(activeAllocations, nodes)
      && BooksMatch(nodes, book, Table())
    }

    constructor (tagLimit: nat)
      requires tagLimit > 0
      ensures Valid() && nodes == [] && book == [] && fresh(memoryTags) && memoryTags.Length == tagLimit
      ensures Table() == [TagEntry(UNKNOWN, 0, DEFAULT_LIMIT, 0)]
    {
      activeAllocations, registeredTagCount := null, 1;
      memoryTags := new TagEntry[tagLimit](_ => TagEntry("", 0, 0, 0));
      nodes, book := [], [];
      new;
      memoryTags[0] := TagEntry(UNKNOWN, 0, DEFAULT_LIMIT, 0);
      assert Table() == [TagEntry(UNKNOWN, 0, DEFAULT_LIMIT, 0)];
    }

    // ----- Tags

    method FindTag(name: string) returns (i: nat)
      requires registeredTagCount <= memoryTags.Length
      ensures i == IndexOf(Table(), name)
    {
      i := 0;
      assert Table()[0..] == Table();
      while i < registeredTagCount
        invariant i <= registeredTagCount
        invariant IndexOf(Table(), name) == i + IndexOf(Table()[i..], name)
      {
        if memoryTags[i].name == name {
          return;
        }
        assert Table()[i..][1..] == Table()[i + 1..];
        i := i + 1;
      }
    }

    method Register(tag: string)
      requires TableRight() && tag != "" && registeredTagCount < memoryTags.Length
      modifies `registeredTagCount, memoryTags
      ensures TableRight() && Table() == old(Table()) + [NewEntry(tag)]
    {
      NewEntryBalanced(Table(), book, tag);
      AppendEntry(TagEntry(if |tag| < NAME_SIZE then tag else tag[..NAME_SIZE - 1], 0, DEFAULT_LIMIT, 0));
    }

    method AppendEntry(e: TagEntry)
      requires registeredTagCount < memoryTags.Length
      modifies `registeredTagCount, memoryTags
      ensures registeredTagCount <= memoryTags.Length && Table() == old(Table()) + [e]
    {
      ghost var was := Table();
      memoryTags[registeredTagCount] := e;
      registeredTagCount := registeredTagCount + 1;
      assert Table() == was + [e];
    }

    method GetOrCreateTag(tag: Option<string>) returns (i: nat)
      requires TableRight()
      modifies `registeredTagCount, memoryTags
      ensures TableRight() && Table() == TableAfter(old(Table()), tag, memoryTags.Length)
      ensures i == Route(old(Table()), tag, memoryTags.Length) < registeredTagCount
    {
      if tag == None || tag.value == "" || tag.value == "UNKNOWN" {
        return 0;
      }
      i := FindTag(tag.value);
      if i < registeredTagCount {
        return;
      }
      if registeredTagCount < memoryTags.Length {
        Register(tag.value);
        return;
      }
      return 0;
    }

    /** The same, between calls of the interface. */
    method TagOf(tag: Option<string>) returns (i: nat)
      requires Valid()
      modifies `registeredTagCount, memoryTags
      ensures Valid() && Table() == TableAfter(old(Table()), tag, memoryTags.Length)
      ensures i == Route(old(Table()), tag, memoryTags.Length) < registeredTagCount
    {
      BooksMatchAfter(nodes, book, Table(), tag, memoryTags.Length);
      i := GetOrCreateTag(tag);
    }

    // ----- Linking and unlinking

    method PushFront(h: Header)
      requires IsList(activeAllocations, nodes) && h !in nodes
      modifies `activeAllocations, `nodes, h`next, h`prev, nodes`prev
      ensures IsList(activeAllocations, nodes) && nodes == [h] + old(nodes)
    {
      h.next := activeAllocations;
      h.prev := null;
      if activeAllocations != null {
        activeAllocations.prev := h;
      }
      activeAllocations := h;
      nodes := [h] + nodes;
    }

    method Unhook(h: Header, ghost k: nat)
      requires IsList(activeAllocations, nodes) && k < |nodes| && nodes[k] == h
      modifies `activeAllocations, `nodes, nodes`next, nodes`prev
      ensures IsList(activeAllocations, nodes) && nodes == old(nodes)[..k] + old(nodes)[k + 1..]
    {
      if h.prev != null {
        h.prev.next := h.next;
      } else {
        activeAllocations := h.next;
      }
      if h.next != null {
        h.next.prev := h.prev;
      }
      JoinedIsList(activeAllocations, nodes, k);
      nodes := nodes[..k] + nodes[k + 1..];
    }

    /** Getting the tag of a header never creates an entry. */
    method ExistingTag(name: string) returns (i: nat)
      requires TableRight() && IndexOf(Table(), name) < registeredTagCount
      modifies `registeredTagCount, memoryTags
      ensures TableRight() && Table() == old(Table()) && i == IndexOf(Table(), name)
    {
      RouteOfStored(Table(), name, memoryTags.Length);
      i := GetOrCreateTag(Some(name));
    }

    method AddTo(i: nat, size: Word, ghost newBook: seq<Charge>)
      requires i < registeredTagCount <= memoryTags.Length
      requires Balanced(Charged(Table(), i, size), newBook) && NamesStored(Charged(Table(), i, size))
      modifies `book, memoryTags
      ensures TableRight() && Table() == Charged(old(Table()), i, size) && book == newBook
    {
      ghost var was := Table();
      var e := memoryTags[i];
      memoryTags[i] := e.(allocatedBytes := (e.allocatedBytes + size) % WORD, activeCount := e.activeCount + 1);
      assert Table() == Charged(was, i, size);
      book := newBook;
    }

    method TakeFrom(i: nat, size: Word, ghost newBook: seq<Charge>)
      requires i < registeredTagCount <= memoryTags.Length && Table()[i].activeCount > 0
      requires Balanced(Discharged(Table(), i, size), newBook) && NamesStored(Discharged(Table(), i, size))
      modifies `book, memoryTags
      ensures TableRight() && Table() == Discharged(old(Table()), i, size) && book == newBook
    {
      ghost var was := Table();
      var e := memoryTags[i];
      memoryTags[i] := e.(allocatedBytes := (e.allocatedBytes - size) % WORD, activeCount := e.activeCount - 1);
      assert Table() == Discharged(was, i, size);
      book := newBook;
    }

    /** The second half of linking: the tag's counters go up. */
    method ChargeTag(h: Header, ghost rest: seq<Header>)
      requires TableRight() && BooksMatch(rest, book, Table()) && IndexOf(Table(), h.tag) < registeredTagCount
      modifies `book, `registeredTagCount, memoryTags
      ensures TableRight() && BooksMatch([h] + rest, book, Table())
      ensures book == [Charge(h.requestedSize, IndexOf(old(Table()), h.tag))] + old(book)
      ensures Table() == Charged(old(Table()), IndexOf(old(Table()), h.tag), h.requestedSize)
    {
      ghost var c := Charge(h.requestedSize, IndexOf(Table(), h.tag));
      ChargeRight(Table(), book, rest, h);
      var i := ExistingTag(h.tag);
      AddTo(i, h.requestedSize, [c] + book);
    }

    method LinkAllocation(h: Header)
      requires Valid() && h !in nodes && IndexOf(Table(), h.tag) < registeredTagCount
      modifies `activeAllocations, `nodes, `book, `registeredTagCount, memoryTags, h`next, h`prev, nodes`prev
      ensures Valid() && nodes == [h] + old(nodes)
      ensures book == [Charge(h.requestedSize, IndexOf(old(Table()), h.tag))] + old(book)
      ensures Table() == Charged(old(Table()), IndexOf(old(Table()), h.tag), h.requestedSize)
    {
      ghost var rest := nodes;
      PushFront(h);
      ChargeTag(h, rest);
    }

    /** The second half of unlinking: the tag's counters go down. */
    method DischargeTag(h: Header, ghost before: seq<Header>, ghost k: nat)
      requires TableRight() && BooksMatch(before, book, Table()) && k < |before| && before[k] == h
      modifies `book, `registeredTagCount, memoryTags
      ensures TableRight() && BooksMatch(before[..k] + before[k + 1..], book, Table())
      ensures k < |old(book)| && book == old(book)[..k] + old(book)[k + 1..]
      ensures var c := old(book)[k]; old(Table())[c.owner].activeCount > 0 && Table() == Discharged(old(Table()), c.owner, c.size)
      ensures IndexOf(Table(), h.tag) == old(book)[k].owner < registeredTagCount
    {
      ghost var table, c, rest := Table(), book[k], book[..k] + book[k + 1..];
      DischargeRight(table, book, before, k);
      var i := ExistingTag(h.tag);
      assert Table() == table && i == c.owner && h.requestedSize == c.size;
      TakeFrom(i, h.requestedSize, rest);
    }

    method UnlinkAllocation(h: Header, ghost k: nat)
      requires Valid() && k < |nodes| && nodes[k] == h
      modifies `activeAllocations, `nodes, `book, `registeredTagCount, memoryTags, nodes`next, nodes`prev
      ensures Valid() && nodes == old(nodes)[..k] + old(nodes)[k + 1..]
      ensures k < |old(book)| && book == old(book)[..k] + old(book)[k + 1..]
      ensures var c := old(book)[k]; old(Table())[c.owner].activeCount > 0 && Table() == Discharged(old(Table()), c.owner, c.size)
      ensures IndexOf(Table(), h.tag) == old(book)[k].owner < registeredTagCount
    {
      ghost var before := nodes;
      Unhook(h, k);
      DischargeTag(h, before, k);
    }

    // ----- The interface

    /** The allocation is refused if the limit of the tag's entry would be exceeded, or if
        the system has no memory; otherwise it is put in front of the list. */
    method Malloc(size: Word, tag: Option<string>, osOk: bool) returns (h: Header?)
      requires Valid() && size > 0
      modifies `activeAllocations, `nodes, `book, `registeredTagCount, memoryTags, nodes`prev
      ensures Valid() && Books() == AfterMalloc(old(Books()), size, tag, osOk, memoryTags.Length)
      ensures nodes == if h == null then old(nodes) else [h] + old(nodes)
      ensures h == null <==> book == old(book)
      ensures h != null ==> fresh(h) && h.Intact() && h.requestedSize == size
      ensures old(Route(Table(), tag, memoryTags.Length) < |TableAfter(Table(), tag, memoryTags.Length)|)
      ensures h == null <==> !osOk || old(
                var i, t := Route(Table(), tag, memoryTags.Length), TableAfter(Table(), tag, memoryTags.Length);
                (BytesOf(book, i) + size) % 0x1_0000_0000_0000_0000 > t[i].allocationLimit)
      ensures WithinLimits(old(book), book, Table()) <==>
              h == null || old(GuardedCall(Books(), size, tag, memoryTags.Length))
    {
      MallocAnswers(Books(), size, tag, osOk, memoryTags.Length);
      h := MallocWithin(size, tag, osOk);
    }

    method MallocWithin(size: Word, tag: Option<string>, osOk: bool) returns (h: Header?)
      requires Valid() && size > 0
      modifies `activeAllocations, `nodes, `book, `registeredTagCount, memoryTags, nodes`prev
      ensures Valid() && Books() == AfterMalloc(old(Books()), size, tag, osOk, memoryTags.Length)
      ensures nodes == if h == null then old(nodes) else [h] + old(nodes)
      ensures h == null <==> book == old(book)
      ensures h != null ==> fresh(h) && h.Intact() && h.requestedSize == size
      ensures WithinLimits(old(book), book, Table()) <==>
              h == null || old(GuardedCall(Books(), size, tag, memoryTags.Length))
    {
      MallocLimits(Books(), size, tag, osOk, memoryTags.Length);
      h := MallocTagged(size, tag, osOk);
    }

    method MallocTagged(size: Word, tag: Option<string>, osOk: bool) returns (h: Header?)
      requires Valid() && size > 0
      modifies `activeAllocations, `nodes, `book, `registeredTagCount, memoryTags, nodes`prev
      ensures Valid() && Books() == AfterMalloc(old(Books()), size, tag, osOk, memoryTags.Length)
      ensures nodes == if h == null then old(nodes) else [h] + old(nodes)
      ensures h == null <==> book == old(book)
      ensures h != null ==> fresh(h) && h.Intact() && h.requestedSize == size
    {
      ChargedIsChecked(Table(), tag, memoryTags.Length);
      ghost var t, charged := TableAfter(Table(), tag, memoryTags.Length), ChargedEntry(Table(), tag, memoryTags.Length);
      var i := TagOf(tag);
      assert Table() == t && memoryTags[i] == t[i];
      assert IndexOf(t, t[i].name) == charged;
      h := MallocAs(memoryTags[i], size, osOk);
    }

    /** The check against entry `e`, and the allocation under its name. */
    method MallocAs(e: TagEntry, size: Word, osOk: bool) returns (h: Header?)
      requires Valid() && e.allocationLimit > 0 && IndexOf(Table(), e.name) < registeredTagCount
      modifies `activeAllocations, `nodes, `book, `registeredTagCount, memoryTags, nodes`prev
      ensures Valid() && (h == null <==> !osOk || !Admitted(e, size))
      ensures h == null ==> Books() == old(Books()) && nodes == old(nodes)
      ensures h != null ==> fresh(h) && h.Intact() && h.requestedSize == size
      ensures h != null ==> Linked(h, size, old(IndexOf(Table(), e.name)), old(Table()), old(nodes), old(book))
    {
      if e.allocationLimit > 0 && (e.allocatedBytes + size) % WORD > e.allocationLimit {
        return null;
      }
      if !osOk {
        return null;
      }
      h := NewAllocation(size, e.name);
    }

    method NewAllocation(size: Word, name: string) returns (h: Header)
      requires Valid() && IndexOf(Table(), name) < registeredTagCount
      modifies `activeAllocations, `nodes, `book, `registeredTagCount, memoryTags, nodes`prev
      ensures Valid() && fresh(h) && h.Intact() && h.requestedSize == size && h.tag == name && nodes == [h] + old(nodes)
      ensures book == [Charge(size, IndexOf(old(Table()), name))] + old(book)
      ensures Table() == Charged(old(Table()), IndexOf(old(Table()), name), size)
    {
      h := new Header(size, name);
      LinkAllocation(h);
    }

    /** The system's answer decides what is linked again: the old header when it has no
        memory, otherwise the one at the new place, which may be the old one. */
    method Relink(h: Header, newSize: Word, outcome: OsOutcome) returns (r: Header?)
      requires Valid() && h !in nodes && IndexOf(Table(), h.tag) < registeredTagCount && h.Intact()
      modifies `activeAllocations, `nodes, `book, `registeredTagCount, memoryTags, nodes`prev
      modifies h`next, h`prev, h`requestedSize, h`footer
      ensures Valid() && h.Intact()
      ensures outcome == Fails ==> r == null && h.requestedSize == old(h.requestedSize)
      ensures outcome == Fails ==> Linked(h, old(h.requestedSize), old(IndexOf(Table(), h.tag)), old(Table()), old(nodes), old(book))
      ensures outcome != Fails ==> r != null && r.Intact() && r.requestedSize == newSize && r.tag == h.tag
      ensures outcome != Fails ==> Linked(r, newSize, old(IndexOf(Table(), h.tag)), old(Table()), old(nodes), old(book))
      ensures outcome == InPlace ==> r == h
      ensures outcome == Moves ==> fresh(r)
    {
      match outcome {
        case Fails =>
          LinkAllocation(h);
          r := null;
        case InPlace =>
          LinkResized(h, newSize);
          r := h;
        case Moves =>
          r := NewAllocation(newSize, h.tag);
      }
    }

    method LinkResized(h: Header, newSize: Word)
      requires Valid() && h !in nodes && IndexOf(Table(), h.tag) < registeredTagCount && h.Intact()
      modifies `activeAllocations, `nodes, `book, `registeredTagCount, memoryTags, nodes`prev
      modifies h`next, h`prev, h`requestedSize, h`footer
      ensures Valid() && h.Intact() && h.requestedSize == newSize
      ensures Linked(h, newSize, old(IndexOf(Table(), h.tag)), old(Table()), old(nodes), old(book))
    {
      h.requestedSize, h.footer := newSize, FOOTER_MAGIC;
      LinkAllocation(h);
    }

    ghost predicate Linked(h: Header, size: Word, owner: nat, wasTable: seq<TagEntry>, wasNodes: seq<Header>, wasBook: seq<Charge>)
      requires registeredTagCount <= memoryTags.Length
      reads this, memoryTags
    {
      && nodes == [h] + wasNodes && book == [Charge(size, owner)] + wasBook
      && owner < |wasTable| && Table() == Charged(wasTable, owner, size)
    }

    /** A new size for a live allocation. A damaged block aborts the program. The limit is
        checked without the old size; a refusal changes nothing, a failure of the system only
        the order of the list. */
    method Realloc(h: Header, newSize: Word, outcome: OsOutcome, ghost k: nat) returns (r: Header?, aborted: bool)
      requires Valid() && newSize > 0 && (h.Intact() ==> k < |nodes| && nodes[k] == h)
      modifies `activeAllocations, `nodes, `book, `registeredTagCount, memoryTags, nodes`next, nodes`prev
      modifies h`requestedSize, h`footer
      ensures Valid() && (aborted <==> !old(h.Intact())) && (h.Intact() <==> old(h.Intact()))
      ensures aborted ==> r == null && Books() == old(Books()) && nodes == old(nodes)
      ensures !aborted ==> k < |old(book)| && Books() == AfterRealloc(old(Books()), k, newSize, outcome)
      ensures !aborted ==> nodes == if old(!Admitted(Relieved(Books(), k), newSize)) then old(nodes)
                                    else [if r == null then h else r] + (old(nodes)[..k] + old(nodes)[k + 1..])
      ensures !aborted ==> (r == null <==> old(!Admitted(Relieved(Books(), k), newSize)) || outcome == Fails)
      ensures r != null ==> r.Intact() && r.requestedSize == newSize && (outcome == InPlace ==> r == h) && (outcome == Moves ==> fresh(r))
      ensures !aborted ==>
                var c, bytes := old(book)[k], old(BytesOf(book, book[k].owner));
                && c.owner < |old(Table())| && c.size == old(h.requestedSize)
                && (r == null <==> (outcome == Fails ||
                    (bytes - c.size + newSize) % 0x1_0000_0000_0000_0000 > old(Table())[c.owner].allocationLimit))
      ensures !aborted ==> (WithinLimits(old(book), book, Table()) <==>
                            r == null || old(GuardedResize(book, k, newSize)))
    {
      ghost var before := Books();
      WithinItself(book, Table());
      if h.Intact() {
        ReallocLimits(before, k, newSize, outcome);
        ReallocAnswers(before, k, newSize);
      }
      r, aborted := ReallocTagged(h, newSize, outcome, k);
    }

    method ReallocTagged(h: Header, newSize: Word, outcome: OsOutcome, ghost k: nat) returns (r: Header?, aborted: bool)
      requires Valid() && newSize > 0 && (h.Intact() ==> k < |nodes| && nodes[k] == h)
      modifies `activeAllocations, `nodes, `book, `registeredTagCount, memoryTags, nodes`next, nodes`prev
      modifies h`requestedSize, h`footer
      ensures Valid() && (aborted <==> !old(h.Intact())) && (h.Intact() <==> old(h.Intact()))
      ensures aborted ==> r == null && Books() == old(Books()) && nodes == old(nodes)
      ensures !aborted ==> k < |old(book)| && Books() == AfterRealloc(old(Books()), k, newSize, outcome)
      ensures !aborted ==> nodes == if old(!Admitted(Relieved(Books(), k), newSize)) then old(nodes)
                                    else [if r == null then h else r] + (old(nodes)[..k] + old(nodes)[k + 1..])
      ensures !aborted ==> (r == null <==> old(!Admitted(Relieved(Books(), k), newSize)) || outcome == Fails)
      ensures r != null ==> r.Intact() && r.requestedSize == newSize && (outcome == InPlace ==> r == h) && (outcome == Moves ==> fresh(r))
    {
      if h.magic != HEADER_MAGIC || h.footer != FOOTER_MAGIC {
        return null, true;
      }
      aborted := false;
      var refused := ExceedsLimit(h, newSize, k);
      if refused {
        return null, false;
      }
      r := Resize(h, newSize, outcome, k);
    }

    /** Would the new size take the tag's entry above its limit? */
    method ExceedsLimit(h: Header, newSize: Word, ghost k: nat) returns (exceeds: bool)
      requires Valid() && k < |nodes| && nodes[k] == h
      modifies `registeredTagCount, memoryTags
      ensures Valid() && Books() == old(Books()) && k < |book|
      ensures exceeds <==> !Admitted(Relieved(Books(), k), newSize)
    {
      var i := ExistingTag(h.tag);
      var e := memoryTags[i];
      exceeds := false;
      if e.allocationLimit > 0 {
        var projected := ((e.allocatedBytes - h.requestedSize) % WORD + newSize) % WORD;
        exceeds := projected > e.allocationLimit;
      }
    }

    /** The reallocation itself, once the limit allows it. */
    method Resize(h: Header, newSize: Word, outcome: OsOutcome, ghost k: nat) returns (r: Header?)
      requires Valid() && k < |nodes| && nodes[k] == h && h.Intact() && Admitted(Relieved(Books(), k), newSize)
      modifies `activeAllocations, `nodes, `book, `registeredTagCount, memoryTags, nodes`next, nodes`prev
      modifies h`requestedSize, h`footer
      ensures Valid() && Books() == AfterRealloc(old(Books()), k, newSize, outcome) && h.Intact()
      ensures nodes == [if r == null then h else r] + (old(nodes)[..k] + old(nodes)[k + 1..])
      ensures r == null <==> outcome == Fails
      ensures r != null ==> r.Intact() && r.requestedSize == newSize && (outcome == InPlace ==> r == h) && (outcome == Moves ==> fresh(r))
    {
      ghost var table, c := Table(), book[k];
      UnlinkAllocation(h, k);
      r := Relink(h, newSize, outcome);
      RechargeSame(table, c.owner, c.size);
    }

    /** NULL is ignored and a damaged or freed block aborts the program; otherwise the
        allocation is taken off the list and the books, and marked as freed. */
    method Free(h: Header?, ghost k: nat) returns (aborted: bool)
      requires Valid() && (h != null && h.Intact() ==> k < |nodes| && nodes[k] == h)
      modifies `activeAllocations, `nodes, `book, `registeredTagCount, memoryTags, nodes`next, nodes`prev
      modifies (if h == null then {} else {h})`magic, (if h == null then {} else {h})`footer
      ensures Valid() && (aborted <==> h != null && !old(h.Intact()))
      ensures h == null || aborted ==> Books() == old(Books()) && nodes == old(nodes)
      ensures h != null ==> !h.Intact()
      ensures h != null && !aborted ==> k < |old(book)| && Books() == AfterFree(old(Books()), k)
      ensures h != null && !aborted ==> nodes == old(nodes)[..k] + old(nodes)[k + 1..]
    {
      if h == null {
        return false;
      }
      if h.magic != HEADER_MAGIC || h.footer != FOOTER_MAGIC {
        return true;
      }
      Release(h, k);
      return false;
    }

    method Release(h: Header, ghost k: nat)
      requires Valid() && k < |nodes| && nodes[k] == h
      modifies `activeAllocations, `nodes, `book, `registeredTagCount, memoryTags, nodes`next, nodes`prev, h`magic, h`footer
      ensures Valid() && k < |old(book)| && Books() == AfterFree(old(Books()), k) && !h.Intact()
      ensures nodes == old(nodes)[..k] + old(nodes)[k + 1..]
    {
      ghost var before := Books();
      h.magic, h.footer := FREED_MAGIC, FREED_MAGIC;
      UnlinkAllocation(h, k);
      assert Books() == AfterFree(before, k);
    }

    /** Every live block is checked, up to the first damaged one, which aborts. */
    method CheckBounds() returns (clean: bool, aborted: bool)
      requires Valid()
      ensures aborted <==> exists i :: 0 <= i < |nodes| && !nodes[i].Intact()
      ensures clean
    {
      clean, aborted := true, false;
      var curr := activeAllocations;
      ghost var count := 0;
      while curr != null
        invariant 0 <= count <= |nodes| && curr == At(nodes, count)
        invariant forall i :: 0 <= i < count ==> nodes[i].Intact()
        decreases |nodes| - count
      {
        assert curr == nodes[count];
        if !curr.Intact() {
          aborted := true;
          return;
        }
        count := count + 1;
        curr := curr.next;
      }
    }

    /** Zero stands for no limit. */
    method SetLimit(limitBytes: Word, tag: Option<string>)
      requires Valid()
      modifies `registeredTagCount, memoryTags
      ensures Valid()
      ensures Books() == AfterSetLimit(old(Books()), limitBytes, tag, memoryTags.Length)
      ensures var i := old(Route(Table(), tag, memoryTags.Length));
              i < registeredTagCount && Table()[i].allocationLimit == if limitBytes == 0 then 0xFFFF_FFFF_FFFF_FFFF else limitBytes
    {
      SetLimitStores(Books(), limitBytes, tag, memoryTags.Length);
      SetLimitTagged(limitBytes, tag);
    }

    method SetLimitTagged(limitBytes: Word, tag: Option<string>)
      requires Valid()
      modifies `registeredTagCount, memoryTags
      ensures Valid()
      ensures Books() == AfterSetLimit(old(Books()), limitBytes, tag, memoryTags.Length)
    {
      var i := TagOf(tag);
      ghost var table := Table();
      memoryTags[i] := memoryTags[i].(allocationLimit := if limitBytes == 0 then WORD - 1 else limitBytes);
      assert Table() == table[i := table[i].(allocationLimit := if limitBytes == 0 then WORD - 1 else limitBytes)];
      LimitKeepsBooks(table, book, nodes, i, if limitBytes == 0 then WORD - 1 else limitBytes);
    }

    /** The bytes of one tag, or of all. */
    method GetActiveBytes(tag: Option<string>) returns (bytes: Word)
      requires Valid()
      modifies `registeredTagCount, memoryTags
      ensures Valid()
      ensures tag == None ==> bytes == TotalOf(book) % WORD && Table() == old(Table())
      ensures tag.Some? ==> bytes == BytesOf(book, Route(old(Table()), tag, memoryTags.Length)) % WORD
    {
      if tag == None {
        bytes := TotalBytes();
        return;
      }
      var i := TagOf(tag);
      assert EntryRight(Table()[i], book, i);
      bytes := memoryTags[i].allocatedBytes;
    }

    method TotalBytes() returns (total: Word)
      requires Valid()
      ensures total == TotalOf(book) % WORD
    {
      total := 0;
      for i := 0 to registeredTagCount
        invariant total == SumOfBytes(book, i) % WORD
      {
        assert EntryRight(Table()[i], book, i);
        total := (total + memoryTags[i].allocatedBytes) % WORD;
      }
      SumIsTotal(book, registeredTagCount);
    }

    /** The walk of the leak report sees every live allocation once, so what it adds up is
        what the counters say; there is nothing to report just when nothing is live. */
    method ReportLeaks() returns (count: nat, totalLeaked: Word)
      requires Valid()
      ensures count == |book| && totalLeaked == TotalOf(book) % WORD
      ensures activeAllocations == null <==> book == []
    {
      count, totalLeaked := 0, 0;
      var curr := activeAllocations;
      assert book[..0] == [];
      while curr != null
        invariant count <= |nodes| && curr == At(nodes, count)
        invariant totalLeaked == TotalOf(book[..count]) % WORD
        decreases |nodes| - count
      {
        NextTotal(book, count, totalLeaked);
        totalLeaked := (totalLeaked + curr.requestedSize) % WORD;
        count := count + 1;
        curr := curr.next;
      }
      assert book[..count] == book;
    }

    // ----- Whole runs

    ghost function Headers(): set<Header>
      reads `nodes
    {
      Members(nodes)
    }

    /** The k-th allocation of the list, if there are so many. */
    method Nth(k: nat) returns (h: Header?)
      requires Valid()
      ensures h == At(nodes, k)
    {
      h := activeAllocations;
      var i := 0;
      while h != null && i < k
        invariant i <= k && i <= |nodes| && h == At(nodes, i)
        decreases k - i
      {
        h, i := h.next, i + 1;
      }
    }

    /** One call. It aborts only on a damaged block, and then has changed nothing. */
    method Perform(call: Call) returns (aborted: bool)
      requires Valid()
      modifies `activeAllocations, `nodes, `book, `registeredTagCount, memoryTags, Headers()
      ensures Valid()
      ensures Books() == if aborted then old(Books()) else CallResult(old(Books()), call, memoryTags.Length)
      ensures aborted ==> exists n :: n in nodes && !n.Intact()
      ensures fresh(Headers() - old(Headers()))
    {
      aborted := false;
      match call {
        case CallMalloc(size, tag, osOk) =>
          if size > 0 {
            MallocCall(size, tag, osOk);
          }
        case CallRealloc(k, newSize, outcome) =>
          var h := Nth(k);
          if h != null && newSize > 0 {
            aborted := ReallocCall(h, newSize, outcome, k);
          }
        case CallFree(k) =>
          var h := Nth(k);
          if h != null {
            aborted := FreeCall(h, k);
          }
        case CallSetLimit(limitBytes, tag) =>
          SetLimitTagged(limitBytes, tag);
      }
    }

    method MallocCall(size: Word, tag: Option<string>, osOk: bool)
      requires Valid() && size > 0
      modifies `activeAllocations, `nodes, `book, `registeredTagCount, memoryTags, Headers()
      ensures Valid() && Books() == AfterMalloc(old(Books()), size, tag, osOk, memoryTags.Length)
      ensures fresh(Headers() - old(Headers()))
    {
      var h := MallocTagged(size, tag, osOk);
    }

    method ReallocCall(h: Header, newSize: Word, outcome: OsOutcome, ghost k: nat) returns (aborted: bool)
      requires Valid() && newSize > 0 && k < |nodes| && nodes[k] == h
      modifies `activeAllocations, `nodes, `book, `registeredTagCount, memoryTags, Headers()
      ensures Valid() && k < |old(book)|
      ensures Books() == if aborted then old(Books()) else AfterRealloc(old(Books()), k, newSize, outcome)
      ensures aborted ==> h in nodes && !h.Intact()
      ensures fresh(Headers() - old(Headers()))
    {
      ghost var was := nodes;
      var r;
      r, aborted := ReallocTagged(h, newSize, outcome, k);
      MembersMoved(was, k, if r == null then h else r);
    }

    method FreeCall(h: Header, ghost k: nat) returns (aborted: bool)
      requires Valid() && k < |nodes| && nodes[k] == h
      modifies `activeAllocations, `nodes, `book, `registeredTagCount, memoryTags, Headers()
      ensures Valid() && k < |old(book)|
      ensures Books() == if aborted then old(Books()) else AfterFree(old(Books()), k)
      ensures aborted ==> h in nodes && !h.Intact()
      ensures Headers() <= old(Headers())
    {
      aborted := Free(h, k);
    }

    /** Over every run, up to an abort on a damaged block, the list and the table are those
        of the books. */
    method Replay(calls: seq<Call>) returns (done: nat)
      requires Valid()
      modifies `activeAllocations, `nodes, `book, `registeredTagCount, memoryTags, Headers()
      ensures Valid() && done <= |calls|
      ensures Books() == AfterCalls(old(Books()), calls[..done], memoryTags.Length)
      ensures done < |calls| ==> exists n :: n in nodes && !n.Intact()
      decreases |calls|
    {
      if calls == [] {
        return 0;
      }
      ghost var before := Books();
      var aborted := Perform(calls[0]);
      if aborted {
        return 0;
      }
      done := Replay(calls[1..]);
      AfterFirst(before, calls, done, memoryTags.Length);
      done := done + 1;
    }
  }

  /** A tag of 32 characters or more escapes its limit: the second allocation is checked
      against a new entry and charged to the first. */
  method LongTagOvershoots(tag: string) returns (t: MemoryTracker)
    requires |tag| >= NAME_SIZE
    ensures t.Valid() && |t.Table()| > 1 && t.Table()[1].name == Stored(tag)
    ensures BytesOf(t.book, 1) == 2000 > t.Table()[1].allocationLimit == DEFAULT_LIMIT
  {
    t := new MemoryTracker(64);
    LongTagFirst(t.Table(), tag);
    var h := t.Malloc(1000, Some(tag), true);
    LongTagSecond(t.Table(), tag);
    assert t.book[1..] == [] && BytesOf(t.book, 1) == 1000;
    h := t.Malloc(1000, Some(tag), true);
  }

  /** A size that wraps the sum escapes any limit: with 1000 bytes live, a request for all
      but one of the 2^64 bytes is admitted and charged, and the counter falls to 999. */
  method WrappedSizeOvershoots(tag: string) returns (t: MemoryTracker, h: Header?)
    requires 0 < |tag| < NAME_SIZE && tag != UNKNOWN
    ensures t.Valid() && h != null && |t.Table()| > 1 && t.Table()[1].name == tag
    ensures BytesOf(t.book, 1) == WORD + 999 > t.Table()[1].allocationLimit == DEFAULT_LIMIT
    ensures t.Table()[1].allocatedBytes == 999
  {
    t := new MemoryTracker(64);
    ShortTagOnce(t.Books(), tag);
    h := t.Malloc(1000, Some(tag), true);
    ShortTagWrapped(t.Books(), tag);
    h := t.Malloc(WORD - 1, Some(tag), true);
  }

  lemma {:induction false} ShortTagOnce(l: Ledger, tag: string)
    requires 0 < |tag| < NAME_SIZE && tag != UNKNOWN && Right(l)
    requires l == Ledger([TagEntry(UNKNOWN, 0, DEFAULT_LIMIT, 0)], [])
    ensures AfterMalloc(l, 1000, Some(tag), true, 64)
            == Ledger([l.table[0], TagEntry(tag, 1000, DEFAULT_LIMIT, 1)], [Charge(1000, 1)])
  {
    ShortTagNew(l.table, tag);
  }

  lemma {:induction false} ShortTagWrapped(l: Ledger, tag: string)
    requires 0 < |tag| < NAME_SIZE && tag != UNKNOWN && Right(l)
    requires |l.table| == 2 && l.table[1] == TagEntry(tag, 1000, DEFAULT_LIMIT, 1) && l.book == [Charge(1000, 1)]
    ensures var after := AfterMalloc(l, WORD - 1, Some(tag), true, 64);
            && after.book != l.book && BytesOf(after.book, 1) == WORD + 999
            && after.table == [l.table[0], TagEntry(tag, 999, DEFAULT_LIMIT, 2)]
  {
    ShortTagKnown(l.table, tag);
    assert l.book[1..] == [] && BytesOf(l.book, 1) == 1000;
  }

  lemma {:induction false} ShortTagNew(table: seq<TagEntry>, tag: string)
    requires 0 < |tag| < NAME_SIZE && tag != UNKNOWN && table == [TagEntry(UNKNOWN, 0, DEFAULT_LIMIT, 0)]
    ensures TableAfter(table, Some(tag), 64) == table + [NewEntry(tag)]
    ensures Route(table, Some(tag), 64) == 1 == ChargedEntry(table, Some(tag), 64)
  {
    IndexInLonger(table, NewEntry(tag), tag);
  }

  lemma {:induction false} ShortTagKnown(table: seq<TagEntry>, tag: string)
    requires 0 < |tag| < NAME_SIZE && tag != UNKNOWN
    requires |table| == 2 && table[0].name == UNKNOWN && table[1].name == tag
    ensures TableAfter(table, Some(tag), 64) == table
    ensures Route(table, Some(tag), 64) == 1 == ChargedEntry(table, Some(tag), 64)
  {
    assert table[1..][0].name == tag;
  }

  lemma {:induction false} LongTagFirst(table: seq<TagEntry>, tag: string)
    requires |tag| >= NAME_SIZE && table == [TagEntry(UNKNOWN, 0, DEFAULT_LIMIT, 0)]
    ensures TableAfter(table, Some(tag), 64) == table + [NewEntry(tag)]
    ensures Route(table, Some(tag), 64) == 1 == ChargedEntry(table, Some(tag), 64)
  {
    assert |UNKNOWN| == 7;
    IndexInLonger(table, NewEntry(tag), Stored(tag));
  }

  lemma {:induction false} LongTagSecond(table: seq<TagEntry>, tag: string)
    requires |tag| >= NAME_SIZE && |table| == 2 && table[0].name == UNKNOWN && table[1].name == Stored(tag)
    ensures TableAfter(table, Some(tag), 64) == table + [NewEntry(tag)]
    ensures Route(table, Some(tag), 64) == 2 && ChargedEntry(table, Some(tag), 64) == 1
  {
    assert |UNKNOWN| == 7;
    var rest := table[1..];
    assert rest[1..] == [];
    IndexInLonger(table, NewEntry(tag), Stored(tag));
  }
}
