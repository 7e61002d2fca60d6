/** The open-addressing hash map: linear probing, tombstones, growth at three quarters
    load, and purging of tombstones at the same capacity. */
module HashMap {
  import opened Bits
  import opened Common
  import opened PowerOfTwo
  import opened HashTable

  const DEFAULT_CAPACITY: nat := 16

  /** Key equality is an equivalence relation: `cls` sends a key to its class. Equal
      keys hash equally, so the hash is a function `hashOf` of the class. */
  class HashMap<K, V, C(==)> {
    const cls: K -> C
    const hashOf: C -> Word
    var slots: array<Slot<K, V>>
    var capacity: nat
    var mask: nat
    var count: nat
    var tombstoneCount: nat
    ghost var contents: map<C, V>

    ghost predicate Valid()
      reads this, slots
    {
      && capacity == slots.Length
      && count == CountOccupied(slots[..]) == |contents|
      && tombstoneCount == CountTombstones(slots[..])
      && WellFormed(slots[..], cls, hashOf, contents)
      && if capacity == 0 then mask == 0 else
           && IsPow2(capacity)
           && capacity >= DEFAULT_CAPACITY
           && mask == capacity - 1
           && 4 * (count + tombstoneCount) < 3 * capacity
    }

    /** A map without a slot array, as it is after a failed allocation or Destroy. */
    constructor (cls: K -> C, hashOf: C -> Word)
      ensures Valid() && fresh(slots)
      ensures capacity == 0 && contents == map[] && this.cls == cls && this.hashOf == hashOf
    {
      this.cls, this.hashOf := cls, hashOf;
      slots := new Slot<K, V>[0];
      capacity, mask, count, tombstoneCount := 0, 0, 0, 0;
      contents := map[];
    }

    /** `allocOk` is the outcome of the slot allocation, should there be one. */
    method Create(initialCapacity: Word, allocOk: bool) returns (ok: bool)
      modifies this
      ensures Valid() && contents == map[] && fresh(slots)
      ensures ok <==> allocOk || initialCapacity > LARGEST
      ensures capacity == if allocOk && initialCapacity <= LARGEST then CeilPow2(Max(initialCapacity, 16)) else 0
    {
      capacity := MapNextPowerOfTwo(initialCapacity);
      mask := if capacity != 0 then capacity - 1 else 0;
      count, tombstoneCount, contents := 0, 0, map[];
      slots := new Slot<K, V>[0];
      if capacity == 0 {
        return true;
      }
      if !allocOk {
        capacity, mask := 0, 0;
        return false;
      }
      slots := new Slot<K, V>[capacity](_ => Empty);
      AllEmpty(slots[..], cls, hashOf);
      return true;
    }

    /** Copies one entry to the first free slot of its probe path. */
    static method Place(table: array<Slot<K, V>>, entry: Slot<K, V>) returns (ghost e: nat)
      requires IsPow2(table.Length) && entry.Occupied?
      requires CountOccupied(table[..]) < table.Length
      modifies table
      ensures e < table.Length
      ensures FirstFree(old(table[..]), Home(entry.hash, table.Length), e)
      ensures table[..] == old(table[..])[Step(Home(entry.hash, table.Length), e, table.Length) := entry]
    {
      var n := table.Length;
      var index := And(entry.hash, n - 1);
      ghost var home, s := index, table[..];
      e := 0;
      while table[index].Occupied?
        invariant table[..] == s
        invariant e < n && index == Step(home, e, n)
        invariant forall d: nat :: d < e ==> s[Step(home, d, n)].Occupied?
        decreases n - e
      {
        RoomLeft(s, home, e);
        MaskedStep(index, 1, n);
        index, e := And(index + 1, n - 1), e + 1;
      }
      table[index] := entry;
    }

    /** Moves the entries of `source` to a fresh table of `newCapacity` slots by their cached
        hashes. It is given neither the hash function nor the comparator. */
    static method Rehash(source: array<Slot<K, V>>, newCapacity: nat, ghost cls: K -> C)
      returns (table: array<Slot<K, V>>, moved: nat)
      requires IsPow2(newCapacity) && CountOccupied(source[..]) <= newCapacity
      requires KeysDistinct(source[..], cls)
      ensures fresh(table) && table.Length == newCapacity
      ensures SameEntries(source[..], table[..])
      ensures Reachable(table[..]) && KeysDistinct(table[..], cls)
      ensures moved == CountOccupied(table[..]) == CountOccupied(source[..])
    {
      table, moved := new Slot<K, V>[newCapacity](_ => Empty), 0;
      ghost var entries := source[..];
      CountAllEmpty(table[..]);
      for i := 0 to source.Length
        invariant Reachable(table[..]) && KeysDistinct(table[..], cls)
        invariant SameEntries(entries[..i], table[..])
        invariant moved == CountOccupied(table[..]) == CountOccupied(entries[..i])
      {
        CountNext(entries, i);
        if source[i].Occupied? {
          CountPrefix(entries, i + 1);
          ghost var before := table[..];
          ghost var e := Place(table, source[i]);
          EntryMoved(entries, i, before, e, cls);
          moved := moved + 1;
        } else {
          EntrySkipped(entries, i, table[..]);
        }
      }
      assert entries[..source.Length] == entries;
    }

    /** Allocates before anything is moved, but after capacity, mask and the counts have
        been overwritten: on failure they no longer describe the old slots. */
    method Resize(newCapacity: nat, allocOk: bool) returns (ok: bool)
      requires Valid() && IsPow2(newCapacity) && newCapacity >= DEFAULT_CAPACITY
      requires 4 * count < 3 * newCapacity
      modifies this
      ensures ok == allocOk
      ensures ok ==> Valid() && fresh(slots) && tombstoneCount == 0
      ensures count == if ok then old(count) else 0
      ensures !ok ==> slots == old(slots) && tombstoneCount == 0
      ensures contents == old(contents) && capacity == newCapacity
    {
      var oldSlots := slots;
      capacity, mask := newCapacity, newCapacity - 1;
      count, tombstoneCount := 0, 0;
      if !allocOk {
        return false;
      }
      var table, moved := Rehash(oldSlots, newCapacity, cls);
      RehashPreserves(oldSlots[..], table[..], cls, hashOf, contents);
      CountNoTombstones(table[..]);
      slots, count := table, moved;
      return true;
    }

    /** Set has to allocate first: there are no slots yet, or the load would reach 3/4. */
    predicate NeedsResize()
      reads this
    {
      capacity == 0 || (count + tombstoneCount + 1) * 4 >= capacity * 3
    }

    /** After a failed allocation the old slots are still there, but nothing is counted. */
    ghost predicate Lost(was: array<Slot<K, V>>)
      reads this
    {
      slots == was && count == 0 && tombstoneCount == 0 && capacity >= DEFAULT_CAPACITY
    }

    method MakeRoom(allocOk: bool) returns (ok: bool)
      requires Valid()
      modifies this
      ensures ok == (allocOk || !old(NeedsResize()))
      ensures ok ==> Valid() && !NeedsResize() && capacity > 0
      ensures ok ==> capacity == if old(capacity) == 0 then 16
                                  else if old(4 * (count + tombstoneCount + 1) < 3 * capacity) then old(capacity)
                                  else if old(2 * count > capacity) then 2 * old(capacity) else old(capacity)
      ensures !ok ==> !Valid() && Lost(old(slots))
      ensures contents == old(contents)
      ensures slots == old(slots) || fresh(slots)
    {
      ok := true;
      if capacity == 0 {
        assert IsPow2(16) by { assert Pow2(4) == 16 by { assert Pow2(2) == 4; } }
        ok := Resize(DEFAULT_CAPACITY, allocOk);
      } else if (count + tombstoneCount + 1) * 4 >= capacity * 3 {
        DoubledIsPow2(capacity);
        var targetCapacity := if count * 2 > capacity then capacity * 2 else capacity;
        ok := Resize(targetCapacity, allocOk);
      }
    }

    /** `(home + i) & mask`, the slot of probe step `i`. */
    method ProbeIndex(home: nat, i: nat) returns (probe: nat)
      requires Valid() && home < capacity && i <= capacity
      ensures probe == Step(home, i, capacity)
    {
      MaskedStep(home, i, capacity);
      probe := And(home + i, mask);
    }

    /** Writes a new entry into a free slot, `d` steps along the probe path of its key. */
    method Fill(target: nat, hash: Word, key: K, value: V, ghost d: nat)
      requires Valid() && capacity > 0 && !NeedsResize()
      requires hash == hashOf(cls(key)) && d < capacity && target == Step(Home(hash, capacity), d, capacity)
      requires NoGap(slots[..], Home(hash, capacity), d)
      requires !slots[target].Occupied?
      requires forall i: nat :: !Holds(slots[..], cls, i, cls(key))
      requires cls(key) !in contents
      modifies this`count, this`tombstoneCount, this`contents, slots
      ensures Valid() && contents == old(contents)[cls(key) := value]
    {
      ghost var s := slots[..];
      Inserted(s, cls, hashOf, contents, key, value, d);
      CountUpdate(s, target, Occupied(hash, key, value));
      if slots[target].Tombstone? {
        tombstoneCount := tombstoneCount - 1;
      }
      slots[target] := Occupied(hash, key, value);
      count := count + 1;
      contents := contents[cls(key) := value];
      assert slots[..] == s[target := Occupied(hash, key, value)];
    }

    /** Overwrites the value of an entry; the stored key stays. */
    method Overwrite(target: nat, value: V)
      requires Valid() && target < capacity && slots[target].Occupied?
      modifies this`contents, slots
      ensures Valid() && contents == old(contents[cls(slots[target].key) := value])
    {
      ghost var s := slots[..];
      Replaced(s, cls, hashOf, contents, target, value);
      CountUpdate(s, target, s[target].(value := value));
      contents := contents[cls(slots[target].key) := value];
      slots[target] := slots[target].(value := value);
      assert slots[..] == s[target := s[target].(value := value)];
    }

    method Set(key: K, value: V, allocOk: bool) returns (ok: bool)
      requires Valid()
      modifies this, slots
      ensures ok <==> allocOk || old(capacity > 0 && 4 * (count + tombstoneCount + 1) < 3 * capacity)
      ensures ok ==> Valid() && contents == old(contents)[cls(key) := value]
      ensures ok ==> capacity == if old(capacity) == 0 then 16
                                  else if old(4 * (count + tombstoneCount + 1) < 3 * capacity) then old(capacity)
                                  else if old(2 * count > capacity) then 2 * old(capacity) else old(capacity)
      ensures !ok ==> !Valid() && Lost(old(slots))
      ensures slots == old(slots) || fresh(slots)
    {
      ok := MakeRoom(allocOk);
      if !ok {
        return;
      }
      Store(key, value);
    }

    /** The probing part of Set, entered with room for one more entry. */
    method Store(key: K, value: V)
      requires Valid() && !NeedsResize() && capacity > 0
      modifies this`count, this`tombstoneCount, this`contents, slots
      ensures Valid() && contents == old(contents)[cls(key) := value]
    {
      var c := cls(key);
      var hash := hashOf(c);
      var index := And(hash, mask);
      var firstTomb := -1;
      ghost var s, m := slots[..], contents;
      ghost var firstStep := 0;
      ghost var end := ProbeEnds(s, cls, index, c);
      for i := 0 to capacity
        invariant i <= end
        invariant slots[..] == s && count == old(count) && tombstoneCount == old(tombstoneCount) && contents == m
        invariant firstTomb != -1 ==>
          firstStep < i && firstTomb == Step(index, firstStep, capacity) && s[firstTomb].Tombstone?
      {
        var probe := ProbeIndex(index, i);
        if slots[probe].Empty? {
          FillFirst(if firstTomb != -1 then firstTomb else probe, hash, key, value, i, if firstTomb != -1 then firstStep else i);
          return;
        }
        if slots[probe].Tombstone? {
          if firstTomb == -1 {
            firstTomb, firstStep := probe, i;
          }
        } else if slots[probe].hash == hash {
          if cls(slots[probe].key) == c {
            Overwrite(probe, value);
            return;
          }
        }
      }
      // The fallback that the code keeps here, for a lap without an empty slot, is dead.
      assert false;
    }

    /** Fills a free slot on the path that led, in `i` steps, to an empty one. */
    method FillFirst(target: nat, hash: Word, key: K, value: V, ghost i: nat, ghost d: nat)
      requires Valid() && capacity > 0 && !NeedsResize() && hash == hashOf(cls(key))
      requires d <= i < capacity && Passed(slots[..], cls, Home(hash, capacity), cls(key), i)
      requires slots[Step(Home(hash, capacity), i, capacity)].Empty?
      requires target == Step(Home(hash, capacity), d, capacity) && !slots[target].Occupied?
      modifies this`count, this`tombstoneCount, this`contents, slots
      ensures Valid() && contents == old(contents)[cls(key) := value]
    {
      PassedMeansAbsent(slots[..], cls, hashOf, contents, cls(key), i);
      Fill(target, hash, key, value, d);
    }

    /** After a failed allocation nothing is found any more. */
    method Get(key: K) returns (found: Option<V>)
      requires Valid() || count == 0
      ensures Valid() ==> found == if cls(key) in contents then Some(contents[cls(key)]) else None
      ensures count == 0 ==> found == None
    {
      if count == 0 || capacity == 0 {
        return None;
      }
      var c := cls(key);
      var hash := hashOf(c);
      var index := And(hash, mask);
      ghost var s := slots[..];
      ghost var end := ProbeEnds(s, cls, index, c);
      for i := 0 to capacity
        invariant i <= end
      {
        var probe := ProbeIndex(index, i);
        if slots[probe].Empty? {
          PassedMeansAbsent(s, cls, hashOf, contents, c, i);
          return None;
        }
        if slots[probe].Occupied? && slots[probe].hash == hash {
          if cls(slots[probe].key) == c {
            return Some(slots[probe].value);
          }
        }
      }
      assert false;
    }

    /** Turns an entry into a tombstone. */
    method Bury(target: nat)
      requires Valid() && target < capacity && slots[target].Occupied?
      modifies this`count, this`tombstoneCount, this`contents, slots
      ensures Valid() && old(cls(slots[target].key) in contents)
      ensures contents == old(contents - {cls(slots[target].key)})
    {
      ghost var s := slots[..];
      Deleted(s, cls, hashOf, contents, target);
      CountUpdate(s, target, Tombstone);
      contents := contents - {cls(slots[target].key)};
      slots[target] := Tombstone;
      count, tombstoneCount := count - 1, tombstoneCount + 1;
      assert slots[..] == s[target := Tombstone];
    }

    method Remove(key: K) returns (removed: bool)
      requires Valid()
      modifies this`count, this`tombstoneCount, this`contents, slots
      ensures Valid()
      ensures removed == (cls(key) in old(contents))
      ensures contents == old(contents) - {cls(key)}
    {
      if count == 0 || capacity == 0 {
        return false;
      }
      removed := Unstore(key);
    }

    /** The probing part of Remove. */
    method Unstore(key: K) returns (removed: bool)
      requires Valid() && capacity > 0
      modifies this`count, this`tombstoneCount, this`contents, slots
      ensures Valid()
      ensures removed == (cls(key) in old(contents))
      ensures contents == old(contents) - {cls(key)}
    {
      var c := cls(key);
      var hash := hashOf(c);
      var index := And(hash, mask);
      ghost var s, m := slots[..], contents;
      ghost var end := ProbeEnds(s, cls, index, c);
      for i := 0 to capacity
        invariant i <= end
        invariant slots[..] == s && count == old(count) && tombstoneCount == old(tombstoneCount) && contents == m
      {
        var probe := ProbeIndex(index, i);
        if slots[probe].Empty? {
          PassedMeansAbsent(s, cls, hashOf, m, c, i);
          return false;
        }
        if slots[probe].Occupied? && slots[probe].hash == hash {
          if cls(slots[probe].key) == c {
            Bury(probe);
            return true;
          }
        }
      }
      assert false;
    }

    method Clear()
      requires Valid()
      modifies this, slots
      ensures Valid() && slots == old(slots) && contents == map[]
    {
      for i := 0 to slots.Length
        invariant forall j :: 0 <= j < i ==> slots[j].Empty?
        modifies slots
      {
        slots[i] := Empty;
      }
      count, tombstoneCount, contents := 0, 0, map[];
      AllEmpty(slots[..], cls, hashOf);
    }
  }

  // ----- Whole runs

  datatype Op<K, V> = OpSet(key: K, value: V) | OpGet(key: K) | OpRemove(key: K) | OpClear

  datatype Answer<V> = Stored | Got(found: Option<V>) | Removed(present: bool) | Cleared

  /** What a plain finite map does with one call. */
  ghost function MapAfter<K, V, C>(m: map<C, V>, op: Op<K, V>, cls: K -> C): map<C, V> {
    match op
    case OpSet(k, v) => m[cls(k) := v]
    case OpGet(_) => m
    case OpRemove(k) => m - {cls(k)}
    case OpClear => map[]
  }

  ghost function MapAnswer<K, V, C>(m: map<C, V>, op: Op<K, V>, cls: K -> C): Answer<V> {
    match op
    case OpSet(_, _) => Stored
    case OpGet(k) => Got(if cls(k) in m then Some(m[cls(k)]) else None)
    case OpRemove(k) => Removed(cls(k) in m)
    case OpClear => Cleared
  }

  ghost function MapAnswers<K, V, C>(m: map<C, V>, ops: seq<Op<K, V>>, cls: K -> C): seq<Answer<V>>
    decreases |ops|
  {
    if ops == [] then [] else [MapAnswer(m, ops[0], cls)] + MapAnswers(MapAfter(m, ops[0], cls), ops[1..], cls)
  }

  method PerformSet<K, V, C>(t: HashMap<K, V, C>, k: K, v: V) returns (answer: Answer<V>)
    requires t.Valid()
    modifies t, t.slots
    ensures t.Valid() && (t.slots == old(t.slots) || fresh(t.slots))
    ensures t.contents == MapAfter(old(t.contents), OpSet(k, v), t.cls)
    ensures answer == MapAnswer(old(t.contents), OpSet(k, v), t.cls)
  {
    var ok := t.Set(k, v, true);
    answer := Stored;
  }

  method PerformGet<K, V, C>(t: HashMap<K, V, C>, k: K) returns (answer: Answer<V>)
    requires t.Valid()
    ensures answer == MapAnswer(t.contents, OpGet(k), t.cls)
  {
    var found := t.Get(k);
    answer := Got(found);
  }

  /** One call on the table, answered as the finite map would. */
  method Perform<K, V, C>(t: HashMap<K, V, C>, op: Op<K, V>) returns (answer: Answer<V>)
    requires t.Valid()
    modifies t, t.slots
    ensures t.Valid() && (t.slots == old(t.slots) || fresh(t.slots))
    ensures t.contents == MapAfter(old(t.contents), op, t.cls)
    ensures answer == MapAnswer(old(t.contents), op, t.cls)
  {
    match op {
      case OpSet(k, v) => answer := PerformSet(t, k, v);
      case OpGet(k) => answer := PerformGet(t, k);
      case OpRemove(k) =>
        var removed := t.Remove(k);
        answer := Removed(removed);
      case OpClear =>
        t.Clear();
        answer := Cleared;
    }
  }

  /** Over every run of calls, while allocation succeeds, the hash map gives the answers
      of a finite map. */
  method Replay<K, V, C>(t: HashMap<K, V, C>, ops: seq<Op<K, V>>) returns (answers: seq<Answer<V>>)
    requires t.Valid()
    modifies t, t.slots
    ensures t.Valid() && answers == MapAnswers(old(t.contents), ops, t.cls)
    decreases |ops|
  {
    if ops == [] {
      return [];
    }
    var answer := Perform(t, ops[0]);
    var rest := Replay(t, ops[1..]);
    answers := [answer] + rest;
  }

  /** The slots determine the map: the ghost field that the contracts speak of has no
      freedom of its own. */
  lemma {:induction false} SlotsDecide<K, V, C>(t: HashMap<K, V, C>, u: HashMap<K, V, C>)
    requires t.Valid() && u.Valid() && t.cls == u.cls && t.slots[..] == u.slots[..]
    ensures t.contents == u.contents
  {
    RepresentsUnique(t.slots[..], t.cls, t.contents, u.contents);
  }

  // ----- The two arguments of Rehash about the table it fills

  /** The first `e` slots from `home` hold entries and the next one is free. */
  ghost predicate FirstFree<K, V>(s: Table<K, V>, home: nat, e: nat)
    requires home < |s|
  {
    && e < |s|
    && (forall d: nat :: d < e ==> s[Step(home, d, |s|)].Occupied?)
    && !s[Step(home, e, |s|)].Occupied?
  }

  /** A probe over entries only does not go all the way round a table with room. */
  lemma {:induction false} RoomLeft<K, V>(s: Table<K, V>, home: nat, e: nat)
    requires home < |s| && e < |s| && CountOccupied(s) < |s|
    requires forall d: nat :: d <= e ==> s[Step(home, d, |s|)].Occupied?
    ensures e + 1 < |s|
  {
    if e + 1 == |s| {
      forall i | 0 <= i < |s|
        ensures s[i].Occupied?
      {
        assert s[Step(home, Distance(home, i, |s|), |s|)].Occupied?;
      }
      CountAllOccupied(s);
    }
  }

  /** Copying entry `i` to the first free slot of its probe path. */
  lemma {:induction false} EntryMoved<K, V, C>(src: Table<K, V>, i: nat, s: Table<K, V>, e: nat, cls: K -> C)
    requires i < |src| && src[i].Occupied? && KeysDistinct(src, cls)
    requires 0 < |s| && FirstFree(s, Home(src[i].hash, |s|), e)
    requires SameEntries(src[..i], s) && Reachable(s) && KeysDistinct(s, cls)
    ensures var t := s[Step(Home(src[i].hash, |s|), e, |s|) := src[i]];
            && SameEntries(src[..i + 1], t) && Reachable(t) && KeysDistinct(t, cls)
            && CountOccupied(t) == CountOccupied(s) + 1
  {
    var x := src[i];
    var p := Step(Home(x.hash, |s|), e, |s|);
    var t := s[p := x];
    CountUpdate(s, p, x);
    forall j | 0 <= j < |t| && t[j].Occupied?
      ensures PathClear(t, j)
      ensures j != p ==> cls(t[j].key) != cls(x.key)
    {
      if j != p {
        assert PathClear(s, j);
        assert s[j] in src[..i];
      }
    }
    assert src[..i + 1] == src[..i] + [x];
    assert t[p] == x;
    forall y | y in src[..i] && y.Occupied?
      ensures y in t
    {
      var j :| 0 <= j < |s| && s[j] == y;
      assert t[j] == y;
    }
  }

  lemma {:induction false} EntrySkipped<K, V>(src: Table<K, V>, i: nat, s: Table<K, V>)
    requires i < |src| && !src[i].Occupied? && SameEntries(src[..i], s)
    ensures SameEntries(src[..i + 1], s)
  {
    assert src[..i + 1] == src[..i] + [src[i]];
  }
}
