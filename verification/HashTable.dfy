/** The slot array of the open-addressing hash map, as a sequence: which arrays are
    well-formed tables, and what writing one slot does to them. */
module HashTable {
  import opened Bits
  import opened PowerOfTwo

  datatype Slot<K, V> = Empty | Occupied(hash: Word, key: K, value: V) | Tombstone

  type Table<K, V> = seq<Slot<K, V>>

  // ----- Probe paths

  /** The slot at which probing for `hash` starts: `hash & mask`. */
  function Home(hash: nat, n: nat): (i: nat)
    requires n > 0
    ensures i < n
  {
    And(hash, n - 1)
  }

  /** The slot that probe step `step` inspects, going round a table of `n` slots. */
  function Step(home: nat, step: nat, n: nat): (i: nat)
    requires home < n && step <= n
    ensures i < n
  {
    Wrap(home + step, n)
  }

  /** How many steps lead from slot `home` to slot `i`. */
  function Distance(home: nat, i: nat, n: nat): (d: nat)
    requires home < n && i < n
    ensures d < n && Step(home, d, n) == i
    ensures forall e: nat :: e < n && Step(home, e, n) == i ==> e == d
  {
    if home <= i then i - home else i + n - home
  }

  /** The probe expression of the code, `(home + step) & mask`. */
  lemma {:induction false} MaskedStep(home: nat, step: nat, n: nat)
    requires IsPow2(n) && home < n && step <= n
    ensures And(home + step, n - 1) == Step(home, step, n)
  {
    MaskWraps(home + step, n);
  }

  /** The first `d` slots on the probe path from `home` are not empty. */
  ghost predicate NoGap<K, V>(s: Table, home: nat, d: nat)
    requires home < |s| && d <= |s|
  {
    forall e: nat :: e < d ==> !s[Step(home, e, |s|)].Empty?
  }

  /** No empty slot lies cyclically between the home of the entry in slot `i` and `i`. */
  ghost predicate PathClear<K, V>(s: Table, i: nat)
    requires i < |s| && s[i].Occupied?
  {
    NoGap(s, Home(s[i].hash, |s|), Distance(Home(s[i].hash, |s|), i, |s|))
  }

  // ----- Well-formed tables

  /** Every entry caches the hash of its key. */
  ghost predicate HashesCached<K, V, C>(s: Table<K, V>, cls: K -> C, hashOf: C -> Word) {
    forall i :: 0 <= i < |s| && s[i].Occupied? ==> s[i].hash == hashOf(cls(s[i].key))
  }

  /** A probe from its home slot gets to every entry. */
  ghost predicate Reachable<K, V>(s: Table) {
    forall i: nat {:trigger PathClear(s, i)} :: i < |s| && s[i].Occupied? ==> PathClear(s, i)
  }

  /** No two entries hold equal keys. */
  ghost predicate KeysDistinct<K, V, C>(s: Table<K, V>, cls: K -> C) {
    forall i, j :: 0 <= i < j < |s| && s[i].Occupied? && s[j].Occupied? ==> cls(s[i].key) != cls(s[j].key)
  }

  ghost predicate Holds<K, V, C>(s: Table<K, V>, cls: K -> C, i: nat, c: C) {
    i < |s| && s[i].Occupied? && cls(s[i].key) == c
  }

  /** The entries are exactly the bindings of `m`. */
  ghost predicate Represents<K, V, C>(s: Table<K, V>, cls: K -> C, m: map<C, V>) {
    && (forall i :: 0 <= i < |s| && s[i].Occupied? ==> cls(s[i].key) in m && m[cls(s[i].key)] == s[i].value)
    && (forall c :: c in m ==> exists i: nat :: Holds(s, cls, i, c))
  }

  ghost predicate WellFormed<K, V, C>(s: Table<K, V>, cls: K -> C, hashOf: C -> Word, m: map<C, V>) {
    HashesCached(s, cls, hashOf) && Reachable(s) && KeysDistinct(s, cls) && Represents(s, cls, m)
  }

  /** The table alone determines the map. */
  lemma {:induction false} RepresentsUnique<K, V, C>(s: Table<K, V>, cls: K -> C, m: map<C, V>, m': map<C, V>)
    requires Represents(s, cls, m) && Represents(s, cls, m')
    ensures m == m'
  {
    forall c | c in m
      ensures c in m' && m'[c] == m[c]
    {
      var i: nat :| Holds(s, cls, i, c);
    }
    forall c | c in m'
      ensures c in m
    {
      var i: nat :| Holds(s, cls, i, c);
    }
  }

  // ----- Counting slots

  function CountOccupied<K, V>(s: Table): (n: nat)
    ensures n <= |s|
  {
    if s == [] then 0 else CountOccupied(s[..|s| - 1]) + if s[|s| - 1].Occupied? then 1 else 0
  }

  function CountTombstones<K, V>(s: Table): (n: nat) {
    if s == [] then 0 else CountTombstones(s[..|s| - 1]) + if s[|s| - 1].Tombstone? then 1 else 0
  }

  lemma {:induction false} CountUpdate<K, V>(s: Table, i: nat, x: Slot<K, V>)
    requires i < |s|
    ensures CountOccupied(s[i := x]) - (if x.Occupied? then 1 else 0)
         == CountOccupied(s) - (if s[i].Occupied? then 1 else 0)
    ensures CountTombstones(s[i := x]) - (if x.Tombstone? then 1 else 0)
         == CountTombstones(s) - (if s[i].Tombstone? then 1 else 0)
  {
    var n := |s| - 1;
    if i == n {
      assert s[i := x][..n] == s[..n];
    } else {
      assert s[i := x][..n] == s[..n][i := x];
      CountUpdate(s[..n], i, x);
    }
  }

  lemma {:induction false} CountPrefix<K, V>(s: Table, i: nat)
    requires i <= |s|
    ensures CountOccupied(s[..i]) <= CountOccupied(s)
  {
    if i == |s| {
      assert s[..i] == s;
    } else {
      CountPrefix(s[..|s| - 1], i);
      assert s[..|s| - 1][..i] == s[..i];
    }
  }

  lemma {:induction false} CountNext<K, V>(s: Table, i: nat)
    requires i < |s|
    ensures CountOccupied(s[..i + 1]) == CountOccupied(s[..i]) + if s[i].Occupied? then 1 else 0
  {
    assert s[..i + 1][..i] == s[..i];
  }

  /** If no slot is empty, entries and tombstones fill the table. */
  lemma {:induction false} CountFull<K, V>(s: Table)
    requires forall i :: 0 <= i < |s| ==> !s[i].Empty?
    ensures CountOccupied(s) + CountTombstones(s) == |s|
  {
    if s != [] {
      CountFull(s[..|s| - 1]);
    }
  }

  lemma {:induction false} CountAllOccupied<K, V>(s: Table)
    requires forall i :: 0 <= i < |s| ==> s[i].Occupied?
    ensures CountOccupied(s) == |s|
  {
    if s != [] {
      CountAllOccupied(s[..|s| - 1]);
    }
  }

  lemma {:induction false} CountAllEmpty<K, V>(s: Table)
    requires forall i :: 0 <= i < |s| ==> s[i].Empty?
    ensures CountOccupied(s) == 0 && CountTombstones(s) == 0
  {
    if s != [] {
      CountAllEmpty(s[..|s| - 1]);
    }
  }

  lemma {:induction false} CountNoTombstones<K, V>(s: Table)
    requires forall i :: 0 <= i < |s| ==> !s[i].Tombstone?
    ensures CountTombstones(s) == 0
  {
    if s != [] {
      CountNoTombstones(s[..|s| - 1]);
    }
  }

  /** Below three quarters full, counting tombstones, a table has an empty slot. */
  lemma {:induction false} LoadLeavesEmpty<K, V>(s: Table)
    requires 4 * (CountOccupied(s) + CountTombstones(s)) < 3 * |s|
    ensures exists i :: 0 <= i < |s| && s[i].Empty?
  {
    if forall i :: 0 <= i < |s| ==> !s[i].Empty? {
      CountFull(s);
    }
  }

  // ----- What a probe has learnt

  /** The first `d` slots on the probe path from `home` are in use, none of them by `c`. */
  ghost predicate Passed<K, V, C>(s: Table<K, V>, cls: K -> C, home: nat, c: C, d: nat)
    requires home < |s| && d <= |s|
  {
    forall e: nat :: e < d ==>
      var x := s[Step(home, e, |s|)];
      !x.Empty? && (x.Occupied? ==> cls(x.key) != c)
  }

  /** A probe that passed `d` slots and then met an empty one, or that went all the way
      round, has shown that the key is absent. */
  lemma {:induction false} PassedMeansAbsent<K, V, C>(
    s: Table<K, V>, cls: K -> C, hashOf: C -> Word, m: map<C, V>, c: C, d: nat)
    requires |s| > 0 && d <= |s| && WellFormed(s, cls, hashOf, m)
    requires Passed(s, cls, Home(hashOf(c), |s|), c, d)
    requires d < |s| ==> s[Step(Home(hashOf(c), |s|), d, |s|)].Empty?
    ensures forall i: nat :: !Holds(s, cls, i, c)
    ensures c !in m
  {
    var home := Home(hashOf(c), |s|);
    forall i: nat
      ensures !Holds(s, cls, i, c)
    {
      assert Holds(s, cls, i, c) ==> PathClear(s, i);
      if Holds(s, cls, i, c) {
        assert false;
      }
    }
  }

  /** A probe cannot pass every slot of a table that has an empty one. */
  lemma {:induction false} CannotPassAll<K, V, C>(s: Table<K, V>, cls: K -> C, home: nat, c: C)
    requires home < |s| && Passed(s, cls, home, c, |s|)
    ensures forall i :: 0 <= i < |s| ==> !s[i].Empty?
  {
    forall i | 0 <= i < |s|
      ensures !s[i].Empty?
    {
      assert !s[Step(home, Distance(home, i, |s|), |s|)].Empty?;
    }
  }

  /** Under the load invariant every probe stops within one lap, at an empty slot or at
      the entry of its key, having passed only slots in use by other keys. */
  lemma {:induction false} ProbeEnds<K, V, C>(s: Table<K, V>, cls: K -> C, home: nat, c: C) returns (d: nat)
    requires home < |s| && 4 * (CountOccupied(s) + CountTombstones(s)) < 3 * |s|
    ensures d < |s| && Passed(s, cls, home, c, d)
    ensures var i := Step(home, d, |s|); s[i].Empty? || Holds(s, cls, i, c)
  {
    d := 0;
    while d < |s| && !s[Step(home, d, |s|)].Empty? && !Holds(s, cls, Step(home, d, |s|), c)
      invariant d <= |s| && Passed(s, cls, home, c, d)
    {
      d := d + 1;
    }
    if d == |s| {
      CannotPassAll(s, cls, home, c);
      LoadLeavesEmpty(s);
    }
  }

  // ----- What a write does

  /** Filling a free slot on the probe path of an absent key adds its binding. */
  lemma {:induction false} Inserted<K, V, C>(
    s: Table<K, V>, cls: K -> C, hashOf: C -> Word, m: map<C, V>, k: K, v: V, d: nat)
    requires d < |s| && WellFormed(s, cls, hashOf, m)
    requires NoGap(s, Home(hashOf(cls(k)), |s|), d)
    requires !s[Step(Home(hashOf(cls(k)), |s|), d, |s|)].Occupied?
    requires forall i: nat :: !Holds(s, cls, i, cls(k))
    ensures var t := Step(Home(hashOf(cls(k)), |s|), d, |s|);
            WellFormed(s[t := Occupied(hashOf(cls(k)), k, v)], cls, hashOf, m[cls(k) := v])
  {
    var c, h := cls(k), hashOf(cls(k));
    var t := Step(Home(h, |s|), d, |s|);
    var s' := s[t := Occupied(h, k, v)];
    forall i | 0 <= i < |s'| && s'[i].Occupied?
      ensures PathClear(s', i)
    {
      if i != t {
        assert s[i].Occupied?;
        assert PathClear(s, i);
      }
    }
    forall i | 0 <= i < |s| && s[i].Occupied?
      ensures cls(s[i].key) != c
    {
      assert !Holds(s, cls, i, c);
    }
    var m' := m[c := v];
    forall c' | c' in m'
      ensures exists i: nat :: Holds(s', cls, i, c')
    {
      if c' == c {
        assert Holds(s', cls, t, c);
      } else {
        var i: nat :| Holds(s, cls, i, c');
        assert Holds(s', cls, i, c');
      }
    }
  }

  /** Replacing the value of an entry, whose stored key stays, rebinds its key. */
  lemma {:induction false} Replaced<K, V, C>(
    s: Table<K, V>, cls: K -> C, hashOf: C -> Word, m: map<C, V>, i: nat, v: V)
    requires i < |s| && s[i].Occupied? && WellFormed(s, cls, hashOf, m)
    ensures WellFormed(s[i := s[i].(value := v)], cls, hashOf, m[cls(s[i].key) := v])
  {
    var s', c := s[i := s[i].(value := v)], cls(s[i].key);
    forall j | 0 <= j < |s'| && s'[j].Occupied?
      ensures PathClear(s', j)
    {
      assert PathClear(s, j);
    }
    var m' := m[c := v];
    forall j | 0 <= j < |s'| && s'[j].Occupied?
      ensures cls(s'[j].key) in m' && m'[cls(s'[j].key)] == s'[j].value
    {
      if j < i || i < j {
        assert cls(s[j].key) != c;
      }
    }
    forall c' | c' in m'
      ensures exists j: nat :: Holds(s', cls, j, c')
    {
      if c' == c {
        assert Holds(s', cls, i, c);
      } else {
        var j: nat :| Holds(s, cls, j, c');
        assert Holds(s', cls, j, c');
      }
    }
  }

  /** Turning an entry into a tombstone removes its binding. */
  lemma {:induction false} Deleted<K, V, C>(
    s: Table<K, V>, cls: K -> C, hashOf: C -> Word, m: map<C, V>, i: nat)
    requires i < |s| && s[i].Occupied? && WellFormed(s, cls, hashOf, m)
    ensures cls(s[i].key) in m
    ensures WellFormed(s[i := Tombstone], cls, hashOf, m - {cls(s[i].key)})
  {
    var s', c := s[i := Tombstone], cls(s[i].key);
    forall j | 0 <= j < |s'| && s'[j].Occupied?
      ensures PathClear(s', j)
      ensures cls(s'[j].key) != c
    {
      assert s[j].Occupied? && i != j;
      assert PathClear(s, j);
    }
    var m' := m - {c};
    forall c' | c' in m'
      ensures exists j: nat :: Holds(s', cls, j, c')
    {
      var j: nat :| Holds(s, cls, j, c');
      assert Holds(s', cls, j, c');
    }
  }

  /** A table of empty slots represents the empty map. */
  lemma {:induction false} AllEmpty<K, V, C>(s: Table<K, V>, cls: K -> C, hashOf: C -> Word)
    requires forall i :: 0 <= i < |s| ==> s[i].Empty?
    ensures WellFormed(s, cls, hashOf, map[])
    ensures CountOccupied(s) == 0 && CountTombstones(s) == 0
  {
    CountAllEmpty(s);
  }

  // ----- Rehashing

  /** `t` holds exactly the entries of `s`, and no tombstone. */
  ghost predicate SameEntries<K, V>(s: Table<K, V>, t: Table<K, V>) {
    && (forall j :: 0 <= j < |t| ==> !t[j].Tombstone?)
    && (forall j :: 0 <= j < |t| && t[j].Occupied? ==> t[j] in s)
    && (forall x :: x in s && x.Occupied? ==> x in t)
  }

  /** Moving every entry to a reachable slot of another table preserves the map. */
  lemma {:induction false} RehashPreserves<K, V, C>(
    s: Table<K, V>, t: Table<K, V>, cls: K -> C, hashOf: C -> Word, m: map<C, V>)
    requires WellFormed(s, cls, hashOf, m)
    requires SameEntries(s, t) && Reachable(t) && KeysDistinct(t, cls)
    ensures WellFormed(t, cls, hashOf, m)
  {
    forall j | 0 <= j < |t| && t[j].Occupied?
      ensures t[j].hash == hashOf(cls(t[j].key))
      ensures cls(t[j].key) in m && m[cls(t[j].key)] == t[j].value
    {
      var i :| 0 <= i < |s| && s[i] == t[j];
    }
    forall c | c in m
      ensures exists j: nat :: Holds(t, cls, j, c)
    {
      var i: nat :| Holds(s, cls, i, c);
      var j :| 0 <= j < |t| && t[j] == s[i];
      assert Holds(t, cls, j, c);
    }
  }
}
