/**
 The compact hash map: a sparse table of indices, probed by open addressing with tombstones, over
 a dense list of entries in insertion order.  It is proved to be the insertion-ordered map of
 module OrderedMap.  Collision telemetry is not modelled.
 */
module CompactHashMap {
  import opened Wrappers
  import opened Powers
  import opened ProbeSequence
  import OrderedMap

  const EMPTY := -1
  const DUMMY := -2

  datatype Entry<+K, +V> = Entry(hash: int, key: K, value: V, active: bool)

  /**
   The table as a value; the capacity is 2^bits and `depth[e]` is the number of probes that
   separate entry `e` from its home slot.
   */
  datatype Table<+K, +V> = Table(bits: nat, indices: seq<int>, entries: seq<Entry<K, V>>, depth: seq<nat>)

  ghost predicate Shape<K, V>(t: Table<K, V>) {
    t.bits >= 3 && |t.indices| == Pow2(t.bits) && |t.depth| == |t.entries|
  }

  ghost function SlotOf<K, V>(t: Table<K, V>, e: nat): nat
    requires Shape(t) && e < |t.entries|
  {
    Slot(t.entries[e].hash, |t.indices|, t.depth[e])
  }

  /** No probe for `hash` meets an empty slot before its n-th. */
  ghost predicate Clear(indices: seq<int>, hash: int, n: nat) {
    |indices| > 0 && forall m: nat :: m < n ==> indices[Slot(hash, |indices|, m)] != EMPTY
  }

  ghost predicate SlotsSound<K, V>(t: Table<K, V>)
    requires Shape(t)
  {
    forall i :: 0 <= i < |t.indices| ==>
      && (t.indices[i] == EMPTY || t.indices[i] == DUMMY || 0 <= t.indices[i] < |t.entries|)
      && (t.indices[i] >= 0 ==> t.entries[t.indices[i]].active && SlotOf(t, t.indices[i]) == i)
  }

  /** Every active entry is in its slot, and a probe for its hash gets there. */
  ghost predicate EntriesReachable<K, V>(t: Table<K, V>)
    requires Shape(t)
  {
    forall e :: 0 <= e < |t.entries| && t.entries[e].active ==>
      t.indices[SlotOf(t, e)] == e && Clear(t.indices, t.entries[e].hash, t.depth[e])
  }

  ghost predicate Hashed<K, V>(hash: K -> int, t: Table<K, V>) {
    forall e :: 0 <= e < |t.entries| ==> t.entries[e].hash == hash(t.entries[e].key)
  }

  ghost predicate DistinctKeys<K, V>(entries: seq<Entry<K, V>>) {
    forall d, e :: 0 <= d < e < |entries| && entries[d].active && entries[e].active ==>
      entries[d].key != entries[e].key
  }

  ghost function Used(indices: seq<int>): set<int> {
    set i | 0 <= i < |indices| && indices[i] != EMPTY
  }

  ghost predicate Ok<K, V>(hash: K -> int, t: Table<K, V>) {
    && Shape(t)
    && SlotsSound(t)
    && EntriesReachable(t)
    && Hashed(hash, t)
    && DistinctKeys(t.entries)
    && |Used(t.indices)| <= |t.entries|
    && |t.entries| * 3 < |t.indices| * 2
  }

  ghost predicate Matches<K, V>(t: Table<K, V>, idx: int, hash: int, key: K) {
    0 <= idx < |t.entries| && t.entries[idx].active && t.entries[idx].hash == hash && t.entries[idx].key == key
  }

  /** A probe for `key` ends at its n-th slot: the slot is empty or holds the key. */
  ghost predicate StopsAt<K, V>(t: Table<K, V>, hash: int, key: K, n: nat)
    requires |t.indices| > 0
  {
    var idx := t.indices[Slot(hash, |t.indices|, n)];
    idx == EMPTY || Matches(t, idx, hash, key)
  }

  // ----- There is always an empty slot, and a probe finds it -----

  ghost function Range(n: nat): (s: set<int>)
    ensures |s| == n && forall i :: i in s <==> 0 <= i < n
  {
    if n == 0 then {} else Range(n - 1) + {n - 1}
  }

  lemma EmptySlotExists(indices: seq<int>) returns (i: nat)
    requires |Used(indices)| < |indices|
    ensures i < |indices| && indices[i] == EMPTY
  {
    i := Outnumbered(Range(|indices|), Used(indices));
  }

  lemma ProbeEnds<K, V>(t: Table<K, V>, hash: int, key: K) returns (n: nat)
    requires Shape(t) && |Used(t.indices)| < |t.indices| && hash >= 0
    ensures t.indices[Slot(hash, |t.indices|, n)] == EMPTY && StopsAt(t, hash, key, n)
  {
    var i := EmptySlotExists(t.indices);
    n := VisitsAll(hash, t.bits, i);
  }

  /** A probe that reaches an empty slot has passed the key if it is anywhere in the table. */
  lemma AbsentIfUnmatched<K, V>(hash: K -> int, t: Table<K, V>, key: K, n: nat)
    requires Ok(hash, t)
    requires t.indices[Slot(hash(key), |t.indices|, n)] == EMPTY
    requires forall m: nat :: m < n ==> !StopsAt(t, hash(key), key, m)
    ensures forall e :: 0 <= e < |t.entries| && t.entries[e].active ==> t.entries[e].key != key
  {
    forall e | 0 <= e < |t.entries| && t.entries[e].active ensures t.entries[e].key != key {
      if t.entries[e].key == key {
        assert t.indices[Slot(hash(key), |t.indices|, t.depth[e])] == e;
        assert StopsAt(t, hash(key), key, t.depth[e]);
        assert false;
      }
    }
  }

  lemma UnmatchedIsClear<K, V>(t: Table<K, V>, hash: int, key: K, n: nat)
    requires Shape(t)
    requires forall m: nat :: m < n ==> !StopsAt(t, hash, key, m)
    ensures Clear(t.indices, hash, n)
  {
    forall m: nat | m < n ensures t.indices[Slot(hash, |t.indices|, m)] != EMPTY {
      assert !StopsAt(t, hash, key, m);
    }
  }

  // ----- The three updates of the table -----

  ghost function Insert<K, V>(t: Table<K, V>, slot: nat, entry: Entry<K, V>, n: nat): Table<K, V>
    requires slot < |t.indices|
  {
    Table(t.bits, t.indices[slot := |t.entries|], t.entries + [entry], t.depth + [n])
  }

  ghost function Kill<K, V>(t: Table<K, V>, e: nat): Table<K, V>
    requires Shape(t) && e < |t.entries|
  {
    t.(indices := t.indices[SlotOf(t, e) := DUMMY], entries := t.entries[e := t.entries[e].(active := false)])
  }

  ghost function Assign<K, V>(t: Table<K, V>, e: nat, value: V): Table<K, V>
    requires e < |t.entries|
  {
    t.(entries := t.entries[e := t.entries[e].(value := value)])
  }

  lemma InsertReachable<K, V>(t: Table<K, V>, slot: nat, entry: Entry<K, V>, n: nat)
    requires Shape(t) && SlotsSound(t) && EntriesReachable(t)
    requires slot < |t.indices| && t.indices[slot] < 0 && entry.active
    requires Slot(entry.hash, |t.indices|, n) == slot && Clear(t.indices, entry.hash, n)
    ensures var u := Insert(t, slot, entry, n); Shape(u) && SlotsSound(u) && EntriesReachable(u)
  {}

  lemma InsertKeeps<K, V>(hash: K -> int, t: Table<K, V>, slot: nat, entry: Entry<K, V>, n: nat)
    requires Ok(hash, t) && slot < |t.indices| && t.indices[slot] < 0
    requires entry.active && entry.hash == hash(entry.key)
    requires Slot(entry.hash, |t.indices|, n) == slot && Clear(t.indices, entry.hash, n)
    requires forall e :: 0 <= e < |t.entries| && t.entries[e].active ==> t.entries[e].key != entry.key
    requires (|t.entries| + 1) * 3 < |t.indices| * 2
    ensures Ok(hash, Insert(t, slot, entry, n))
  {
    var u := Insert(t, slot, entry, n);
    InsertReachable(t, slot, entry, n);
    assert Used(u.indices) == Used(t.indices) + {slot};
  }

  lemma KillKeeps<K, V>(hash: K -> int, t: Table<K, V>, e: nat)
    requires Ok(hash, t) && e < |t.entries| && t.entries[e].active
    ensures Ok(hash, Kill(t, e))
  {
    var u := Kill(t, e);
    assert forall d :: 0 <= d < |t.entries| ==> SlotOf(u, d) == SlotOf(t, d);
    assert Used(u.indices) == Used(t.indices);
  }

  lemma AssignKeeps<K, V>(hash: K -> int, t: Table<K, V>, e: nat, value: V)
    requires Ok(hash, t) && e < |t.entries|
    ensures Ok(hash, Assign(t, e, value))
  {}

  // ----- When a probe ends -----

  const HASH_MODULUS := 0x1FFF_FFFF_FFFF_FFFF

  /** CPython's hash of an integer: the sign and the absolute value modulo 2^61 - 1, but never -1. */
  function IntHash(key: int): int {
    var h := if key < 0 then -((-key) % HASH_MODULUS) else key % HASH_MODULUS;
    if h == -1 then -2 else h
  }

  ghost predicate Filled(t: Table<int, int>, slots: set<nat>) {
    && (forall i :: 0 <= i < |t.indices| ==> (t.indices[i] != EMPTY <==> i in slots))
    && (forall e :: 0 <= e < |t.entries| ==> t.entries[e].key >= 0 && t.entries[e].key in slots)
    && |t.entries| == |slots|
  }

  lemma FillOne(t: Table<int, int>, slots: set<nat>, i: nat) returns (u: Table<int, int>)
    requires Ok(IntHash, t) && Filled(t, slots) && i !in slots && i < |t.indices| && i < HASH_MODULUS
    requires (|slots| + 1) * 3 < |t.indices| * 2
    ensures Ok(IntHash, u) && u.bits == t.bits && Filled(u, slots + {i})
  {
    MaskSmall(i, |t.indices|);
    assert Slot(i, |t.indices|, 0) == i;
    InsertKeeps(IntHash, t, i, Entry(i, i, 0, true), 0);
    u := Insert(t, i, Entry(i, i, 0, true), 0);
  }

  /** A well-formed table whose occupied slots are exactly a given, not too large set. */
  lemma {:induction false} Fill(bits: nat, slots: set<nat>) returns (t: Table<int, int>)
    requires bits >= 3 && |slots| * 3 < Pow2(bits) * 2
    requires forall i :: i in slots ==> i < Pow2(bits) && i < HASH_MODULUS
    ensures Ok(IntHash, t) && t.bits == bits && Filled(t, slots)
  {
    if |slots| == 0 {
      t := Blank(bits);
      EmptyTable(IntHash, t);
    } else {
      var i := Outnumbered(slots, {});
      t := Fill(bits, slots - {i});
      OkMeans(IntHash, t);
      t := FillOne(t, slots - {i}, i);
      assert slots - {i} + {i} == slots;
    }
  }

  /** The slots a negative hash can ever probe leave a third of a large enough table free. */
  lemma StuckSlots(hash: int, t: nat, half: nat) returns (slots: set<nat>)
    requires StuckAfter(hash, t) && half > 3 * t
    ensures |slots| * 3 < 2 * half * 2
    ensures forall s :: s in slots ==> s < 2 * half
    ensures forall n: nat :: Slot(hash, 2 * half, n) in slots
  {
    hide Slot;
    var p := Slot(hash, 2 * half, t) % 2;
    var early, late := EarlySlots(hash, 2 * half, t), OfParity(p, half);
    slots := early + late;
    UnionSize(early, late);
    forall s | s in slots ensures s < 2 * half {
      if s in early { EarlyInRange(hash, 2 * half, t, s); }
    }
    forall n: nat ensures Slot(hash, 2 * half, n) in slots {
      VisitedIsFilled(hash, half, t, n);
    }
  }

  /** A table of 128 slots in which a probe for a given negative hash never ends. */
  lemma StuckTable(key: int) returns (t: Table<int, int>)
    requires IntHash(key) < 0
    ensures Ok(IntHash, t) && forall n: nat :: !StopsAt(t, IntHash(key), key, n)
  {
    var h := IntHash(key);
    assert Pow32(13) == 0x2_0000_0000_0000_0000 by {
      assert Pow32(4) == 32 * 32 * 32 * 32 && Pow32(8) == 32 * 32 * 32 * 32 * Pow32(4);
      assert Pow32(12) == 32 * 32 * 32 * 32 * Pow32(8);
    }
    PerturbSticksBy(h, 13, 13);
    assert Pow2(7) == 8 * Pow2(4) && Pow2(4) == 16;
    var slots := StuckSlots(h, 13, 64);
    t := Fill(7, slots);
  }

  lemma UnionSize<T>(a: set<T>, b: set<T>)
    ensures |a + b| <= |a| + |b|
  {}

  lemma {:induction false} EarlyInRange(hash: int, capacity: nat, t: nat, s: nat)
    requires capacity > 0 && s in EarlySlots(hash, capacity, t)
    ensures s < capacity
  {
    if t > 0 && s != Slot(hash, capacity, t - 1) { EarlyInRange(hash, capacity, t - 1, s); }
  }

  lemma VisitedIsFilled(hash: int, half: nat, t: nat, n: nat)
    requires StuckAfter(hash, t) && half > 0
    ensures Slot(hash, 2 * half, n) in EarlySlots(hash, 2 * half, t) + OfParity(Slot(hash, 2 * half, t) % 2, half)
  {
    hide Slot, StuckAfter, EarlySlots, OfParity;
    if n >= t {
      ParitySticks(hash, half, t, n);
      var s, p := Slot(hash, 2 * half, n), Slot(hash, 2 * half, t) % 2;
      OfParityHolds(p, half, (s - p) / 2);
    }
  }

  /** A probe for `key` ends somewhere. */
  ghost predicate Stops<K, V>(t: Table<K, V>, hash: int, key: K) {
    |t.indices| > 0 && exists n: nat :: StopsAt(t, hash, key, n)
  }

  /** Looking a key up ends in every well-formed table exactly when its hash is not negative. */
  lemma LookupEndsIffNotNegative(key: int)
    ensures IntHash(key) >= 0 <==> forall t: Table<int, int> :: Ok(IntHash, t) ==> Stops(t, IntHash(key), key)
  {
    if IntHash(key) >= 0 {
      forall t: Table<int, int> | Ok(IntHash, t) ensures Stops(t, IntHash(key), key) {
        var n := ProbeEnds(t, IntHash(key), key);
      }
    } else {
      var t := StuckTable(key);
    }
  }

  // ----- Rebuilding the table -----

  ghost function Blank<K, V>(bits: nat): Table<K, V> {
    Table(bits, seq(Pow2(bits), _ => EMPTY), [], [])
  }

  /** The n-th probe for `hash` is the first to meet an empty slot. */
  ghost predicate FirstEmpty(indices: seq<int>, hash: int, n: nat) {
    Clear(indices, hash, n) && indices[Slot(hash, |indices|, n)] == EMPTY
  }

  /** The n-th probe for `hash` is the first to meet an empty slot or a tombstone. */
  ghost predicate FirstFree(indices: seq<int>, hash: int, n: nat) {
    && |indices| > 0 && indices[Slot(hash, |indices|, n)] < 0
    && forall m: nat :: m < n ==> indices[Slot(hash, |indices|, m)] >= 0
  }

  /** `u` is `t` with the entry added at the first free slot of its probe. */
  ghost predicate StoredAt<K, V>(t: Table<K, V>, entry: Entry<K, V>, u: Table<K, V>, n: nat) {
    FirstFree(t.indices, entry.hash, n) && u == Insert(t, Slot(entry.hash, |t.indices|, n), entry, n)
  }

  ghost predicate Stored<K, V>(t: Table<K, V>, entry: Entry<K, V>, u: Table<K, V>) {
    exists n: nat :: StoredAt(t, entry, u, n)
  }

  ghost predicate Placeable(indices: seq<int>, hash: int) {
    exists n: nat :: FirstEmpty(indices, hash, n)
  }

  lemma FirstEmptyUnique(indices: seq<int>, hash: int, m: nat, n: nat)
    requires FirstEmpty(indices, hash, m) && FirstEmpty(indices, hash, n)
    ensures m == n
  {}

  ghost function Placed<K, V>(t: Table<K, V>, entry: Entry<K, V>): Table<K, V>
    requires Placeable(t.indices, entry.hash)
  {
    var n: nat :| FirstEmpty(t.indices, entry.hash, n);
    Insert(t, Slot(entry.hash, |t.indices|, n), entry, n)
  }

  /** Re-indexing the active ones of the entries ends, one after the other. */
  ghost predicate Rebuilds<K, V>(t: Table<K, V>, rest: seq<Entry<K, V>>)
    decreases |rest|
  {
    if rest == [] then true
    else if !rest[0].active then Rebuilds(t, rest[1..])
    else Placeable(t.indices, rest[0].hash) && Rebuilds(Placed(t, rest[0]), rest[1..])
  }

  ghost function Rebuilt<K, V>(t: Table<K, V>, rest: seq<Entry<K, V>>): Table<K, V>
    requires Rebuilds(t, rest)
    decreases |rest|
  {
    if rest == [] then t
    else if !rest[0].active then Rebuilt(t, rest[1..])
    else Rebuilt(Placed(t, rest[0]), rest[1..])
  }

  ghost predicate Absent<K, V>(t: Table<K, V>, key: K) {
    forall e :: 0 <= e < |t.entries| && t.entries[e].active ==> t.entries[e].key != key
  }

  ghost predicate Full<K, V>(t: Table<K, V>) {
    (|t.entries| + 1) * 3 >= |t.indices| * 2
  }

  /** Every probe that storing `key` makes ends: the lookup, and where the table is rebuilt, its probes too. */
  ghost predicate Storable<K, V>(t: Table<K, V>, hash: int, key: K) {
    && Stops(t, hash, key)
    && (Absent(t, key) && Full(t) ==>
          && Rebuilds(Blank(t.bits + 1), t.entries)
          && Stops(Rebuilt(Blank(t.bits + 1), t.entries), hash, key))
  }

  // ----- The entries as an insertion-ordered map -----

  ghost function Items<K, V>(entries: seq<Entry<K, V>>): seq<(K, V)> {
    if entries == [] then []
    else if entries[0].active then [(entries[0].key, entries[0].value)] + Items(entries[1..])
    else Items(entries[1..])
  }

  lemma {:induction false} ItemsAppend<K, V>(a: seq<Entry<K, V>>, b: seq<Entry<K, V>>)
    ensures Items(a + b) == Items(a) + Items(b)
  {
    if a == [] {
      assert a + b == b;
    } else {
      assert (a + b)[1..] == a[1..] + b;
      ItemsAppend(a[1..], b);
    }
  }

  lemma ItemsInactive<K, V>(entry: Entry<K, V>)
    requires !entry.active
    ensures Items([entry]) == []
  {}

  lemma {:induction false} FindItems<K, V>(entries: seq<Entry<K, V>>, e: nat)
    requires DistinctKeys(entries) && e < |entries| && entries[e].active
    ensures OrderedMap.Find(Items(entries), entries[e].key) == Some(entries[e].value)
  {
    assert entries[0].active ==> Items(entries)[1..] == Items(entries[1..]);
    if e > 0 { FindItems(entries[1..], e - 1); }
  }

  lemma {:induction false} FindItemsNone<K, V>(entries: seq<Entry<K, V>>, key: K)
    requires forall e :: 0 <= e < |entries| && entries[e].active ==> entries[e].key != key
    ensures OrderedMap.Find(Items(entries), key) == None
  {
    if entries != [] {
      assert entries[0].active ==> Items(entries)[1..] == Items(entries[1..]);
      FindItemsNone(entries[1..], key);
    }
  }

  lemma {:induction false} ItemsNew<K, V>(entries: seq<Entry<K, V>>, entry: Entry<K, V>)
    requires entry.active
    requires forall e :: 0 <= e < |entries| && entries[e].active ==> entries[e].key != entry.key
    ensures Items(entries + [entry]) == OrderedMap.Put(Items(entries), entry.key, entry.value)
  {
    if entries == [] {
      assert entries + [entry] == [entry] && [entry][1..] == [];
    } else {
      assert (entries + [entry])[1..] == entries[1..] + [entry];
      assert entries[0].active ==> Items(entries)[1..] == Items(entries[1..]);
      ItemsNew(entries[1..], entry);
    }
  }

  lemma {:induction false} ItemsAssign<K, V>(entries: seq<Entry<K, V>>, e: nat, value: V)
    requires DistinctKeys(entries) && e < |entries| && entries[e].active
    ensures Items(entries[e := entries[e].(value := value)]) ==
              OrderedMap.Put(Items(entries), entries[e].key, value)
  {
    assert entries[0].active ==> Items(entries)[1..] == Items(entries[1..]);
    if e == 0 {
      assert entries[e := entries[e].(value := value)][1..] == entries[1..];
    } else {
      assert entries[e := entries[e].(value := value)][1..] ==
             entries[1..][e - 1 := entries[1..][e - 1].(value := value)];
      ItemsAssign(entries[1..], e - 1, value);
    }
  }

  lemma {:induction false} ItemsKill<K, V>(entries: seq<Entry<K, V>>, e: nat)
    requires DistinctKeys(entries) && e < |entries| && entries[e].active
    ensures Items(entries[e := entries[e].(active := false)]) ==
              OrderedMap.Remove(Items(entries), entries[e].key)
  {
    assert entries[0].active ==> Items(entries)[1..] == Items(entries[1..]);
    if e == 0 {
      assert entries[e := entries[e].(active := false)][1..] == entries[1..];
    } else {
      assert entries[e := entries[e].(active := false)][1..] ==
             entries[1..][e - 1 := entries[1..][e - 1].(active := false)];
      ItemsKill(entries[1..], e - 1);
    }
  }

  lemma {:induction false} ItemsDistinct<K, V>(entries: seq<Entry<K, V>>)
    requires DistinctKeys(entries)
    ensures forall i, j :: 0 <= i < j < |Items(entries)| ==> Items(entries)[i].0 != Items(entries)[j].0
  {
    if entries != [] {
      var rest := Items(entries[1..]);
      ItemsDistinct(entries[1..]);
      if entries[0].active {
        FindItemsNone(entries[1..], entries[0].key);
        OrderedMap.FindIffKey(rest, entries[0].key);
        assert forall j :: 0 <= j < |rest| ==> OrderedMap.Keys(rest)[j] == rest[j].0;
        assert Items(entries) == [(entries[0].key, entries[0].value)] + rest;
      }
    }
  }

  // ----- Steps of the methods, stated on the table as a value -----

  lemma PlacedAt<K, V>(t: Table<K, V>, entry: Entry<K, V>, n: nat)
    requires FirstEmpty(t.indices, entry.hash, n)
    ensures Placeable(t.indices, entry.hash)
    ensures Placed(t, entry) == Insert(t, Slot(entry.hash, |t.indices|, n), entry, n)
  {
    var m: nat :| FirstEmpty(t.indices, entry.hash, m) && Placed(t, entry) == Insert(t, Slot(entry.hash, |t.indices|, m), entry, m);
    FirstEmptyUnique(t.indices, entry.hash, m, n);
  }

  lemma RebuildOne<K, V>(t: Table<K, V>, rest: seq<Entry<K, V>>)
    requires Rebuilds(t, rest) && rest != []
    ensures !rest[0].active ==> Rebuilds(t, rest[1..]) && Rebuilt(t, rest) == Rebuilt(t, rest[1..])
    ensures rest[0].active ==>
              && Placeable(t.indices, rest[0].hash) && Rebuilds(Placed(t, rest[0]), rest[1..])
              && Rebuilt(t, rest) == Rebuilt(Placed(t, rest[0]), rest[1..])
  {}

  lemma NothingToRebuild<K, V>(t: Table<K, V>)
    ensures Rebuilds(t, []) && Rebuilt(t, []) == t
  {}

  lemma {:induction false} FirstEmptyBefore(indices: seq<int>, hash: int, n: nat) returns (m: nat)
    requires |indices| > 0 && indices[Slot(hash, |indices|, n)] == EMPTY
    ensures FirstEmpty(indices, hash, m)
    decreases n
  {
    if k: nat :| k < n && indices[Slot(hash, |indices|, k)] == EMPTY {
      m := FirstEmptyBefore(indices, hash, k);
    } else {
      m := n;
    }
  }

  /** Entries whose hashes are not negative can always be re-indexed in a table with room for them. */
  lemma {:induction false} RebuildsIfNotNegative<K, V>(t: Table<K, V>, rest: seq<Entry<K, V>>)
    requires Shape(t) && |Used(t.indices)| + |rest| < |t.indices|
    requires forall i :: 0 <= i < |rest| && rest[i].active ==> rest[i].hash >= 0
    ensures Rebuilds(t, rest)
    ensures var u := Rebuilt(t, rest); Shape(u) && |Used(u.indices)| < |u.indices|
    decreases |rest|
  {
    if rest != [] {
      if rest[0].active {
        var entry := rest[0];
        var n := ProbeEnds(t, entry.hash, entry.key);
        n := FirstEmptyBefore(t.indices, entry.hash, n);
        PlacedAt(t, entry, n);
        var u := Placed(t, entry);
        assert Used(u.indices) == Used(t.indices) + {Slot(entry.hash, |t.indices|, n)};
        RebuildsIfNotNegative(u, rest[1..]);
      } else {
        RebuildsIfNotNegative(t, rest[1..]);
      }
    }
  }

  /** As long as no hash is negative every key can be stored. */
  lemma StorableIfNotNegative<K, V>(hash: K -> int, t: Table<K, V>, key: K)
    requires Ok(hash, t) && hash(key) >= 0
    requires forall e :: 0 <= e < |t.entries| && t.entries[e].active ==> t.entries[e].hash >= 0
    ensures Storable(t, hash(key), key)
  {
    hide SlotsSound, EntriesReachable, Hashed, DistinctKeys, Rebuilds, Rebuilt, Slot;
    var n := ProbeEnds(t, hash(key), key);
    var blank := Blank<K, V>(t.bits + 1);
    assert Used(blank.indices) == {} && |blank.indices| == 2 * |t.indices|;
    RebuildsIfNotNegative(blank, t.entries);
    var m := ProbeEnds(Rebuilt(blank, t.entries), hash(key), key);
  }

  lemma RoomAfterDoubling<K, V>(hash: K -> int, t: Table<K, V>)
    requires Ok(hash, t)
    ensures (|t.entries| + 1) * 3 < |t.indices| * 2 * 2
  {}

  lemma EmptyTable<K, V>(hash: K -> int, t: Table<K, V>)
    requires t.bits >= 3 && t.entries == [] && t.depth == []
    requires |t.indices| == Pow2(t.bits) && forall i :: 0 <= i < |t.indices| ==> t.indices[i] == EMPTY
    ensures Ok(hash, t)
  {}

  lemma OkMeans<K, V>(hash: K -> int, t: Table<K, V>)
    requires Ok(hash, t)
    ensures t.bits >= 3 && |t.indices| == Pow2(t.bits) && Hashed(hash, t) && DistinctKeys(t.entries)
  {}

  lemma StillAbsent<K, V>(oldEntries: seq<Entry<K, V>>, k: nat, entries: seq<Entry<K, V>>)
    requires DistinctKeys(oldEntries) && DistinctKeys(entries) && k < |oldEntries| && oldEntries[k].active
    requires Items(entries) == Items(oldEntries[..k])
    ensures forall e :: 0 <= e < |entries| && entries[e].active ==> entries[e].key != oldEntries[k].key
  {
    FindItemsNone(oldEntries[..k], oldEntries[k].key);
    forall e | 0 <= e < |entries| && entries[e].active ensures entries[e].key != oldEntries[k].key {
      FindItems(entries, e);
    }
  }

  lemma ItemsExtended<K, V>(entries: seq<Entry<K, V>>, entry: Entry<K, V>)
    requires entry.active
    requires forall e :: 0 <= e < |entries| && entries[e].active ==> entries[e].key != entry.key
    ensures Items(entries + [entry]) == OrderedMap.Put(Items(entries), entry.key, entry.value)
    ensures |Items(entries + [entry])| == |Items(entries)| + 1
    ensures OrderedMap.Find(Items(entries), entry.key) == None
  {
    ItemsNew(entries, entry);
    FindItemsNone(entries, entry.key);
    OrderedMap.PutKeys(Items(entries), entry.key, entry.value);
  }

  lemma ItemsAssigned<K, V>(hash: K -> int, t: Table<K, V>, e: nat, value: V)
    requires Ok(hash, t) && e < |t.entries| && t.entries[e].active
    ensures Ok(hash, Assign(t, e, value))
    ensures Items(Assign(t, e, value).entries) == OrderedMap.Put(Items(t.entries), t.entries[e].key, value)
    ensures |Items(Assign(t, e, value).entries)| == |Items(t.entries)|
    ensures OrderedMap.Find(Items(t.entries), t.entries[e].key).Some?
  {
    AssignKeeps(hash, t, e, value);
    ItemsAssign(t.entries, e, value);
    FindItems(t.entries, e);
    OrderedMap.PutKeys(Items(t.entries), t.entries[e].key, value);
  }

  lemma {:induction false} RemoveShortens<K, V>(items: seq<(K, V)>, key: K)
    ensures |OrderedMap.Remove(items, key)| == |items| - (if OrderedMap.Find(items, key).Some? then 1 else 0)
    ensures OrderedMap.Find(items, key).None? ==> OrderedMap.Remove(items, key) == items
  {
    if items != [] { RemoveShortens(items[1..], key); }
  }

  lemma ItemsAbsent<K, V>(entries: seq<Entry<K, V>>, key: K)
    requires forall e :: 0 <= e < |entries| && entries[e].active ==> entries[e].key != key
    ensures OrderedMap.Find(Items(entries), key) == None
    ensures OrderedMap.Remove(Items(entries), key) == Items(entries)
  {}

  lemma ItemsRemoved<K, V>(hash: K -> int, t: Table<K, V>, e: nat)
    requires Ok(hash, t) && e < |t.entries| && t.entries[e].active
    ensures Ok(hash, Kill(t, e)) && t.indices[SlotOf(t, e)] == e
    ensures forall i :: 0 <= i < |t.indices| && t.indices[i] == e ==> i == SlotOf(t, e)
    ensures Items(Kill(t, e).entries) == OrderedMap.Remove(Items(t.entries), t.entries[e].key)
    ensures |Items(Kill(t, e).entries)| == |Items(t.entries)| - 1
    ensures OrderedMap.Find(Items(t.entries), t.entries[e].key).Some?
  {
    KillKeeps(hash, t, e);
    ItemsKill(t.entries, e);
    FindItems(t.entries, e);
    RemoveShortens(Items(t.entries), t.entries[e].key);
  }

  // ----- The class -----

  class HashMap<K(==), V> {
    const hash: K -> int
    var capacity: nat
    var indices: seq<int>
    var entries: seq<Entry<K, V>>
    var size: nat
    ghost var bits: nat
    ghost var depth: seq<nat>

    ghost function T(): Table<K, V>
      reads this
    {
      Table(bits, indices, entries, depth)
    }

    ghost function Contents(): seq<(K, V)>
      reads this
    {
      Items(entries)
    }

    ghost predicate Valid()
      reads this
    {
      Ok(hash, T()) && capacity == |indices| && size == |Contents()|
    }

    constructor (hash: K -> int, initialCapacity: nat)
      ensures Valid() && Contents() == [] && this.hash == hash && T() == Blank(bits)
      ensures capacity >= initialCapacity && (initialCapacity <= 8 ==> capacity == 8)
    {
      this.hash := hash;
      var c, b := 8, 3;
      assert Pow2(3) == 8 * Pow2(0);
      while c < initialCapacity
        invariant c == Pow2(b) && b >= 3 && (initialCapacity <= 8 ==> c == 8)
        decreases initialCapacity - c
      {
        c, b := 2 * c, b + 1;
      }
      capacity, indices, entries, size := c, seq(c, _ => EMPTY), [], 0;
      bits, depth := b, [];
      new;
      assert Used(indices) == {};
    }

    method Lookup(key: K, hashVal: int)
      returns (slot: nat, entryIndex: int, firstDummy: Option<nat>, ghost n: nat)
      requires Valid() && hashVal == hash(key)
      requires Stops(T(), hashVal, key)
      ensures slot < capacity && slot == Slot(hashVal, capacity, n) && Clear(indices, hashVal, n)
      ensures entryIndex == EMPTY ==> FirstFree(indices, hashVal, n) && Absent(T(), key)
      ensures entryIndex != EMPTY ==>
                && 0 <= entryIndex < |entries| && indices[slot] == entryIndex
                && entries[entryIndex].active && entries[entryIndex].key == key
    {
      hide EntriesReachable, Hashed, DistinctKeys, Used, Items, Mask;
      var i := Mask(hashVal, capacity);
      var perturb := hashVal;
      firstDummy := None;
      n := 0;
      ghost var dummyAt: nat := 0;
      ghost var stop: nat :| StopsAt(T(), hashVal, key, stop);
      while true
        invariant i == Slot(hashVal, capacity, n) && perturb == Perturb(hashVal, n) && n <= stop
        invariant forall m: nat :: m < n ==> !StopsAt(T(), hashVal, key, m)
        invariant firstDummy.Some? ==>
                    && dummyAt < n && firstDummy.value == Slot(hashVal, capacity, dummyAt)
                    && firstDummy.value < capacity && indices[firstDummy.value] == DUMMY
        invariant forall m: nat :: m < (if firstDummy.Some? then dummyAt else n) ==> indices[Slot(hashVal, capacity, m)] >= 0
        decreases stop - n
      {
        UnmatchedIsClear(T(), hashVal, key, n);
        var idx := indices[i];
        if idx == EMPTY {
          AbsentIfUnmatched(hash, T(), key, n);
          if firstDummy.Some? {
            return firstDummy.value, EMPTY, firstDummy, dummyAt;
          }
          return i, EMPTY, firstDummy, n;
        }
        if idx == DUMMY {
          if firstDummy.None? {
            firstDummy, dummyAt := Some(i), n;
          }
        } else {
          var entry := entries[idx];
          if entry.active && entry.hash == hashVal && entry.key == key {
            return i, idx, firstDummy, n;
          }
        }
        assert !StopsAt(T(), hashVal, key, n);
        i := Mask(5 * i + 1 + perturb, capacity);
        perturb := perturb / 32;
        n := n + 1;
      }
    }

    /** Copies the active entries into an empty table of the new capacity. */
    method Resize(newCapacity: nat)
      requires Valid() && newCapacity == 2 * capacity && Rebuilds(Blank(bits + 1), entries)
      modifies this
      ensures Valid() && Contents() == old(Contents())
      ensures T() == Rebuilt(Blank(old(bits) + 1), old(entries))
      ensures capacity == newCapacity && |entries| <= |old(entries)|
    {
      hide Ok, DistinctKeys, Items, Rebuilds, Rebuilt;
      RoomAfterDoubling(hash, T());
      OkMeans(hash, T());
      var oldEntries := entries;
      entries := [];
      indices := seq(newCapacity, _ => EMPTY);
      capacity := newCapacity;
      bits, depth := bits + 1, [];
      EmptyTable(hash, T());
      ghost var blank := T();
      assert oldEntries[..0] == [] && oldEntries[0..] == oldEntries && Items(oldEntries[..0]) == Items(entries);
      for k := 0 to |oldEntries|
        invariant Ok(hash, T()) && capacity == |indices| == newCapacity && |entries| <= k
        invariant Items(entries) == Items(oldEntries[..k]) && size == old(size)
        invariant Rebuilds(T(), oldEntries[k..]) && Rebuilt(T(), oldEntries[k..]) == Rebuilt(blank, oldEntries)
      {
        var entry := oldEntries[k];
        assert oldEntries[..k + 1] == oldEntries[..k] + [entry];
        assert oldEntries[k..][0] == entry && oldEntries[k..][1..] == oldEntries[k + 1..];
        RebuildOne(T(), oldEntries[k..]);
        ItemsAppend(oldEntries[..k], [entry]);
        if entry.active {
          OkMeans(hash, T());
          StillAbsent(oldEntries, k, entries);
          ItemsAppend(entries, [entry]);
          Place(entry);
        } else {
          ItemsInactive(entry);
        }
      }
      assert oldEntries[..|oldEntries|] == oldEntries && oldEntries[|oldEntries|..] == [];
      NothingToRebuild(T());
    }

    /** Appends an entry and probes for the first empty slot to index it in. */
    method Place(entry: Entry<K, V>)
      requires Ok(hash, T()) && capacity == |indices|
      requires entry.active && entry.hash == hash(entry.key) && Placeable(indices, entry.hash)
      requires (|entries| + 1) * 3 < capacity * 2
      requires Absent(T(), entry.key)
      modifies this
      ensures Ok(hash, T()) && capacity == |indices| == old(capacity) && size == old(size)
      ensures T() == Placed(old(T()), entry) && entries == old(entries) + [entry]
    {
      hide Ok, Mask;
      ghost var before := T();
      OkMeans(hash, before);
      ghost var stop: nat :| FirstEmpty(indices, entry.hash, stop);
      var i := Mask(entry.hash, capacity);
      var perturb := entry.hash;
      ghost var n: nat := 0;
      while indices[i] != EMPTY
        invariant i == Slot(entry.hash, capacity, n) && perturb == Perturb(entry.hash, n) && n <= stop
        invariant Clear(indices, entry.hash, n)
        decreases stop - n
      {
        i := Mask(5 * i + 1 + perturb, capacity);
        perturb := perturb / 32;
        n := n + 1;
      }
      PlacedAt(before, entry, n);
      InsertKeeps(hash, before, i, entry, n);
      indices := indices[i := |entries|];
      entries := entries + [entry];
      depth := depth + [n];
    }

    /** The probes it makes have to end; that is all it asks. */
    method SetItem(key: K, value: V)
      requires Valid() && Storable(T(), hash(key), key)
      modifies this
      ensures Valid() && Contents() == OrderedMap.Put(old(Contents()), key, value)
      ensures Absent(old(T()), key) ==>
                Stored(if Full(old(T())) then Rebuilt(Blank(old(bits) + 1), old(entries)) else old(T()),
                       Entry(hash(key), key, value, true), T())
    {
      hide Ok, Rebuilds, Rebuilt, FirstFree, Clear, Stops, Items;
      var hashVal := hash(key);
      var slot, entryIndex, firstDummy;
      ghost var n;
      slot, entryIndex, firstDummy, n := Lookup(key, hashVal);
      if entryIndex != EMPTY {
        ItemsAssigned(hash, T(), entryIndex, value);
        entries := entries[entryIndex := entries[entryIndex].(value := value)];
        return;
      }
      if (|entries| + 1) * 3 >= capacity * 2 {
        RoomAfterDoubling(hash, T());
        FindItemsNone(entries, key);
        Resize(2 * capacity);
        slot, entryIndex, firstDummy, n := Lookup(key, hashVal);
        if entryIndex != EMPTY {
          ItemsAssigned(hash, T(), entryIndex, value);
          assert false;
        }
      }
      ghost var before := T();
      Append(key, value, hashVal, slot, n);
      assert StoredAt(before, Entry(hashVal, key, value, true), T(), n);
    }

    /** Adds an entry for a key that is absent, in the free slot its lookup has found. */
    method Append(key: K, value: V, hashVal: int, slot: nat, ghost n: nat)
      requires Valid() && hashVal == hash(key) && Absent(T(), key) && !Full(T())
      requires FirstFree(indices, hashVal, n) && Clear(indices, hashVal, n) && slot == Slot(hashVal, capacity, n)
      modifies this
      ensures Valid() && Contents() == OrderedMap.Put(old(Contents()), key, value)
      ensures T() == Insert(old(T()), slot, Entry(hashVal, key, value, true), n)
    {
      hide Ok;
      var entry := Entry(hashVal, key, value, true);
      ItemsExtended(entries, entry);
      InsertKeeps(hash, T(), slot, entry, n);
      var newEntryIndex := |entries|;
      entries := entries + [entry];
      indices := indices[slot := newEntryIndex];
      depth := depth + [n];
      size := size + 1;
    }

    /** `__getitem__`; None stands for KeyError. */
    method GetItem(key: K) returns (value: Option<V>)
      requires Valid() && Stops(T(), hash(key), key)
      ensures value == OrderedMap.Find(Contents(), key)
    {
      var hashVal := hash(key);
      var _, entryIndex, _, _ := Lookup(key, hashVal);
      if entryIndex == EMPTY {
        FindItemsNone(entries, key);
        return None;
      }
      FindItems(entries, entryIndex);
      return Some(entries[entryIndex].value);
    }

    method Delete(key: K) returns (removed: bool)
      requires Valid() && Stops(T(), hash(key), key)
      modifies this
      ensures Valid() && Contents() == OrderedMap.Remove(old(Contents()), key)
      ensures removed <==> OrderedMap.Find(old(Contents()), key).Some?
    {
      hide Ok;
      var hashVal := hash(key);
      var slot, entryIndex, _, _ := Lookup(key, hashVal);
      if entryIndex == EMPTY {
        ItemsAbsent(entries, key);
        return false;
      }
      ItemsRemoved(hash, T(), entryIndex);
      entries := entries[entryIndex := entries[entryIndex].(active := false)];
      indices := indices[slot := DUMMY];
      size := size - 1;
      return true;
    }
  }

  // ----- A lookup that never ends -----

  lemma StoredInHomeSlot<K, V>(t: Table<K, V>, entry: Entry<K, V>, u: Table<K, V>)
    requires |t.indices| > 0 && Stored(t, entry, u) && t.indices[Slot(entry.hash, |t.indices|, 0)] == EMPTY
    ensures u == Insert(t, Slot(entry.hash, |t.indices|, 0), entry, 0)
  {
    var n: nat :| StoredAt(t, entry, u, n);
  }

  lemma TakenSlotsNeverEnd(t: Table<int, int>, n: nat)
    requires |t.indices| == 8 && forall e :: 0 <= e < |t.entries| ==> t.entries[e].key != -8
    requires t.indices[0] >= 0 && t.indices[1] >= 0 && t.indices[5] >= 0
    ensures !StopsAt(t, IntHash(-8), -8, n)
  {
    NegativeHashStuck(n);
  }

  /** Stores one key that is absent, in its home slot. */
  method StoreSmall(m: HashMap<int, int>, key: nat)
    requires m.Valid() && m.hash == IntHash && m.capacity == 8 && key < 8 && |m.entries| < 4
    requires Absent(m.T(), key) && m.indices[key] == EMPTY
    requires forall e :: 0 <= e < |m.entries| ==> 0 <= m.entries[e].key < 8
    modifies m
    ensures m.Valid() && m.capacity == 8
    ensures m.entries == old(m.entries) + [Entry(key, key, 0, true)]
    ensures m.indices == old(m.indices)[key := |old(m.entries)|] && m.Contents() == old(m.Contents()) + [(key, 0)]
  {
    hide SlotsSound, EntriesReachable, Rebuilds, Rebuilt, Stored;
    ghost var before := m.T();
    MaskSmall(key, 8);
    assert IntHash(key) == key && Slot(key, 8, 0) == key && !Full(before);
    StorableIfNotNegative(IntHash, before, key);
    m.SetItem(key, 0);
    StoredInHomeSlot(before, Entry(key, key, 0, true), m.T());
    ItemsAppend(before.entries, [Entry(key, key, 0, true)]);
  }

  /** After storing the keys 0, 1 and 5 in a new map, looking up -8 never ends. */
  method MinusEightNeverEnds() returns (m: HashMap<int, int>)
    ensures fresh(m) && m.Valid() && m.hash == IntHash && m.Contents() == [(0, 0), (1, 0), (5, 0)]
    ensures forall n: nat :: !StopsAt(m.T(), IntHash(-8), -8, n)
  {
    hide SlotsSound, EntriesReachable, Hashed, Rebuilds, Rebuilt;
    m := new HashMap(IntHash, 8);
    StoreSmall(m, 0);
    StoreSmall(m, 1);
    StoreSmall(m, 5);
    forall n: nat ensures !StopsAt(m.T(), IntHash(-8), -8, n) {
      TakenSlotsNeverEnd(m.T(), n);
    }
  }
}
