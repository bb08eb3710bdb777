/** BufMap: an open-addressing map from byte keys to entries, probing linearly over a 64-bit hash that may
    collide and wraps at 2^64.  Removal leaves no tombstone, so it can open a hole in a probe cluster. */
module BufMaps {
  import opened Bytes

  /** An entry and the key its MapKey returns. */
  datatype Entry<+T> = Entry(key: seq<byte>, payload: T)

  type Slots<T> = map<u64, Entry<T>>

  type Hash = seq<byte> -> u64

  // ---- the ring of slots ----

  function Next(at: u64): u64 {
    if at == 0xFFFF_FFFF_FFFF_FFFF then 0 else at + 1
  }

  /** Probe steps from one slot to another, going round. */
  ghost function Dist(start: u64, end: u64): nat {
    if end >= start then end - start else end - start + TWO_64
  }

  /** Both as 64-bit arithmetic that wraps. */
  lemma RingIsModular(at: u64, end: u64)
    ensures Next(at) == (at + 1) % TWO_64 && Dist(at, end) == (end - at) % TWO_64
  {
  }

  /** The slots a probe starting at home passes before it gets to at. */
  ghost predicate Passes(home: u64, at: u64, slot: u64) {
    Dist(home, slot) < Dist(home, at)
  }

  /** The slots below n that are in use. */
  lemma {:induction false} UsedBelow(used: set<u64>, n: nat)
    requires n <= TWO_64 && forall slot: u64 | slot < n :: slot in used
    ensures n <= |used|
  {
    if n > 0 {
      var last: u64 := n - 1;
      UsedBelow(used - {last}, n - 1);
    }
  }

  /** Fewer than 2^64 entries leave a slot for every probe to stop at. */
  lemma SomeSlotIsFree<T>(slots: Slots<T>) returns (free: u64)
    requires |slots| < TWO_64
    ensures free !in slots
  {
    if forall x: u64 :: x in slots {
      UsedBelow(slots.Keys, TWO_64);
    }
    free :| free !in slots;
  }

  // ---- probing ----

  /** Where a probe for key ends: the first slot, from the key's hash on, that is free or holds the key. */
  ghost predicate StopsAt<T>(hash: Hash, slots: Slots<T>, key: seq<byte>, at: u64) {
    && (forall slot: u64 | Passes(hash(key), at, slot) :: slot in slots && slots[slot].key != key)
    && (at in slots ==> slots[at].key == key)
  }

  lemma StopIsUnique<T>(hash: Hash, slots: Slots<T>, key: seq<byte>, a: u64, b: u64)
    requires StopsAt(hash, slots, key, a) && StopsAt(hash, slots, key, b)
    ensures a == b
  {
    assert !Passes(hash(key), a, b) && !Passes(hash(key), b, a);
  }

  function Occupant<T>(slots: Slots<T>, at: u64): Option<Entry<T>> {
    if at in slots then Some(slots[at]) else None
  }

  // ---- what the table stands for ----

  ghost predicate DistinctKeys<T>(slots: Slots<T>) {
    forall a: u64, b: u64 | a in slots && b in slots && slots[a].key == slots[b].key :: a == b
  }

  /** Every entry can be reached: no free slot between its hash and where it sits. */
  ghost predicate NoHoles<T>(hash: Hash, slots: Slots<T>) {
    forall at: u64, slot: u64 | at in slots && Passes(hash(slots[at].key), at, slot) :: slot in slots
  }

  ghost predicate Tidy<T>(hash: Hash, slots: Slots<T>) {
    DistinctKeys(slots) && NoHoles(hash, slots)
  }

  ghost predicate Holds<T>(slots: Slots<T>, at: u64, key: seq<byte>) {
    at in slots && slots[at].key == key
  }

  /** The plain map the table stands for, hash and layout forgotten. */
  ghost function Lookup<T>(slots: Slots<T>, key: seq<byte>): Option<Entry<T>> {
    if at: u64 :| Holds(slots, at, key) then Some(slots[at]) else None
  }

  lemma LookupIs<T>(slots: Slots<T>, key: seq<byte>, at: u64)
    requires DistinctKeys(slots) && Holds(slots, at, key)
    ensures Lookup(slots, key) == Some(slots[at])
  {
  }

  /** In a tidy table the probe finds a key exactly when the key is stored anywhere. */
  lemma ProbeFindsContents<T>(hash: Hash, slots: Slots<T>, key: seq<byte>, at: u64)
    requires Tidy(hash, slots) && StopsAt(hash, slots, key, at)
    ensures Occupant(slots, at) == Lookup(slots, key)
  {
    if home: u64 :| Holds(slots, home, key) {
      LookupIs(slots, key, home);
      assert !Passes(hash(key), at, home);
      assert at !in slots ==> !Passes(hash(slots[home].key), home, at);
    } else {
      assert !Holds(slots, at, key);
    }
  }

  // ---- Put ----

  ghost predicate Updates<T>(slots: Slots<T>, entry: Entry<T>, updated: Slots<T>) {
    forall key :: Lookup(updated, key) == if key == entry.key then Some(entry) else Lookup(slots, key)
  }

  lemma StoringKeepsTidy<T>(hash: Hash, slots: Slots<T>, entry: Entry<T>, at: u64)
    requires Tidy(hash, slots) && StopsAt(hash, slots, entry.key, at)
    ensures Tidy(hash, slots[at := entry])
    ensures Updates(slots, entry, slots[at := entry])
  {
    ProbeFindsContents(hash, slots, entry.key, at);
    var stored := slots[at := entry];
    assert DistinctKeys(stored) by {
      forall other: u64 | Holds(slots, other, entry.key) ensures other == at {
        LookupIs(slots, entry.key, other);
        assert DistinctKeys(slots);
      }
      assert forall a: u64 | a in stored && a != at :: Holds(slots, a, stored[a].key);
    }
    assert NoHoles(hash, stored) by {
      forall a: u64, slot: u64 | a in stored && Passes(hash(stored[a].key), a, slot) ensures slot in stored {
        if a != at {
          assert a in slots && stored[a] == slots[a];
        }
      }
    }
    StoredContents(slots, entry, at);
  }

  lemma StoredContents<T>(slots: Slots<T>, entry: Entry<T>, at: u64)
    requires DistinctKeys(slots) && DistinctKeys(slots[at := entry])
    requires at in slots ==> slots[at].key == entry.key
    ensures Updates(slots, entry, slots[at := entry])
  {
    var stored := slots[at := entry];
    forall key ensures Lookup(stored, key) == if key == entry.key then Some(entry) else Lookup(slots, key) {
      if key == entry.key {
        LookupIs(stored, key, at);
      } else if home: u64 :| Holds(slots, home, key) {
        LookupIs(slots, key, home);
        LookupIs(stored, key, home);
      } else {
        assert forall a: u64 | Holds(stored, a, key) :: Holds(slots, a, key);
      }
    }
  }

  // ---- Remove ----

  /** No other entry's probe passes over the slot. */
  ghost predicate Uncrossed<T>(hash: Hash, slots: Slots<T>, slot: u64) {
    forall at: u64 | at in slots && at != slot :: !Passes(hash(slots[at].key), at, slot)
  }

  /** Every probe of the table answers as a plain map of the stored entries would. */
  ghost predicate AnswersAsMap<T>(hash: Hash, slots: Slots<T>) {
    forall key, at: u64 | StopsAt(hash, slots, key, at) :: Occupant(slots, at) == Lookup(slots, key)
  }

  ghost predicate Forgets<T>(slots: Slots<T>, key: seq<byte>, left: Slots<T>) {
    forall other :: Lookup(left, other) == if other == key then None else Lookup(slots, other)
  }

  lemma RemovedContents<T>(slots: Slots<T>, slot: u64)
    requires DistinctKeys(slots) && slot in slots
    ensures DistinctKeys(slots - {slot})
    ensures Forgets(slots, slots[slot].key, slots - {slot})
  {
    var left := slots - {slot};
    assert forall a: u64 | a in left :: a in slots && left[a] == slots[a];
    forall key ensures Lookup(left, key) == if key == slots[slot].key then None else Lookup(slots, key) {
      if at: u64 :| Holds(left, at, key) {
        LookupIs(left, key, at);
        LookupIs(slots, key, at);
      } else {
        forall at: u64 | Holds(slots, at, key) && at != slot ensures Holds(left, at, key) {
        }
      }
    }
  }

  /** An entry whose probe passes the emptied slot is still stored but no longer found: the probe stops at the hole. */
  lemma CrossedEntryIsLost<T>(hash: Hash, slots: Slots<T>, slot: u64, at: u64)
    requires Tidy(hash, slots) && slot in slots && at in slots && at != slot
    requires Passes(hash(slots[at].key), at, slot)
    ensures StopsAt(hash, slots - {slot}, slots[at].key, slot)
    ensures Lookup(slots - {slot}, slots[at].key) == Some(slots[at])
  {
    var left, key := slots - {slot}, slots[at].key;
    assert DistinctKeys(left) && Holds(left, at, key);
    LookupIs(left, key, at);
    forall passed: u64 | Passes(hash(key), slot, passed) ensures passed in left && left[passed].key != key {
      assert Passes(hash(key), at, passed);
      assert passed in slots;
      assert passed != at;
    }
  }

  /** Removing an entry keeps the table faithful exactly when no other entry's probe passes its slot. */
  lemma RemoveIsFaithfulIff<T>(hash: Hash, slots: Slots<T>, slot: u64)
    requires Tidy(hash, slots) && slot in slots
    ensures AnswersAsMap(hash, slots - {slot}) <==> Uncrossed(hash, slots, slot)
    ensures Tidy(hash, slots - {slot}) <==> Uncrossed(hash, slots, slot)
  {
    var left := slots - {slot};
    RemovedContents(slots, slot);
    if Uncrossed(hash, slots, slot) {
      forall at: u64, passed: u64 | at in left && Passes(hash(left[at].key), at, passed) ensures passed in left {
        assert at in slots && passed in slots;
      }
      assert Tidy(hash, left);
      forall key, at: u64 | StopsAt(hash, left, key, at) ensures Occupant(left, at) == Lookup(left, key) {
        ProbeFindsContents(hash, left, key, at);
      }
    } else {
      var at: u64 :| at in slots && at != slot && Passes(hash(slots[at].key), at, slot);
      CrossedEntryIsLost(hash, slots, slot, at);
      assert at in left && slot !in left;
      assert Occupant(left, slot) != Lookup(left, slots[at].key);
    }
  }

  /** A free slot right behind the removed one is enough. */
  lemma EndOfClusterIsUncrossed<T>(hash: Hash, slots: Slots<T>, slot: u64)
    requires Tidy(hash, slots) && slot in slots && Next(slot) !in slots
    ensures Uncrossed(hash, slots, slot)
  {
    forall at: u64 | at in slots && at != slot ensures !Passes(hash(slots[at].key), at, slot) {
      var home := hash(slots[at].key);
      assert Next(slot) != at && !Passes(home, at, Next(slot));
    }
  }

  /** Two keys hashed alike: removing the first stored loses the second, though it is still in the table. */
  lemma RemoveCanLose(one: byte, other: byte)
    requires one != other
    ensures exists hash: Hash, slots: Slots<bool> ::
      && Tidy(hash, slots) && Lookup(slots, [one]) == Some(Entry([one], true))
      && StopsAt(hash, slots, [one], 7) && 7 in slots
      && StopsAt(hash, slots - {7}, [other], 7) && 7 !in slots - {7}
      && Lookup(slots - {7}, [other]) == Some(Entry([other], false))
  {
    var hash: Hash := key => 7;
    var slots: Slots<bool> := map[7 := Entry([one], true), 8 := Entry([other], false)];
    assert Holds(slots, 7, [one]) && Holds(slots, 8, [other]);
    LookupIs(slots, [one], 7);
    CrossedEntryIsLost(hash, slots, 7, 8);
  }

  class BufMap<T> {
    var hashMap: Slots<T>
    const hasher: Hash

    /** The keyed hash stays fixed for the life of the map. */
    ghost predicate Valid()
      reads this
    {
      Tidy(hasher, hashMap)
    }

    constructor (hasher: Hash)
      ensures Valid() && this.hasher == hasher && hashMap == map[]
    {
      this.hasher := hasher;
      hashMap := map[];
    }

    /** The probe loop, on any table with a free slot, tidy or not. */
    method Locate(key: seq<byte>) returns (entry: Option<Entry<T>>, atHash: u64)
      requires |hashMap| < TWO_64
      ensures StopsAt(hasher, hashMap, key, atHash)
      ensures entry == Occupant(hashMap, atHash)
    {
      ghost var free := SomeSlotIsFree(hashMap);
      var home := hasher(key);
      atHash := home;
      while atHash in hashMap
        invariant Dist(home, atHash) + Dist(atHash, free) == Dist(home, free)
        invariant forall slot: u64 | Passes(home, atHash, slot) :: slot in hashMap && hashMap[slot].key != key
        decreases Dist(atHash, free)
      {
        if hashMap[atHash].key == key {
          return Some(hashMap[atHash]), atHash;
        }
        ghost var passed := atHash;
        atHash := Next(atHash);
        assert forall slot: u64 | Passes(home, atHash, slot) :: slot == passed || Passes(home, passed, slot);
      }
      entry := None;
    }

    /** What the probe stops at; in a table without holes, the stored entry of the key. */
    method Get(key: seq<byte>) returns (entry: Option<Entry<T>>)
      requires |hashMap| < TWO_64
      ensures forall at: u64 | StopsAt(hasher, hashMap, key, at) :: entry == Occupant(hashMap, at)
      ensures Valid() ==> entry == Lookup(hashMap, key)
    {
      var atHash;
      entry, atHash := Locate(key);
      forall at: u64 | StopsAt(hasher, hashMap, key, at) ensures at == atHash {
        StopIsUnique(hasher, hashMap, key, at, atHash);
      }
      if Valid() {
        ProbeFindsContents(hasher, hashMap, key, atHash);
      }
    }

    /** Returns the entry being replaced, if any.  On any table the key's probe finds the entry afterwards; a table
        without holes stays without, and is updated at that key alone. */
    method Put(entry: Entry<T>) returns (existing: Option<Entry<T>>)
      requires |hashMap| < TWO_64
      modifies this`hashMap
      ensures exists at: u64 ::
        && StopsAt(hasher, old(hashMap), entry.key, at) && existing == Occupant(old(hashMap), at)
        && hashMap == old(hashMap)[at := entry] && StopsAt(hasher, hashMap, entry.key, at)
      ensures old(Valid()) ==> Valid() && existing == old(Lookup(hashMap, entry.key)) && Updates(old(hashMap), entry, hashMap)
    {
      var atHash;
      existing, atHash := Locate(entry.key);
      if Valid() {
        ProbeFindsContents(hasher, hashMap, entry.key, atHash);
        StoringKeepsTidy(hasher, hashMap, entry, atHash);
      }
      hashMap := hashMap[atHash := entry];
    }

    /** Returns the entry removed, if any: the one the probe stops at, and nothing else leaves the table.  In a table
        without holes the plain map loses that key alone; whether probes still find the others is decided by the slot
        that was emptied. */
    method Remove(key: seq<byte>) returns (existing: Option<Entry<T>>, ghost slot: u64)
      requires |hashMap| < TWO_64
      modifies this`hashMap
      ensures StopsAt(hasher, old(hashMap), key, slot) && existing == Occupant(old(hashMap), slot)
      ensures hashMap == old(hashMap) - {slot}
      ensures old(Valid()) ==> existing == old(Lookup(hashMap, key)) && Forgets(old(hashMap), key, hashMap)
      ensures old(Valid()) ==> (Valid() <==> existing == None || Uncrossed(hasher, old(hashMap), slot))
      ensures old(Valid()) && existing != None && Next(slot) !in old(hashMap) ==> Valid()
    {
      var atHash;
      existing, atHash := Locate(key);
      slot := atHash;
      if Valid() {
        ProbeFindsContents(hasher, hashMap, key, atHash);
        if existing != None {
          RemoveIsFaithfulIff(hasher, hashMap, atHash);
          RemovedContents(hashMap, atHash);
          if Next(atHash) !in hashMap {
            EndOfClusterIsUncrossed(hasher, hashMap, atHash);
          }
        }
      }
      if existing != None {
        hashMap := hashMap - {atHash};
      } else {
        assert hashMap - {atHash} == hashMap;
      }
    }
  }
}
