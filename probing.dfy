/**
 * The slots of the table and the shared linear-probing search of src/ht.c
 * (`_ht_locate`), with the effect of `ht_insert`, `ht_lookup`, `ht_pop` and
 * `ht_clear` stated on the sequence of slots. The class in table.dfy runs
 * these operations on the caller's array and is proved against the
 * functions here; the lemmas below are the properties the table promises.
 */
module Probing {
  import opened Wrappers
  import Sdbm

  /** A key: the bytes of a C string, without its terminating NUL. */
  type Key = seq<Sdbm.byte>

  /**
   * A slot (`ht_elem_t`). `Empty` is a NULL key (value NULL after a clear);
   * `Tombstone` is the `deleted_key` sentinel, which keeps the value the slot
   * held when it was popped; `Occupied` is a live key with its value pointer.
   */
  datatype Slot<V> = Empty | Tombstone(stale: V) | Occupied(key: Key, value: V)

  /** The value pointer of a slot whose key pointer is not NULL. */
  function Payload<V>(sl: Slot<V>): V
    requires !sl.Empty?
  {
    match sl
    case Tombstone(v) => v
    case Occupied(_, v) => v
  }

  /** The scan of `_ht_locate` ends at this slot: it is Empty or holds `key`. */
  predicate Stops<V>(sl: Slot<V>, key: Key)
  {
    sl.Empty? || (sl.Occupied? && sl.key == key)
  }

  /** The slot examined at `offset` by a probe that starts at `start`. */
  function Probe(start: nat, offset: nat, n: nat): (i: nat)
    requires start < n && offset < n
    ensures i < n
  {
    if start + offset < n then start + offset else start + offset - n
  }

  /** How many steps a probe starting at `start` takes to reach slot `i`. */
  function Dist(start: nat, i: nat, n: nat): (d: nat)
    requires start < n && i < n
    ensures d < n
  {
    if start <= i then i - start else i + n - start
  }

  /** `Probe` is the source's `(h + offset) % nelem`. */
  lemma ProbeMod(start: nat, offset: nat, n: nat)
    requires start < n && offset < n
    ensures Probe(start, offset, n) == (start + offset) % n
  {
  }

  /** `Probe` undoes `Dist`: walking `Dist(start, i, n)` steps from `start` lands on `i`. */
  lemma ProbeDist(start: nat, i: nat, n: nat)
    requires start < n && i < n
    ensures Probe(start, Dist(start, i, n), n) == i
  {
  }

  /** `Dist` undoes `Probe`: the slot examined at `offset` lies `offset` steps along the path. */
  lemma DistProbe(start: nat, offset: nat, n: nat)
    requires start < n && offset < n
    ensures Dist(start, Probe(start, offset, n), n) == offset
  {
  }

  /**
   * The `for (offset ...)` loop of `_ht_locate` from `offset` on, with `free`
   * the first tombstone seen so far (`elp_free`).
   */
  function ScanFrom<V>(s: seq<Slot<V>>, key: Key, start: nat, offset: nat, free: Option<nat>): (r: Option<nat>)
    requires start < |s| && offset <= |s|
    requires free.Some? ==> free.value < |s|
    ensures r.Some? ==> r.value < |s|
    decreases |s| - offset
  {
    if offset == |s| then free
    else
      var i := Probe(start, offset, |s|);
      match s[i]
      case Empty => Some(i)
      case Tombstone(_) => ScanFrom(s, key, start, offset + 1, if free.None? then Some(i) else free)
      case Occupied(k, _) => if k == key then Some(i) else ScanFrom(s, key, start, offset + 1, free)
  }

  /** `_ht_locate`: the index of the slot for `key`, or None when the table is full. */
  function Locate<V>(s: seq<Slot<V>>, key: Key): (r: Option<nat>)
    requires |s| > 0
    ensures r.Some? ==> r.value < |s|
  {
    ScanFrom(s, key, Sdbm.BucketIndex(key, |s|), 0, None)
  }

  /** No slot among the first `d` on the probe path ends the scan. */
  ghost predicate PassedOver<V>(s: seq<Slot<V>>, key: Key, start: nat, d: nat)
    requires start < |s| && d <= |s|
  {
    forall o :: 0 <= o < d ==> !Stops(s[Probe(start, o, |s|)], key)
  }

  /** No slot among the first `d` on the probe path is a tombstone. */
  ghost predicate NoTombstoneBefore<V>(s: seq<Slot<V>>, start: nat, d: nat)
    requires start < |s| && d <= |s|
  {
    forall o :: 0 <= o < d ==> !s[Probe(start, o, |s|)].Tombstone?
  }

  /**
   * What `_ht_locate` promises, stated without the loop: the first slot on the
   * probe path that is Empty or holds `key`; failing that, the first tombstone
   * on the path; failing that (every slot holds another key), None.
   */
  ghost predicate IsLocateOutcome<V>(s: seq<Slot<V>>, key: Key, start: nat, r: Option<nat>)
    requires start < |s|
  {
    match r
    case None => forall j :: 0 <= j < |s| ==> s[j].Occupied? && s[j].key != key
    case Some(i) =>
      && i < |s|
      && PassedOver(s, key, start, Dist(start, i, |s|))
      && (|| Stops(s[i], key)
          || (&& s[i].Tombstone?
              && PassedOver(s, key, start, |s|)
              && NoTombstoneBefore(s, start, Dist(start, i, |s|))))
  }

  /** The loop keeps its promise from any point of the scan on. */
  lemma {:induction false} ScanOutcome<V>(s: seq<Slot<V>>, key: Key, start: nat, offset: nat, free: Option<nat>)
    requires start < |s| && offset <= |s|
    requires PassedOver(s, key, start, offset)
    requires free.None? ==> NoTombstoneBefore(s, start, offset)
    requires free.Some? ==>
      && free.value < |s|
      && s[free.value].Tombstone?
      && Dist(start, free.value, |s|) < offset
      && NoTombstoneBefore(s, start, Dist(start, free.value, |s|))
    ensures IsLocateOutcome(s, key, start, ScanFrom(s, key, start, offset, free))
    decreases |s| - offset
  {
    var n := |s|;
    if offset == n {
      if free.None? {
        forall j | 0 <= j < n
          ensures s[j].Occupied? && s[j].key != key
        {
          ProbeDist(start, j, n);
          var o := Dist(start, j, n);
          assert !Stops(s[Probe(start, o, n)], key);
          assert !s[Probe(start, o, n)].Tombstone?;
        }
      }
    } else {
      var i := Probe(start, offset, n);
      DistProbe(start, offset, n);
      match s[i]
      case Empty =>
      case Tombstone(_) =>
        var free' := if free.None? then Some(i) else free;
        ScanOutcome(s, key, start, offset + 1, free');
      case Occupied(k, _) =>
        if k != key {
          ScanOutcome(s, key, start, offset + 1, free);
        }
    }
  }

  /** `_ht_locate` returns exactly the outcome described by `IsLocateOutcome`. */
  lemma LocateCharacterization<V>(s: seq<Slot<V>>, key: Key)
    requires |s| > 0
    ensures IsLocateOutcome(s, key, Sdbm.BucketIndex(key, |s|), Locate(s, key))
  {
    ScanOutcome(s, key, Sdbm.BucketIndex(key, |s|), 0, None);
  }

  /** Two outcomes, the first no farther along the probe path than the second, are the same slot. */
  lemma OutcomeOrdered<V>(s: seq<Slot<V>>, key: Key, start: nat, i1: nat, i2: nat)
    requires start < |s| && i1 < |s| && i2 < |s|
    requires IsLocateOutcome(s, key, start, Some(i1)) && IsLocateOutcome(s, key, start, Some(i2))
    requires Dist(start, i1, |s|) <= Dist(start, i2, |s|)
    ensures i1 == i2
  {
    var n := |s|;
    var d1, d2 := Dist(start, i1, n), Dist(start, i2, n);
    ProbeDist(start, i1, n);
    ProbeDist(start, i2, n);
  }

  /** The outcome determines the slot: the description above is a complete specification. */
  lemma LocateOutcomeUnique<V>(s: seq<Slot<V>>, key: Key, start: nat, r1: Option<nat>, r2: Option<nat>)
    requires start < |s|
    requires IsLocateOutcome(s, key, start, r1) && IsLocateOutcome(s, key, start, r2)
    ensures r1 == r2
  {
    if r1.Some? && r2.Some? {
      if Dist(start, r1.value, |s|) <= Dist(start, r2.value, |s|) {
        OutcomeOrdered(s, key, start, r1.value, r2.value);
      } else {
        OutcomeOrdered(s, key, start, r2.value, r1.value);
      }
    }
  }

  /** `ht_insert` on the slots: (key, value) goes into the located slot; a full table is unchanged. */
  function InsertSlots<V>(s: seq<Slot<V>>, key: Key, value: V): (s': seq<Slot<V>>)
    requires |s| > 0
    ensures |s'| == |s|
    ensures forall j :: 0 <= j < |s| && s'[j] != s[j] ==> s'[j] == Occupied(key, value)
  {
    match Locate(s, key)
    case None => s
    case Some(i) => s[i := Occupied(key, value)]
  }

  /** `ht_lookup`: NULL for no slot or an Empty slot, otherwise the located slot's value pointer. */
  function LookupValue<V>(s: seq<Slot<V>>, key: Key): (r: Option<V>)
    requires |s| > 0
    ensures r.Some? ==> exists j :: 0 <= j < |s| && !s[j].Empty? && Payload(s[j]) == r.value
  {
    match Locate(s, key)
    case None => None
    case Some(i) => if s[i].Empty? then None else Some(Payload(s[i]))
  }

  /** `ht_pop` on the slots: the located non-Empty slot becomes a tombstone that keeps its value. */
  function PopSlots<V>(s: seq<Slot<V>>, key: Key): (s': seq<Slot<V>>)
    requires |s| > 0
    ensures |s'| == |s|
    ensures forall j :: 0 <= j < |s| && s'[j] != s[j] ==> !s[j].Empty? && s'[j] == Tombstone(Payload(s[j]))
  {
    match Locate(s, key)
    case None => s
    case Some(i) => if s[i].Empty? then s else s[i := Tombstone(Payload(s[i]))]
  }

  /** The slots after `ht_clear`: every key and value NULL. */
  function Cleared<V>(n: nat): (s: seq<Slot<V>>)
    ensures |s| == n && forall i :: 0 <= i < n ==> s[i].Empty?
  {
    seq(n, _ => Empty)
  }

  /** No key is stored in two slots. */
  ghost predicate UniqueKeys<V>(s: seq<Slot<V>>)
  {
    forall i, j :: 0 <= i < |s| && 0 <= j < |s| && s[i].Occupied? && s[j].Occupied? && s[i].key == s[j].key ==> i == j
  }

  /** The key in slot `i` is reached from its start bucket without crossing an Empty slot. */
  ghost predicate Reachable<V>(s: seq<Slot<V>>, i: nat)
    requires 0 < |s| && i < |s| && s[i].Occupied?
  {
    var start := Sdbm.BucketIndex(s[i].key, |s|);
    forall o :: 0 <= o < Dist(start, i, |s|) ==> !s[Probe(start, o, |s|)].Empty?
  }

  /** The table invariant: keys are unique and each is reachable along its own probe path. */
  ghost predicate Inv<V>(s: seq<Slot<V>>)
  {
    && |s| > 0
    && UniqueKeys(s)
    && forall i :: 0 <= i < |s| && s[i].Occupied? ==> Reachable(s, i)
  }

  /** A key that is not stored anywhere. */
  ghost predicate Absent<V>(s: seq<Slot<V>>, key: Key)
  {
    forall j :: 0 <= j < |s| && s[j].Occupied? ==> s[j].key != key
  }

  /** Under the invariant, `_ht_locate` finds the slot that holds a stored key. */
  lemma LocateFindsKey<V>(s: seq<Slot<V>>, j: nat)
    requires Inv(s) && j < |s| && s[j].Occupied?
    ensures Locate(s, s[j].key) == Some(j)
  {
    var key, n := s[j].key, |s|;
    var start := Sdbm.BucketIndex(key, n);
    var d := Dist(start, j, n);
    ProbeDist(start, j, n);
    assert Reachable(s, j);
    forall o | 0 <= o < d
      ensures !Stops(s[Probe(start, o, n)], key)
    {
      var p := Probe(start, o, n);
      DistProbe(start, o, n);
      assert p != j;
      assert !s[p].Empty?;
    }
    assert IsLocateOutcome(s, key, start, Some(j));
    LocateCharacterization(s, key);
    LocateOutcomeUnique(s, key, start, Locate(s, key), Some(j));
  }

  /** `ht_insert` returns NULL exactly when every slot holds a key other than `key`; then nothing changes. */
  lemma InsertFailsExactlyWhenFull<V>(s: seq<Slot<V>>, key: Key, value: V)
    requires |s| > 0
    ensures Locate(s, key).None? <==> forall j :: 0 <= j < |s| ==> s[j].Occupied? && s[j].key != key
    ensures Locate(s, key).None? ==> InsertSlots(s, key, value) == s
  {
    LocateCharacterization(s, key);
  }

  /** A single tombstone anywhere is enough for `ht_insert` to find a slot. */
  lemma OneTombstoneSuffices<V>(s: seq<Slot<V>>, key: Key, t: nat)
    requires |s| > 0 && t < |s| && s[t].Tombstone?
    ensures Locate(s, key).Some?
  {
    LocateCharacterization(s, key);
  }

  /** Round trip: after a successful `ht_insert(key, value)`, the key is found in the same slot and `ht_lookup` returns `value`. */
  lemma InsertThenLookup<V>(s: seq<Slot<V>>, key: Key, value: V)
    requires |s| > 0 && Locate(s, key).Some?
    ensures Locate(InsertSlots(s, key, value), key) == Locate(s, key)
    ensures LookupValue(InsertSlots(s, key, value), key) == Some(value)
  {
    var n, i := |s|, Locate(s, key).value;
    var start := Sdbm.BucketIndex(key, n);
    var s' := InsertSlots(s, key, value);
    assert s' == s[i := Occupied(key, value)];
    LocateCharacterization(s, key);
    forall o | 0 <= o < Dist(start, i, n)
      ensures !Stops(s'[Probe(start, o, n)], key)
    {
      DistProbe(start, o, n);
      ProbeDist(start, i, n);
    }
    assert IsLocateOutcome(s', key, start, Some(i));
    LocateCharacterization(s', key);
    LocateOutcomeUnique(s', key, start, Locate(s', key), Some(i));
  }

  /** Upsert: re-inserting a stored key overwrites the slot that holds it. */
  lemma InsertOverwritesStoredKey<V>(s: seq<Slot<V>>, j: nat, value: V)
    requires Inv(s) && j < |s| && s[j].Occupied?
    ensures Locate(s, s[j].key) == Some(j)
    ensures InsertSlots(s, s[j].key, value) == s[j := Occupied(s[j].key, value)]
  {
    LocateFindsKey(s, j);
  }

  /** A stored key stays reachable when its slot is unchanged and no slot becomes Empty. */
  lemma ReachableKept<V>(s: seq<Slot<V>>, s': seq<Slot<V>>, j: nat)
    requires 0 < |s| == |s'| && j < |s| && s[j].Occupied? && s'[j] == s[j]
    requires forall p :: 0 <= p < |s'| && s'[p].Empty? ==> s[p].Empty?
    requires Reachable(s, j)
    ensures Reachable(s', j)
  {
    var start := Sdbm.BucketIndex(s[j].key, |s|);
    forall o | 0 <= o < Dist(start, j, |s|)
      ensures !s'[Probe(start, o, |s|)].Empty?
    {
      assert !s[Probe(start, o, |s|)].Empty?;
    }
  }

  /** `ht_insert` preserves the table invariant. */
  lemma InsertPreservesInv<V>(s: seq<Slot<V>>, key: Key, value: V)
    requires Inv(s)
    ensures Inv(InsertSlots(s, key, value))
  {
    var n := |s|;
    var start := Sdbm.BucketIndex(key, n);
    LocateCharacterization(s, key);
    if Locate(s, key).Some? {
      var i := Locate(s, key).value;
      var s' := s[i := Occupied(key, value)];
      assert InsertSlots(s, key, value) == s';
      if s[i].Occupied? {
        assert s[i].key == key;
        forall j | 0 <= j < n && s'[j].Occupied?
          ensures Reachable(s', j)
        {
          if j == i {
            var st := Sdbm.BucketIndex(key, n);
            assert Reachable(s, i);
            forall o | 0 <= o < Dist(st, i, n)
              ensures !s'[Probe(st, o, n)].Empty?
            {
              assert !s[Probe(st, o, n)].Empty?;
            }
          } else {
            ReachableKept(s, s', j);
          }
        }
      } else {
        assert Absent(s, key) by {
          forall j | 0 <= j < n && s[j].Occupied?
            ensures s[j].key != key
          {
            if s[j].key == key {
              LocateFindsKey(s, j);
            }
          }
        }
        forall j | 0 <= j < n && s'[j].Occupied?
          ensures Reachable(s', j)
        {
          if j == i {
            ProbeDist(start, i, n);
            forall o | 0 <= o < Dist(start, i, n)
              ensures !s'[Probe(start, o, n)].Empty?
            {
              DistProbe(start, o, n);
              assert !Stops(s[Probe(start, o, n)], key);
            }
          } else {
            ReachableKept(s, s', j);
          }
        }
      }
    }
  }

  /** `ht_lookup` of a stored key returns its value. */
  lemma LookupFindsStoredValue<V>(s: seq<Slot<V>>, j: nat)
    requires Inv(s) && j < |s| && s[j].Occupied?
    ensures LookupValue(s, s[j].key) == Some(s[j].value)
  {
    LocateFindsKey(s, j);
  }

  /** `ht_lookup` of a key that is not stored returns NULL while some slot is still Empty. */
  lemma LookupAbsentKey<V>(s: seq<Slot<V>>, key: Key, e: nat)
    requires |s| > 0 && Absent(s, key) && e < |s| && s[e].Empty?
    ensures Locate(s, key).Some? && s[Locate(s, key).value].Empty?
    ensures LookupValue(s, key) == None
  {
    var n := |s|;
    var start := Sdbm.BucketIndex(key, n);
    LocateCharacterization(s, key);
    ProbeDist(start, e, n);
    assert !PassedOver(s, key, start, n) by {
      assert Stops(s[Probe(start, Dist(start, e, n), n)], key);
    }
  }

  /**
   * With no Empty slot left and `key` not stored, `_ht_locate` falls back to
   * the first tombstone and `ht_lookup` returns that tombstone's stale value,
   * not NULL: the source tests only for an Empty slot.
   */
  lemma LookupFallsBackToTombstone<V>(s: seq<Slot<V>>, key: Key, t: nat)
    requires |s| > 0 && Absent(s, key) && t < |s| && s[t].Tombstone?
    requires forall j :: 0 <= j < |s| ==> !s[j].Empty?
    ensures Locate(s, key).Some? && s[Locate(s, key).value].Tombstone?
    ensures NoTombstoneBefore(s, Sdbm.BucketIndex(key, |s|), Dist(Sdbm.BucketIndex(key, |s|), Locate(s, key).value, |s|))
    ensures LookupValue(s, key) == Some(s[Locate(s, key).value].stale)
  {
    LocateCharacterization(s, key);
  }

  /** The smallest instance: one slot, deleted; a lookup of any key returns the deleted value. */
  lemma LookupStaleValueExample<V>(key: Key, v: V)
    ensures LookupValue([Tombstone(v)], key) == Some(v)
  {
    var s := [Tombstone(v)];
    assert Sdbm.BucketIndex(key, 1) == 0;
    assert ScanFrom(s, key, 0, 1, Some(0)) == Some(0);
    assert Locate(s, key) == Some(0);
  }

  /** `ht_pop` of a stored key marks its slot deleted, keeps the value there and returns it. */
  lemma PopStoredKey<V>(s: seq<Slot<V>>, j: nat)
    requires Inv(s) && j < |s| && s[j].Occupied?
    ensures PopSlots(s, s[j].key) == s[j := Tombstone(s[j].value)]
    ensures LookupValue(s, s[j].key) == Some(s[j].value)
  {
    LocateFindsKey(s, j);
  }

  /** `ht_pop` preserves the table invariant. */
  lemma PopPreservesInv<V>(s: seq<Slot<V>>, key: Key)
    requires Inv(s)
    ensures Inv(PopSlots(s, key))
  {
  }

  /** After `ht_pop` of a stored key, looking it up (or popping it again) returns NULL while some slot is Empty. */
  lemma PopThenLookup<V>(s: seq<Slot<V>>, j: nat, e: nat)
    requires Inv(s) && j < |s| && s[j].Occupied? && e < |s| && s[e].Empty?
    ensures LookupValue(PopSlots(s, s[j].key), s[j].key) == None
  {
    var key := s[j].key;
    PopStoredKey(s, j);
    var s' := PopSlots(s, key);
    assert Absent(s', key);
    LookupAbsentKey(s', key, e);
  }

  /** Popping one key leaves every other stored key findable: the tombstone does not cut its probe path. */
  lemma PopKeepsOtherKeys<V>(s: seq<Slot<V>>, key: Key, j: nat)
    requires Inv(s) && j < |s| && s[j].Occupied? && s[j].key != key
    ensures LookupValue(PopSlots(s, key), s[j].key) == Some(s[j].value)
  {
    var s' := PopSlots(s, key);
    PopPreservesInv(s, key);
    LocateCharacterization(s, key);
    assert s'[j] == s[j];
    LookupFindsStoredValue(s', j);
  }

  /** After popping a stored key, even a full table admits one insert, which `ht_lookup` then finds. */
  lemma InsertAfterPop<V>(s: seq<Slot<V>>, j: nat, key: Key, value: V)
    requires Inv(s) && j < |s| && s[j].Occupied?
    ensures Locate(PopSlots(s, s[j].key), key).Some?
    ensures LookupValue(InsertSlots(PopSlots(s, s[j].key), key, value), key) == Some(value)
  {
    PopStoredKey(s, j);
    var s' := PopSlots(s, s[j].key);
    OneTombstoneSuffices(s', key, j);
    InsertThenLookup(s', key, value);
  }

  /** A cleared table satisfies the invariant and `ht_lookup` finds nothing in it. */
  lemma ClearedIsEmptyTable<V>(n: nat, key: Key)
    requires n > 0
    ensures Inv(Cleared<V>(n))
    ensures LookupValue(Cleared<V>(n), key) == None
  {
  }

  /** Lookup as the header documents it: the value of a stored key, NULL otherwise. */
  function LookupIntended<V>(s: seq<Slot<V>>, key: Key): (r: Option<V>)
    requires |s| > 0
    ensures Absent(s, key) ==> r.None?
    ensures r.Some? ==> exists j :: 0 <= j < |s| && s[j] == Occupied(key, r.value)
  {
    LocateCharacterization(s, key);
    match Locate(s, key)
    case None => None
    case Some(i) => if s[i].Occupied? then Some(s[i].value) else None
  }

  /** The intended lookup finds every stored key under the invariant. */
  lemma LookupIntendedFindsStoredValue<V>(s: seq<Slot<V>>, j: nat)
    requires Inv(s) && j < |s| && s[j].Occupied?
    ensures LookupIntended(s, s[j].key) == Some(s[j].value)
  {
    LocateFindsKey(s, j);
  }

  /** As written, popping the only key of a one-slot table twice returns its value both times. */
  lemma PopTwiceExample<V>(key: Key, v: V)
    ensures LookupValue([Occupied(key, v)], key) == Some(v)
    ensures PopSlots([Occupied(key, v)], key) == [Tombstone(v)]
    ensures LookupValue([Tombstone(v)], key) == Some(v)
  {
    var s := [Occupied(key, v)];
    assert Sdbm.BucketIndex(key, 1) == 0;
    assert Locate(s, key) == Some(0);
    LookupStaleValueExample(key, v);
  }

  /**
   * As written, a second pop can return another key's value. Keys "d" and "b" (bytes 100
   * and 98) both start at bucket 0 of a two-bucket table. Insert "d", insert "b", pop "d":
   * the first pop of "b" returns its value `v`, and the second returns `w`, the stale value
   * of "d", since `_ht_locate` falls back to the first tombstone on the probe path.
   */
  lemma PopTwiceOtherValueExample<V>(v: V, w: V)
    requires v != w
    ensures var s := PopSlots(InsertSlots(InsertSlots(Cleared<V>(2), [100], w), [98], v), [100]);
      s == [Tombstone(w), Occupied([98], v)]
      && LookupValue(s, [98]) == Some(v)
      && PopSlots(s, [98]) == [Tombstone(w), Tombstone(v)]
      && LookupValue(PopSlots(s, [98]), [98]) == Some(w)
      && LookupValue(PopSlots(s, [98]), [98]) != Some(v)
  {
    Sdbm.HashSingleByte(100);
    Sdbm.HashSingleByte(98);
    assert Sdbm.BucketIndex([100], 2) == 0;
    assert Sdbm.BucketIndex([98], 2) == 0;
    var s0: seq<Slot<V>> := Cleared(2);
    assert Locate(s0, [100]) == Some(0);
    var s1 := InsertSlots(s0, [100], w);
    assert s1 == [Occupied([100], w), Empty];
    var d: Key := [100];
    var b: Key := [98];
    assert d != b by { assert d[0] != b[0]; }
    assert ScanFrom(s1, b, 0, 0, None) == ScanFrom(s1, b, 0, 1, None) == Some(1);
    assert Locate(s1, [98]) == Some(1);
    var s2 := InsertSlots(s1, [98], v);
    assert s2 == [Occupied([100], w), Occupied([98], v)];
    assert Locate(s2, [100]) == Some(0);
    var s3 := PopSlots(s2, [100]);
    assert s3 == [Tombstone(w), Occupied([98], v)];
    assert ScanFrom(s3, b, 0, 0, None) == ScanFrom(s3, b, 0, 1, Some(0)) == Some(1);
    assert Locate(s3, [98]) == Some(1);
    var s4 := PopSlots(s3, [98]);
    assert s4 == [Tombstone(w), Tombstone(v)];
    assert ScanFrom(s4, b, 0, 0, None) == ScanFrom(s4, b, 0, 1, Some(0));
    assert ScanFrom(s4, b, 0, 1, Some(0)) == ScanFrom(s4, b, 0, 2, Some(0)) == Some(0);
    assert Locate(s4, [98]) == Some(0);
  }

  /** With the intended lookup, a second pop of a key returns NULL whatever the table's fill. */
  lemma PopIntendedTwice<V>(s: seq<Slot<V>>, j: nat)
    requires Inv(s) && j < |s| && s[j].Occupied?
    ensures LookupIntended(s, s[j].key) == Some(s[j].value)
    ensures LookupIntended(PopSlots(s, s[j].key), s[j].key) == None
  {
    LookupIntendedFindsStoredValue(s, j);
    PopStoredKey(s, j);
    var s' := PopSlots(s, s[j].key);
    assert Absent(s', s[j].key);
  }
}
