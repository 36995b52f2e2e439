/**
 * The table object of include/ht.h (`ht_t`): a borrowed array of slots and
 * the number of buckets in use, with the public operations of src/ht.c
 * running in place on that array. Each method is proved against the function
 * of the same operation in module Probing.
 */
module Ht {
  import opened Wrappers
  import opened Probing
  import Sdbm

  class HashTable<V> {
    /** The caller's buffer (`ht->table`); the table never allocates, frees or rebinds it. */
    const table: array<Slot<V>>
    /** The number of buckets (`ht->nelem`), fixed when the table is bound. */
    const nelem: nat

    /** A bound table: at least one bucket, and no more buckets than the buffer has elements. */
    ghost predicate Valid()
      reads this
    {
      0 < nelem <= table.Length
    }

    /** The buckets of the table: the first `nelem` elements of the buffer. */
    ghost function Slots(): (s: seq<Slot<V>>)
      reads this, table
      requires Valid()
      ensures |s| == nelem
    {
      table[..nelem]
    }

    /** `ht_init`: use the first `n` elements of `buf` as the table and clear them. */
    constructor Init(buf: array<Slot<V>>, n: nat)
      requires 0 < n <= buf.Length
      modifies buf
      ensures Valid() && table == buf && nelem == n
      ensures Slots() == Cleared(n)
      ensures buf[n..] == old(buf[n..])
    {
      table := buf;
      nelem := n;
      new;
      Clear();
    }

    /** `ht_clear`: every bucket gets a NULL key and value, whatever it held before. */
    method Clear()
      requires Valid()
      modifies table
      ensures Slots() == Cleared(nelem)
      ensures table[nelem..] == old(table[nelem..])
    {
      forall j | 0 <= j < nelem {
        table[j] := Empty;
      }
    }

    /**
     * `_ht_locate`: probe from the key's bucket for an Empty slot or the key,
     * remembering the first tombstone passed over; that tombstone, or None,
     * when all `nelem` buckets have been examined.
     */
    method LocateSlot(key: Key) returns (r: Option<nat>)
      requires Valid()
      ensures r == Locate(Slots(), key)
    {
      var hash := Sdbm.HashBytes(key);
      var h := Sdbm.Reduce(hash, nelem);
      ghost var s := Slots();
      var free: Option<nat> := None;
      for offset := 0 to nelem
        invariant free.Some? ==> free.value < nelem
        invariant ScanFrom(s, key, h, offset, free) == Locate(s, key)
      {
        var i := (h + offset) % nelem;
        ProbeMod(h, offset, nelem);
        var el := table[i];
        if el.Empty? {
          return Some(i);
        }
        if el.Tombstone? {
          if free.None? {
            free := Some(i);
          }
          continue;
        }
        if el.key == key {
          return Some(i);
        }
      }
      return free;
    }

    /**
     * `ht_insert`: write (key, value) into the located bucket and return its
     * index (the element pointer), or None when every bucket holds another key.
     */
    method Insert(key: Key, value: V) returns (r: Option<nat>)
      requires Valid()
      modifies table
      ensures r == Locate(old(Slots()), key)
      ensures r.Some? ==> r.value < nelem && table[r.value] == Occupied(key, value)
      ensures Slots() == InsertSlots(old(Slots()), key, value)
      ensures forall j :: 0 <= j < table.Length && table[j] != old(table[j]) ==> r == Some(j)
      ensures Inv(old(Slots())) ==> Inv(Slots())
    {
      r := LocateSlot(key);
      if r.Some? {
        table[r.value] := Occupied(key, value);
      }
      if Inv(old(Slots())) {
        InsertPreservesInv(old(Slots()), key, value);
      }
    }

    /** `ht_lookup`: the located bucket's value pointer, or None for no bucket or an Empty one. */
    method Lookup(key: Key) returns (v: Option<V>)
      requires Valid()
      ensures v == LookupValue(Slots(), key)
    {
      var r := LocateSlot(key);
      if r.None? {
        return None;
      }
      var el := table[r.value];
      match el
      case Empty => v := None;
      case Tombstone(stale) => v := Some(stale);
      case Occupied(_, value) => v := Some(value);
    }

    /**
     * `ht_pop`: mark the located non-Empty bucket deleted, leaving its value
     * in place, and return that value; None for no bucket or an Empty one.
     */
    method Pop(key: Key) returns (v: Option<V>)
      requires Valid()
      modifies table
      ensures v == LookupValue(old(Slots()), key)
      ensures Slots() == PopSlots(old(Slots()), key)
      ensures forall j :: 0 <= j < table.Length && table[j] != old(table[j]) ==> Locate(old(Slots()), key) == Some(j)
      ensures Inv(old(Slots())) ==> Inv(Slots())
    {
      var r := LocateSlot(key);
      if r.None? {
        return None;
      }
      var el := table[r.value];
      if el.Empty? {
        return None;
      }
      table[r.value] := Tombstone(Payload(el));
      v := Some(Payload(el));
      if Inv(old(Slots())) {
        PopPreservesInv(old(Slots()), key);
      }
    }
  }
}
