/**
 * Callers of the table, written against the method contracts alone: each
 * one is the generic form of a scenario exercised in src/hashtable_tdd.c.
 */
module Scenarios {
  import opened Wrappers
  import opened Probing
  import opened Ht

  /** test_clear: whatever the table held, a clear leaves every bucket Empty. */
  method ClearAnyTable<V>(t: HashTable<V>)
    requires t.Valid()
    modifies t.table
    ensures forall j :: 0 <= j < t.nelem ==> t.table[j].Empty?
  {
    t.Clear();
    assert forall j :: 0 <= j < t.nelem ==> t.Slots()[j].Empty?;
  }

  /** test_insert1: a fresh table places the key in bounds and returns its value. */
  method InsertIntoFreshTable<V>(buf: array<Slot<V>>, key: Key, value: V) returns (r: Option<nat>, found: Option<V>)
    requires 0 < buf.Length
    modifies buf
    ensures r.Some? && r.value < buf.Length
    ensures found == Some(value)
  {
    var t := new HashTable.Init(buf, buf.Length);
    ClearedIsEmptyTable<V>(buf.Length, key);
    LookupAbsentKey(Cleared<V>(buf.Length), key, 0);
    r := t.Insert(key, value);
    InsertThenLookup(Cleared<V>(buf.Length), key, value);
    found := t.Lookup(key);
  }

  /** test_lookup_found: a key stored in a valid table is found with its value. */
  method LookupFound<V>(t: HashTable<V>, j: nat) returns (found: Option<V>)
    requires t.Valid() && Inv(t.Slots())
    requires j < t.nelem && t.table[j].Occupied?
    ensures found == Some(t.table[j].value)
  {
    assert t.Slots()[j] == t.table[j];
    LookupFindsStoredValue(t.Slots(), j);
    found := t.Lookup(t.table[j].key);
  }

  /** test_lookup_not_found: a key that no bucket holds is not found while some bucket is still Empty. */
  method LookupNotFound<V>(t: HashTable<V>, key: Key, e: nat) returns (found: Option<V>)
    requires t.Valid() && Absent(t.Slots(), key)
    requires e < t.nelem && t.table[e].Empty?
    ensures found == None
  {
    assert t.Slots()[e] == t.table[e];
    LookupAbsentKey(t.Slots(), key, e);
    found := t.Lookup(key);
  }

  /** test_pop_twice: a stored key pops to its value once, then to NULL while an Empty bucket remains. */
  method PopTwice<V>(t: HashTable<V>, j: nat, e: nat) returns (first: Option<V>, second: Option<V>)
    requires t.Valid() && Inv(t.Slots())
    requires j < t.nelem && t.table[j].Occupied?
    requires e < t.nelem && t.table[e].Empty?
    modifies t.table
    ensures first == Some(old(t.table[j].value))
    ensures second == None
  {
    ghost var s := t.Slots();
    assert s[j] == t.table[j];
    var key := t.table[j].key;
    PopStoredKey(s, j);
    first := t.Pop(key);
    PopThenLookup(s, j, e);
    second := t.Pop(key);
  }

  /** test_insert_after_pop: after popping a stored key, a (possibly full) table admits a new key. */
  method InsertAfterPopping<V>(t: HashTable<V>, j: nat, key: Key, value: V) returns (popped: Option<V>, r: Option<nat>, found: Option<V>)
    requires t.Valid() && Inv(t.Slots())
    requires j < t.nelem && t.table[j].Occupied?
    modifies t.table
    ensures popped == Some(old(t.table[j].value))
    ensures r.Some? && r.value < t.nelem
    ensures found == Some(value)
  {
    ghost var s := t.Slots();
    assert s[j] == t.table[j];
    PopStoredKey(s, j);
    popped := t.Pop(t.table[j].key);
    InsertAfterPop(s, j, key, value);
    r := t.Insert(key, value);
    found := t.Lookup(key);
  }

  /** test_insert_full: a table whose every bucket holds another key rejects the insert and keeps its contents. */
  method InsertIntoFullTable<V>(t: HashTable<V>, key: Key, value: V) returns (r: Option<nat>)
    requires t.Valid()
    requires forall j :: 0 <= j < t.nelem ==> t.table[j].Occupied? && t.table[j].key != key
    modifies t.table
    ensures r.None?
    ensures t.table[..] == old(t.table[..])
  {
    ghost var s := t.Slots();
    InsertFailsExactlyWhenFull(s, key, value);
    r := t.Insert(key, value);
  }
}
