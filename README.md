# Fixed-capacity string-keyed hash table

A model of the open-addressing hash table of `src/ht.c` and `include/ht.h`.
The table maps string keys to opaque value pointers. It works over a buffer
of slots that the caller supplies (`ht_init`). It never allocates, grows or
frees memory. Keys are hashed with sdbm, reduced to a start bucket, and
placed by linear probing with wrap-around. A popped entry leaves a tombstone
(the `deleted_key` sentinel) that later scans skip over but that insertion
may reuse.

Files:

- `wrappers.dfy`: `Option`, standing for a pointer that may be NULL.
- `sdbm.dfy` (module `Sdbm`): `_hash` as the function `Hash` and the loop
  `HashBytes`, on exact 32-bit words (`bv32`); `_ht_hash` as `Reduce` and
  `BucketIndex`.
- `probing.dfy` (module `Probing`): the slot datatype
  `Empty | Tombstone(stale) | Occupied(key, value)`. It holds the search of
  `_ht_locate` as the recursive function `ScanFrom`, a declarative
  description of its result (`IsLocateOutcome`), and the effect of
  `ht_insert`, `ht_lookup`, `ht_pop` and `ht_clear` as functions on the
  sequence of slots. It also defines the table invariant `Inv` ("every key
  is stored once, and is reached from its start bucket without crossing an
  Empty slot") and the properties the table promises, as lemmas.
- `table.dfy` (module `Ht`): class `HashTable` with the caller's array and
  `nelem` as fields. `Init` is `ht_init`; `Clear`, `LocateSlot`, `Insert`,
  `Lookup` and `Pop` work in place on the array. Each is proved against
  the function of the same operation in `Probing`.
- `scenarios.dfy` (module `Scenarios`): callers that use only the method
  contracts. Each is the generic form of a scenario from
  `src/hashtable_tdd.c`.

How the source maps to the model:

- `ht_insert` returns an element pointer into the table. The model returns
  its index, as `Some(i)` with `i < nelem`. A full table gives `None`.
- `ht_lookup` and `ht_pop` return a value pointer or NULL. The model returns
  `Some(value)` or `None`.
- Keys are byte sequences compared by equality, as `strcmp` compares them.
- The deleted marker is the `Tombstone` constructor, not pointer identity.
  It keeps the value the slot held, because `ht_pop` leaves the value in
  place.
- The table invariant is not part of `Valid()`. The table does not own its
  buffer, and the caller may write to it directly. So `Insert` and `Pop`
  promise `Inv(old(Slots())) ==> Inv(Slots())`.
- The round trip "insert, then lookup returns the value" holds with no
  invariant (`InsertThenLookup`). Finding a key that was stored earlier
  needs the invariant (`LookupFindsStoredValue`).

The header promises NULL for a key that is not found (include/ht.h:61-62,
include/ht.h:72-73). The code breaks that promise in one case. When no Empty slot is left and the
key is not stored, `_ht_locate` returns the first tombstone on the key's probe
path if there is one (src/ht.c:143-146, src/ht.c:157); with no tombstone it
returns NULL and the promise holds. `ht_lookup` and `ht_pop` test only for an
Empty slot (src/ht.c:189, src/ht.c:209), so they return that tombstone's stale
value, which may be the value of a different key (`PopTwiceOtherValueExample`).
The model follows the code (`LookupValue`, `LookupFallsBackToTombstone`).
The corrected lookup is under "Findings".

## Model

| member | source | states |
|---|---|---|
| `Sdbm.Step` | src/ht.c:108 | one sdbm round in `uint32_t`; from a zero accumulator it yields the byte itself |
| `Sdbm.Hash` | src/ht.c:100-111 | the sdbm hash of a key, the fold of `Step` from 0 over its bytes; the empty key hashes to 0 |
| `Sdbm.HashSingleByte` | src/ht.c:102-109 | a one-byte key hashes to the value of that byte |
| `Sdbm.HashBytes` | src/ht.c:100-111 | the loop's result is `Hash(data)`: the accumulator starts at 0 and takes one sdbm round `c + (h << 6) + (h << 16) - h` (32-bit wrap) per byte, in order, over all bytes |
| `Sdbm.HashConcat` | src/ht.c:106-109 | bytes are consumed in order: the hash of `s + t` is the hash of `t` continued from the hash of `s` |
| `Sdbm.HashLastByteMatters` | src/ht.c:106-109 | the last byte is consumed too: two keys that differ only in their last byte have different hashes |
| `Sdbm.Reduce` | src/ht.c:120-127 | the start bucket is below `nelem`; the `h ^ (h >> 16)` fold is applied exactly when `nelem < 65536`, and then the remainder modulo `nelem` is taken |
| `Sdbm.BucketIndex` | src/ht.c:113-128 | `_ht_hash`: the start bucket of a key, `Reduce` of its sdbm hash, always below `nelem` |
| `Probing.Probe` | src/ht.c:136 | the slot `(start + offset) % nelem` examined at a given offset, always below `nelem` |
| `Probing.ScanFrom` | src/ht.c:134-157 | the probe loop, from any offset and with any remembered tombstone, yields an index below the table size or none |
| `Probing.ScanOutcome` | src/ht.c:134-157 | from any point of the scan, the loop returns the first Empty or matching slot on the rest of the path; failing that, the first tombstone of the whole path; failing that, none |
| `Probing.LocateCharacterization` | src/ht.c:130-158 | `_ht_locate` examines slots `(start + offset) % nelem` for `offset < nelem`, where start is the key's bucket. Its result is the first Empty or matching slot on that path, so an Empty slot after a tombstone wins over it. With no such slot it is the first tombstone. It is none exactly when every slot holds a different key |
| `Probing.Locate` | src/ht.c:130-158 | the located index is below `nelem`; its meaning is fixed by `LocateCharacterization` |
| `Probing.LocateOutcomeUnique` | src/ht.c:130-158 | that description is complete: at most one result satisfies it |
| `Probing.InsertSlots` | src/ht.c:167-174 | the slots after `ht_insert`: same size, and any slot that changed now holds `(key, value)` |
| `Probing.LookupValue` | src/ht.c:184-194 | the result of `ht_lookup`: a non-NULL result is the value of some non-Empty slot |
| `Probing.PopSlots` | src/ht.c:204-217 | the slots after `ht_pop`: same size, and any slot that changed was non-Empty and is now a tombstone keeping its value |
| `Probing.Cleared` | src/ht.c:97 | the slots after the `memset` of `ht_clear`: `n` slots, every one Empty |
| `Probing.LocateFindsKey` | src/ht.c:149-151 | under the table invariant, the search for a stored key ends at the slot that holds it |
| `Probing.InsertFailsExactlyWhenFull` | src/ht.c:167-171 | `ht_insert` returns NULL exactly when every slot is Occupied by a key other than the target, and then no slot changes |
| `Probing.OneTombstoneSuffices` | src/ht.c:155-157 | a single tombstone anywhere in the table is enough for `ht_insert` to find a slot |
| `Probing.InsertThenLookup` | src/ht.c:167-174 | after a successful `ht_insert(key, value)`, searching for `key` finds the same slot and `ht_lookup(key)` returns `value` (no invariant needed) |
| `Probing.InsertOverwritesStoredKey` | src/ht.c:149-151 | upsert: under the invariant, re-inserting a stored key overwrites the slot that holds it and changes nothing else |
| `Probing.InsertPreservesInv` | src/ht.c:160-175 | `ht_insert` keeps keys unique and each reachable from its start bucket without crossing an Empty slot |
| `Probing.LookupFindsStoredValue` | src/ht.c:177-195 | under the invariant, `ht_lookup` of a stored key returns its value |
| `Probing.LookupAbsentKey` | src/ht.c:184-192 | for a key that is not stored, while some slot is Empty, the search ends at an Empty slot and `ht_lookup` returns NULL |
| `Probing.LookupFallsBackToTombstone` | src/ht.c:184-194 | for a key that is not stored, with no Empty slot and some tombstone, the search returns the first tombstone on the probe path and `ht_lookup` returns its stale value, not NULL |
| `Probing.LookupStaleValueExample` | src/ht.c:189-194 | with one bucket holding a popped entry, `ht_lookup` of any key returns the popped value |
| `Probing.PopStoredKey` | src/ht.c:204-217 | under the invariant, `ht_pop` of a stored key turns its slot into a tombstone that keeps the value, changes no other slot, and returns that value |
| `Probing.PopPreservesInv` | src/ht.c:197-218 | `ht_pop` keeps the table invariant |
| `Probing.PopThenLookup` | src/hashtable_tdd.c:192-205 | after popping a stored key, looking it up or popping it again returns NULL, as long as some slot is still Empty |
| `Probing.PopKeepsOtherKeys` | src/ht.c:141-147 | popping one key leaves every other stored key findable with its value: the tombstone does not cut any probe path |
| `Probing.InsertAfterPop` | src/hashtable_tdd.c:114-127 | after popping a stored key, even a full table admits an insert of any key, and `ht_lookup` then returns the new value |
| `Probing.ClearedIsEmptyTable` | src/ht.c:90-98 | a cleared table satisfies the invariant and `ht_lookup` of any key returns NULL |
| `Probing.LookupIntended` | include/ht.h:55-64 | corrected lookup: NULL for any key that is not stored, and a non-NULL result is a value stored under that key |
| `Probing.LookupIntendedFindsStoredValue` | include/ht.h:55-64 | under the invariant, the corrected lookup returns the value of a stored key |
| `Probing.PopTwiceExample` | src/ht.c:204-217 | as written: popping the only key of a one-bucket table returns its value, and popping it again returns the same value instead of NULL |
| `Probing.PopTwiceOtherValueExample` | src/ht.c:204-217 | as written: in a two-bucket table where "d" (byte 100) and "b" (byte 98) share bucket 0, after inserting both and popping "d", the first pop of "b" returns its value and the second returns the stale value of "d" |
| `Probing.PopIntendedTwice` | include/ht.h:66-75 | with the corrected lookup, a pop returns the stored value, and a second pop of the same key returns NULL however full the table is |
| `Ht.HashTable.Slots` | include/ht.h:19-22 | the table's contents are exactly `nelem` slots of the caller's buffer |
| `Ht.HashTable.Init` | src/ht.c:78-88 | `ht_init` binds `buf` and `nelem` as the table, leaves every bucket Empty, and does not touch the buffer past `nelem` |
| `Ht.HashTable.Clear` | src/ht.c:90-98 | `ht_clear` leaves every bucket Empty whatever it held before, so a second clear gives the same state |
| `Ht.HashTable.LocateSlot` | src/ht.c:130-158 | the `for` loop with its remembered first tombstone returns exactly `Locate(Slots(), key)` |
| `Ht.HashTable.Insert` | src/ht.c:160-175 | returns the located index, which is below `nelem`, or None. It writes `(key, value)` there, changes no other array element, keeps the invariant, and is `InsertSlots` on the contents |
| `Ht.HashTable.Lookup` | src/ht.c:177-195 | does not modify the table; returns `LookupValue(Slots(), key)`: NULL for no slot or an Empty one, otherwise the slot's value, a tombstone's stale value included |
| `Ht.HashTable.Pop` | src/ht.c:197-218 | returns what `ht_lookup` would have returned. It turns the located non-Empty slot into a tombstone that keeps its value, changes no other element, and keeps the invariant |
| `Scenarios.ClearAnyTable` | src/hashtable_tdd.c:59-74 | a clear of a table in any state leaves every bucket Empty |
| `Scenarios.InsertIntoFreshTable` | src/hashtable_tdd.c:76-86 | an insert into a freshly bound table succeeds inside the buffer, and the lookup returns the value |
| `Scenarios.LookupFound` | src/hashtable_tdd.c:129-143 | in a valid table, the lookup of the key stored in a bucket returns that bucket's value |
| `Scenarios.LookupNotFound` | src/hashtable_tdd.c:145-162 | in any table that still has an Empty bucket, the lookup of a key that no bucket holds returns NULL |
| `Scenarios.PopTwice` | src/hashtable_tdd.c:192-205 | a stored key pops to its value once, then to NULL while an Empty bucket remains |
| `Scenarios.InsertAfterPopping` | src/hashtable_tdd.c:114-127 | the pop of a stored key returns its value; after it, an insert succeeds even in a table that was full, and the lookup returns the new value |
| `Scenarios.InsertIntoFullTable` | src/hashtable_tdd.c:104-112 | a table whose every bucket holds another key rejects the insert and keeps its contents |

## Findings

| source | as written | input that shows it | evidently intended | confidence | as-written member | corrected member |
|---|---|---|---|---|---|---|
| src/ht.c:189 | `ht_lookup` rejects only an Empty slot, so it returns a tombstone's stale value when `_ht_locate` falls back to a tombstone | a one-bucket table whose only entry was popped; lookup of any key returns the popped value | NULL for a key that is not stored (include/ht.h:61-62) | high; not executed | `Probing.LookupStaleValueExample` | `Probing.LookupIntended` |
| src/ht.c:209 | `ht_pop` rejects only an Empty slot, so in a table without Empty slots a second pop returns the stale value of the first tombstone on the key's probe path: the popped value only when no earlier tombstone lies on that path, otherwise another key's value | a one-bucket table holding `key`; pop `key` twice; both pops return its value (with two buckets, keys "d" and "b" inserted in that order and "d" popped, the second pop of "b" returns the value of "d") | NULL once the key has been removed (include/ht.h:72-73) | high; not executed | `Probing.PopTwiceExample` | `Probing.PopIntendedTwice` |

Neither correction changes the slots. `PopSlots` already leaves a
fallback tombstone as it was. The fix is only in the returned value: also
return NULL when the located slot is a tombstone. The class `HashTable`
keeps the behaviour of the code as written, because it models the source.
The corrected lookup and its properties are stated beside it.

## Left out

- `ht_dump` and the `DEBUG` printing: output to stdout that changes no state.
- The `if (!ht)` NULL checks in every function: a `HashTable` reference is never null.
- `nelem == 0`: `_ht_hash` would compute `% 0`. `Valid()` and `Init` require `nelem > 0`.
- A buffer longer than `nelem` is allowed, as in `ht_init`. The elements past `nelem` are never touched, and each method says so.
- Pointer identity: keys are compared by value, and the returned element pointer is an index. The model has no borrowed key or value lifetimes and no `memset`/`memcmp` byte layout.
- NULL as a stored value: in C, a stored NULL value cannot be told apart from "not found". The model's `Option` distinguishes `Some(v)` for every `v`.
- Keys with a NUL byte: a C key ends at its first NUL, so hashing and comparison stop there. A model key with a zero byte has no C counterpart.
- `size_t` overflow of `h + offset` in `_ht_locate`: both terms are below `nelem`, and the model uses unbounded integers.
- Two facts about the hash are not proved: the closed form `h * 65599 + c` of an sdbm round, and the injectivity of the `h ^ (h >> 16)` fold. Those bit-vector proofs exceed the solver's resource limit. Each round itself is exact `bv32` arithmetic.
- The test harness (`src/hashtable_tdd.c`, `include/tdd.h`) and the root `hashtable_tdd.c` demo. The tests appear only as the generic scenarios in `Scenarios`. The hash values of the concrete test keys (`k001` … `k032`, `hej`) are not computed.
- Concurrency: the table is single-threaded, and nothing here models concurrent callers.
