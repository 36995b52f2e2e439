/**
 * The key hash of the table (src/ht.c `_hash`) and its reduction to a bucket
 * index (src/ht.c `_ht_hash`). All arithmetic is on 32-bit unsigned words, so
 * the accumulator is a `bv32` and additions, shifts and the subtraction wrap
 * exactly as `uint32_t` does.
 */
module Sdbm {

  /** One byte of a key (`uint8_t`). */
  type byte = bv8

  /** Tables with fewer buckets than this get the upper half of the hash folded in (`1 << 16`). */
  const FoldLimit: nat := 0x1_0000

  /** One round of sdbm: `h = c + (h << 6) + (h << 16) - h` in `uint32_t`. */
  function Step(h: bv32, c: byte): (r: bv32)
    ensures h == 0 ==> r == c as bv32
  {
    (c as bv32) + (h << 6) + (h << 16) - h
  }

  /** The accumulator after consuming the bytes of `s` in order, starting from `h`. */
  function HashFrom(h: bv32, s: seq<byte>): bv32
    decreases |s|
  {
    if s == [] then h else HashFrom(Step(h, s[0]), s[1..])
  }

  /** The sdbm hash of a whole key: the accumulator starts at 0. */
  function Hash(s: seq<byte>): (r: bv32)
    ensures s == [] ==> r == 0
  {
    HashFrom(0, s)
  }

  /** A one-byte key hashes to that byte. */
  lemma HashSingleByte(c: byte)
    ensures Hash([c]) == c as bv32
  {
    assert HashFrom(0, [c]) == HashFrom(Step(0, c), []);
  }

  /** Hashing a concatenation continues from the hash of the first part. */
  lemma {:induction false} HashFromConcat(h: bv32, s: seq<byte>, t: seq<byte>)
    ensures HashFrom(h, s + t) == HashFrom(HashFrom(h, s), t)
    decreases |s|
  {
    if s == [] {
      assert s + t == t;
    } else {
      assert (s + t)[0] == s[0];
      assert (s + t)[1..] == s[1..] + t;
      HashFromConcat(Step(h, s[0]), s[1..], t);
    }
  }

  /** Every byte is consumed, in order: the hash of `s + t` is the hash of `t` seeded with that of `s`. */
  lemma HashConcat(s: seq<byte>, t: seq<byte>)
    ensures Hash(s + t) == HashFrom(Hash(s), t)
  {
    HashFromConcat(0, s, t);
  }

  /** The last byte of a key always affects its hash: keys that differ only there hash apart. */
  lemma HashLastByteMatters(s: seq<byte>, c: byte, d: byte)
    requires c != d
    ensures Hash(s + [c]) != Hash(s + [d])
  {
    HashConcat(s, [c]);
    HashConcat(s, [d]);
    assert [c][1..] == [] && [d][1..] == [];
    var h := Hash(s);
    assert Hash(s + [c]) == Step(h, c);
    assert Hash(s + [d]) == Step(h, d);
    assert (c as bv32) != (d as bv32);
  }

  /** `_hash`: the `while (nbytes--)` loop over the key's bytes. */
  method HashBytes(data: seq<byte>) returns (h: bv32)
    ensures h == Hash(data)
  {
    h := 0;
    var i := 0;
    while i < |data|
      invariant 0 <= i <= |data|
      invariant HashFrom(h, data[i..]) == Hash(data)
    {
      var c := data[i];
      assert data[i..][1..] == data[i + 1..];
      h := Step(h, c);
      i := i + 1;
    }
  }

  /**
   * The reduction of `_ht_hash`: fold only when the table has fewer than
   * 2^16 buckets, then take the remainder modulo the bucket count.
   */
  function Reduce(h: bv32, nelem: nat): (r: nat)
    requires nelem > 0
    ensures r < nelem
    ensures nelem >= FoldLimit ==> r == h as int % nelem
    ensures nelem < FoldLimit ==> r == (h ^ (h >> 16)) as int % nelem
  {
    (if nelem < FoldLimit then h ^ (h >> 16) else h) as int % nelem
  }

  /** `_ht_hash`: the bucket at which the probe for `key` starts. */
  function BucketIndex(key: seq<byte>, nelem: nat): (r: nat)
    requires nelem > 0
    ensures r < nelem
  {
    Reduce(Hash(key), nelem)
  }
}
