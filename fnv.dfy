/**
 * The 32-bit FNV-1a hash (offset basis 2166136261, prime 16777619), masked to its low
 * 16 bits to pick the start slot of a 65536-slot open-addressing table.
 */
module Fnv {
  import opened Bytes

  const FNV_OFFSET_BASIS: bv32 := 2166136261
  const FNV_PRIME: bv32 := 16777619
  /** `mask = (1 << 16) - 1`; the tables have `MASK + 1` slots. */
  const MASK: bv32 := 0xFFFF
  const SLOTS: int := 0x1_0000

  /** One FNV-1a step: xor in the byte, then multiply by the prime modulo 2^32. */
  function Step(hash: bv32, b: byte): bv32 {
    MulPrime(XorByte(hash, b))
  }

  /** `hash *= fnvPrime`, modulo 2^32. */
  function MulPrime(hash: bv32): bv32 {
    hash * FNV_PRIME
  }

  /** `hash ^= uint32(ch)`. */
  function XorByte(hash: bv32, b: byte): bv32 {
    hash ^ b as bv32
  }

  /** The unmasked hash of `s`, folding the bytes left to right. */
  function Fold(s: seq<byte>): bv32 {
    if s == [] then FNV_OFFSET_BASIS else Step(Fold(s[..|s| - 1]), s[|s| - 1])
  }

  /** The start slot: the hash masked to 16 bits. */
  function Hash16(s: seq<byte>): (h: int)
    ensures 0 <= h < SLOTS
  {
    Mask16(Fold(s))
  }

  /** `hash & mask`: the low 16 bits of the hash, as a slot number. */
  function Mask16(hash: bv32): (h: int)
    ensures 0 <= h < SLOTS
  {
    hash as int % SLOTS
  }

  lemma FoldAppend(s: seq<byte>, b: byte)
    ensures Fold(s + [b]) == Step(Fold(s), b)
  {
    assert (s + [b])[..|s|] == s;
  }

  /** The hash of a prefix one byte longer. */
  lemma FoldPrefix(s: seq<byte>, i: nat)
    requires i < |s|
    ensures Fold(s[..i + 1]) == MulPrime(XorByte(Fold(s[..i]), s[i]))
  {
    assert s[..i + 1][..i] == s[..i];
  }

  /**
   * `fnvHash` (Go) and `fnv_hash` (C) as written: an accumulator loop over the bytes of
   * the name, masked at the end. The C loop stops at the terminating NUL, which a name
   * never holds; the Go loop runs over runes, which for the ASCII names of the input
   * are the bytes.
   */
  method FnvHash(s: seq<byte>) returns (h: int)
    ensures h == Hash16(s)
    ensures 0 <= h < SLOTS
  {
    var hash: bv32 := FNV_OFFSET_BASIS;
    var i := 0;
    while i < |s|
      invariant 0 <= i <= |s|
      invariant hash == Fold(s[..i])
    {
      FoldPrefix(s, i);
      hash := XorByte(hash, s[i]);
      hash := MulPrime(hash);
      i := i + 1;
    }
    assert s[..i] == s;
    h := Mask16(hash);
  }

  /** Known answers: the empty string hashes to the basis, "a" to 0xe40c292c. */
  lemma KnownAnswers()
    ensures Fold([]) == 0x811c9dc5 && Hash16([]) == 0x9dc5
    ensures Fold([97]) == 0xe40c292c && Hash16([97]) == 0x292c
  {
    assert [97 as byte][..0] == [];
  }

  /**
   * Which bytes of a name pick its start slot. Worker tables hash every byte after
   * the first (the first byte is copied before the hashing scan starts); merge tables
   * hash the whole name.
   */
  datatype HashMode = SkipFirst | Whole

  function SlotHash(mode: HashMode, name: seq<byte>): (h: int)
    ensures 0 <= h < SLOTS
    ensures mode == Whole ==> h == Hash16(name)
    ensures mode == SkipFirst && |name| > 0 ==> h == Hash16(name[1..])
  {
    if mode == SkipFirst && |name| > 0 then Hash16(name[1..]) else Hash16(name)
  }

  /** Worker tables start probing at the hash of the name without its first byte. */
  function WorkerHash(name: seq<byte>): (h: nat)
    ensures h < SLOTS
    ensures |name| > 0 ==> h == Hash16(name[1..])
  {
    SlotHash(SkipFirst, name)
  }

  /** Merge tables start probing at the hash of the whole name (`fnvHash`). */
  function MergeHash(name: seq<byte>): (h: nat)
    ensures h < SLOTS && h == Hash16(name)
  {
    SlotHash(Whole, name)
  }
}
