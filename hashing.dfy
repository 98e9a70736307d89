/**
 * The DJB2 digest of `HashTable.djb2` and the slot index of `HashTable.hash_index`.
 * Keys are the UTF-8 bytes that `key.encode()` produces; the model takes them as given.
 */
module Hashing {

  /** One byte of a key's UTF-8 encoding. */
  type byte = b: int | 0 <= b < 256

  type Key = seq<byte>

  /** The initial value of the accumulator. */
  const SEED: nat := 5381

  /** 2^32: masking with `0xFFFFFFFF` keeps the remainder modulo this. */
  const WORD: nat := 0x1_0000_0000

  /** The accumulator as Python computes it, with unbounded integers: `h*33 + b` folded over the key. */
  function Unmasked(key: Key): nat
  {
    if |key| == 0 then SEED else Unmasked(key[..|key| - 1]) * 33 + key[|key| - 1]
  }

  /** The 32-bit DJB2 digest: the fold `h := (h*33 + b) mod 2^32` from 5381. */
  function Digest(key: Key): (d: nat)
    ensures d < WORD
  {
    if |key| == 0 then SEED else (Digest(key[..|key| - 1]) * 33 + key[|key| - 1]) % WORD
  }

  /** Reducing modulo 2^32 before one step of the fold does not change the step's remainder. */
  lemma ReduceBeforeStep(u: nat, b: byte)
    ensures (u * 33 + b) % WORD == ((u % WORD) * 33 + b) % WORD
  {
    var q, r := u / WORD, u % WORD;
    var s := r * 33 + b;
    ModOfQuotient(s, s / WORD, s % WORD);
    ModOfQuotient(u * 33 + b, q * 33 + s / WORD, s % WORD);
  }

  /** A remainder in range that `y` leaves after some multiple of 2^32 is `y % 2^32`. */
  lemma ModOfQuotient(y: int, q: int, r: int)
    requires y == q * WORD + r && 0 <= r < WORD
    ensures y % WORD == r && y / WORD == q
  {
  }

  /** Masking only at the end, as the source does, gives the wrapping fold. */
  lemma {:induction false} MaskAtEnd(key: Key)
    ensures Unmasked(key) % WORD == Digest(key)
  {
    if |key| > 0 {
      var p := key[..|key| - 1];
      MaskAtEnd(p);
      ReduceBeforeStep(Unmasked(p), key[|key| - 1]);
    }
  }

  lemma DigestOfEmptyKey()
    ensures Digest([]) == 5381
  {
  }

  /** `djb2`: the loop accumulates `((hsh << 5) + hsh) + char` and masks the result to 32 bits. */
  method Djb2(key: Key) returns (digest: nat)
    ensures digest == Digest(key)
    ensures digest < WORD
  {
    var hsh: nat := SEED;
    for i := 0 to |key|
      invariant hsh == Unmasked(key[..i])
    {
      assert key[..i + 1][..i] == key[..i];
      hsh := (hsh * 32 + hsh) + key[i];
    }
    assert key[..|key|] == key;
    MaskAtEnd(key);
    digest := hsh % WORD;
  }

  /** `hash_index`: the digest reduced modulo the number of slots. */
  function HashIndex(key: Key, numSlots: nat): (index: nat)
    requires numSlots > 0
    ensures index < numSlots
  {
    Digest(key) % numSlots
  }
}
