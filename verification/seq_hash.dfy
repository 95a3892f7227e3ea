/** Structural hash of a vector (isl_seq.c, `isl_seq_hash`): an FNV-1a
    style accumulation over 32-bit unsigned words that skips zero entries,
    then a fold of the 32-bit value down to `bits` bits. The per-entry
    mixing function of the big-integer layer (`isl_int_hash`) is not part of
    this model; it is the parameter `intHash`, applied as
    `intHash(entry, hash)`. */
module SeqHash {

  /** The 32-bit FNV offset basis and prime. */
  const FnvOffsetBasis: bv32 := 2166136261
  const FnvPrime: bv32 := 16777619

  /** One non-zero entry `x` at index `i`: multiply by the prime (wrapping
      modulo 2^32), xor in the low byte of the index, then mix in the
      entry. */
  function Step(h: bv32, i: nat, x: int, intHash: (int, bv32) -> bv32): bv32 {
    intHash(x, (h * FnvPrime) ^ ((i % 256) as bv32))
  }

  /** The accumulation loop over the first `|p|` entries; zero entries
      leave the running value alone. */
  function Accumulate(p: seq<int>, intHash: (int, bv32) -> bv32): bv32 {
    if |p| == 0 then FnvOffsetBasis
    else
      var h := Accumulate(p[..|p| - 1], intHash);
      if p[|p| - 1] == 0 then h else Step(h, |p| - 1, p[|p| - 1], intHash)
  }

  /** Fold of the 32-bit value to `bits` bits, with the three cases of the
      source: unchanged for 32; high part xor low part for 16 to 31; for
      fewer than 16 bits, the shifted value xor the value, masked. The
      result always fits in `bits` bits. */
  function Fold(h: bv32, bits: nat): (r: bv32)
    requires bits <= 32
    ensures bits == 32 ==> r == h
    ensures bits < 32 ==> r < (1 as bv32) << bits
  {
    if bits == 32 then h
    else
      var mask := ((1 as bv32) << bits) - 1;
      if bits >= 16 then (h >> bits) ^ (h & mask)
      else ((h >> bits) ^ h) & mask
  }

  /** `isl_seq_hash`: the accumulated value folded to `bits` bits; for
      fewer than 32 bits the result is below `2^bits`. Shifts by more than
      32 are undefined in C, so `bits` is at most 32. */
  function Hash(p: seq<int>, bits: nat, intHash: (int, bv32) -> bv32): (r: bv32)
    requires bits <= 32
    ensures bits < 32 ==> r < (1 as bv32) << bits
    ensures bits == 32 ==> r == Accumulate(p, intHash)
  {
    Fold(Accumulate(p, intHash), bits)
  }

  /** `k` zero entries. */
  function Zeros(k: nat): (z: seq<int>)
    ensures |z| == k && forall i :: 0 <= i < k ==> z[i] == 0
  {
    seq(k, _ => 0)
  }

  /** Zero entries are skipped, so padding a vector with trailing zeros
      leaves its hash unchanged, whatever the width. */
  lemma {:induction false} HashIgnoresTrailingZeros(p: seq<int>, k: nat, bits: nat,
                                                    intHash: (int, bv32) -> bv32)
    requires bits <= 32
    ensures Hash(p + Zeros(k), bits, intHash) == Hash(p, bits, intHash)
  {
    AccumulateIgnoresTrailingZeros(p, k, intHash);
  }

  lemma {:induction false} AccumulateIgnoresTrailingZeros(p: seq<int>, k: nat,
                                                          intHash: (int, bv32) -> bv32)
    ensures Accumulate(p + Zeros(k), intHash) == Accumulate(p, intHash)
  {
    if k == 0 {
      assert p + Zeros(0) == p;
    } else {
      var q := p + Zeros(k);
      assert q[..|q| - 1] == p + Zeros(k - 1);
      assert q[|q| - 1] == 0;
      assert Accumulate(q, intHash) == Accumulate(q[..|q| - 1], intHash);
      AccumulateIgnoresTrailingZeros(p, k - 1, intHash);
    }
  }
}
