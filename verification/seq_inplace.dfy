/** The two in-place operations whose output buffer may be one of their
    inputs (isl_seq.c, `isl_seq_combine` and `isl_seq_elim`), over arrays,
    so that the aliasing the source allows is part of what is verified.
    Their results are stated through the functional models. */
module SeqInPlace {

  import opened IntMath
  import opened SeqArith
  import opened SeqElim

  /** `isl_seq_combine` on buffers: each entry is computed in a temporary
      before it is written, so `dst` may be the same array as `src1` and/or
      `src2`. The first `len` entries of `dst` end up as the combination of
      the inputs as they were on entry; later entries are untouched. */
  method CombineInPlace(dst: array<int>, m1: int, src1: array<int>, m2: int, src2: array<int>,
                        len: nat)
    requires len <= dst.Length && len <= src1.Length && len <= src2.Length
    modifies dst
    ensures dst[..len] == Combine(m1, old(src1[..len]), m2, old(src2[..len]))
    ensures dst[len..] == old(dst[len..])
  {
    var i := 0;
    while i < len
      invariant 0 <= i <= len
      invariant forall j :: 0 <= j < i ==> dst[j] == m1 * old(src1[j]) + m2 * old(src2[j])
      // Only `dst` is written, and only below `i`: when `src1` or `src2` is
      // `dst` itself, this is what keeps their unread entries as on entry.
      invariant forall j :: i <= j < dst.Length ==> dst[j] == old(dst[j])
    {
      assert src1[i] == old(src1[i]) && src2[i] == old(src2[i]);
      var tmp := m1 * src1[i];
      tmp := tmp + m2 * src2[i];
      dst[i] := tmp;
      i := i + 1;
    }
    assert forall j :: 0 <= j < len ==>
      dst[..len][j] == Combine(m1, old(src1[..len]), m2, old(src2[..len]))[j];
  }

  /** `isl_seq_elim` on buffers, step for step as in the source: the
      pivot scalars are computed, then `dst` is combined with itself and
      `src`, and the accumulator, when present, is multiplied by the scale
      applied to `dst`. The result is the functional `Elim`. */
  method ElimInPlace(dst: array<int>, src: array<int>, pos: nat, len: nat, m: Option<int>)
    returns (mOut: Option<int>)
    requires len <= dst.Length && len <= src.Length
    requires pos < dst.Length && pos < src.Length
    modifies dst
    ensures (dst[..], mOut) == Elim(old(dst[..]), old(src[..]), pos, len, m)
  {
    if dst[pos] == 0 {
      return m;
    }
    ghost var d0, s0 := dst[..], src[..];
    var a := Gcd(src[pos], dst[pos]);
    var b := dst[pos] / a;
    if src[pos] > 0 {
      b := -b;
    }
    a := Abs(src[pos] / a);
    assert (a, b) == ElimFactors(d0[pos], s0[pos]);
    CombineInPlace(dst, a, dst, b, src, len);
    mOut := if m.Some? then Some(m.value * a) else None;
    assert dst[..] == dst[..len] + dst[len..];
    assert d0[..len] == old(dst[..len]) && s0[..len] == old(src[..len]);
  }
}
