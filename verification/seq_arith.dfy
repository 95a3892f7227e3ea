/** Elementwise vector operations and the linear combination of two vectors
    (isl_seq.c, `isl_seq_clr` to `isl_seq_combine`).

    A vector is a `seq<int>` of exactly the length `len` the C caller passes.
    Every C function here is a loop that writes `dst[i]` from `src[i]` for
    `i < len`; each is modelled as a function that returns the new contents
    of `dst`, built front to back as the loop does. */
module SeqArith {

  import IntMath

  /** `isl_seq_clr`: every entry set to zero. */
  function Clr(p: seq<int>): (r: seq<int>)
    ensures |r| == |p|
    ensures forall i :: 0 <= i < |r| ==> r[i] == 0
  {
    if |p| == 0 then [] else [0] + Clr(p[1..])
  }

  /** `isl_seq_neg`: `dst[i] = -src[i]`. */
  function Neg(src: seq<int>): (r: seq<int>)
    ensures |r| == |src|
    ensures forall i :: 0 <= i < |r| ==> r[i] == -src[i]
  {
    if |src| == 0 then [] else [-src[0]] + Neg(src[1..])
  }

  /** `isl_seq_cpy`: `dst[i] = src[i]`, so `dst` ends up equal to `src`. */
  function Cpy(src: seq<int>): (r: seq<int>)
    ensures r == src
  {
    if |src| == 0 then [] else [src[0]] + Cpy(src[1..])
  }

  /** `isl_seq_swp_or_cpy`: each entry is moved from `src` to `dst`; the
      big-integer layer may do this by swapping storage, so the model swaps,
      returning the new `dst` and the new `src`. Only the new `dst` is
      promised: it equals the old `src`. What is left in `src` is
      unspecified beyond its length. */
  function SwpOrCpy(dst: seq<int>, src: seq<int>): (r: (seq<int>, seq<int>))
    requires |dst| == |src|
    ensures r.0 == src
    ensures |r.1| == |src|
  {
    if |src| == 0 then ([], [])
    else
      var rest := SwpOrCpy(dst[1..], src[1..]);
      ([src[0]] + rest.0, [dst[0]] + rest.1)
  }

  /** `isl_seq_scale`: `dst[i] = src[i] * m`. */
  function Scale(src: seq<int>, m: int): (r: seq<int>)
    ensures |r| == |src|
    ensures forall i :: 0 <= i < |r| ==> r[i] == src[i] * m
  {
    if |src| == 0 then [] else [src[0] * m] + Scale(src[1..], m)
  }

  /** `m` divides every entry of `v` exactly: the caller's obligation for
      `isl_seq_scale_down`. */
  predicate AllDivisibleBy(v: seq<int>, m: int)
    requires m != 0
  {
    forall i :: 0 <= i < |v| ==> v[i] % m == 0
  }

  /** `isl_seq_scale_down`: exact division of every entry by `m`; the
      result times `m` gives back the input. */
  function ScaleDown(src: seq<int>, m: int): (r: seq<int>)
    requires m != 0 && AllDivisibleBy(src, m)
    ensures |r| == |src|
    ensures forall i :: 0 <= i < |r| ==> r[i] * m == src[i]
  {
    if |src| == 0 then []
    else
      assert AllDivisibleBy(src[1..], m) by {
        forall i | 0 <= i < |src[1..]| ensures src[1..][i] % m == 0 {
          assert src[1..][i] == src[i + 1];
        }
      }
      [src[0] / m] + ScaleDown(src[1..], m)
  }

  /** `isl_seq_combine`: `dst[i] = m1 * src1[i] + m2 * src2[i]`. */
  function Combine(m1: int, src1: seq<int>, m2: int, src2: seq<int>): (r: seq<int>)
    requires |src1| == |src2|
    ensures |r| == |src1|
    ensures forall i :: 0 <= i < |r| ==> r[i] == m1 * src1[i] + m2 * src2[i]
  {
    if |src1| == 0 then []
    else [m1 * src1[0] + m2 * src2[0]] + Combine(m1, src1[1..], m2, src2[1..])
  }

  /** Negating twice gives back the vector. */
  lemma NegInvolutive(v: seq<int>)
    ensures Neg(Neg(v)) == v
  {
  }

  /** Negation is scaling by -1. */
  lemma NegIsScaleMinusOne(v: seq<int>)
    ensures Neg(v) == Scale(v, -1)
  {
  }

  /** Moving entries with `isl_seq_swp_or_cpy` leaves `dst` as
      `isl_seq_cpy` would. */
  lemma SwpOrCpyActsAsCpy(dst: seq<int>, src: seq<int>)
    requires |dst| == |src|
    ensures SwpOrCpy(dst, src).0 == Cpy(src)
  {
  }

  lemma ScaleOne(v: seq<int>)
    ensures Scale(v, 1) == v
  {
  }

  lemma ScaleZero(v: seq<int>)
    ensures Scale(v, 0) == Clr(v)
  {
  }

  /** Scaling down by a non-zero `m` undoes scaling by `m`. */
  lemma ScaleDownUndoesScale(v: seq<int>, m: int)
    requires m != 0
    ensures AllDivisibleBy(Scale(v, m), m)
    ensures ScaleDown(Scale(v, m), m) == v
  {
    var s := Scale(v, m);
    forall i | 0 <= i < |s|
      ensures s[i] % m == 0 && s[i] / m == v[i]
    {
      MultipleDivides(v[i], m);
    }
    var r := ScaleDown(s, m);
    forall i | 0 <= i < |r|
      ensures r[i] == v[i]
    {
      MulCancel(r[i], v[i], m);
    }
  }

  /** Scaling back up by `m` undoes an exact scale-down by `m`. */
  lemma ScaleUndoesScaleDown(v: seq<int>, m: int)
    requires m != 0 && AllDivisibleBy(v, m)
    ensures Scale(ScaleDown(v, m), m) == v
  {
  }

  /** `isl_seq_combine` with coefficients (1, 0) or (0, 1) copies one
      source. */
  lemma CombineUnit(a: seq<int>, b: seq<int>)
    requires |a| == |b|
    ensures Combine(1, a, 0, b) == Cpy(a)
    ensures Combine(0, a, 1, b) == Cpy(b)
  {
  }

  /** `isl_seq_combine` with a zero second coefficient is `isl_seq_scale`. */
  lemma CombineScale(m: int, a: seq<int>, b: seq<int>)
    requires |a| == |b|
    ensures Combine(m, a, 0, b) == Scale(a, m)
  {
  }

  lemma MultipleDivides(x: int, m: int)
    requires m != 0
    ensures (x * m) % m == 0 && (x * m) / m == x
  {
    var q, r := (x * m) / m, (x * m) % m;
    assert x * m == m * q + r;
    assert m * (x - q) == r;
    IntMath.SmallMultiple(m, x - q);
  }

  lemma MulCancel(x: int, y: int, m: int)
    requires m != 0 && x * m == y * m
    ensures x == y
  {
    assert (x - y) * m == 0;
  }
}
