/** Integrality-preserving elimination (isl_seq.c, `isl_seq_elim`): one
    integer pivot step that zeroes `dst[pos]` using `src` as the pivot row,
    with coefficients derived from the GCD of the two pivot entries, so that
    no fraction is ever introduced. */
module SeqElim {

  import opened IntMath
  import opened SeqArith

  /** The optional scale accumulator `m` (a possibly null pointer in C). */
  datatype Option<T> = None | Some(value: T)

  /** The two scalars of the pivot step for `d = dst[pos] != 0` and
      `s = src[pos]`: `a` multiplies `dst` and `b` multiplies `src`. Written
      in the order of the C statements: `a = gcd(s, d)`, `b = d / a`
      negated when `s > 0`, then `a = |s / a|`. */
  function ElimFactors(d: int, s: int): (int, int)
    requires d != 0
  {
    var g := Gcd(s, d);
    var b := d / g;
    (Abs(s / g), if s > 0 then -b else b)
  }

  /** `isl_seq_elim` on a `dst` and `src` buffer of which the first `len`
      entries form the vector; returns the new `dst` and the new `*m`.
      A zero `dst[pos]` makes the call a no-op. Otherwise `dst` becomes
      `a * dst + b * src` on its first `len` entries, which zeroes
      `dst[pos]`, entries from `len` on are untouched, and a supplied `m` is
      multiplied by `a`. */
  function Elim(dst: seq<int>, src: seq<int>, pos: nat, len: nat, m: Option<int>)
    : (r: (seq<int>, Option<int>))
    requires len <= |dst| && len <= |src|
    requires pos < |dst| && pos < |src|
    ensures |r.0| == |dst|
    ensures dst[pos] == 0 ==> r == (dst, m)
    ensures dst[pos] != 0 && pos < len ==> r.0[pos] == 0
    ensures forall i :: len <= i < |dst| ==> r.0[i] == dst[i]
    ensures r.1.None? <==> m.None?
  {
    if dst[pos] == 0 then (dst, m)
    else
      var f := ElimFactors(dst[pos], src[pos]);
      ElimFactorsCancel(dst[pos], src[pos]);
      (Combine(f.0, dst[..len], f.1, src[..len]) + dst[len..],
       if m.Some? then Some(m.value * f.0) else None)
  }

  /** The pivot scalars cancel the pivot entry exactly, `a` is never
      negative, and both are whole numbers taken from the reduced pivot
      pair `(s / g, d / g)` with `g = gcd(s, d)`: `a == |s| / g` and `b`
      carries the opposite sign of `s`. When `s == 0`, `a == 0` and `b` is
      the sign of `d`. */
  lemma ElimFactorsCancel(d: int, s: int)
    requires d != 0
    ensures ElimFactors(d, s).0 * d + ElimFactors(d, s).1 * s == 0
    ensures ElimFactors(d, s).0 >= 0
    ensures ElimFactors(d, s).0 == Abs(s) / Gcd(s, d)
    ensures s != 0 ==> ElimFactors(d, s).1 == -Sign(s) * (d / Gcd(s, d))
    ensures s == 0 ==> ElimFactors(d, s).0 == 0 && ElimFactors(d, s).1 == Sign(d)
  {
    var g := Gcd(s, d);
    GcdPositive(s, d);
    GcdIsGcd(s, d);
    ExactQuotient(s, g);
    ExactQuotient(d, g);
    if s > 0 {
      FactorsPositivePivot(d, s, g, s / g, d / g);
    } else if s < 0 {
      FactorsNegativePivot(d, s, g, s / g, d / g);
    } else {
      GcdZeroLeft(d);
      assert d / g == Sign(d) by {
        if d > 0 { MulDivCancel(g, 1); } else { MulDivCancel(g, -1); }
      }
    }
  }

  /** The scalar arithmetic of a positive pivot `s = g * s'`, `d = g * d'`. */
  lemma FactorsPositivePivot(d: int, s: int, g: int, s': int, d': int)
    requires g > 0 && s > 0 && s == g * s' && d == g * d'
    requires s' == s / g && d' == d / g
    ensures Abs(s / g) * d + (-(d / g)) * s == 0
    ensures Abs(s / g) == Abs(s) / g
  {
    MulPositiveSign(g, s');
    assert Abs(s') * d + (-d') * s == g * (s' * d' - d' * s');
  }

  /** The scalar arithmetic of a negative pivot `s = g * s'`, `d = g * d'`. */
  lemma FactorsNegativePivot(d: int, s: int, g: int, s': int, d': int)
    requires g > 0 && s < 0 && s == g * s' && d == g * d'
    requires s' == s / g && d' == d / g
    ensures Abs(s / g) * d + (d / g) * s == 0
    ensures Abs(s / g) == Abs(s) / g
  {
    MulPositiveSign(g, s');
    assert Abs(s') * d + d' * s == g * (d' * s' - s' * d');
    assert Abs(s) == g * (-s');
    MulDivCancel(g, -s');
  }

  lemma MulDivCancel(g: int, x: int)
    requires g != 0
    ensures (g * x) / g == x
  {
    SeqArith.MultipleDivides(x, g);
    assert g * x == x * g;
  }

  /** For a non-zero `dst[pos]`, each of the first `len` entries of the new
      `dst` is the combination, with the pivot scalars, of the entries of
      `dst` and `src` at that index. */
  lemma ElimIsCombination(dst: seq<int>, src: seq<int>, pos: nat, len: nat, m: Option<int>)
    requires len <= |dst| && len <= |src|
    requires pos < |dst| && pos < |src|
    requires dst[pos] != 0
    ensures var f := ElimFactors(dst[pos], src[pos]);
      forall i :: 0 <= i < len ==> Elim(dst, src, pos, len, m).0[i] == f.0 * dst[i] + f.1 * src[i]
  {
    var f := ElimFactors(dst[pos], src[pos]);
    var r := Elim(dst, src, pos, len, m).0;
    var c := Combine(f.0, dst[..len], f.1, src[..len]);
    assert r == c + dst[len..];
    forall i | 0 <= i < len
      ensures r[i] == f.0 * dst[i] + f.1 * src[i]
    {
      assert r[i] == c[i];
    }
  }

  /** The step as documented in the source: for a non-zero pivot
      `s = src[pos]` and `g = gcd(s, d)`, `dst` becomes
      `(|s| / g) * dst - sgn(s) * (d / g) * src` and `*m` is multiplied by
      `|s| / g`. */
  lemma ElimDocumentedStep(dst: seq<int>, src: seq<int>, pos: nat, len: nat, m: Option<int>)
    requires len <= |dst| && len <= |src|
    requires pos < |dst| && pos < |src|
    requires dst[pos] != 0 && src[pos] != 0
    ensures var s, d, g := src[pos], dst[pos], Gcd(src[pos], dst[pos]);
      && (forall i :: 0 <= i < len ==>
            Elim(dst, src, pos, len, m).0[i] == (Abs(s) / g) * dst[i] - Sign(s) * (d / g) * src[i])
      && (m.Some? ==> Elim(dst, src, pos, len, m).1 == Some(m.value * (Abs(s) / g)))
  {
    var s, d, g := src[pos], dst[pos], Gcd(src[pos], dst[pos]);
    ElimFactorsCancel(d, s);
    ElimIsCombination(dst, src, pos, len, m);
    var r := Elim(dst, src, pos, len, m).0;
    var a, b := ElimFactors(d, s).0, ElimFactors(d, s).1;
    assert a == Abs(s) / g && b == -Sign(s) * (d / g);
    forall i | 0 <= i < len
      ensures r[i] == (Abs(s) / g) * dst[i] - Sign(s) * (d / g) * src[i]
    {
      NegatedCoefficient(r[i], a, dst[i], b, src[i], Sign(s), d / g);
    }
  }

  lemma NegatedCoefficient(r: int, a: int, x: int, b: int, y: int, sg: int, q: int)
    requires r == a * x + b * y && b == -sg * q
    ensures r == a * x - sg * q * y
  {
  }

  /** A zero pivot `src[pos] == 0`: the documented formula does not apply.
      `dst` becomes `sgn(dst[pos]) * src` on its first `len` entries (so
      `dst[pos]` is still zeroed) and a supplied `*m` becomes 0. */
  lemma ElimZeroPivot(dst: seq<int>, src: seq<int>, pos: nat, len: nat, m: Option<int>)
    requires len <= |dst| && len <= |src|
    requires pos < |dst| && pos < |src|
    requires dst[pos] != 0 && src[pos] == 0
    ensures forall i :: 0 <= i < len ==>
      Elim(dst, src, pos, len, m).0[i] == Sign(dst[pos]) * src[i]
    ensures m.Some? ==> Elim(dst, src, pos, len, m).1 == Some(0)
  {
    ElimFactorsCancel(dst[pos], src[pos]);
    ElimIsCombination(dst, src, pos, len, m);
  }

  /** Eliminating the same position a second time changes nothing, not
      even the accumulator. */
  lemma ElimTwiceIsElimOnce(dst: seq<int>, src: seq<int>, pos: nat, len: nat, m: Option<int>)
    requires len <= |dst| && len <= |src|
    requires pos < len
    ensures var r := Elim(dst, src, pos, len, m);
      Elim(r.0, src, pos, len, r.1) == r
  {
  }
}
