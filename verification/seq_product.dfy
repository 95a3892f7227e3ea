/** Inner product of two vectors (isl_seq.c, `isl_seq_inner_product`). */
module SeqProduct {

  import opened SeqArith

  /** Reference definition: the sum of `p1[i] * p2[i]` over all indices,
      0 for empty vectors. */
  function Dot(p1: seq<int>, p2: seq<int>): int
    requires |p1| == |p2|
  {
    if |p1| == 0 then 0
    else Dot(p1[..|p1| - 1], p2[..|p2| - 1]) + p1[|p1| - 1] * p2[|p2| - 1]
  }

  /** `isl_seq_inner_product`: 0 when `len == 0`; otherwise starts from
      `p1[0] * p2[0]` and accumulates the remaining products. */
  method InnerProduct(p1: seq<int>, p2: seq<int>) returns (prod: int)
    requires |p1| == |p2|
    ensures prod == Dot(p1, p2)
    ensures |p1| == 0 ==> prod == 0
  {
    if |p1| == 0 {
      return 0;
    }
    prod := p1[0] * p2[0];
    assert p1[..1] == [p1[0]] && p2[..1] == [p2[0]];
    var i := 1;
    while i < |p1|
      invariant 1 <= i <= |p1|
      invariant prod == Dot(p1[..i], p2[..i])
    {
      assert p1[..i + 1][..i] == p1[..i] && p2[..i + 1][..i] == p2[..i];
      prod := prod + p1[i] * p2[i];
      i := i + 1;
    }
    assert p1[..i] == p1 && p2[..i] == p2;
  }

  lemma {:induction false} DotSymmetric(p1: seq<int>, p2: seq<int>)
    requires |p1| == |p2|
    ensures Dot(p1, p2) == Dot(p2, p1)
  {
    if |p1| > 0 {
      DotSymmetric(p1[..|p1| - 1], p2[..|p2| - 1]);
    }
  }

  /** The inner product is linear in its first argument across
      `isl_seq_combine`. */
  lemma {:induction false} DotCombine(m1: int, a: seq<int>, m2: int, b: seq<int>, w: seq<int>)
    requires |a| == |b| == |w|
    ensures Dot(Combine(m1, a, m2, b), w) == m1 * Dot(a, w) + m2 * Dot(b, w)
  {
    if |a| > 0 {
      var n := |a| - 1;
      var c := Combine(m1, a, m2, b);
      CombinePrefix(m1, a, m2, b, n);
      DotCombine(m1, a[..n], m2, b[..n], w[..n]);
      var hc, ha, hb := Dot(c[..n], w[..n]), Dot(a[..n], w[..n]), Dot(b[..n], w[..n]);
      var xc, xa, xb := c[n] * w[n], a[n] * w[n], b[n] * w[n];
      DotLast(c, w);
      DotLast(a, w);
      DotLast(b, w);
      CombineTimes(m1, a[n], m2, b[n], w[n], c[n]);
      LinearStep(Dot(c, w), Dot(a, w), Dot(b, w), m1, m2, hc, ha, xa, hb, xb, xc);
    }
  }

  /** One unfolding of `Dot` at the last index. */
  lemma DotLast(p: seq<int>, q: seq<int>)
    requires |p| == |q| > 0
    ensures Dot(p, q) == Dot(p[..|p| - 1], q[..|q| - 1]) + p[|p| - 1] * q[|q| - 1]
  {
  }

  lemma CombinePrefix(m1: int, a: seq<int>, m2: int, b: seq<int>, n: nat)
    requires |a| == |b| && n <= |a|
    ensures Combine(m1, a, m2, b)[..n] == Combine(m1, a[..n], m2, b[..n])
  {
  }

  /** The arithmetic of one step of `DotCombine`, over plain integers. */
  lemma LinearStep(dc: int, da: int, db: int, m1: int, m2: int,
                   hc: int, ha: int, xa: int, hb: int, xb: int, xc: int)
    requires hc == m1 * ha + m2 * hb
    requires dc == hc + xc
    requires xc == m1 * xa + m2 * xb
    requires da == ha + xa && db == hb + xb
    ensures dc == m1 * da + m2 * db
  {
  }

  lemma CombineTimes(m1: int, x: int, m2: int, y: int, z: int, c: int)
    requires c == m1 * x + m2 * y
    ensures c * z == m1 * (x * z) + m2 * (y * z)
  {
  }

  /** The inner product with a negated vector is the negated inner
      product. */
  lemma DotNeg(a: seq<int>, w: seq<int>)
    requires |a| == |w|
    ensures Dot(Neg(a), w) == -Dot(a, w)
  {
    NegIsScaleMinusOne(a);
    CombineScale(-1, a, a);
    DotCombine(-1, a, 0, a, w);
  }

  /** `[1, 2, 3] . [4, 5, 6] == 32`. */
  lemma DotExample()
    ensures Dot([1, 2, 3], [4, 5, 6]) == 32
  {
    assert [1, 2, 3][..2] == [1, 2] && [4, 5, 6][..2] == [4, 5];
    assert [1, 2][..1] == [1] && [4, 5][..1] == [4];
    assert [1][..0] == [] && [4][..0] == [];
  }
}
