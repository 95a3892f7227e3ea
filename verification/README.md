# isl vector kernel (isl_seq.c) in Dafny

This project models the vector kernel of isl, `isl_seq.c`: the functions that
work on fixed-length vectors of arbitrary-precision integers (`isl_int`), the
rows of isl's constraint and coefficient matrices. A vector is a `seq<int>`;
`isl_int` is Dafny's unbounded `int`.

- `int_math.dfy` (`IntMath`): the scalar operations the kernel takes from the
  big-integer layer: absolute value, sign, three-way comparison, exact
  divisibility, and a non-negative two-argument GCD (Euclid's algorithm on the
  magnitudes, so `Gcd(0, b) == |b|`) proved to be the greatest common divisor.
- `seq_arith.dfy` (`SeqArith`): `isl_seq_clr`, `isl_seq_neg`, `isl_seq_cpy`,
  `isl_seq_swp_or_cpy`, `isl_seq_scale`, `isl_seq_scale_down` and
  `isl_seq_combine` as functions that return the new contents of `dst`, built
  front to back like the C loops, with pointwise contracts and the algebraic
  relations between them.
- `seq_elim.dfy` (`SeqElim`): `isl_seq_elim`, the integer pivot step, with the
  optional accumulator `m` as an `Option<int>`.
- `seq_inplace.dfy` (`SeqInPlace`): `isl_seq_combine` and `isl_seq_elim` over
  arrays, where `dst` may be `src1` or `src2`; their results are proved equal
  to the functional models.
- `seq_query.dfy` (`SeqQuery`): `isl_seq_eq`, `isl_seq_cmp`, `isl_seq_is_neg`,
  `isl_seq_first_non_zero` and `isl_seq_abs_min_non_zero`, each as a scan that
  returns early exactly where the C loop does.
- `seq_gcd.dfy` (`SeqGcd`): `isl_seq_gcd` as a method with the source's loop,
  which starts from the least non-zero entry and stops once the running GCD is
  1; the result is proved to be the GCD of all entries and equal to a plain
  left-to-right fold.
- `seq_product.dfy` (`SeqProduct`): `isl_seq_inner_product` as a method with
  the source's loop, against a reference sum.
- `seq_hash.dfy` (`SeqHash`): `isl_seq_hash` over `bv32`, with the entry
  mixing function of the big-integer layer as a parameter.

Notes on how the code was read:

- `isl_seq_is_neg` has no zero wildcard. The magnitude test at
  `isl_seq.c:115` runs before the zero test, so a zero in `p1` matches only a
  zero in `p2`. The predicate is therefore exactly "`p1[i] == -p2[i]` at every
  index" and is symmetric; `[0, 5]` against `[7, -5]` is false.
- The comment above `isl_seq_elim` gives the new `dst` as
  `|s| dst - sgn(s) d src` (up to the division by the GCD). That holds when
  the pivot `s = src[pos]` is non-zero. When `s == 0`, the GCD is `|d|`, the
  scale on `dst` is 0 and `dst` becomes `sgn(d) * src`; `dst[pos]` is still
  zeroed and a supplied `*m` becomes 0. Both cases are stated as lemmas.
- `isl_int_cmp` promises only the sign of its answer; the model returns -1, 0
  or 1, so `Cmp` is stated by the sign of its result.
- The functions that return 0 or 1 in C (`isl_seq_eq`, `isl_seq_is_neg`)
  return `bool`; "no index" stays -1.

## Model

| member | source | states |
|---|---|---|
| `SeqArith.Clr` | isl_seq.c:3-8 | the result has the input's length and every entry is zero |
| `SeqArith.Neg` | isl_seq.c:10-15 | entry `i` of the result is `-src[i]`, same length |
| `SeqArith.NegInvolutive` | isl_seq.c:10-15 | negating twice gives back the original vector |
| `SeqArith.NegIsScaleMinusOne` | isl_seq.c:10-15 | negation equals scaling by -1 |
| `SeqArith.Cpy` | isl_seq.c:17-22 | after the copy `dst` equals `src` |
| `SeqArith.SwpOrCpy` | isl_seq.c:24-29 | the new `dst` equals the old `src`; the old `src` keeps its length and nothing else is promised about it |
| `SeqArith.SwpOrCpyActsAsCpy` | isl_seq.c:24-29 | the move leaves `dst` exactly as `isl_seq_cpy` would |
| `SeqArith.Scale` | isl_seq.c:31-36 | entry `i` of the result is `src[i] * m`, same length |
| `SeqArith.ScaleOne` | isl_seq.c:31-36 | scaling by 1 is the identity |
| `SeqArith.ScaleZero` | isl_seq.c:31-36 | scaling by 0 gives the cleared vector |
| `SeqArith.ScaleDown` | isl_seq.c:38-43 | with `m != 0` dividing every entry, each result entry times `m` is the input entry |
| `SeqArith.ScaleDownUndoesScale` | isl_seq.c:31-43 | for `m != 0`, every entry of a scaled vector is divisible by `m` and scaling down by `m` restores the vector |
| `SeqArith.ScaleUndoesScaleDown` | isl_seq.c:31-43 | an exact scale-down by `m` followed by a scale by `m` restores the vector |
| `SeqArith.Combine` | isl_seq.c:45-58 | entry `i` of the result is `m1 * src1[i] + m2 * src2[i]` for every `i < len` |
| `SeqArith.CombineUnit` | isl_seq.c:45-58 | coefficients (1, 0) copy `src1` and (0, 1) copy `src2` |
| `SeqArith.CombineScale` | isl_seq.c:45-58 | a zero second coefficient gives `isl_seq_scale` of `src1` |
| `SeqInPlace.CombineInPlace` | isl_seq.c:45-58 | on arrays, with `dst` allowed to be `src1` and/or `src2`, the first `len` entries become the combination of the inputs as they were on entry and later entries are untouched |
| `IntMath.GcdIsGcd` | isl_seq.c:76 | the two-argument GCD used by elimination divides both arguments and every common divisor divides it |
| `SeqElim.Elim` | isl_seq.c:64-89 | a zero `dst[pos]` changes neither `dst` nor `m`; otherwise `dst[pos]` becomes 0 (for `pos < len`), entries from `len` on are untouched, the length is kept and `m` stays present or absent |
| `SeqElim.ElimFactorsCancel` | isl_seq.c:76-81 | the two pivot scalars cancel `dst[pos]` exactly (`a*d + b*s == 0`), `a == |s|/gcd(s,d) >= 0`, `b == -sgn(s)*(d/gcd)` for `s != 0`, and `a == 0`, `b == sgn(d)` for `s == 0` |
| `SeqElim.ElimDocumentedStep` | isl_seq.c:60-85 | for a non-zero pivot, `dst` becomes `(|s|/g)*dst - sgn(s)*(d/g)*src` on its first `len` entries and `*m` is multiplied by `|s|/g` |
| `SeqElim.ElimZeroPivot` | isl_seq.c:76-85 | for a zero pivot, `dst` becomes `sgn(d)*src` on its first `len` entries and `*m` becomes 0 |
| `SeqElim.ElimTwiceIsElimOnce` | isl_seq.c:70-71 | eliminating the same position again changes nothing, not even `*m` |
| `SeqInPlace.ElimInPlace` | isl_seq.c:64-89 | on arrays, the step as written in the source (including `dst` passed as both output and first input of the combination) produces exactly the functional `Elim` result |
| `SeqQuery.Eq` | isl_seq.c:91-98 | true exactly when the two vectors are equal |
| `SeqQuery.Cmp` | isl_seq.c:100-108 | zero exactly when the vectors are equal; otherwise negative exactly when `p1` is smaller at the first index where they differ |
| `SeqQuery.CmpZeroIffEq` | isl_seq.c:91-108 | `isl_seq_cmp` is 0 exactly when `isl_seq_eq` holds, and every vector compares equal to itself |
| `SeqQuery.CmpAntisymmetric` | isl_seq.c:100-108 | swapping the arguments negates the comparison |
| `SeqQuery.IsNeg` | isl_seq.c:110-123 | true exactly when `p1[i] == -p2[i]` at every index |
| `SeqQuery.IsNegSymmetric` | isl_seq.c:110-123 | the answer does not depend on the order of the arguments, and a vector is the negation of its `isl_seq_neg` |
| `SeqQuery.IsNegZeroMatchesOnlyZero` | isl_seq.c:114-121 | `[0, 5]` is not the negation of `[7, -5]`; `[1, -2, 3]` is the negation of `[-1, 2, -3]` |
| `SeqQuery.FirstNonZero` | isl_seq.c:125-133 | -1 exactly when every entry is zero; otherwise an index with a non-zero entry and only zeros before it |
| `SeqQuery.AbsMinNonZero` | isl_seq.c:135-147 | -1 exactly when every entry is zero; otherwise the earliest index of a non-zero entry of least magnitude |
| `SeqQuery.EarliestAbsMinUnique` | isl_seq.c:135-147 | the earliest least-magnitude index is unique, so the answer is fully determined |
| `SeqQuery.AbsMinNonZeroExample` | isl_seq.c:140-145 | on `[0, -3, 2, -2]` the answer is 2: the first of the tied magnitude-2 entries wins |
| `SeqGcd.GcdAllIsGcdOf` | isl_seq.c:149-165 | the left-to-right fold of the two-argument GCD over all entries is the greatest common divisor of the vector |
| `SeqGcd.GcdOfUnique` | isl_seq.c:149-165 | the greatest common divisor of a vector is unique |
| `SeqGcd.VecGcd` | isl_seq.c:149-165 | the stored value is 0 exactly when every entry is zero; it is non-negative, divides every entry, every common divisor divides it, and it equals the plain fold although the loop may stop early |
| `SeqProduct.InnerProduct` | isl_seq.c:167-178 | the result is the sum of `p1[i] * p2[i]`, and 0 for `len == 0` |
| `SeqProduct.DotSymmetric` | isl_seq.c:167-178 | the inner product is symmetric |
| `SeqProduct.DotCombine` | isl_seq.c:167-178 | the inner product of a combination is the same combination of inner products |
| `SeqProduct.DotNeg` | isl_seq.c:167-178 | the inner product with a negated vector is negated |
| `SeqProduct.DotExample` | isl_seq.c:167-178 | `[1, 2, 3] . [4, 5, 6] == 32` |
| `SeqHash.Fold` | isl_seq.c:192-196 | for 32 bits the value is unchanged; for fewer bits the folded value is below `2^bits` |
| `SeqHash.Hash` | isl_seq.c:180-197 | for 32 bits the hash is the accumulated value; for fewer bits it is below `2^bits` |
| `SeqHash.AccumulateIgnoresTrailingZeros` | isl_seq.c:185-191 | appending zero entries leaves the accumulated value unchanged |
| `SeqHash.HashIgnoresTrailingZeros` | isl_seq.c:180-197 | appending zero entries leaves the hash unchanged at every width |

## Left out

- `isl_list_read.c` is not part of this model: it reads a parenthesised,
  comma-separated list from a token stream, and every step is a call into the
  stream reader and the list type, which are outside the kernel.
- The `isl_int` representation and its primitives: `isl_int` is Dafny's
  unbounded `int`, `isl_int_gcd` is `IntMath.Gcd`, `isl_int_divexact` is
  Dafny's `/` on exact multiples, `isl_int_cmp` is `IntMath.Compare`.
- `isl_int_hash`, whose body is not available, is the function parameter
  `intHash` of `SeqHash.Hash`.
- Storage transfer in `isl_int_swap_or_set` is modelled as a swap of values;
  no memory ownership is modelled.
- Scratch lifetime (`isl_int_init` / `isl_int_clear`) has no meaning in the
  model.
- The mix of `int` indices and `unsigned len` in C is not modelled: indices
  are natural numbers and `len` is the vector's length.
- `SeqHash.Hash`: requires `bits <= 32`, because shifting a 32-bit value by
  more than 32 is undefined in C.
- `SeqArith.SwpOrCpy`: promises nothing about the contents left in `src`
  beyond its length, because the source leaves them unspecified.
- `SeqQuery.Cmp`: the answer is normalised to -1, 0 or 1, while `isl_int_cmp`
  may return any value of the right sign; callers only test the sign.
- Aliasing of `dst` with `src` in `isl_seq_neg`, `isl_seq_cpy`,
  `isl_seq_scale` and `isl_seq_scale_down` is not modelled on arrays: those
  operations are pure functions of their inputs, where aliasing has no effect.
- The minimality of the elimination scale (`|s|/gcd(s,d)` is the least
  non-negative multiplier of `dst` that allows an integer cancellation) is not
  proved; the exact values of both scalars are.
