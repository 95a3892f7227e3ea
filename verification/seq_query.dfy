/** Read-only queries over vectors (isl_seq.c, `isl_seq_eq` to
    `isl_seq_abs_min_non_zero`). Each C function is a single scan from
    index 0 that may return early; each is modelled as a scan function
    `...From(p, i)` that resumes the loop at index `i`, and a wrapper that
    starts it at 0. The C functions that answer 0 or 1 return a `bool`;
    "no index" is -1, as in the source. */
module SeqQuery {

  import opened IntMath
  import SeqArith

  /** Loop of `isl_seq_eq` from index `i`: stops at the first difference. */
  function EqFrom(p1: seq<int>, p2: seq<int>, i: nat): (r: bool)
    requires |p1| == |p2| && i <= |p1|
    ensures r <==> forall j :: i <= j < |p1| ==> p1[j] == p2[j]
    decreases |p1| - i
  {
    if i == |p1| then true
    else if p1[i] != p2[i] then false
    else EqFrom(p1, p2, i + 1)
  }

  /** `isl_seq_eq`: true exactly when the vectors are equal. */
  function Eq(p1: seq<int>, p2: seq<int>): (r: bool)
    requires |p1| == |p2|
    ensures r <==> p1 == p2
  {
    EqFrom(p1, p2, 0)
  }

  /** Loop of `isl_seq_cmp` from index `i`: the comparison of the first
      differing entries, or 0. */
  function CmpFrom(p1: seq<int>, p2: seq<int>, i: nat): (r: int)
    requires |p1| == |p2| && i <= |p1|
    ensures r == 0 <==> forall j :: i <= j < |p1| ==> p1[j] == p2[j]
    ensures r != 0 ==> exists k :: i <= k < |p1| && FirstDifference(p1, p2, i, k)
                                   && r == Compare(p1[k], p2[k])
    decreases |p1| - i
  {
    if i == |p1| then 0
    else
      var c := Compare(p1[i], p2[i]);
      if c != 0 then
        assert FirstDifference(p1, p2, i, i);
        c
      else
        var r := CmpFrom(p1, p2, i + 1);
        assert r != 0 ==> exists k :: i <= k < |p1| && FirstDifference(p1, p2, i, k)
                                      && r == Compare(p1[k], p2[k]) by {
          if r != 0 {
            var k :| i + 1 <= k < |p1| && FirstDifference(p1, p2, i + 1, k)
                     && r == Compare(p1[k], p2[k]);
            assert FirstDifference(p1, p2, i, k);
          }
        }
        r
  }

  /** `k` is the first index at or after `i` where the vectors differ. */
  ghost predicate FirstDifference(p1: seq<int>, p2: seq<int>, i: nat, k: nat)
    requires |p1| == |p2| && i <= k < |p1|
  {
    p1[k] != p2[k] && forall j :: i <= j < k ==> p1[j] == p2[j]
  }

  /** `isl_seq_cmp`: lexicographic comparison. Zero exactly when the
      vectors are equal; otherwise the sign of the comparison at the first
      index where they differ. `isl_int_cmp` only promises a sign, which the
      model normalises to -1 or 1. */
  function Cmp(p1: seq<int>, p2: seq<int>): (r: int)
    requires |p1| == |p2|
    ensures r == 0 <==> p1 == p2
    ensures r != 0 ==> exists k :: 0 <= k < |p1| && FirstDifference(p1, p2, 0, k)
                                   && (r < 0 <==> p1[k] < p2[k])
  {
    CmpFrom(p1, p2, 0)
  }

  /** `isl_seq_cmp` answers 0 exactly when `isl_seq_eq` answers 1, and a
      vector compares equal to itself. */
  lemma CmpZeroIffEq(p1: seq<int>, p2: seq<int>)
    requires |p1| == |p2|
    ensures Cmp(p1, p2) == 0 <==> Eq(p1, p2)
    ensures Cmp(p1, p1) == 0
  {
  }

  /** Swapping the arguments of `isl_seq_cmp` flips the sign of the
      answer. */
  lemma {:induction false} CmpAntisymmetric(p1: seq<int>, p2: seq<int>)
    requires |p1| == |p2|
    ensures Cmp(p1, p2) == -Cmp(p2, p1)
  {
    CmpFromAntisymmetric(p1, p2, 0);
  }

  lemma {:induction false} CmpFromAntisymmetric(p1: seq<int>, p2: seq<int>, i: nat)
    requires |p1| == |p2| && i <= |p1|
    ensures CmpFrom(p1, p2, i) == -CmpFrom(p2, p1, i)
    decreases |p1| - i
  {
    if i < |p1| && p1[i] == p2[i] {
      CmpFromAntisymmetric(p1, p2, i + 1);
    }
  }

  /** Loop of `isl_seq_is_neg` from index `i`, with the three tests of the
      source in their order: magnitudes differ, entry of `p1` is zero (skip),
      entries equal. */
  function IsNegFrom(p1: seq<int>, p2: seq<int>, i: nat): (r: bool)
    requires |p1| == |p2| && i <= |p1|
    ensures r <==> forall j :: i <= j < |p1| ==> p1[j] == -p2[j]
    decreases |p1| - i
  {
    if i == |p1| then true
    else if Abs(p1[i]) != Abs(p2[i]) then false
    else if p1[i] == 0 then IsNegFrom(p1, p2, i + 1)
    else if p1[i] == p2[i] then false
    else IsNegFrom(p1, p2, i + 1)
  }

  /** `isl_seq_is_neg`: true exactly when `p1[i] == -p2[i]` at every index.
      The magnitude test comes first, so a zero in `p1` matches only a zero
      in `p2`. */
  function IsNeg(p1: seq<int>, p2: seq<int>): (r: bool)
    requires |p1| == |p2|
    ensures r <==> forall j :: 0 <= j < |p1| ==> p1[j] == -p2[j]
  {
    IsNegFrom(p1, p2, 0)
  }

  /** `isl_seq_is_neg` is symmetric in its arguments, and holds of a vector
      and its negation. */
  lemma IsNegSymmetric(p1: seq<int>, p2: seq<int>)
    requires |p1| == |p2|
    ensures IsNeg(p1, p2) == IsNeg(p2, p1)
    ensures IsNeg(p1, SeqArith.Neg(p1))
  {
  }

  /** A zero in `p1` is no wildcard: `[0, 5]` is not the negation of
      `[7, -5]`. */
  lemma IsNegZeroMatchesOnlyZero()
    ensures !IsNeg([0, 5], [7, -5])
    ensures IsNeg([1, -2, 3], [-1, 2, -3])
  {
    assert [0, 5][0] != -[7, -5][0];
  }

  /** Loop of `isl_seq_first_non_zero` from index `i`. */
  function FirstNonZeroFrom(p: seq<int>, i: nat): (r: int)
    requires i <= |p|
    ensures r == -1 || i <= r < |p|
    ensures r == -1 <==> forall j :: i <= j < |p| ==> p[j] == 0
    ensures r >= 0 ==> p[r] != 0 && forall j :: i <= j < r ==> p[j] == 0
    decreases |p| - i
  {
    if i == |p| then -1
    else if p[i] != 0 then i
    else FirstNonZeroFrom(p, i + 1)
  }

  /** `isl_seq_first_non_zero`: -1 when every entry is zero, otherwise the
      first index holding a non-zero entry. */
  function FirstNonZero(p: seq<int>): (r: int)
    ensures -1 <= r < |p|
    ensures r == -1 <==> forall j :: 0 <= j < |p| ==> p[j] == 0
    ensures r >= 0 ==> p[r] != 0 && forall j :: 0 <= j < r ==> p[j] == 0
  {
    FirstNonZeroFrom(p, 0)
  }

  /** `k` is the earliest index among the first `n` entries of `p` whose
      entry is non-zero and of least magnitude among the non-zero ones. */
  ghost predicate EarliestAbsMin(p: seq<int>, n: nat, k: nat)
    requires n <= |p|
  {
    && k < n
    && p[k] != 0
    && (forall j :: 0 <= j < n && p[j] != 0 ==> Abs(p[k]) <= Abs(p[j]))
    && (forall j :: 0 <= j < k && p[j] != 0 ==> Abs(p[k]) < Abs(p[j]))
  }

  /** Loop of `isl_seq_abs_min_non_zero` from index `i` with the current
      candidate `min`; a later entry replaces it only when strictly smaller
      in magnitude. */
  function AbsMinFrom(p: seq<int>, i: nat, min: nat): (r: nat)
    requires min < i <= |p|
    requires EarliestAbsMin(p, i, min)
    ensures EarliestAbsMin(p, |p|, r)
    decreases |p| - i
  {
    if i == |p| then min
    else if p[i] == 0 then AbsMinFrom(p, i + 1, min)
    else if Abs(p[i]) < Abs(p[min]) then AbsMinFrom(p, i + 1, i)
    else AbsMinFrom(p, i + 1, min)
  }

  /** `isl_seq_abs_min_non_zero`: -1 when every entry is zero, otherwise
      the earliest index of a non-zero entry of least magnitude. */
  function AbsMinNonZero(p: seq<int>): (r: int)
    ensures -1 <= r < |p|
    ensures r == -1 <==> forall j :: 0 <= j < |p| ==> p[j] == 0
    ensures r >= 0 ==> EarliestAbsMin(p, |p|, r)
  {
    var min := FirstNonZero(p);
    if min < 0 then -1 else AbsMinFrom(p, min + 1, min)
  }

  /** The earliest least-magnitude index is unique, so the answer of
      `isl_seq_abs_min_non_zero` is fully determined. */
  lemma EarliestAbsMinUnique(p: seq<int>, k1: nat, k2: nat)
    requires EarliestAbsMin(p, |p|, k1) && EarliestAbsMin(p, |p|, k2)
    ensures k1 == k2
  {
  }

  /** `[0, -3, 2, -2]`: the `2` at index 2 wins the tie with the `-2`. */
  lemma AbsMinNonZeroExample()
    ensures AbsMinNonZero([0, -3, 2, -2]) == 2
  {
    var p := [0, -3, 2, -2];
    assert EarliestAbsMin(p, |p|, 2) by {
      assert forall j :: 0 <= j < |p| && p[j] != 0 ==> Abs(p[2]) <= Abs(p[j]);
    }
    var r := AbsMinNonZero(p);
    assert p[1] != 0;
    EarliestAbsMinUnique(p, r, 2);
  }
}
