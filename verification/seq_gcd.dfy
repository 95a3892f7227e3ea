/** GCD of a vector (isl_seq.c, `isl_seq_gcd`). The source starts from the
    magnitude of the least non-zero entry and folds the remaining non-zero
    entries in with the two-argument GCD, leaving the loop as soon as the
    running GCD reaches 1. The result is characterised independently of
    that order and of the early exit. */
module SeqGcd {

  import opened IntMath
  import opened SeqQuery

  /** `d` divides every entry of `p`. */
  ghost predicate CommonDivisor(d: int, p: seq<int>) {
    forall i :: 0 <= i < |p| ==> Divides(d, p[i])
  }

  /** `g` is the greatest common divisor of the entries of `p`: a
      non-negative common divisor that every common divisor divides. */
  ghost predicate IsGcdOf(g: int, p: seq<int>) {
    && g >= 0
    && CommonDivisor(g, p)
    && forall d :: CommonDivisor(d, p) ==> Divides(d, g)
  }

  /** Reference definition: the two-argument GCD folded over every entry,
      left to right, with no early exit. */
  function GcdAll(p: seq<int>): nat {
    if |p| == 0 then 0 else Gcd(GcdAll(p[..|p| - 1]), p[|p| - 1])
  }

  lemma {:induction false} GcdAllIsGcdOf(p: seq<int>)
    ensures IsGcdOf(GcdAll(p), p)
  {
    if |p| == 0 {
      forall d ensures Divides(d, GcdAll(p)) {
        DividesZero(d);
      }
    } else {
      var q, x := p[..|p| - 1], p[|p| - 1];
      var h := GcdAll(q);
      var g := Gcd(h, x);
      GcdAllIsGcdOf(q);
      GcdIsGcd(h, x);
      forall i | 0 <= i < |p|
        ensures Divides(g, p[i])
      {
        if i < |p| - 1 {
          assert p[i] == q[i];
          DividesTrans(g, h, p[i]);
        }
      }
      forall d | CommonDivisor(d, p)
        ensures Divides(d, g)
      {
        assert CommonDivisor(d, q) by {
          forall i | 0 <= i < |q| ensures Divides(d, q[i]) {
            assert q[i] == p[i];
          }
        }
        assert Divides(d, x);
      }
    }
  }

  /** The greatest common divisor of a vector is unique. */
  lemma GcdOfUnique(g1: int, g2: int, p: seq<int>)
    requires IsGcdOf(g1, p) && IsGcdOf(g2, p)
    ensures g1 == g2
  {
    DividesAntisym(g1, g2);
  }

  /** What the loop of `isl_seq_gcd` keeps after scanning `p[..i]`, with
      the running GCD `g` started from the entry at `min`: `g` is positive,
      divides that entry and every scanned entry, and every common divisor
      of them divides `g`. */
  ghost predicate GcdLoopInv(p: seq<int>, min: nat, i: nat, g: int)
    requires min < |p| && i <= |p|
  {
    && g >= 1
    && Divides(g, p[min])
    && CommonDivisor(g, p[..i])
    && forall d :: Divides(d, p[min]) && CommonDivisor(d, p[..i]) ==> Divides(d, g)
  }

  /** Before the loop: the running value is `|p[min]|`. */
  lemma GcdLoopInit(p: seq<int>, min: nat)
    requires min < |p| && p[min] != 0
    ensures GcdLoopInv(p, min, 0, Abs(p[min]))
  {
    var g := Abs(p[min]);
    DividesAbs(g, p[min]);
    DividesSelf(g);
    forall d | Divides(d, p[min]) ensures Divides(d, g) {
      DividesAbs(d, p[min]);
    }
  }

  /** One iteration: entry `i` is folded in unless it is the start entry or
      zero, in which case it is already divided by the running value. */
  lemma GcdLoopStep(p: seq<int>, min: nat, i: nat, g: int)
    requires min < |p| && i < |p|
    requires GcdLoopInv(p, min, i, g)
    ensures GcdLoopInv(p, min, i + 1,
                       if i != min && p[i] != 0 then Gcd(g, p[i]) else g)
  {
    var h := if i != min && p[i] != 0 then Gcd(g, p[i]) else g;
    var prev, next := p[..i], p[..i + 1];
    assert forall j :: 0 <= j < i ==> prev[j] == next[j];
    assert next[i] == p[i];
    if i != min && p[i] != 0 {
      GcdIsGcd(g, p[i]);
      GcdPositive(g, p[i]);
      DividesTrans(h, g, p[min]);
      forall j | 0 <= j < |next| ensures Divides(h, next[j]) {
        if j < i {
          DividesTrans(h, g, prev[j]);
        }
      }
    } else {
      if p[i] == 0 { DividesZero(g); }
      forall j | 0 <= j < |next| ensures Divides(g, next[j]) {
        if j < i { assert Divides(g, prev[j]); }
      }
    }
    forall d | Divides(d, p[min]) && CommonDivisor(d, next)
      ensures Divides(d, h)
    {
      assert CommonDivisor(d, prev) by {
        forall j | 0 <= j < i ensures Divides(d, prev[j]) {
          assert Divides(d, next[j]);
        }
      }
      assert Divides(d, next[i]);
    }
  }

  /** After the loop: either every entry was scanned, or the running value
      is 1; either way it is the GCD of the vector. */
  lemma GcdLoopExit(p: seq<int>, min: nat, i: nat, g: int)
    requires min < |p| && i <= |p|
    requires GcdLoopInv(p, min, i, g)
    requires i == |p| || g <= 1
    ensures IsGcdOf(g, p) && g > 0
  {
    if i < |p| {
      forall j | 0 <= j < |p| ensures Divides(g, p[j]) {
        OneDivides(p[j]);
      }
    } else {
      assert p[..i] == p;
    }
    forall d | CommonDivisor(d, p) ensures Divides(d, g) {
      assert CommonDivisor(d, p[..i]) by {
        forall j | 0 <= j < i ensures Divides(d, p[..i][j]) {
          assert p[..i][j] == p[j];
        }
      }
    }
  }

  /** Zero is the GCD of a vector of zeros. */
  lemma GcdOfZeros(p: seq<int>)
    requires forall i :: 0 <= i < |p| ==> p[i] == 0
    ensures IsGcdOf(0, p)
  {
    forall i | 0 <= i < |p| ensures Divides(0, p[i]) {
      DividesZero(0);
    }
    forall d | CommonDivisor(d, p) ensures Divides(d, 0) {
      DividesZero(d);
    }
  }

  /** Any GCD of a vector is the plain fold, and is 0 exactly when every
      entry is. */
  lemma GcdOfIsFold(g: int, p: seq<int>)
    requires IsGcdOf(g, p)
    ensures g == GcdAll(p)
    ensures g == 0 <==> forall i :: 0 <= i < |p| ==> p[i] == 0
  {
    GcdAllIsGcdOf(p);
    GcdOfUnique(g, GcdAll(p), p);
    if g == 0 {
      forall i | 0 <= i < |p| ensures p[i] == 0 {
        ZeroDividesOnlyZero(p[i]);
      }
    } else {
      GcdOfZerosOnlyZero(p);
    }
  }

  lemma GcdOfZerosOnlyZero(p: seq<int>)
    ensures (forall i :: 0 <= i < |p| ==> p[i] == 0) ==> GcdAll(p) == 0
  {
    if forall i :: 0 <= i < |p| ==> p[i] == 0 {
      GcdOfZeros(p);
      GcdAllIsGcdOf(p);
      GcdOfUnique(0, GcdAll(p), p);
    }
  }

  /** `isl_seq_gcd`: stores 0 exactly when every entry is zero; otherwise a
      positive value that divides every entry and that every common divisor
      divides, equal to the plain fold `GcdAll` although the loop starts from
      the least entry and may stop early. */
  method VecGcd(p: seq<int>) returns (g: int)
    ensures IsGcdOf(g, p)
    ensures g == 0 <==> forall i :: 0 <= i < |p| ==> p[i] == 0
    ensures g == GcdAll(p)
  {
    var min := AbsMinNonZero(p);
    if min < 0 {
      g := 0;
      GcdOfZeros(p);
    } else {
      g := Abs(p[min]);
      GcdLoopInit(p, min);
      var i := 0;
      while g > 1 && i < |p|
        invariant 0 <= i <= |p|
        invariant GcdLoopInv(p, min, i, g)
        decreases |p| - i
      {
        GcdLoopStep(p, min, i, g);
        if i != min && p[i] != 0 {
          g := Gcd(g, p[i]);
        }
        i := i + 1;
      }
      GcdLoopExit(p, min, i, g);
    }
    GcdOfIsFold(g, p);
  }
}
