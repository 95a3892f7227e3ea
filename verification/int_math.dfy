/** Scalar helpers over unbounded integers: the part of the big-integer
    capability the vector kernel relies on (absolute value, sign, exact
    divisibility and the non-negative two-argument GCD). */
module IntMath {

  function Abs(x: int): nat {
    if x < 0 then -x else x
  }

  /** Sign of `x` as -1, 0 or 1. */
  function Sign(x: int): int {
    if x > 0 then 1 else if x < 0 then -1 else 0
  }

  /** Three-way comparison of two big integers, normalised to -1, 0 or 1. */
  function Compare(a: int, b: int): (r: int)
    ensures r == 0 <==> a == b
    ensures r < 0 <==> a < b
    ensures r == 1 || r == 0 || r == -1
  {
    Sign(a - b)
  }

  /** `d` divides `n` exactly (zero divides only zero). */
  ghost predicate Divides(d: int, n: int) {
    exists k :: n == d * k
  }

  /** Euclid's algorithm on natural numbers. */
  function NatGcd(a: nat, b: nat): (g: nat)
    ensures g == 0 <==> a == 0 && b == 0
    decreases b
  {
    if b == 0 then a else NatGcd(b, a % b)
  }

  /** GCD of the absolute values of `a` and `b`; never negative, and
      `Gcd(0, b) == |b|`. */
  function Gcd(a: int, b: int): (g: nat)
    ensures g == 0 <==> a == 0 && b == 0
  {
    NatGcd(Abs(a), Abs(b))
  }

  lemma DividesZero(d: int)
    ensures Divides(d, 0)
  {
    assert 0 == d * 0;
  }

  lemma OneDivides(n: int)
    ensures Divides(1, n)
  {
    assert n == 1 * n;
  }

  lemma DividesSelf(n: int)
    ensures Divides(n, n)
  {
    assert n == n * 1;
  }

  /** Only zero is a multiple of zero. */
  lemma ZeroDividesOnlyZero(n: int)
    requires Divides(0, n)
    ensures n == 0
  {
    var k :| n == 0 * k;
  }

  lemma DividesNeg(d: int, n: int)
    requires Divides(d, n)
    ensures Divides(d, -n)
  {
    var k :| n == d * k;
    assert -n == d * (-k);
  }

  lemma DividesAbs(d: int, n: int)
    ensures Divides(d, n) <==> Divides(d, Abs(n))
  {
    if Divides(d, n) {
      if n < 0 { DividesNeg(d, n); }
    }
    if Divides(d, Abs(n)) {
      if n < 0 { DividesNeg(d, Abs(n)); }
    }
  }

  lemma DividesTrans(a: int, b: int, c: int)
    requires Divides(a, b) && Divides(b, c)
    ensures Divides(a, c)
  {
    var k :| b == a * k;
    var l :| c == b * l;
    assert c == a * (k * l);
  }

  /** A divisor of two numbers divides every integer combination of them. */
  lemma DividesCombination(d: int, x: int, y: int, p: int, q: int)
    requires Divides(d, x) && Divides(d, y)
    ensures Divides(d, p * x + q * y)
  {
    var k :| x == d * k;
    var l :| y == d * l;
    assert p * x + q * y == d * (p * k + q * l);
  }

  lemma MulAtLeast(a: nat, b: nat)
    requires b >= 1
    ensures a * b >= a
  {
    assert a * b == a * (b - 1) + a;
  }

  lemma AbsMul(d: int, x: int)
    ensures Abs(d * x) == Abs(d) * Abs(x)
  {
    if d < 0 && x < 0 {
      assert d * x == (-d) * (-x);
    } else if d < 0 {
      assert d * x == -((-d) * x);
    } else if x < 0 {
      assert d * x == -(d * (-x));
    }
  }

  /** A positive factor keeps the sign of a product. */
  lemma MulPositiveSign(g: int, x: int)
    requires g > 0
    ensures x > 0 ==> g * x > 0
    ensures x < 0 ==> g * x < 0
  {
    if x > 0 {
      MulAtLeast(g, x);
    } else if x < 0 {
      MulAtLeast(g, -x);
      assert g * x == -(g * (-x));
    }
  }

  /** A non-zero multiple of `d` is at least as large as `d` in magnitude. */
  lemma AbsMulGe(d: int, x: int)
    requires x != 0
    ensures Abs(d * x) >= Abs(d)
  {
    AbsMul(d, x);
    MulAtLeast(Abs(d), Abs(x));
  }

  /** If `d * x` lies in `[0, |d|)`, the multiple is zero. */
  lemma SmallMultiple(d: int, x: int)
    requires d != 0
    requires 0 <= d * x < Abs(d)
    ensures x == 0
  {
    if x != 0 {
      AbsMulGe(d, x);
      assert false;
    }
  }

  /** Exact division: when `d` divides `n`, Dafny's `/` returns the exact
      quotient, whatever the signs. */
  lemma ExactQuotient(n: int, d: int)
    requires d != 0 && Divides(d, n)
    ensures n % d == 0
    ensures d * (n / d) == n
  {
    var k :| n == d * k;
    assert n == d * (n / d) + n % d;
    assert d * (k - n / d) == n % d;
    SmallMultiple(d, k - n / d);
  }

  lemma DividesMod(d: int, a: nat, b: nat)
    requires b > 0 && Divides(d, a) && Divides(d, b)
    ensures Divides(d, a % b)
  {
    assert a % b == 1 * a + (-(a / b)) * b;
    DividesCombination(d, a, b, 1, -(a / b));
  }

  lemma DividesFromMod(d: int, a: nat, b: nat)
    requires b > 0 && Divides(d, b) && Divides(d, a % b)
    ensures Divides(d, a)
  {
    assert a == (a / b) * b + 1 * (a % b);
    DividesCombination(d, b, a % b, a / b, 1);
  }

  /** Euclid's algorithm returns a common divisor that every common divisor
      divides: the greatest common divisor. */
  lemma {:induction false} NatGcdIsGcd(a: nat, b: nat)
    ensures Divides(NatGcd(a, b), a) && Divides(NatGcd(a, b), b)
    ensures forall d :: Divides(d, a) && Divides(d, b) ==> Divides(d, NatGcd(a, b))
    decreases b
  {
    if b == 0 {
      DividesSelf(a);
      DividesZero(a);
    } else {
      var g := NatGcd(b, a % b);
      NatGcdIsGcd(b, a % b);
      DividesFromMod(g, a, b);
      forall d | Divides(d, a) && Divides(d, b)
        ensures Divides(d, g)
      {
        DividesMod(d, a, b);
      }
    }
  }

  lemma GcdIsGcd(a: int, b: int)
    ensures Divides(Gcd(a, b), a) && Divides(Gcd(a, b), b)
    ensures forall d :: Divides(d, a) && Divides(d, b) ==> Divides(d, Gcd(a, b))
  {
    NatGcdIsGcd(Abs(a), Abs(b));
    DividesAbs(Gcd(a, b), a);
    DividesAbs(Gcd(a, b), b);
    forall d | Divides(d, a) && Divides(d, b)
      ensures Divides(d, Gcd(a, b))
    {
      DividesAbs(d, a);
      DividesAbs(d, b);
    }
  }

  /** The GCD is zero only when both arguments are. */
  lemma GcdPositive(a: int, b: int)
    requires a != 0 || b != 0
    ensures Gcd(a, b) > 0
  {
    GcdIsGcd(a, b);
    if Gcd(a, b) == 0 {
      if a != 0 { ZeroDividesOnlyZero(a); } else { ZeroDividesOnlyZero(b); }
    }
  }

  lemma GcdZeroLeft(b: int)
    ensures Gcd(0, b) == Abs(b)
  {
    if b != 0 {
      assert NatGcd(0, Abs(b)) == NatGcd(Abs(b), 0);
    }
  }

  /** Two non-negative numbers that divide each other are equal. */
  lemma DividesAntisym(a: int, b: int)
    requires a >= 0 && b >= 0
    requires Divides(a, b) && Divides(b, a)
    ensures a == b
  {
    var k :| b == a * k;
    var l :| a == b * l;
    if a != 0 {
      assert a * (k * l) == a * 1;
      assert k * l == 1;
      AbsMulGe(k, l);
      if k == -1 {
        assert false;
      }
    }
  }
}
