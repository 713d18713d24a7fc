/**
 * Divisibility on the integers and a reference greatest common divisor.
 *
 * `Gcd` is Euclid's algorithm by repeated subtraction. It is the independent reference
 * against which the binary (Stein) algorithm of the ratio reducer is proved,
 * and `IsGcd` is the characterisation both are measured by: a positive common
 * divisor that every common divisor divides.
 */
module Divisibility {

  /** d is a positive divisor of n. */
  ghost predicate Divides(d: int, n: int) {
    d >= 1 && n % d == 0
  }

  /** g is the greatest common divisor of a and b. */
  ghost predicate IsGcd(g: int, a: int, b: int) {
    && Divides(g, a)
    && Divides(g, b)
    && forall d :: Divides(d, a) && Divides(d, b) ==> Divides(d, g)
  }

  predicate IsEven(n: int) {
    n % 2 == 0
  }

  /**
   * Euclid's algorithm in its subtractive form; the reference definition of
   * the gcd of two positive integers.
   */
  function Gcd(a: nat, b: nat): (g: nat)
    requires a >= 1 && b >= 1
    ensures g >= 1
    decreases a + b
  {
    if a == b then a
    else if a > b then Gcd(a - b, b)
    else Gcd(a, b - a)
  }

  /** 2 to the power k (the value of `1 << k` for unbounded integers). */
  function Pow2(k: nat): (p: nat)
    ensures p >= 1
  {
    if k == 0 then 1 else 2 * Pow2(k - 1)
  }

  // ---------------------------------------------------------------------
  // Arithmetic facts about divisibility

  lemma MulNonneg(a: int, b: int)
    requires a >= 0 && b >= 0
    ensures a * b >= 0
  {
  }

  lemma DividesProduct(d: int, q: int)
    requires d >= 1
    ensures Divides(d, d * q)
  {
    var k := (d * q) / d;
    assert d * (q - k) == (d * q) % d;
    if q - k >= 1 {
      MulNonneg(d, q - k - 1);
      assert false;
    } else if q - k <= -1 {
      MulNonneg(d, k - q - 1);
      assert false;
    }
  }

  lemma DividesFactor(d: int, n: int)
    requires Divides(d, n)
    ensures n == d * (n / d)
  {
  }

  lemma DividesSumDiff(d: int, x: int, y: int)
    requires Divides(d, x) && Divides(d, y)
    ensures Divides(d, x + y) && Divides(d, x - y)
  {
    var p, q := x / d, y / d;
    DividesFactor(d, x);
    DividesFactor(d, y);
    assert x + y == d * (p + q);
    assert x - y == d * (p - q);
    DividesProduct(d, p + q);
    DividesProduct(d, p - q);
  }

  lemma DividesMultiple(d: int, x: int, c: int)
    requires Divides(d, x)
    ensures Divides(d, c * x)
  {
    var p := x / d;
    DividesFactor(d, x);
    assert c * x == d * (c * p);
    DividesProduct(d, c * p);
  }

  lemma DividesTransitive(d: int, e: int, n: int)
    requires Divides(d, e) && Divides(e, n)
    ensures Divides(d, n)
  {
    DividesFactor(e, n);
    DividesMultiple(d, e, n / e);
    assert n / e * e == n;
  }

  lemma DividesReflexive(d: int)
    requires d >= 1
    ensures Divides(d, d)
  {
    DividesProduct(d, 1);
  }

  lemma DividesZero(d: int)
    requires d >= 1
    ensures Divides(d, 0)
  {
  }

  lemma DividesBound(d: int, n: int)
    requires Divides(d, n) && n >= 1
    ensures d <= n
  {
    var q := n / d;
    DividesFactor(d, n);
    if q <= 0 {
      MulNonneg(d, -q);
      assert false;
    }
    MulNonneg(d, q - 1);
    assert n == d * (q - 1) + d;
  }

  lemma EvenTimes(a: int, b: int)
    requires IsEven(a)
    ensures IsEven(a * b)
  {
    assert a * b == 2 * ((a / 2) * b);
  }

  lemma DivisorOfOddIsOdd(d: int, y: int)
    requires Divides(d, y) && !IsEven(y)
    ensures !IsEven(d)
  {
    DividesFactor(d, y);
    if IsEven(d) {
      EvenTimes(d, y / d);
      assert false;
    }
  }

  lemma OddTimesOdd(a: int, b: int)
    requires !IsEven(a) && !IsEven(b)
    ensures !IsEven(a * b)
  {
    var i, j := a / 2, b / 2;
    assert a == 2 * i + 1 && b == 2 * j + 1;
    assert a * b == 2 * (2 * i * j + i + j) + 1;
  }

  lemma OddDividesHalf(d: int, x: int)
    requires Divides(d, 2 * x) && !IsEven(d)
    ensures Divides(d, x)
  {
    var q := (2 * x) / d;
    DividesFactor(d, 2 * x);
    if !IsEven(q) {
      OddTimesOdd(d, q);
      assert false;
    }
    var j := q / 2;
    assert q == 2 * j;
    assert 2 * x == 2 * (d * j);
    DividesProduct(d, j);
  }

  lemma DoubleDividesDouble(e: int, x: int)
    requires e >= 1
    ensures Divides(2 * e, 2 * x) <==> Divides(e, x)
  {
    if Divides(e, x) {
      DividesFactor(e, x);
      assert 2 * x == (2 * e) * (x / e);
      DividesProduct(2 * e, x / e);
    }
    if Divides(2 * e, 2 * x) {
      var q := (2 * x) / (2 * e);
      DividesFactor(2 * e, 2 * x);
      assert x == e * q;
      DividesProduct(e, q);
    }
  }

  // ---------------------------------------------------------------------
  // The greatest common divisor

  /** The gcd is unique: two values with the gcd property coincide. */
  lemma {:induction false} GcdUnique(g1: int, g2: int, a: int, b: int)
    requires IsGcd(g1, a, b) && IsGcd(g2, a, b)
    ensures g1 == g2
  {
    assert Divides(g1, g2);
    assert Divides(g2, g1);
    DividesBound(g1, g2);
    DividesBound(g2, g1);
  }

  /** Euclid's algorithm computes the gcd. */
  lemma {:induction false} GcdIsGcd(a: nat, b: nat)
    requires a >= 1 && b >= 1
    ensures IsGcd(Gcd(a, b), a, b)
    decreases a + b
  {
    if a == b {
      DividesReflexive(a);
    } else if a > b {
      GcdIsGcd(a - b, b);
      var g := Gcd(a - b, b);
      DividesSumDiff(g, a - b, b);
      assert a - b + b == a;
      forall d | Divides(d, a) && Divides(d, b)
        ensures Divides(d, g)
      {
        DividesSumDiff(d, a, b);
      }
    } else {
      GcdIsGcd(a, b - a);
      var g := Gcd(a, b - a);
      DividesSumDiff(g, b - a, a);
      assert b - a + a == b;
      forall d | Divides(d, a) && Divides(d, b)
        ensures Divides(d, g)
      {
        DividesSumDiff(d, b, a);
      }
    }
  }

  /** The value that has the gcd property of a and b is what Euclid computes. */
  lemma GcdEquals(g: int, a: nat, b: nat)
    requires a >= 1 && b >= 1 && IsGcd(g, a, b)
    ensures Gcd(a, b) == g
  {
    GcdIsGcd(a, b);
    GcdUnique(g, Gcd(a, b), a, b);
  }

  lemma GcdPositive(a: nat, b: nat)
    requires a >= 1 && b >= 1
    ensures Gcd(a, b) >= 1
  {
    GcdIsGcd(a, b);
  }

  lemma GcdCommutes(a: nat, b: nat)
    requires a >= 1 && b >= 1
    ensures Gcd(a, b) == Gcd(b, a)
  {
    GcdIsGcd(a, b);
    GcdEquals(Gcd(a, b), b, a);
  }

  lemma GcdSelf(a: nat)
    requires a >= 1
    ensures Gcd(a, a) == a
  {
    DividesReflexive(a);
    GcdEquals(a, a, a);
  }

  /** Subtracting the smaller operand from the larger keeps the gcd. */
  lemma GcdSubtract(a: nat, b: nat)
    requires a > b >= 1
    ensures Gcd(a - b, b) == Gcd(a, b) && Gcd(b, a - b) == Gcd(a, b)
  {
    var g := Gcd(a, b);
    GcdIsGcd(a, b);
    DividesSumDiff(g, a, b);
    forall d | Divides(d, a - b) && Divides(d, b)
      ensures Divides(d, g)
    {
      DividesSumDiff(d, a - b, b);
      assert a - b + b == a;
    }
    GcdEquals(g, a - b, b);
    GcdEquals(g, b, a - b);
  }

  /** Halving an even operand keeps the gcd when the other operand is odd. */
  lemma GcdHalve(a: nat, b: nat)
    requires a >= 1 && b >= 1 && IsEven(a) && !IsEven(b)
    ensures Gcd(a / 2, b) == Gcd(a, b) && Gcd(b, a / 2) == Gcd(a, b)
  {
    var g := Gcd(a, b);
    GcdIsGcd(a, b);
    DivisorOfOddIsOdd(g, b);
    assert a == 2 * (a / 2);
    OddDividesHalf(g, a / 2);
    forall d | Divides(d, a / 2) && Divides(d, b)
      ensures Divides(d, g)
    {
      DividesMultiple(d, a / 2, 2);
    }
    GcdEquals(g, a / 2, b);
    GcdEquals(g, b, a / 2);
  }

  /** A common factor of two comes out of the gcd. */
  lemma GcdDouble(a: nat, b: nat)
    requires a >= 1 && b >= 1
    ensures Gcd(2 * a, 2 * b) == 2 * Gcd(a, b)
  {
    var g := Gcd(a, b);
    GcdIsGcd(a, b);
    DoubleDividesDouble(g, a);
    DoubleDividesDouble(g, b);
    forall d | Divides(d, 2 * a) && Divides(d, 2 * b)
      ensures Divides(d, 2 * g)
    {
      if IsEven(d) {
        var e := d / 2;
        assert d == 2 * e;
        DoubleDividesDouble(e, a);
        DoubleDividesDouble(e, b);
        DoubleDividesDouble(e, g);
      } else {
        OddDividesHalf(d, a);
        OddDividesHalf(d, b);
        DividesMultiple(d, g, 2);
      }
    }
    GcdEquals(2 * g, 2 * a, 2 * b);
  }

  /** Repeating an operand changes nothing: gcd(a, gcd(a, b)) = gcd(a, b). */
  lemma GcdAbsorb(a: nat, b: nat)
    requires a >= 1 && b >= 1
    ensures Gcd(a, Gcd(a, b)) == Gcd(a, b)
  {
    var g := Gcd(a, b);
    GcdIsGcd(a, b);
    DividesReflexive(g);
    GcdEquals(g, a, g);
  }
}
