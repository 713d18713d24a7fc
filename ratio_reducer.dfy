/**
 * The ratio reducer: the greatest common divisor of the plan rates.
 *
 * `BinaryGcd` is the two-operand Stein algorithm, step by step, and `GcdPair`
 * is the value it computes. `GcdList` is the N-ary entry point and `Engine`
 * the recursion behind it, which pairs every further step with the LAST
 * element, so that the middle elements of a list of four or more are never
 * looked at. `FoldGcd` is the left fold over all elements that the N-ary
 * function is meant to be.
 */
module RatioReducer {
  import opened JsValues
  import opened Divisibility

  /** `_gcd` goes on with an operand only if it is finite and at least 1. */
  predicate Accepts(x: Num) {
    x.IsFinite() && x.AtLeastOne()
  }

  /** The value of `_gcd(u, v)`: NaN unless both operands are accepted. */
  function GcdPair(u: Num, v: Num): (r: Num)
    ensures r.NaN? || (r.Int? && r.value >= 1)
  {
    if !Accepts(u) || !Accepts(v) then NaN
    else
      GcdPositive(u.value, v.value);
      Int(Gcd(u.value, v.value))
  }

  /** `_gcd(u, v)` is NaN exactly on a rejected operand, and the gcd otherwise. */
  lemma GcdPairIsGcd(u: Num, v: Num)
    ensures GcdPair(u, v).Int? <==> Accepts(u) && Accepts(v)
    ensures GcdPair(u, v).Int? ==> IsGcd(GcdPair(u, v).value, u.value, v.value)
  {
    if Accepts(u) && Accepts(v) {
      GcdIsGcd(u.value, v.value);
    }
  }

  /**
   * `_gcd(u, v)`: Stein's binary algorithm. The source's helper `isOdd` tests
   * `(number & 1) === 0`, so it holds for EVEN numbers; the loops below test
   * evenness accordingly.
   */
  method BinaryGcd(u0: Num, v0: Num) returns (r: Num)
    ensures r == GcdPair(u0, v0)
    ensures r.Int? <==> Accepts(u0) && Accepts(v0)
    ensures r.Int? ==> IsGcd(r.value, u0.value, v0.value)
  {
    if !u0.IsFinite() || !u0.AtLeastOne() {
      return NaN;
    }
    if !v0.IsFinite() || !v0.AtLeastOne() {
      return NaN;
    }
    var u, v := u0.value, v0.value;

    // Cast out the common factors of two, counting them in k.
    var k := 0;
    while IsEven(u) && IsEven(v)
      invariant u >= 1 && v >= 1
      invariant Gcd(u0.value, v0.value) == Shifted(Gcd(u, v), k)
      decreases u
    {
      GcdDouble(u / 2, v / 2);
      k := k + 1;
      u := u / 2;
      v := v / 2;
    }

    // From here on at least one of u, v is odd, and g is their gcd.
    ghost var g := Gcd(u, v);
    var t: int;
    if IsEven(u) {
      HalveEvenStart(u, v);
      t := u / 2;
    } else {
      t := -v;
    }

    // A positive t stands for the pair (t, v), a negative one for (u, -t).
    // The source's do-while runs its body at least once; t is nonzero here,
    // so a while loop with the same test does the same.
    while t != 0
      invariant u >= 1 && v >= 1
      invariant Gcd(u, v) == g
      invariant t > 0 ==> !IsEven(v)
      invariant t > 0 ==> Gcd(t, v) == g
      invariant t < 0 ==> !IsEven(u)
      invariant t < 0 ==> Gcd(u, -t) == g
      invariant t == 0 ==> u == v
      decreases if t > 0 then t + v else u - t
    {
      ghost var t0 := t;
      while IsEven(t)
        invariant t != 0 && (t > 0 <==> t0 > 0)
        invariant t > 0 ==> t <= t0 && Gcd(t, v) == g
        invariant t < 0 ==> t >= t0 && Gcd(u, -t) == g
        decreases if t > 0 then t else -t
      {
        HalveStep(t, u, v);
        t := t / 2;
      }
      if t > 0 {
        u := t;
      } else {
        OddNegated(t);
        v := -t;
      }
      SubtractStep(u, v);
      t := u - v;
    }
    GcdSelf(u);
    ShiftedIsProduct(u, k);
    r := Int(u * Pow2(k));
    GcdPairIsGcd(u0, v0);
  }

  /** x shifted left by k places, doubling one place at a time. */
  ghost function Shifted(x: int, k: nat): int
    decreases k
  {
    if k == 0 then x else Shifted(2 * x, k - 1)
  }

  lemma {:induction false} ShiftedIsProduct(x: int, k: nat)
    ensures Shifted(x, k) == x * Pow2(k)
    decreases k
  {
    if k > 0 {
      ShiftedIsProduct(2 * x, k - 1);
      assert (2 * x) * Pow2(k - 1) == x * (2 * Pow2(k - 1));
    }
  }

  /** Entering the subtraction phase with an even u: v is odd and u / 2 keeps the gcd. */
  lemma HalveEvenStart(u: int, v: int)
    requires u >= 1 && v >= 1 && IsEven(u) && !(IsEven(u) && IsEven(v))
    ensures u / 2 >= 1 && !IsEven(v) && Gcd(u / 2, v) == Gcd(u, v)
  {
    GcdHalve(u, v);
  }

  /** Halving an even t keeps the gcd of the pair that t stands for. */
  lemma HalveStep(t: int, u: int, v: int)
    requires u >= 1 && v >= 1 && t != 0 && IsEven(t)
    requires t > 0 ==> !IsEven(v)
    requires t < 0 ==> !IsEven(u)
    ensures t / 2 != 0 && (t / 2 > 0 <==> t > 0)
    ensures t > 0 ==> t / 2 < t && Gcd(t / 2, v) == Gcd(t, v)
    ensures t < 0 ==> t / 2 > t && Gcd(u, -(t / 2)) == Gcd(u, -t)
  {
    if t > 0 {
      GcdHalve(t, v);
    } else {
      GcdHalve(-t, u);
      GcdCommutes(-t, u);
      assert -(t / 2) == (-t) / 2;
    }
  }

  lemma OddNegated(t: int)
    requires !IsEven(t)
    ensures !IsEven(-t)
  {
    assert -t == 2 * (-(t / 2) - 1) + 1;
  }

  /** The difference of the pair stands for a pair with the same gcd. */
  lemma SubtractStep(u: int, v: int)
    requires u >= 1 && v >= 1
    ensures u - v > 0 ==> Gcd(u - v, v) == Gcd(u, v)
    ensures u - v < 0 ==> Gcd(u, -(u - v)) == Gcd(u, v)
  {
    if u > v {
      GcdSubtract(u, v);
    } else if u < v {
      GcdSubtract(v, u);
      GcdCommutes(v, u);
    }
  }

  /**
   * `engine(n, use)`: for use == 2 the gcd of the first two elements, and
   * otherwise the gcd of the last element with `engine(n, use - 1)`.
   */
  function Engine(n: seq<Num>, use: nat): (r: Num)
    requires |n| >= 2 && use >= 2
    decreases use
  {
    if use == 2 then GcdPair(n[0], n[1])
    else GcdPair(n[|n| - 1], Engine(n, use - 1))
  }

  /** `gcd(n)`: NaN for fewer than two values, `engine(n, n.length)` otherwise. */
  function GcdList(n: seq<Num>): (r: Num)
  {
    if |n| < 2 then NaN else Engine(n, |n|)
  }

  /** Pairing a value with a gcd it already took part in changes nothing. */
  lemma GcdPairAbsorb(x: Num, y: Num)
    ensures GcdPair(x, GcdPair(x, y)) == GcdPair(x, y)
  {
    if Accepts(x) && Accepts(y) {
      GcdAbsorb(x.value, y.value);
    }
  }

  /** Past the first step the recursion keeps pairing with the same last element. */
  lemma {:induction false} EngineCollapses(n: seq<Num>, use: nat)
    requires |n| >= 2 && use >= 3
    ensures Engine(n, use) == GcdPair(n[|n| - 1], GcdPair(n[0], n[1]))
    decreases use
  {
    if use > 3 {
      EngineCollapses(n, use - 1);
      GcdPairAbsorb(n[|n| - 1], GcdPair(n[0], n[1]));
    }
  }

  /**
   * `gcd(n)` looks at the first, the second and the last element only:
   * for two elements it is their gcd, for more the gcd of those three.
   */
  lemma GcdListUsesFirstSecondLast(n: seq<Num>)
    requires |n| >= 2
    ensures GcdList(n) == if |n| == 2 then GcdPair(n[0], n[1])
                          else GcdPair(n[|n| - 1], GcdPair(n[0], n[1]))
  {
    if |n| > 2 {
      EngineCollapses(n, |n|);
    }
  }

  /**
   * `gcd(n)` is NaN exactly when there are fewer than two values or one of
   * the first, the second and the last is rejected; otherwise it is an
   * integer of at least 1. NaN from an inner step propagates outwards.
   */
  lemma GcdListInvalid(n: seq<Num>)
    ensures GcdList(n).Int? <==>
              |n| >= 2 && Accepts(n[0]) && Accepts(n[1]) && Accepts(n[|n| - 1])
    ensures GcdList(n).NaN? <==> !GcdList(n).Int?
    ensures GcdList(n).Int? ==> GcdList(n).value >= 1
  {
    if |n| >= 2 {
      GcdListUsesFirstSecondLast(n);
      GcdPairIsGcd(n[0], n[1]);
      GcdPairIsGcd(n[|n| - 1], GcdPair(n[0], n[1]));
    }
  }

  /** Every element is an accepted operand. */
  predicate AllAccepted(n: seq<Num>) {
    forall i :: 0 <= i < |n| ==> Accepts(n[i])
  }

  /** g divides every element, and every common divisor of all elements divides g. */
  ghost predicate IsGcdOfAll(g: int, n: seq<Num>)
    requires AllAccepted(n)
  {
    && (forall i :: 0 <= i < |n| ==> Divides(g, n[i].value))
    && (forall d :: (forall i :: 0 <= i < |n| ==> Divides(d, n[i].value)) ==> Divides(d, g))
  }

  /** The gcd of three operands, nested either way round. */
  lemma GcdPairOfThree(x: Num, y: Num, z: Num)
    requires Accepts(x) && Accepts(y) && Accepts(z)
    ensures GcdPair(z, GcdPair(x, y)).Int?
    ensures forall d :: Divides(d, x.value) && Divides(d, y.value) && Divides(d, z.value)
                        <==> Divides(d, GcdPair(z, GcdPair(x, y)).value)
  {
    var g := GcdPair(x, y);
    GcdPairIsGcd(x, y);
    GcdPairIsGcd(z, g);
    var r := GcdPair(z, g).value;
    forall d | Divides(d, r)
      ensures Divides(d, x.value) && Divides(d, y.value) && Divides(d, z.value)
    {
      DividesTransitive(d, r, g.value);
      DividesTransitive(d, g.value, x.value);
      DividesTransitive(d, g.value, y.value);
      DividesTransitive(d, r, z.value);
    }
  }

  /** For two or three accepted values `gcd(n)` is the gcd of all of them. */
  lemma GcdListShortIsGcd(n: seq<Num>)
    requires 2 <= |n| <= 3 && AllAccepted(n)
    ensures GcdList(n).Int? && IsGcdOfAll(GcdList(n).value, n)
  {
    GcdListUsesFirstSecondLast(n);
    if |n| == 2 {
      GcdPairIsGcd(n[0], n[1]);
    } else {
      GcdPairOfThree(n[0], n[1], n[2]);
      var r := GcdList(n).value;
      DividesReflexive(r);
      forall d | forall i :: 0 <= i < |n| ==> Divides(d, n[i].value)
        ensures Divides(d, r)
      {
        assert Divides(d, n[0].value) && Divides(d, n[1].value) && Divides(d, n[2].value);
      }
    }
  }

  /** The left fold of `_gcd` over all elements, the N-ary gcd as intended. */
  function FoldGcd(n: seq<Num>): (r: Num)
    decreases |n|
  {
    if |n| < 2 then NaN
    else if |n| == 2 then GcdPair(n[0], n[1])
    else GcdPair(FoldGcd(n[..|n| - 1]), n[|n| - 1])
  }

  /** The left fold is the gcd of every element, for any length of at least two. */
  lemma {:induction false} FoldGcdIsGcd(n: seq<Num>)
    requires |n| >= 2 && AllAccepted(n)
    ensures FoldGcd(n).Int? && IsGcdOfAll(FoldGcd(n).value, n)
    decreases |n|
  {
    if |n| == 2 {
      GcdPairIsGcd(n[0], n[1]);
    } else {
      var init, last := n[..|n| - 1], n[|n| - 1];
      assert AllAccepted(init);
      FoldGcdIsGcd(init);
      var g := FoldGcd(init);
      GcdPairIsGcd(g, last);
      var r := GcdPair(g, last).value;
      forall i | 0 <= i < |n|
        ensures Divides(r, n[i].value)
      {
        if i < |n| - 1 {
          assert n[i] == init[i];
          DividesTransitive(r, g.value, n[i].value);
        }
      }
      forall d | forall i :: 0 <= i < |n| ==> Divides(d, n[i].value)
        ensures Divides(d, r)
      {
        assert forall i :: 0 <= i < |init| ==> Divides(d, init[i].value) by {
          forall i | 0 <= i < |init| ensures Divides(d, init[i].value) {
            assert init[i] == n[i];
          }
        }
        assert Divides(d, last.value);
      }
    }
  }

  /** For two or three values `gcd(n)` agrees with the left fold. */
  lemma GcdListAgreesWithFoldUpToThree(n: seq<Num>)
    requires 2 <= |n| <= 3 && AllAccepted(n)
    ensures GcdList(n) == FoldGcd(n)
  {
    GcdListShortIsGcd(n);
    FoldGcdIsGcd(n);
    var a, b := GcdList(n).value, FoldGcd(n).value;
    assert Divides(a, b) by {
      DividesReflexive(b);
    }
    assert Divides(b, a) by {
      DividesReflexive(a);
    }
    DividesBound(a, b);
    DividesBound(b, a);
  }

  /**
   * From four values on the middle ones are skipped: the rates 2, 4, 3, 2
   * reduce to 2, although 2 does not divide 3 and their gcd is 1.
   */
  lemma GcdListSkipsMiddle()
    ensures GcdList([Int(2), Int(4), Int(3), Int(2)]) == Int(2)
    ensures FoldGcd([Int(2), Int(4), Int(3), Int(2)]) == Int(1)
  {
    var n := [Int(2), Int(4), Int(3), Int(2)];
    GcdListUsesFirstSecondLast(n);
    assert Gcd(2, 4) == 2;
    assert Gcd(2, 2) == 2;
    assert FoldGcd(n[..3]) == GcdPair(FoldGcd([Int(2), Int(4)]), Int(3)) by {
      assert n[..3][..2] == [Int(2), Int(4)];
    }
    assert Gcd(2, 3) == 1;
    assert Gcd(1, 2) == 1;
  }

  /** Reductions of two values: 8 and 12 reduce to 4, 1 and 364 to 1. */
  lemma GcdListPairExamples()
    ensures GcdList([Int(8), Int(12)]) == Int(4)
    ensures GcdList([Int(1), Int(364)]) == Int(1)
  {
    assert Gcd(8, 12) == 4;
    GcdEquals(1, 1, 364);
  }

  /** 6, 10 and 15 reduce to 1; no value or one value gives NaN. */
  lemma GcdListOtherExamples()
    ensures GcdList([Int(6), Int(10), Int(15)]) == Int(1)
    ensures GcdList([]) == NaN && GcdList([Int(5)]) == NaN
  {
    GcdListUsesFirstSecondLast([Int(6), Int(10), Int(15)]);
    assert Gcd(6, 10) == 2;
    assert Gcd(15, 2) == Gcd(1, 2) by {
      assert Gcd(15, 2) == Gcd(13, 2) == Gcd(11, 2) == Gcd(9, 2) == Gcd(7, 2);
      assert Gcd(7, 2) == Gcd(5, 2) == Gcd(3, 2) == Gcd(1, 2);
    }
    GcdEquals(1, 1, 2);
  }
}
