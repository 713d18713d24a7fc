/**
 * The dispatcher: the pool of task copies built from the ready list, and
 * the buffer that serves it one task per call, refilled in shuffled order
 * each time it runs dry.
 */
module CycleDispatcher {
  import opened JsValues
  import opened Divisibility
  import opened RatioReducer
  import opened PlanRegistry

  /** A value the rate reduction can produce: NaN or an integer of at least 1. */
  predicate IsReduced(g: Num) {
    g.NaN? || (g.Int? && g.value >= 1)
  }

  /**
   * The test `j < rate` of the copy loop, after `rate /= g` when the rate was
   * positive: for g >= 1 the real quotient exceeds j exactly when j * g < rate,
   * and every comparison with NaN is false.
   */
  predicate BelowQuota(j: nat, rate: nat, g: Num)
    requires IsReduced(g)
  {
    if rate > 0 then g.Int? && j * g.value < rate else j < rate
  }

  /** The number of copies of a plan's function: the rounded-up quotient. */
  function CopyCount(rate: nat, g: Num): nat
    requires IsReduced(g)
  {
    if rate > 0 && g.Int? then (rate + g.value - 1) / g.value else 0
  }

  /** The copy loop runs exactly `CopyCount` times; never for rate 0 or a NaN gcd. */
  lemma CopyCountIsLoopCount(j: nat, rate: nat, g: Num)
    requires IsReduced(g)
    ensures BelowQuota(j, rate, g) <==> j < CopyCount(rate, g)
    ensures rate == 0 || g.NaN? ==> CopyCount(rate, g) == 0
  {
    if rate > 0 && g.Int? {
      var q := g.value;
      var c := CopyCount(rate, g);
      var m := (rate + q - 1) % q;
      assert rate + q - 1 == c * q + m;
      if j < c {
        MulNonneg(c - 1 - j, q);
        assert (c - 1) * q == j * q + (c - 1 - j) * q;
        assert j * q <= c * q - q;
      } else {
        MulNonneg(j - c, q);
        assert j * q == c * q + (j - c) * q;
      }
    }
  }

  /** When g divides the rate the copy count is the exact quotient rate / g. */
  lemma CopyCountExact(rate: nat, g: int)
    requires rate >= 1 && Divides(g, rate)
    ensures CopyCount(rate, Int(g)) * g == rate
  {
    var k := rate / g;
    DividesFactor(g, rate);
    var c := CopyCount(rate, Int(g));
    CopyCountIsLoopCount(k, rate, Int(g));
    assert k * g == rate;
    assert k >= 1 by {
      if k <= 0 {
        MulNonneg(-k, g);
      }
    }
    CopyCountIsLoopCount(k - 1, rate, Int(g));
    assert (k - 1) * g == rate - g;
  }

  /** n copies of x. */
  function Repeat<T>(x: T, n: nat): (r: seq<T>)
    ensures |r| == n
    ensures forall i :: 0 <= i < n ==> r[i] == x
  {
    if n == 0 then [] else Repeat(x, n - 1) + [x]
  }

  lemma {:induction false} RepeatCount<T>(x: T, n: nat, t: T)
    ensures multiset(Repeat(x, n))[t] == if t == x then n else 0
  {
    if n > 0 {
      RepeatCount(x, n - 1, t);
    }
  }

  /** The pool built from the plans with gcd g: each plan's copies, in plan order. */
  function Expand<F>(plans: seq<Plan<F>>, g: Num): seq<Task<F>>
    requires IsReduced(g)
  {
    if plans == [] then []
    else
      var last := plans[|plans| - 1];
      Expand(plans[..|plans| - 1], g) + Repeat(last.func, CopyCount(last.rate, g))
  }

  /** One more plan adds its copies at the end of the pool. */
  lemma ExpandStep<F>(plans: seq<Plan<F>>, i: nat, g: Num)
    requires IsReduced(g) && i < |plans|
    ensures Expand(plans[..i + 1], g) == Expand(plans[..i], g) + Repeat(plans[i].func, CopyCount(plans[i].rate, g))
  {
    assert plans[..i + 1][..i] == plans[..i];
  }

  /** The pool a dispatcher builds from a ready list holding these plans. */
  function Pool<F>(plans: seq<Plan<F>>): seq<Task<F>>
  {
    GcdListInvalid(RatesOf(plans));
    Expand(plans, GcdList(RatesOf(plans)))
  }

  /** The number of copies of t: the copy counts of the plans that run t. */
  ghost function CopiesOf<F>(plans: seq<Plan<F>>, g: Num, t: Task<F>): nat
    requires IsReduced(g)
  {
    if plans == [] then 0
    else
      var last := plans[|plans| - 1];
      CopiesOf(plans[..|plans| - 1], g, t) + (if last.func == t then CopyCount(last.rate, g) else 0)
  }

  /** The sum of the copy counts of all plans. */
  ghost function TotalCopies<F>(plans: seq<Plan<F>>, g: Num): nat
    requires IsReduced(g)
  {
    if plans == [] then 0
    else TotalCopies(plans[..|plans| - 1], g) + CopyCount(plans[|plans| - 1].rate, g)
  }

  /** The pool holds t as often as the plans running t ask for, and is as long as all copies. */
  lemma {:induction false} ExpandCounts<F>(plans: seq<Plan<F>>, g: Num, t: Task<F>)
    requires IsReduced(g)
    ensures multiset(Expand(plans, g))[t] == CopiesOf(plans, g, t)
    ensures |Expand(plans, g)| == TotalCopies(plans, g)
    decreases |plans|
  {
    if plans != [] {
      var last := plans[|plans| - 1];
      ExpandCounts(plans[..|plans| - 1], g, t);
      RepeatCount(last.func, CopyCount(last.rate, g), t);
    }
  }

  /** No two plans run the same function. */
  ghost predicate DistinctTasks<F>(plans: seq<Plan<F>>) {
    forall i, j :: 0 <= i < j < |plans| ==> plans[i].func != plans[j].func
  }

  /** With distinct functions, the pool holds each plan's function CopyCount times. */
  lemma {:induction false} CopiesOfDistinct<F>(plans: seq<Plan<F>>, g: Num, i: nat)
    requires IsReduced(g) && i < |plans| && DistinctTasks(plans)
    ensures CopiesOf(plans, g, plans[i].func) == CopyCount(plans[i].rate, g)
    decreases |plans|
  {
    var init := plans[..|plans| - 1];
    if i < |plans| - 1 {
      assert init[i] == plans[i];
      CopiesOfDistinct(init, g, i);
    } else {
      CopiesOfAbsent(init, g, plans[i].func);
    }
  }

  lemma {:induction false} CopiesOfAbsent<F>(plans: seq<Plan<F>>, g: Num, t: Task<F>)
    requires IsReduced(g) && forall i :: 0 <= i < |plans| ==> plans[i].func != t
    ensures CopiesOf(plans, g, t) == 0
    decreases |plans|
  {
    if plans != [] {
      var init := plans[..|plans| - 1];
      assert forall i :: 0 <= i < |init| ==> init[i] == plans[i];
      CopiesOfAbsent(init, g, t);
    }
  }

  /** A NaN gcd stops every copy loop: the pool is empty. */
  lemma {:induction false} ExpandNaN<F>(plans: seq<Plan<F>>)
    ensures Expand(plans, NaN) == []
    decreases |plans|
  {
    if plans != [] {
      ExpandNaN(plans[..|plans| - 1]);
      CopyCountIsLoopCount(0, plans[|plans| - 1].rate, NaN);
    }
  }

  /**
   * The pool is empty when there are fewer than two plans or the first, the
   * second or the last plan has the default rate 0: the gcd is then NaN.
   */
  lemma PoolEmptyWhenGcdInvalid<F>(plans: seq<Plan<F>>)
    requires |plans| < 2 || plans[0].rate == 0 || plans[1].rate == 0 || plans[|plans| - 1].rate == 0
    ensures GcdList(RatesOf(plans)) == NaN
    ensures Pool(plans) == []
  {
    GcdListInvalid(RatesOf(plans));
    ExpandNaN(plans);
  }

  /** All rates are valid (at least 1). */
  predicate AllRatesValid<F>(plans: seq<Plan<F>>) {
    forall i :: 0 <= i < |plans| ==> plans[i].rate >= 1
  }

  /**
   * For two or three plans with valid rates and distinct functions the pool
   * holds each function exactly rate / g times, g the gcd of all rates.
   */
  lemma PoolCountsExact<F>(plans: seq<Plan<F>>, i: nat)
    requires 2 <= |plans| <= 3 && AllRatesValid(plans) && DistinctTasks(plans) && i < |plans|
    ensures GcdList(RatesOf(plans)).Int?
    ensures var g := GcdList(RatesOf(plans)).value;
            && Divides(g, plans[i].rate)
            && multiset(Pool(plans))[plans[i].func] * g == plans[i].rate
  {
    var rates := RatesOf(plans);
    assert AllAccepted(rates);
    GcdListShortIsGcd(rates);
    var g := GcdList(rates);
    assert Divides(g.value, rates[i].value);
    ExpandCounts(plans, g, plans[i].func);
    CopiesOfDistinct(plans, g, i);
    CopyCountExact(plans[i].rate, g.value);
  }

  /**
   * With four plans of rates 2, 4, 3, 2 the reduction yields 2 and the pool
   * holds 1, 2, 2 and 1 copies: the plans of rate 4 and 3 run equally often.
   */
  lemma FourPlansDistortRatio<F>(a: F, b: F, c: F, d: F)
    requires a != b && a != c && a != d && b != c && b != d && c != d
    ensures var plans := [Plan(2, Run(a)), Plan(4, Run(b)), Plan(3, Run(c)), Plan(2, Run(d))];
            && multiset(Pool(plans))[Run(a)] == 1
            && multiset(Pool(plans))[Run(b)] == 2
            && multiset(Pool(plans))[Run(c)] == 2
            && multiset(Pool(plans))[Run(d)] == 1
  {
    var plans := [Plan(2, Run(a)), Plan(4, Run(b)), Plan(3, Run(c)), Plan(2, Run(d))];
    assert RatesOf(plans) == [Int(2), Int(4), Int(3), Int(2)];
    GcdListSkipsMiddle();
    var g := Int(2);
    assert DistinctTasks(plans);
    assert CopyCount(2, g) == 1 && CopyCount(4, g) == 2 && CopyCount(3, g) == 2;
    var i := 0;
    while i < 4
      invariant i <= 4
      invariant forall j :: 0 <= j < i ==> multiset(Pool(plans))[plans[j].func] == CopyCount(plans[j].rate, g)
    {
      ExpandCounts(plans, g, plans[i].func);
      CopiesOfDistinct(plans, g, i);
      i := i + 1;
    }
  }

  /**
   * A dispatcher: `taskFunctions` is the pool, `bufferFunctions` what is
   * left of the current shuffled pass over it.
   */
  class Dispatcher<F(==)> {
    var taskFunctions: seq<Task<F>>
    var bufferFunctions: seq<Task<F>>

    /** The buffer only ever holds what the pool holds. */
    ghost predicate Valid()
      reads this
    {
      multiset(bufferFunctions) <= multiset(taskFunctions)
    }

    /**
     * Expands every plan, in plan order, into its copies of the plan's
     * function; the buffer starts empty.
     */
    constructor (readyList: ReadyList<F>)
      ensures taskFunctions == Pool(readyList.executionPlans)
      ensures bufferFunctions == []
      ensures Valid()
    {
      var executionPlans := readyList.Fetch();
      var gcdOfRate := readyList.ComputeGcdOfRate();
      taskFunctions := [];
      bufferFunctions := [];
      new;
      var i := 0;
      while i < |executionPlans|
        invariant 0 <= i <= |executionPlans|
        invariant taskFunctions == Expand(executionPlans[..i], gcdOfRate)
      {
        var rate := executionPlans[i].rate;
        var func := executionPlans[i].func;
        ghost var count := CopyCount(rate, gcdOfRate);
        var j := 0;
        CopyCountIsLoopCount(j, rate, gcdOfRate);
        while BelowQuota(j, rate, gcdOfRate)
          invariant j <= count
          invariant BelowQuota(j, rate, gcdOfRate) <==> j < count
          invariant taskFunctions == Expand(executionPlans[..i], gcdOfRate) + Repeat(func, j)
          decreases count - j
        {
          taskFunctions := taskFunctions + [func];
          j := j + 1;
          CopyCountIsLoopCount(j, rate, gcdOfRate);
        }
        ExpandStep(executionPlans, i, gcdOfRate);
        i := i + 1;
      }
      assert executionPlans[..i] == executionPlans;
      bufferFunctions := [];
    }

    /**
     * `trigger`: when the buffer is empty it is refilled with the pool and
     * shuffled into some order; then the front of the buffer is taken off and
     * returned, `None` when there is nothing to take (an empty pool).
     */
    method Trigger() returns (func: Option<Task<F>>)
      requires Valid()
      modifies this
      ensures Valid()
      ensures taskFunctions == old(taskFunctions)
      ensures old(bufferFunctions) != [] ==>
                func == Some(old(bufferFunctions)[0]) && bufferFunctions == old(bufferFunctions)[1..]
      ensures old(bufferFunctions) == [] && taskFunctions == [] ==>
                func == None && bufferFunctions == []
      ensures old(bufferFunctions) == [] && taskFunctions != [] ==>
                && func.Some?
                && multiset(bufferFunctions) + multiset{func.value} == multiset(taskFunctions)
    {
      if |bufferFunctions| == 0 {
        var origin := taskFunctions;
        var i := 0;
        while i < |origin|
          invariant 0 <= i <= |origin|
          invariant taskFunctions == origin
          invariant bufferFunctions == origin[..i]
        {
          bufferFunctions := bufferFunctions + [origin[i]];
          i := i + 1;
        }
        assert origin[..i] == origin;
        // `sort` with a random comparator: some permutation, about whose
        // distribution nothing is claimed.
        var shuffled :| multiset(shuffled) == multiset(bufferFunctions);
        bufferFunctions := shuffled;
      }
      if |bufferFunctions| == 0 {
        func := None;
      } else {
        func := Some(bufferFunctions[0]);
        assert bufferFunctions == [bufferFunctions[0]] + bufferFunctions[1..];
        bufferFunctions := bufferFunctions[1..];
      }
    }
  }
}
