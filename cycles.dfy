/**
 * What a caller observes over consecutive calls of `trigger`, and the
 * scenarios of the repository's test suite stated as methods: each builds a
 * dispatcher, triggers it a number of times and counts the runs per task.
 */
module Cycles {
  import opened JsValues
  import opened Divisibility
  import opened RatioReducer
  import opened PlanRegistry
  import opened CycleDispatcher
  import opened Generator

  /** n calls that leave b < p entries of `cycles` refills of p behind, with p dividing n. */
  lemma CyclesComplete(n: nat, b: nat, cycles: nat, p: nat)
    requires p >= 1 && b < p && n + b == cycles * p && n % p == 0
    ensures b == 0 && cycles == n / p
  {
    var m := n / p;
    assert n == m * p;
    var c := cycles - m;
    assert b == c * p;
    if c >= 1 {
      MulNonneg(c - 1, p);
      assert false;
    } else if c <= -1 {
      MulNonneg(-c, p);
      assert false;
    }
  }

  /** k copies of the multiset m, united. */
  ghost function Times<T>(m: multiset<T>, k: nat): multiset<T>
  {
    if k == 0 then multiset{} else Times(m, k - 1) + m
  }

  lemma {:induction false} TimesCounts<T>(m: multiset<T>, k: nat)
    ensures |Times(m, k)| == k * |m|
    ensures forall t :: Times(m, k)[t] == k * m[t]
  {
    if k > 0 {
      TimesCounts(m, k - 1);
      assert |Times(m, k)| == (k - 1) * |m| + |m|;
      forall t
        ensures Times(m, k)[t] == k * m[t]
      {
        assert Times(m, k)[t] == (k - 1) * m[t] + m[t];
      }
    }
  }

  /** One call moves one task from the (possibly just refilled) buffer to the runs. */
  lemma ServeStep<T>(pool: seq<T>, runs: seq<T>, before: seq<T>, after: seq<T>, f: T, cycles: nat)
    requires multiset(runs) + multiset(before) == Times(multiset(pool), cycles)
    requires before != [] ==> f == before[0] && after == before[1..]
    requires before == [] ==> multiset(after) + multiset{f} == multiset(pool)
    ensures multiset(runs + [f]) + multiset(after) ==
              Times(multiset(pool), if before == [] then cycles + 1 else cycles)
  {
    if before != [] {
      assert before == [before[0]] + after;
    }
  }

  /** Served runs and a short buffer that together make whole pools. */
  lemma WholeCycles<T>(pool: seq<T>, runs: seq<T>, buffer: seq<T>, cycles: nat)
    requires |pool| >= 1 && |buffer| < |pool| && |runs| % |pool| == 0
    requires multiset(runs) + multiset(buffer) == Times(multiset(pool), cycles)
    ensures buffer == []
    ensures forall t :: multiset(runs)[t] == (|runs| / |pool|) * multiset(pool)[t]
  {
    TimesCounts(multiset(pool), cycles);
    assert |multiset(runs) + multiset(buffer)| == |runs| + |buffer|;
    CyclesComplete(|runs|, |buffer|, cycles, |pool|);
    assert multiset(buffer) == multiset{};
  }

  /**
   * n consecutive calls of `trigger` on a dispatcher with a non-empty pool
   * and an empty buffer. Every call returns a task. When n is a multiple of
   * the pool size, the calls make up n / |pool| whole cycles: each task runs
   * n / |pool| times as often as it occurs in the pool, and the buffer is
   * empty again.
   */
  method TriggerTimes<F(==)>(d: Dispatcher<F>, n: nat) returns (runs: seq<Task<F>>)
    requires d.Valid() && d.bufferFunctions == [] && d.taskFunctions != []
    modifies d
    ensures d.Valid() && d.taskFunctions == old(d.taskFunctions)
    ensures |runs| == n
    ensures n % |d.taskFunctions| == 0 ==>
              && d.bufferFunctions == []
              && forall t :: multiset(runs)[t] == (n / |d.taskFunctions|) * multiset(d.taskFunctions)[t]
  {
    var pool := d.taskFunctions;
    runs := [];
    ghost var cycles: nat := 0;
    var i := 0;
    while i < n
      invariant 0 <= i <= n && |runs| == i
      invariant d.Valid() && d.taskFunctions == pool
      invariant |d.bufferFunctions| < |pool|
      invariant multiset(runs) + multiset(d.bufferFunctions) == Times(multiset(pool), cycles)
    {
      ghost var before := d.bufferFunctions;
      var func := d.Trigger();
      ServeStep(pool, runs, before, d.bufferFunctions, func.value, cycles);
      if before == [] {
        cycles := cycles + 1;
      }
      runs := runs + [func.value];
      i := i + 1;
    }
    if n % |pool| == 0 {
      WholeCycles(pool, runs, d.bufferFunctions, cycles);
    }
  }

  /** How many times t occurs among the runs. */
  function Occurrences<T(==)>(runs: seq<T>, t: T): (c: nat)
    ensures c == multiset(runs)[t]
  {
    if runs == [] then 0
    else
      assert runs == runs[..|runs| - 1] + [runs[|runs| - 1]];
      Occurrences(runs[..|runs| - 1], t) + (if runs[|runs| - 1] == t then 1 else 0)
  }

  /** The sum of the plans' rates. */
  function RateTotal<F>(plans: seq<Plan<F>>): nat {
    if plans == [] then 0 else RateTotal(plans[..|plans| - 1]) + plans[|plans| - 1].rate
  }

  /** With gcd 1 every plan contributes as many copies as its rate. */
  lemma {:induction false} UnitTotal<F>(plans: seq<Plan<F>>)
    ensures TotalCopies(plans, Int(1)) == RateTotal(plans)
    decreases |plans|
  {
    if plans != [] {
      UnitTotal(plans[..|plans| - 1]);
      assert CopyCount(plans[|plans| - 1].rate, Int(1)) == plans[|plans| - 1].rate;
    }
  }

  /**
   * A generator of two or three plans with distinct functions whose first rate
   * is 1 reduces by gcd 1: its pool holds each function exactly rate times.
   */
  lemma UnitGcdPool<F>(plans: seq<Plan<F>>)
    requires 2 <= |plans| <= 3 && AllRatesValid(plans) && DistinctTasks(plans) && plans[0].rate == 1
    ensures GcdList(RatesOf(plans)) == Int(1)
    ensures |Pool(plans)| == plans[0].rate + plans[1].rate + (if |plans| == 3 then plans[2].rate else 0)
    ensures forall i :: 0 <= i < |plans| ==> multiset(Pool(plans))[plans[i].func] == plans[i].rate
  {
    PoolCountsExact(plans, 0);
    var g := GcdList(RatesOf(plans)).value;
    DividesBound(g, 1);
    assert g == 1;
    forall i | 0 <= i < |plans|
      ensures multiset(Pool(plans))[plans[i].func] == plans[i].rate
    {
      PoolCountsExact(plans, i);
    }
    ExpandCounts(plans, Int(1), plans[0].func);
    UnitTotal(plans);
    assert plans[..1][..0] == [];
    assert RateTotal(plans[..1]) == plans[0].rate;
    if |plans| == 3 {
      assert plans[..2][..1] == plans[..1];
      assert RateTotal(plans[..2]) == plans[0].rate + plans[1].rate;
    }
  }

  /** The ready list of a generator that was given these (rate, function) pairs, in order. */
  function PlansOf(pairs: seq<(int, nat)>): (plans: seq<Plan<nat>>)
    ensures |plans| == |pairs|
    ensures forall i :: 0 <= i < |pairs| && pairs[i].0 >= 1 ==> plans[i] == Plan(pairs[i].0, Run(pairs[i].1))
  {
    if pairs == [] then []
    else PlansOf(pairs[..|pairs| - 1]) + [NewPlan(Int(pairs[|pairs| - 1].0), Some(pairs[|pairs| - 1].1))]
  }

  /** A generator given the pairs in order, and the dispatcher it generates. */
  method Build(pairs: seq<(int, nat)>) returns (dispatcher: Dispatcher<nat>)
    ensures fresh(dispatcher)
    ensures dispatcher.taskFunctions == Pool(PlansOf(pairs))
    ensures dispatcher.bufferFunctions == [] && dispatcher.Valid()
  {
    var generator := new RunWithRate<nat>();
    var i := 0;
    while i < |pairs|
      invariant 0 <= i <= |pairs|
      invariant generator.readyList.executionPlans == PlansOf(pairs[..i])
    {
      generator.Add(Int(pairs[i].0), Some(pairs[i].1));
      assert pairs[..i + 1][..i] == pairs[..i];
      i := i + 1;
    }
    assert pairs[..i] == pairs;
    dispatcher := generator.Generate();
  }

  /** Runs equally: rates 1 and 1, 100000 calls, each function runs 50000 times. */
  method RunsEqually() returns (countA: nat, countB: nat)
    ensures countA == countB && countA + countB == 100000
  {
    var pairs := [(1, 0), (1, 1)];
    var d := Build(pairs);
    var plans := PlansOf(pairs);
    assert plans == [Plan(1, Run(0)), Plan(1, Run(1))];
    assert DistinctTasks(plans);
    UnitGcdPool(plans);
    assert |Pool(plans)| == 2;
    var runs := TriggerTimes(d, 100000);
    countA := Occurrences(runs, Run(0));
    countB := Occurrences(runs, Run(1));
  }

  /** Runs at 1:3: rates 1 and 3, 100000 calls, the second runs three times as often. */
  method RunsOneToThree() returns (countA: nat, countB: nat)
    ensures countA * 3 == countB && countA + countB == 100000
  {
    var pairs := [(1, 0), (3, 1)];
    var d := Build(pairs);
    var plans := PlansOf(pairs);
    assert plans == [Plan(1, Run(0)), Plan(3, Run(1))];
    assert DistinctTasks(plans);
    UnitGcdPool(plans);
    assert |Pool(plans)| == 4;
    var runs := TriggerTimes(d, 100000);
    countA := Occurrences(runs, Run(0));
    countB := Occurrences(runs, Run(1));
  }

  /** Runs at 1:1:2: the third function runs as often as the other two together. */
  method RunsOneOneTwo() returns (countA: nat, countB: nat, countC: nat)
    ensures countA + countB == countC && countA + countB + countC == 100000
  {
    var pairs := [(1, 0), (1, 1), (2, 2)];
    var d := Build(pairs);
    var plans := PlansOf(pairs);
    assert plans == [Plan(1, Run(0)), Plan(1, Run(1)), Plan(2, Run(2))];
    assert DistinctTasks(plans);
    UnitGcdPool(plans);
    assert |Pool(plans)| == 4;
    var runs := TriggerTimes(d, 100000);
    countA := Occurrences(runs, Run(0));
    countB := Occurrences(runs, Run(1));
    countC := Occurrences(runs, Run(2));
  }

  /** Rates 1 and 364 over 365 calls: the first runs exactly once, the second 364 times. */
  method ProbabilityControl() returns (countA: nat, countB: nat)
    ensures countA == 1 && countB == 364
  {
    var pairs := [(1, 0), (364, 1)];
    var d := Build(pairs);
    var plans := PlansOf(pairs);
    assert plans == [Plan(1, Run(0)), Plan(364, Run(1))];
    assert DistinctTasks(plans);
    UnitGcdPool(plans);
    assert |Pool(plans)| == 365;
    var runs := TriggerTimes(d, 365);
    countA := Occurrences(runs, Run(0));
    countB := Occurrences(runs, Run(1));
  }

  /** A single plan gives a NaN gcd and an empty pool, so a trigger yields nothing. */
  method SinglePlanServesNothing(rate: int, f: nat) returns (func: Option<Task<nat>>)
    ensures func.None?
  {
    var d := Build([(rate, f)]);
    PoolEmptyWhenGcdInvalid(PlansOf([(rate, f)]));
    func := d.Trigger();
  }
}
