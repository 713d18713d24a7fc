/**
 * The plan registry: execution plans and the ready list that holds them.
 */
module PlanRegistry {
  import opened JsValues
  import opened RatioReducer

  /**
   * The function a plan runs: the function that was given, or the single
   * do-nothing function that every plan without a function shares.
   */
  datatype Task<F> = Run(f: F) | NoOp

  /** An execution plan: a rate of weight and the task run at that rate. */
  datatype Plan<F> = Plan(rate: nat, func: Task<F>)

  /**
   * `new ExecutionPlan(rate, func)`. A `func` of `None` stands for a value
   * that is not a function. The rate defaults to 0 and the function to the
   * shared no-op; each is replaced only by a valid argument.
   */
  function NewPlan<F>(rate: Num, func: Option<F>): (p: Plan<F>)
    ensures p.rate >= 1 <==> rate.IsFinite() && rate.AtLeastOne()
    ensures p.rate >= 1 ==> rate == Int(p.rate)
    ensures p.rate < 1 ==> p.rate == 0
    ensures p.func.NoOp? <==> func.None?
    ensures func.Some? ==> p.func == Run(func.value)
  {
    var r := if rate.IsFinite() && rate.AtLeastOne() then rate.value else 0;
    Plan(r, if func.Some? then Run(func.value) else NoOp)
  }

  /** The rates of the plans, in insertion order, as the numbers `gcd` receives. */
  function RatesOf<F>(plans: seq<Plan<F>>): (rates: seq<Num>)
  {
    seq(|plans|, i requires 0 <= i < |plans| => Int(plans[i].rate))
  }

  /** The ready list: the execution plans in the order they were pushed. */
  class ReadyList<F> {
    var executionPlans: seq<Plan<F>>

    constructor ()
      ensures executionPlans == []
    {
      executionPlans := [];
    }

    /** `push`: the plan goes at the end; the earlier plans keep their order. */
    method Push(plan: Plan<F>)
      modifies this
      ensures executionPlans == old(executionPlans) + [plan]
      ensures |executionPlans| == |old(executionPlans)| + 1
      ensures executionPlans[..|old(executionPlans)|] == old(executionPlans)
    {
      executionPlans := executionPlans + [plan];
    }

    /** `fetch`: the plans themselves. */
    function Fetch(): seq<Plan<F>>
      reads this
    {
      executionPlans
    }

    /** `computeGcdOfRate`: gather the rates in order and reduce them with `gcd`. */
    method ComputeGcdOfRate() returns (gcdOfRate: Num)
      ensures gcdOfRate == GcdList(RatesOf(executionPlans))
      ensures gcdOfRate.NaN? || (gcdOfRate.Int? && gcdOfRate.value >= 1)
    {
      var container := executionPlans;
      var rates: seq<Num> := [];
      var i := 0;
      while i < |container|
        invariant 0 <= i <= |container|
        invariant rates == RatesOf(container[..i])
      {
        var rate := container[i].rate;
        rates := rates + [Int(rate)];
        i := i + 1;
      }
      assert container[..i] == container;
      gcdOfRate := GcdList(rates);
      GcdListInvalid(rates);
    }
  }
}
