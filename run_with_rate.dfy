/**
 * The entry point: a RunWithRate collects plans in its ready list and
 * generates dispatchers from it.
 */
module Generator {
  import opened JsValues
  import opened PlanRegistry
  import opened CycleDispatcher

  class RunWithRate<F(==)> {
    const readyList: ReadyList<F>

    constructor ()
      ensures fresh(readyList)
      ensures readyList.executionPlans == []
    {
      readyList := new ReadyList();
    }

    /** `add`: exactly one new plan, built from the arguments, goes at the end. */
    method Add(rate: Num, func: Option<F>)
      modifies readyList
      ensures readyList.executionPlans == old(readyList.executionPlans) + [NewPlan(rate, func)]
    {
      var executionPlan := NewPlan(rate, func);
      readyList.Push(executionPlan);
    }

    /** `generate`: a new dispatcher over the plans added so far, with an empty buffer. */
    method Generate() returns (dispatcher: Dispatcher<F>)
      ensures fresh(dispatcher)
      ensures dispatcher.taskFunctions == Pool(readyList.executionPlans)
      ensures dispatcher.bufferFunctions == []
      ensures dispatcher.Valid()
    {
      dispatcher := new Dispatcher(readyList);
    }
  }
}
