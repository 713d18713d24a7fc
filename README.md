# run-with-rate, modelled in Dafny

The jQuery plugin `runWithRate` (a JavaScript port of Perl's Sub::Rate) runs
functions in proportion to weights. A caller `add`s (rate, function) pairs to
a generator, then `generate`s a dispatcher. The dispatcher divides every rate
by the greatest common divisor of the rates and expands each plan into that
many copies of its function. The result is the pool. Each `trigger` returns
the next function of a shuffled copy of the pool, and the copy is refilled
and reshuffled once it runs out.

The project models that core in seven modules. They follow the source's
parts:

- `JsValues` (`js_values.dfy`): the JavaScript numbers the code handles.
  `Num` is a finite integer, NaN or an infinity. `Option` stands for a value
  or `undefined`.
- `Divisibility` (`divisibility.dfy`): divisibility, the property `IsGcd`
  and a subtractive Euclid reference `Gcd` proved to satisfy it.
- `RatioReducer` (`ratio_reducer.dfy`): `_gcd` as the method `BinaryGcd`.
  It runs Stein's loops over `u`, `v`, `t` and `k` and is proved equal to the
  function `GcdPair`. The recursion `engine` and the wrapper `gcd` are the
  functions `Engine` and `GcdList`.
- `PlanRegistry` (`plan_registry.dfy`): the `ExecutionPlan` constructor as
  `NewPlan`, and the class `ReadyList` with `Push`, `Fetch` and
  `ComputeGcdOfRate`.
- `CycleDispatcher` (`dispatcher.dfy`): the pool as a function of the plans,
  and the class `Dispatcher` with its constructor and `Trigger`.
- `Generator` (`run_with_rate.dfy`): the class `RunWithRate` with `Add` and
  `Generate`.
- `Cycles` (`cycles.dfy`): consecutive triggers over whole cycles, and the
  scenarios of `test/test.js` as methods whose postconditions are that
  file's assertions.

Points where the code behaves differently from what one might expect, all
modelled as the code does them:

- The helper named `isOdd` is true for even numbers. The halving loops use
  it that way, so the model's `IsEven` is what the code tests.
- `engine` always combines with the last element, never with the element at
  `use - 1`. The list gcd is therefore gcd(n[0], n[1], n[last]). It is the
  true gcd for two or three rates, but skips the middle rates from four on.
  `GcdListSkipsMiddle` and `FourPlansDistortRatio` exhibit the effect.
- An invalid rate does not drop the plan. The plan is stored with the
  default rate 0, and a non-function becomes the shared no-op.
  - A zero rate at the first, second or last position makes the gcd NaN,
    and then every plan contributes no copies.
  - A zero rate anywhere else only removes that plan's copies.
- Generating from fewer than two plans does not fail. It yields a dispatcher
  with an empty pool, and its `trigger` returns `undefined` (`None`).
- The copy loop compares `j` with the real quotient `rate / gcd`, so a plan
  gets the rate divided by the gcd, rounded up (`CopyCount`). That is the
  exact quotient whenever the gcd divides the rate, which holds for two or
  three plans.
- `trigger` has no failure path of its own. On an empty pool it returns
  `undefined`, and it only refills when the buffer is empty.

Callers' functions are values of a type parameter `F`. A task is `Run(f)` or
the shared `NoOp`. The shuffle is an arbitrary permutation: the dispatcher
chooses any sequence with the same multiset as the pool.

## Model

| member | source | states |
|---|---|---|
| RatioReducer.BinaryGcd | jquery.run-with-rate.js:25-65 | returns NaN unless both arguments are finite and at least 1; otherwise a positive integer that divides both and that every common divisor divides; equal to `GcdPair` |
| RatioReducer.GcdPairIsGcd | jquery.run-with-rate.js:31-64 | the two-argument gcd is an integer exactly when both arguments are finite and at least 1, and it is then their greatest common divisor |
| RatioReducer.GcdPairAbsorb | jquery.run-with-rate.js:73 | combining a value again with a gcd it already took part in changes nothing, NaN included |
| RatioReducer.EngineCollapses | jquery.run-with-rate.js:68-74 | from three levels of recursion on, `engine` equals gcd(n[last], gcd(n[0], n[1])): the extra levels repeat the last element |
| RatioReducer.GcdListUsesFirstSecondLast | jquery.run-with-rate.js:68-85 | for two or more values, `gcd(n)` is gcd(n[0], n[1]) for two values and gcd(n[last], gcd(n[0], n[1])) otherwise |
| RatioReducer.GcdListInvalid | jquery.run-with-rate.js:76-83 | `gcd(n)` is an integer exactly when there are at least two values and the first, second and last are finite and at least 1; otherwise it is NaN; an integer result is at least 1 |
| RatioReducer.GcdPairOfThree | jquery.run-with-rate.js:70-73 | the nested two-argument gcds of three valid values have exactly the common divisors of all three |
| RatioReducer.GcdListShortIsGcd | jquery.run-with-rate.js:68-85 | for two or three valid values, `gcd(n)` is the greatest common divisor of all of them |
| RatioReducer.FoldGcdIsGcd | jquery.run-with-rate.js:22-86 | the left fold of the two-argument gcd over two or more valid values is the greatest common divisor of all of them (the reference `gcd` is compared with) |
| RatioReducer.GcdListAgreesWithFoldUpToThree | jquery.run-with-rate.js:68-74 | for two or three valid values, `gcd(n)` equals the left fold |
| RatioReducer.GcdListSkipsMiddle | jquery.run-with-rate.js:73 | for [2, 4, 3, 2], `gcd` returns 2, while the greatest common divisor of all four is 1 |
| RatioReducer.GcdListPairExamples | jquery.run-with-rate.js:22-86 | gcd([8, 12]) is 4 and gcd([1, 364]) is 1 |
| RatioReducer.GcdListOtherExamples | jquery.run-with-rate.js:76-83 | gcd([6, 10, 15]) is 1; gcd([]) and gcd([5]) are NaN |
| PlanRegistry.NewPlan | jquery.run-with-rate.js:104-113 | the rate is the given number exactly when it is finite and at least 1, and 0 otherwise; the function is the given one, or the no-op exactly when none was given |
| PlanRegistry.ReadyList.constructor | jquery.run-with-rate.js:131-133 | a new ready list holds no plans |
| PlanRegistry.ReadyList.Push | jquery.run-with-rate.js:141-145 | appends exactly the given plan at the end; the earlier plans and their order are unchanged |
| PlanRegistry.ReadyList.ComputeGcdOfRate | jquery.run-with-rate.js:161-171 | returns `gcd` of the plans' rates in insertion order: NaN or a positive integer |
| CycleDispatcher.CopyCountIsLoopCount | jquery.run-with-rate.js:196-203 | the copy loop's test `j < rate / gcd` holds exactly while j is below `CopyCount`; a zero rate or a NaN gcd gives no copies |
| CycleDispatcher.CopyCountExact | jquery.run-with-rate.js:198-201 | when the gcd divides the rate, the number of copies times the gcd is the rate |
| CycleDispatcher.RepeatCount | jquery.run-with-rate.js:201-203 | the inner loop's copies hold the function that many times and nothing else |
| CycleDispatcher.ExpandStep | jquery.run-with-rate.js:195-204 | one pass of the outer loop appends the current plan's copies after those of the earlier plans |
| CycleDispatcher.ExpandCounts | jquery.run-with-rate.js:195-204 | the pool holds each task as often as the plans running it ask for, and its size is the sum of all copy counts |
| CycleDispatcher.CopiesOfDistinct | jquery.run-with-rate.js:195-204 | when no two plans share a function, each plan's function appears exactly its own copy count times |
| CycleDispatcher.CopiesOfAbsent | jquery.run-with-rate.js:195-204 | a task that no plan runs is not in the pool |
| CycleDispatcher.ExpandNaN | jquery.run-with-rate.js:197-203 | with a NaN gcd every plan contributes no copies and the pool is empty |
| CycleDispatcher.PoolEmptyWhenGcdInvalid | jquery.run-with-rate.js:191-206 | with fewer than two plans, or a zero rate first, second or last, the gcd is NaN and the pool is empty |
| CycleDispatcher.PoolCountsExact | jquery.run-with-rate.js:191-206 | for two or three plans with valid rates and distinct functions, the gcd divides every rate and the pool holds each function exactly rate / gcd times |
| CycleDispatcher.FourPlansDistortRatio | jquery.run-with-rate.js:191-206 | rates 2, 4, 3, 2 give 1, 2, 2 and 1 copies, not the 2:4:3:2 ratio, because the gcd skipped the middle rates |
| CycleDispatcher.Dispatcher.constructor | jquery.run-with-rate.js:191-206 | the pool is every plan's copies, concatenated in plan order; the buffer starts empty |
| CycleDispatcher.Dispatcher.Trigger | jquery.run-with-rate.js:213-236 | the pool never changes and the buffer stays a sub-multiset of it. A nonempty buffer loses its front, which is returned. An empty buffer is refilled with a permutation of the pool, and one element is returned, leaving the rest in the buffer. On an empty pool the result is `undefined` |
| Generator.RunWithRate.constructor | jquery.run-with-rate.js:254-256 | a new generator owns a fresh, empty ready list |
| Generator.RunWithRate.Add | jquery.run-with-rate.js:264-267 | appends exactly the plan `ExecutionPlan(rate, func)` would build to the ready list and changes nothing else |
| Generator.RunWithRate.Generate | jquery.run-with-rate.js:274-278 | returns a new dispatcher whose pool is built from the current plans and whose buffer is empty |
| Cycles.WholeCycles | jquery.run-with-rate.js:213-236 | when the calls so far fill whole cycles, the buffer is empty and each task ran (calls / pool size) times its count in the pool |
| Cycles.TriggerTimes | jquery.run-with-rate.js:213-236 | n calls from an empty buffer on a nonempty pool return n tasks; when the pool size divides n, each task ran (n / pool size) times its count in the pool and the buffer is empty again |
| Cycles.Occurrences | test/test.js:10-23 | counts the runs of a task, as the tests' counters do |
| Cycles.UnitGcdPool | jquery.run-with-rate.js:191-206 | for two or three plans with distinct functions and first rate 1, the gcd is 1, the pool holds each function exactly rate times and its size is the sum of the rates |
| Cycles.RunsEqually | test/test.js:8-27 | with rates 1 and 1, 100000 calls run both functions equally often, 100000 runs in all |
| Cycles.RunsOneToThree | test/test.js:29-48 | with rates 1 and 3, 100000 calls run the second function three times as often as the first, 100000 runs in all |
| Cycles.RunsOneOneTwo | test/test.js:50-73 | with rates 1, 1 and 2, 100000 calls run the third function as often as the other two together, 100000 runs in all |
| Cycles.ProbabilityControl | test/test.js:75-94 | with rates 1 and 364, 365 calls run the first function exactly once and the second 364 times |
| Cycles.SinglePlanServesNothing | jquery.run-with-rate.js:191-236 | a generator with a single plan yields a dispatcher whose first trigger returns `undefined` |

## Left out

- The `$.runWithRate` factory, the surrounding function wrappers and `$.isArray`: the model's list gcd always receives a sequence.
- The `instanceof ExecutionPlan` test in `push`: every plan is an `ExecutionPlan` in the typed model, so the test always passes.
- `fetch` is modelled as the accessor `ReadyList.Fetch` and has no contract of its own.
- The prototype-shared default `executionPlans` array: the constructor always gives each ready list its own array.
- Calling the returned functions: a task is an opaque value. Counting runs stands for the tests' counters.
- The distribution of `Math.random` and of the comparator-based sort: the shuffle is an arbitrary permutation, and nothing is claimed about uniformity.
- Numbers other than integers, NaN and infinities: non-integer rates, non-number arguments and floating-point rounding of `rate / gcd` are not modelled.
- RatioReducer.BinaryGcd: does not model the 32-bit `number & 1` and `1 << k`. The result is computed as u * 2^k, which differs from the source only when both arguments are multiples of 2^31.
- RatioReducer.BinaryGcd: the `do … while` loop is modelled as a `while` loop, because `t` is nonzero when it is first tested.
- CycleDispatcher.Dispatcher.Trigger: the permutation is chosen in one step rather than by copying and then sorting in place. The copy loop is modelled; the sort is not.
- Cycles.TriggerTimes: states per-task counts only when the number of calls is a multiple of the pool size. A partial cycle is only bounded by the buffer invariant.
