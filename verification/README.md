# Monte Carlo Shapley-value estimator

This project models `contracts/shap.py`, which estimates each worker's
Shapley value by Monte Carlo sampling. `estimate_shapley` draws `num_samples`
orderings of the workers `0 .. num_workers-1`. It walks each ordering, adding
one worker at a time to a growing coalition, and asks the value function for
the coalition's value. The difference from the previous step's value is that
worker's marginal value; it is added to the worker's entry in a
`defaultdict(float)`. At the end every entry is divided by `num_samples`.
The value function of the source, `marginal_contribution`, is additive: a
coalition is worth the sum of its members' entries in the `worker_value`
table.

Modules:

- `Sums` (`sums.dfy`): finite sums of real values over a set of integer keys.
  It models Python's `sum(...)` over a set. The sum is taken least key first,
  and the lemmas show that any key may be taken out first, so the order does
  not matter.
- `Shap` (`shap.dfy`): the estimator.
  - `MarginalContribution` is the additive value function. It returns
    `None` where Python raises `KeyError`.
  - `EstimateShapley` and `SamplePass` are the imperative procedure: nested
    loops over a `map<int, real>` accumulator, then an in-place
    normalisation loop.
  - The functions `PassAccumulate`, `Accumulate` and `Estimate` state the
    same computation without mutation. The method's postcondition ties its
    result to `Estimate`.
  - The lemmas state what the estimate is:
    - each worker's average marginal value over the orderings;
    - the estimates sum to the value of the full coalition, for any number
      of samples (at least one sample and one worker);
    - with an additive value function, every worker's estimate is exactly
      its table entry;
    - a null player is credited nothing, except when it comes first in an
      ordering.

Inputs the source takes from outside become parameters:

- The value function is a parameter `v: set<int> -> real`.
  `TableValue(workerValue)` is `marginal_contribution` over an explicit
  table, which replaces the module-level `worker_value` global. It agrees
  with `MarginalContribution` on every coalition the table covers. A
  coalition with a worker missing from the table is worth 0.0 there, where
  the source raises `KeyError` (see "Left out").
- The orderings that `random.sample` draws are an input `perms`, with one
  ordering per sample. Each must be an ordering of `0 .. num_workers-1`.
- The context argument is never read by the source and is dropped.

The first step of each pass subtracts the literal `0` (`prev_value = 0`),
not the value of the empty coalition. Each pass therefore credits
`v(all workers) - 0` in total. A null player is credited `v({})` whenever it
comes first in an ordering, so its estimate is `v({})` times the fraction of
orderings it starts (`NullPlayerCreditSum`); it is 0 for every draw only when
`v({}) == 0`.
The additive value function has `v({}) == 0`, so the source's own use is
unaffected. `NullPlayerWithValuedEmptyCoalition` gives a concrete instance.

A negative `num_samples` makes `range(num_samples)` empty and the result is
the empty mapping; the model follows this (`|perms| == 0`). Neither the
source nor the model validates arguments.

## Model

| member | source | states |
|---|---|---|
| Shap.MarginalContribution | contracts/shap.py:5-10 | A value exists exactly when every coalition member has a table entry (otherwise `KeyError`); the empty coalition is worth 0 |
| Shap.MarginalContributionAddWorker | contracts/shap.py:9 | Adding a new worker to a coalition adds exactly that worker's table entry to its value |
| Shap.MarginalContributionMonotone | contracts/shap.py:9 | Adding a worker with a non-negative entry never lowers the value |
| Sums.SumOverRemove | contracts/shap.py:9 | The sum over a set of keys equals any one key's entry plus the sum over the rest, so the summation order is irrelevant |
| Sums.TotalAfterAdd | contracts/shap.py:25 | A `defaultdict` `+= x` on one entry raises the total of the mapping by exactly `x` |
| Shap.Workers | contracts/shap.py:14 | The workers are exactly the integers `0 <= w < num_workers` |
| Shap.CoalitionGrows | contracts/shap.py:17-22 | Each step of a pass over an ordering adds its worker, who was not yet in the coalition; the coalition only holds workers of the range |
| Shap.CoalitionSize | contracts/shap.py:21-22 | After `j` steps the coalition has exactly `j` members |
| Shap.PassEndsWithAllWorkers | contracts/shap.py:17-22 | At the end of a pass over an ordering the coalition is the full set of workers |
| Shap.PassTelescopes | contracts/shap.py:19-26 | The marginal values of a pass sum to the value of the coalition reached minus the literal 0 |
| Shap.IndexOf | contracts/shap.py:21 | The position returned holds the worker and is its first occurrence |
| Shap.PassAccumulateKeys | contracts/shap.py:25 | After a pass the accumulator's keys are the old keys plus every worker of the coalition reached |
| Shap.PassAccumulateEntry | contracts/shap.py:21-25 | Within a pass each worker that has joined is credited exactly once, with the marginal value of its own step; other entries are untouched |
| Shap.PassAccumulateTotal | contracts/shap.py:24-25 | A pass raises the accumulator's total by the sum of its marginal values |
| Shap.SamplePass | contracts/shap.py:17-26 | One pass of the sampling loop leaves the accumulator as specified by `PassAccumulate`, with the new workers as keys and its total raised by the value of the full coalition reached; it records one query per step |
| Shap.PassAccumulateAllWorkers | contracts/shap.py:17-25 | A pass over an ordering, from an accumulator keyed by workers only, leaves a key for every worker and no other |
| Shap.AccumulateKeys | contracts/shap.py:13-25 | After at least one pass the accumulator has a key for every worker and no other key; before any pass it is empty |
| Shap.AccumulateEntry | contracts/shap.py:16-25 | Each accumulator entry is the sum of that worker's marginal values over the passes so far |
| Shap.AccumulateTotal | contracts/shap.py:16-26 | After `k` passes the accumulator's total is `k` times the value of the full coalition (0 with no workers) |
| Shap.EstimateKeys | contracts/shap.py:14-31 | The estimate has a key for every worker and no other key when there is a sample; with no sample it is empty |
| Shap.EstimateIsMeanCredit | contracts/shap.py:28-29 | Each estimate is the worker's total marginal value divided by the number of samples |
| Shap.EstimateOfRepeatedCredit | contracts/shap.py:25-29 | A worker credited the same `x` in every pass is estimated at exactly `x` |
| Shap.EstimateEfficiency | contracts/shap.py:19-29 | With at least one sample and one worker, the estimates sum exactly to the value of the full coalition |
| Shap.AdditiveStepMarginal | contracts/shap.py:23-24 | With an additive value function, each step's marginal value is the table entry of the worker just added |
| Shap.WorkerInPermutation | contracts/shap.py:17 | Every worker of the range occurs in each drawn ordering |
| Shap.AdditivePassCredit | contracts/shap.py:21-25 | With an additive value function, a pass credits every worker exactly its table entry |
| Shap.AdditiveCreditSum | contracts/shap.py:16-25 | With an additive value function, `k` passes credit every worker `k` times its entry |
| Shap.AdditiveEstimateExact | contracts/shap.py:23-29 | With an additive value function, every worker's estimate is exactly its table entry, for any orderings and any number of samples (at least one) |
| Shap.TableValue | contracts/shap.py:9 | On every coalition within the table, the value function gives exactly the sum `MarginalContribution` returns |
| Shap.TableValueIsAdditive | contracts/shap.py:9 | `marginal_contribution` over a table with an entry for every worker is an additive value function |
| Shap.DemoEstimateIsTable | contracts/shap.py:33-38 | The demo's five workers, valued by the demo table, are estimated at exactly their table entries |
| Shap.NullPlayerPassCredit | contracts/shap.py:19-25 | A pass credits a null player nothing, except `v({})` when it comes first, because `prev_value` starts at 0 |
| Shap.NullPlayerCreditSum | contracts/shap.py:16-25 | Over `k` passes a null player is credited `v({})` once for each ordering it starts |
| Shap.NullPlayerEstimateZero | contracts/shap.py:24-29 | When the empty coalition is worth 0, a null player's estimate is exactly 0 |
| Shap.NullPlayerWithValuedEmptyCoalition | contracts/shap.py:19-29 | With a constant value function of 1 and one worker, that worker is a null player and is estimated at 1, not 0 |
| Shap.PassQueryCount | contracts/shap.py:21-23 | A pass asks the value function about one coalition per step, never the empty one |
| Shap.QueryCount | contracts/shap.py:16-23 | `k` passes over orderings of `n` workers query the value function `k * n` times, never on the empty coalition |
| Shap.EstimateShapley | contracts/shap.py:12-31 | The result is `Estimate` of the drawn orderings. Its keys are all workers when `num_samples > 0` and none otherwise. With samples and workers the estimates sum to `v` of the full set. The queries made are `Queries`, `max(num_samples, 0) * num_workers` of them |

## Left out

- `random.sample` and the global random generator are not modelled. The orderings are an input. Convergence, symmetry in expectation and uniformity of the draw are statistical claims and are not stated.
- Floating-point rounding is not modelled: values are exact reals, so the "exact" properties hold over reals and not over IEEE doubles.
- Exceptions raised by the value function are not modelled. `v` is a total function. `MarginalContribution` reports a missing table entry as `None`.
- `random.sample` raises `ValueError` for a negative `num_workers`. The model only captures this as the absence of any valid ordering when there is a sample.
- The `print` of the demo (contracts/shap.py:39) is output only. The unreachable `pass` at contracts/shap.py:10 is dead code.
- Python iterates over the `defaultdict` in insertion order. The model's normalisation loop visits the keys in an arbitrary order; every key is divided exactly once either way.
- The value function's cost and side effects are not modelled. The coalitions passed to it are recorded in a ghost sequence.
- NullPlayerEstimateZero: the null-player estimate is stated as 0 only when `v({}) == 0`. For other value functions, `NullPlayerCreditSum` gives the exact credit, `v({})` times the number of orderings the player starts, rather than a closed form for the estimate.
- Shap.TableValue: a coalition with a worker missing from the table is worth 0.0 here, where `marginal_contribution` raises `KeyError`. The estimator's `KeyError` path, reached when `num_workers` exceeds the table, is therefore not modelled; the lemmas about the table assume it covers every worker.
- The source returns the `defaultdict(float)` itself; the model returns a plain map. A caller reading a worker with no entry gets 0.0 from the source (every worker when `num_samples <= 0`), and the source's keys keep the first ordering's insertion order. Neither is modelled.
- components/LandingNavbar.tsx and pages/index.tsx are React user-interface code and are not part of this model.
