/**
 Monte Carlo estimation of Shapley values (contracts/shap.py).

 `EstimateShapley` walks, for every sample, one ordering of the workers
 `0 .. numWorkers-1`, adds the workers to a growing coalition one at a time,
 asks the value function for the coalition's value and credits the difference
 to the worker just added; at the end every accumulated credit is divided by
 the number of samples. The random orderings are an input here (`perms`), and
 the value function is a parameter `v`; `MarginalContribution` is the additive
 value function of the source, which sums a worker-value table.

 The functions below `EstimateShapley`'s contract refers to
 (`Accumulate`, `Estimate`, ...) describe the same computation without
 mutation; the lemmas state what the estimate is: each worker's average
 marginal contribution, summing to the value of the full coalition (with at
 least one sample and one worker), exact for an additive value function, and,
 when the empty coalition is worth 0, zero for a null player.
 */
module Shap {
  import opened Sums

  datatype Option<T> = None | Some(value: T)

  // ---------------------------------------------------------------------------
  // The additive value function `marginal_contribution`
  // ---------------------------------------------------------------------------

  /** The value of a coalition: the sum of its members' entries in the
      worker-value table. `None` is the KeyError raised when a member of the
      coalition has no entry in the table. */
  function MarginalContribution(workerValue: map<int, real>, coalition: set<int>): (r: Option<real>)
    ensures r.Some? <==> coalition <= workerValue.Keys
    ensures coalition == {} ==> r == Some(0.0)
  {
    if coalition <= workerValue.Keys then Some(SumOver(workerValue, coalition)) else None
  }

  /** Adding a worker to a coalition adds exactly that worker's table entry. */
  lemma MarginalContributionAddWorker(workerValue: map<int, real>, coalition: set<int>, w: int)
    requires coalition <= workerValue.Keys && w in workerValue && w !in coalition
    ensures MarginalContribution(workerValue, coalition + {w})
         == Some(MarginalContribution(workerValue, coalition).value + workerValue[w])
  {
    SumOverRemove(workerValue, coalition + {w}, w);
    assert coalition + {w} - {w} == coalition;
  }

  /** Adding a worker whose table entry is non-negative never lowers the value. */
  lemma MarginalContributionMonotone(workerValue: map<int, real>, coalition: set<int>, w: int)
    requires coalition <= workerValue.Keys && w in workerValue
    requires workerValue[w] >= 0.0
    ensures MarginalContribution(workerValue, coalition + {w}).value
         >= MarginalContribution(workerValue, coalition).value
  {
    if w in coalition {
      assert coalition + {w} == coalition;
    } else {
      MarginalContributionAddWorker(workerValue, coalition, w);
    }
  }

  // ---------------------------------------------------------------------------
  // Workers, orderings and coalitions
  // ---------------------------------------------------------------------------

  /** The workers `0 .. n-1`, Python's `range(num_workers)`. */
  function Workers(n: int): (ws: set<int>)
    ensures forall w :: w in ws <==> 0 <= w < n
    decreases n
  {
    if n <= 0 then {} else Workers(n - 1) + {n - 1}
  }

  /** `p` is an ordering of all the workers `0 .. n-1`, as drawn by
      `random.sample(workers, num_workers)`: `n` distinct workers from the range. */
  ghost predicate IsPermutation(p: seq<int>, n: int)
  {
    && |p| == n
    && (forall i :: 0 <= i < |p| ==> 0 <= p[i] < n)
    && (forall i, j :: 0 <= i < j < |p| ==> p[i] != p[j])
  }

  /** Every sampled ordering is an ordering of `0 .. n-1`. */
  ghost predicate AllPermutations(perms: seq<seq<int>>, n: int)
  {
    forall k :: 0 <= k < |perms| ==> IsPermutation(perms[k], n)
  }

  /** The coalition after the first `j` steps of a pass over ordering `p`. */
  function Coalition(p: seq<int>, j: nat): (r: set<int>)
    requires j <= |p|
  {
    set w | w in p[..j]
  }

  /** Step `j` of a pass adds `p[j]` to the coalition. */
  lemma CoalitionStep(p: seq<int>, j: nat)
    requires j < |p|
    ensures Coalition(p, j + 1) == Coalition(p, j) + {p[j]}
  {
    assert p[..j + 1] == p[..j] + [p[j]];
  }

  /** Over an ordering, every step adds a worker that was not yet in the
      coalition, and the coalition only holds workers of the range. */
  lemma CoalitionGrows(p: seq<int>, n: int, j: nat)
    requires IsPermutation(p, n) && j < |p|
    ensures Coalition(p, j + 1) == Coalition(p, j) + {p[j]}
    ensures p[j] !in Coalition(p, j)
    ensures Coalition(p, j + 1) <= Workers(n)
  {
    CoalitionStep(p, j);
  }

  /** The coalition after `j` steps has exactly `j` members. */
  lemma {:induction false} CoalitionSize(p: seq<int>, n: int, j: nat)
    requires IsPermutation(p, n) && j <= |p|
    ensures |Coalition(p, j)| == j
  {
    if j == 0 {
      assert Coalition(p, 0) == {};
    } else {
      CoalitionSize(p, n, j - 1);
      CoalitionGrows(p, n, j - 1);
    }
  }

  /** There are `n` workers. */
  lemma {:induction false} WorkersSize(n: nat)
    ensures |Workers(n)| == n
  {
    if n == 0 {
      assert Workers(n) == {};
    } else {
      var before := Workers(n - 1);
      WorkersSize(n - 1);
      assert Workers(n) == before + {n - 1};
      assert n - 1 !in before;
    }
  }

  /** At the end of a pass the coalition is the full set of workers. */
  lemma PassEndsWithAllWorkers(p: seq<int>, n: int)
    requires IsPermutation(p, n)
    ensures Coalition(p, |p|) == Workers(n)
  {
    var full := Coalition(p, |p|);
    CoalitionSize(p, n, |p|);
    WorkersSize(n);
    assert full <= Workers(n);
    assert |Workers(n) - full| == |Workers(n)| - |full|;
  }

  // ---------------------------------------------------------------------------
  // One pass: marginal values and their accumulation
  // ---------------------------------------------------------------------------

  /** The marginal value credited at step `j` of a pass: the value of the
      coalition after adding `p[j]`, minus the previous step's value, which at
      the first step is the literal 0 rather than the value of the empty set. */
  function StepMarginal(v: set<int> -> real, p: seq<int>, j: nat): (r: real)
    requires j < |p|
  {
    v(Coalition(p, j + 1)) - (if j == 0 then 0.0 else v(Coalition(p, j)))
  }

  /** The sum of the marginal values of the first `j` steps of a pass. */
  function PassTotal(v: set<int> -> real, p: seq<int>, j: nat): (r: real)
    requires j <= |p|
  {
    if j == 0 then 0.0 else PassTotal(v, p, j - 1) + StepMarginal(v, p, j - 1)
  }

  /** The marginal values of a pass telescope to the value of the coalition
      reached, minus 0. */
  lemma {:induction false} PassTelescopes(v: set<int> -> real, p: seq<int>, j: nat)
    requires j <= |p|
    ensures PassTotal(v, p, j) == if j == 0 then 0.0 else v(Coalition(p, j))
  {
    if j > 0 {
      PassTelescopes(v, p, j - 1);
    }
  }

  /** The accumulator after the first `j` steps of a pass over `p`, starting from `acc`. */
  function PassAccumulate(acc: map<int, real>, v: set<int> -> real, p: seq<int>, j: nat): (r: map<int, real>)
    requires j <= |p|
  {
    if j == 0 then acc
    else Credit(PassAccumulate(acc, v, p, j - 1), p[j - 1], StepMarginal(v, p, j - 1))
  }

  /** The position of `w` in `p`. */
  function IndexOf(p: seq<int>, w: int): (i: nat)
    requires w in p
    ensures i < |p| && p[i] == w && w !in p[..i]
  {
    if p[0] == w then 0 else 1 + IndexOf(p[1..], w)
  }

  /** In an ordering, the position of the worker at index `i` is `i`. */
  lemma IndexOfInPermutation(p: seq<int>, n: int, i: nat)
    requires IsPermutation(p, n) && i < |p|
    ensures IndexOf(p, p[i]) == i
  {
  }

  /** The marginal value credited to `w` in a pass over `p`: that of the step
      at which `w` joins the coalition (0.0 when `w` is not in `p`). */
  function PassCredit(v: set<int> -> real, p: seq<int>, w: int): (r: real)
  {
    if w in p then StepMarginal(v, p, IndexOf(p, w)) else 0.0
  }

  /** The keys of the accumulator after `j` steps are the old keys plus the
      coalition reached. */
  lemma {:induction false} PassAccumulateKeys(acc: map<int, real>, v: set<int> -> real, p: seq<int>, j: nat)
    requires j <= |p|
    ensures PassAccumulate(acc, v, p, j).Keys == acc.Keys + Coalition(p, j)
  {
    if j == 0 {
      assert Coalition(p, 0) == {};
    } else {
      PassAccumulateKeys(acc, v, p, j - 1);
      CoalitionStep(p, j - 1);
    }
  }

  /** Within a pass over an ordering, each worker that has joined the coalition
      has been credited exactly once, with its own marginal value, and every
      other entry is untouched. */
  lemma {:induction false} PassAccumulateEntry(acc: map<int, real>, v: set<int> -> real, p: seq<int>, n: int, j: nat, w: int)
    requires IsPermutation(p, n) && j <= |p|
    ensures Get(PassAccumulate(acc, v, p, j), w)
         == Get(acc, w) + (if w in Coalition(p, j) then PassCredit(v, p, w) else 0.0)
  {
    if j == 0 {
      assert Coalition(p, 0) == {};
    } else {
      PassAccumulateEntry(acc, v, p, n, j - 1, w);
      CoalitionGrows(p, n, j - 1);
      if w == p[j - 1] {
        IndexOfInPermutation(p, n, j - 1);
      }
    }
  }

  /** The accumulator's total grows, over a pass, by the sum of the pass's
      marginal values. */
  lemma {:induction false} PassAccumulateTotal(acc: map<int, real>, v: set<int> -> real, p: seq<int>, j: nat)
    requires j <= |p|
    ensures Total(PassAccumulate(acc, v, p, j)) == Total(acc) + PassTotal(v, p, j)
  {
    if j > 0 {
      var before := PassAccumulate(acc, v, p, j - 1);
      PassAccumulateTotal(acc, v, p, j - 1);
      TotalAfterAdd(before, p[j - 1], StepMarginal(v, p, j - 1));
    }
  }

  // ---------------------------------------------------------------------------
  // All passes and the normalised estimate
  // ---------------------------------------------------------------------------

  /** The accumulator after the first `k` passes, starting empty. */
  function Accumulate(v: set<int> -> real, perms: seq<seq<int>>, k: nat): (r: map<int, real>)
    requires k <= |perms|
  {
    if k == 0 then map[]
    else PassAccumulate(Accumulate(v, perms, k - 1), v, perms[k - 1], |perms[k - 1]|)
  }

  /** Every accumulated entry divided by the number of samples `m`. */
  function Normalise(acc: map<int, real>, m: nat): (r: map<int, real>)
    requires m > 0
  {
    map w | w in acc :: acc[w] / (m as real)
  }

  /** The result of `estimate_shapley` for the sampled orderings `perms`
      (one per sample): empty when there are no samples. */
  function Estimate(v: set<int> -> real, perms: seq<seq<int>>): (r: map<int, real>)
  {
    if |perms| == 0 then map[] else Normalise(Accumulate(v, perms, |perms|), |perms|)
  }

  /** The sum, over the first `k` passes, of the marginal values credited to `w`. */
  function CreditSum(v: set<int> -> real, perms: seq<seq<int>>, k: nat, w: int): (r: real)
    requires k <= |perms|
  {
    if k == 0 then 0.0 else CreditSum(v, perms, k - 1, w) + PassCredit(v, perms[k - 1], w)
  }

  /** A pass over an ordering leaves an accumulator whose keys are workers
      with a key for every worker. */
  lemma PassAccumulateAllWorkers(acc: map<int, real>, v: set<int> -> real, p: seq<int>, n: int)
    requires IsPermutation(p, n) && acc.Keys <= Workers(n)
    ensures PassAccumulate(acc, v, p, |p|).Keys == Workers(n)
  {
    PassAccumulateKeys(acc, v, p, |p|);
    PassEndsWithAllWorkers(p, n);
  }

  /** After at least one pass the accumulator has a key for every worker and
      no other key; before any pass it is empty. */
  lemma {:induction false} AccumulateKeys(v: set<int> -> real, perms: seq<seq<int>>, n: int, k: nat)
    requires AllPermutations(perms, n) && k <= |perms|
    ensures Accumulate(v, perms, k).Keys == if k == 0 then {} else Workers(n)
  {
    if k > 0 {
      AccumulateKeys(v, perms, n, k - 1);
      PassAccumulateAllWorkers(Accumulate(v, perms, k - 1), v, perms[k - 1], n);
    }
  }

  /** Each accumulator entry is the sum of the worker's marginal values over
      the passes so far. */
  lemma {:induction false} AccumulateEntry(v: set<int> -> real, perms: seq<seq<int>>, n: int, k: nat, w: int)
    requires AllPermutations(perms, n) && k <= |perms|
    ensures Get(Accumulate(v, perms, k), w) == CreditSum(v, perms, k, w)
  {
    if k > 0 {
      var p := perms[k - 1];
      AccumulateEntry(v, perms, n, k - 1, w);
      PassAccumulateEntry(Accumulate(v, perms, k - 1), v, p, n, |p|, w);
      assert p[..|p|] == p;
    }
  }

  /** The total of the accumulator after `k` passes is `k` times the value of
      the full coalition (and 0 when there are no workers). */
  lemma {:induction false} AccumulateTotal(v: set<int> -> real, perms: seq<seq<int>>, n: int, k: nat)
    requires AllPermutations(perms, n) && k <= |perms|
    ensures Total(Accumulate(v, perms, k)) == Times(k, if n <= 0 then 0.0 else v(Workers(n)))
  {
    if k == 0 {
      assert Accumulate(v, perms, 0) == map[];
    } else {
      var p := perms[k - 1];
      AccumulateTotal(v, perms, n, k - 1);
      PassAccumulateTotal(Accumulate(v, perms, k - 1), v, p, |p|);
      PassTelescopes(v, p, |p|);
      PassEndsWithAllWorkers(p, n);
    }
  }

  /** The estimate has a key for every worker, and no other, as soon as there
      is one sample; with no sample (or no worker) it is empty. */
  lemma EstimateKeys(v: set<int> -> real, perms: seq<seq<int>>, n: int)
    requires AllPermutations(perms, n)
    ensures Estimate(v, perms).Keys == if |perms| == 0 then {} else Workers(n)
  {
    AccumulateKeys(v, perms, n, |perms|);
  }

  /** Each worker's estimate is its average marginal contribution over the
      sampled orderings. */
  lemma EstimateIsMeanCredit(v: set<int> -> real, perms: seq<seq<int>>, n: int, w: int)
    requires AllPermutations(perms, n) && w in Estimate(v, perms)
    ensures |perms| > 0
    ensures Estimate(v, perms)[w] == CreditSum(v, perms, |perms|, w) / (|perms| as real)
  {
    AccumulateEntry(v, perms, n, |perms|, w);
  }

  /** A worker credited `x` in every pass is estimated at exactly `x`. */
  lemma EstimateOfRepeatedCredit(v: set<int> -> real, perms: seq<seq<int>>, n: int, w: int, x: real)
    requires AllPermutations(perms, n) && w in Estimate(v, perms)
    requires CreditSum(v, perms, |perms|, w) == Times(|perms|, x)
    ensures Estimate(v, perms)[w] == x
  {
    EstimateIsMeanCredit(v, perms, n, w);
    TimesMean(|perms|, x);
  }

  /** Efficiency: the estimates sum exactly to the value of the full
      coalition, for any number of samples (at least one sample and one
      worker). */
  lemma EstimateEfficiency(v: set<int> -> real, perms: seq<seq<int>>, n: int)
    requires AllPermutations(perms, n) && |perms| > 0 && n > 0
    ensures Total(Estimate(v, perms)) == v(Workers(n))
  {
    var acc := Accumulate(v, perms, |perms|);
    AccumulateTotal(v, perms, n, |perms|);
    SumOverDivide(acc, Estimate(v, perms), acc.Keys, |perms| as real);
    assert Estimate(v, perms).Keys == acc.Keys;
    TimesMean(|perms|, v(Workers(n)));
  }

  // ---------------------------------------------------------------------------
  // The additive value function and null players
  // ---------------------------------------------------------------------------

  /** `v` is `marginal_contribution` over the table `workerValue` on every
      coalition of workers. */
  ghost predicate IsAdditiveOn(v: set<int> -> real, workerValue: map<int, real>, n: int)
  {
    forall s {:trigger MarginalContribution(workerValue, s)} ::
      s <= Workers(n) ==> MarginalContribution(workerValue, s) == Some(v(s))
  }

  /** With an additive value function, the marginal value of every step is
      the table entry of the worker just added. */
  lemma AdditiveStepMarginal(v: set<int> -> real, workerValue: map<int, real>, p: seq<int>, n: int, j: nat)
    requires IsPermutation(p, n) && j < |p|
    requires Workers(n) <= workerValue.Keys && IsAdditiveOn(v, workerValue, n)
    ensures StepMarginal(v, p, j) == workerValue[p[j]]
  {
    var before := Coalition(p, j);
    CoalitionGrows(p, n, j);
    MarginalContributionAddWorker(workerValue, before, p[j]);
    assert MarginalContribution(workerValue, before) == Some(v(before));
    assert MarginalContribution(workerValue, before + {p[j]}) == Some(v(before + {p[j]}));
    if j == 0 {
      assert before == {};
    }
  }

  /** Every worker of the range occurs in an ordering of the range. */
  lemma WorkerInPermutation(p: seq<int>, n: int, w: int)
    requires IsPermutation(p, n) && 0 <= w < n
    ensures w in p
  {
    PassEndsWithAllWorkers(p, n);
    assert w in Coalition(p, |p|);
    assert p[..|p|] == p;
  }

  /** With an additive value function, a pass credits every worker exactly its
      table entry. */
  lemma AdditivePassCredit(v: set<int> -> real, workerValue: map<int, real>, p: seq<int>, n: int, w: int)
    requires IsPermutation(p, n) && 0 <= w < n
    requires Workers(n) <= workerValue.Keys && IsAdditiveOn(v, workerValue, n)
    ensures PassCredit(v, p, w) == workerValue[w]
  {
    WorkerInPermutation(p, n, w);
    AdditiveStepMarginal(v, workerValue, p, n, IndexOf(p, w));
  }

  /** With an additive value function, `k` passes credit each worker `k` times
      its table entry. */
  lemma {:induction false} AdditiveCreditSum(v: set<int> -> real, workerValue: map<int, real>, perms: seq<seq<int>>, n: int, k: nat, w: int)
    requires AllPermutations(perms, n) && k <= |perms| && 0 <= w < n
    requires Workers(n) <= workerValue.Keys && IsAdditiveOn(v, workerValue, n)
    ensures CreditSum(v, perms, k, w) == Times(k, workerValue[w])
  {
    if k > 0 {
      AdditiveCreditSum(v, workerValue, perms, n, k - 1, w);
      AdditivePassCredit(v, workerValue, perms[k - 1], n, w);
    }
  }

  /** With the additive value function, every worker's estimate is exactly its
      table entry, for any orderings and any number of samples (at least one). */
  lemma AdditiveEstimateExact(v: set<int> -> real, workerValue: map<int, real>, perms: seq<seq<int>>, n: int, w: int)
    requires AllPermutations(perms, n) && |perms| > 0 && 0 <= w < n
    requires Workers(n) <= workerValue.Keys && IsAdditiveOn(v, workerValue, n)
    ensures w in Estimate(v, perms) && Estimate(v, perms)[w] == workerValue[w]
  {
    EstimateKeys(v, perms, n);
    AdditiveCreditSum(v, workerValue, perms, n, |perms|, w);
    EstimateOfRepeatedCredit(v, perms, n, w, workerValue[w]);
  }

  /** `marginal_contribution` over the table `workerValue` as a value function
      on coalitions. A coalition with a worker missing from the table, where
      the source raises `KeyError`, is worth 0.0 here. */
  function TableValue(workerValue: map<int, real>): (r: set<int> -> real)
    ensures forall s {:trigger MarginalContribution(workerValue, s)} ::
      s <= workerValue.Keys ==> MarginalContribution(workerValue, s) == Some(r(s))
  {
    s => match MarginalContribution(workerValue, s)
         case Some(x) => x
         case None => 0.0
  }

  /** A table with an entry for every worker gives an additive value function. */
  lemma TableValueIsAdditive(workerValue: map<int, real>, n: int)
    requires Workers(n) <= workerValue.Keys
    ensures IsAdditiveOn(TableValue(workerValue), workerValue, n)
  {
  }

  /** The module's demo table of worker values. */
  const DemoWorkerValue: map<int, real> := map[0 := 0.05, 1 := 0.1, 2 := 0.15, 3 := 0.3, 4 := 0.4]

  /** The demo run, five workers valued by the demo table, returns the table
      itself, whatever orderings are drawn and however many (at least one). */
  lemma DemoEstimateIsTable(perms: seq<seq<int>>)
    requires AllPermutations(perms, 5) && |perms| > 0
    ensures Estimate(TableValue(DemoWorkerValue), perms) == DemoWorkerValue
  {
    var v := TableValue(DemoWorkerValue);
    assert Workers(5) == DemoWorkerValue.Keys;
    TableValueIsAdditive(DemoWorkerValue, 5);
    EstimateKeys(v, perms, 5);
    forall w | w in DemoWorkerValue
      ensures Estimate(v, perms)[w] == DemoWorkerValue[w]
    {
      AdditiveEstimateExact(v, DemoWorkerValue, perms, 5, w);
    }
  }

  /** Adding worker `i` to any coalition of workers never changes its value. */
  ghost predicate IsNullPlayer(v: set<int> -> real, i: int, n: int)
  {
    forall s {:trigger v(s + {i})} :: s <= Workers(n) ==> v(s + {i}) == v(s)
  }

  /** How many of the first `k` orderings start with worker `i`. */
  function FirstCount(perms: seq<seq<int>>, k: nat, i: int): (r: nat)
    requires k <= |perms|
  {
    if k == 0 then 0
    else FirstCount(perms, k - 1, i) + (if perms[k - 1] != [] && perms[k - 1][0] == i then 1 else 0)
  }

  /** A null player is credited nothing in a pass, except when it comes first:
      then the step's previous value is the literal 0 and it is credited the
      value of the empty coalition. */
  lemma NullPlayerPassCredit(v: set<int> -> real, p: seq<int>, n: int, i: int)
    requires IsPermutation(p, n) && 0 <= i < n && IsNullPlayer(v, i, n)
    ensures PassCredit(v, p, i) == if p[0] == i then v({}) else 0.0
  {
    WorkerInPermutation(p, n, i);
    var j := IndexOf(p, i);
    var before := Coalition(p, j);
    CoalitionGrows(p, n, j);
    assert before <= Workers(n);
    assert v(before + {i}) == v(before);
    if j == 0 {
      assert before == {};
    } else {
      IndexOfInPermutation(p, n, 0);
    }
  }

  /** `k` passes credit a null player the value of the empty coalition once
      for every ordering that starts with it. */
  lemma {:induction false} NullPlayerCreditSum(v: set<int> -> real, perms: seq<seq<int>>, n: int, k: nat, i: int)
    requires AllPermutations(perms, n) && k <= |perms| && 0 <= i < n && IsNullPlayer(v, i, n)
    ensures CreditSum(v, perms, k, i) == Times(FirstCount(perms, k, i), v({}))
  {
    if k > 0 {
      NullPlayerCreditSum(v, perms, n, k - 1, i);
      NullPlayerPassCredit(v, perms[k - 1], n, i);
    }
  }

  /** When the empty coalition is worth 0, a null player's estimate is exactly 0. */
  lemma NullPlayerEstimateZero(v: set<int> -> real, perms: seq<seq<int>>, n: int, i: int)
    requires AllPermutations(perms, n) && |perms| > 0 && 0 <= i < n && IsNullPlayer(v, i, n)
    requires v({}) == 0.0
    ensures i in Estimate(v, perms) && Estimate(v, perms)[i] == 0.0
  {
    EstimateKeys(v, perms, n);
    NullPlayerCreditSum(v, perms, n, |perms|, i);
    TimesIsProduct(FirstCount(perms, |perms|, i), 0.0);
    TimesIsProduct(|perms|, 0.0);
    EstimateOfRepeatedCredit(v, perms, n, i, 0.0);
  }

  /** Because the first step's previous value is the literal 0, a null player
      is not credited 0 when the empty coalition has a value: with one worker,
      one sample and a constant value function, worker 0 is a null player and
      its estimate is that constant. */
  lemma NullPlayerWithValuedEmptyCoalition()
    ensures IsNullPlayer(s => 1.0, 0, 1)
    ensures Estimate(s => 1.0, [[0]]) == map[0 := 1.0]
  {
    var v: set<int> -> real := s => 1.0;
    assert IsPermutation([0], 1);
    EstimateKeys(v, [[0]], 1);
    assert Workers(1) == {0};
    NullPlayerCreditSum(v, [[0]], 1, 1, 0);
    EstimateOfRepeatedCredit(v, [[0]], 1, 0, 1.0);
  }

  // ---------------------------------------------------------------------------
  // The coalitions the value function is asked about
  // ---------------------------------------------------------------------------

  /** The coalitions queried in the first `j` steps of a pass over `p`. */
  ghost function PassQueries(p: seq<int>, j: nat): (r: seq<set<int>>)
    requires j <= |p|
  {
    if j == 0 then [] else PassQueries(p, j - 1) + [Coalition(p, j)]
  }

  /** The coalitions queried in the first `k` passes, in order. */
  ghost function Queries(perms: seq<seq<int>>, k: nat): (r: seq<set<int>>)
    requires k <= |perms|
  {
    if k == 0 then [] else Queries(perms, k - 1) + PassQueries(perms[k - 1], |perms[k - 1]|)
  }

  /** A pass asks the value function about `j` coalitions, none of them empty. */
  lemma {:induction false} PassQueryCount(p: seq<int>, j: nat)
    requires j <= |p|
    ensures |PassQueries(p, j)| == j
    ensures {} !in PassQueries(p, j)
  {
    if j > 0 {
      PassQueryCount(p, j - 1);
      CoalitionStep(p, j - 1);
    }
  }

  /** `k` passes over orderings of `n` workers ask the value function about
      `k * n` coalitions, and never about the empty one. */
  lemma {:induction false} QueryCount(perms: seq<seq<int>>, n: int, k: nat)
    requires AllPermutations(perms, n) && k <= |perms|
    ensures |Queries(perms, k)| == k * n
    ensures {} !in Queries(perms, k)
  {
    if k > 0 {
      QueryCount(perms, n, k - 1);
      PassQueryCount(perms[k - 1], |perms[k - 1]|);
    }
  }

  // ---------------------------------------------------------------------------
  // estimate_shapley
  // ---------------------------------------------------------------------------

  /** The body of `estimate_shapley`'s sampling loop for one drawn ordering:
      walks the ordering, growing the coalition one worker at a time, and credits
      each worker with the change in value it brings (from the literal 0 at the
      first step); `passQueries` records the coalitions passed to `v`. */
  method SamplePass(acc: map<int, real>, v: set<int> -> real, permutation: seq<int>)
    returns (shapleyValues: map<int, real>, ghost passQueries: seq<set<int>>)
    ensures shapleyValues == PassAccumulate(acc, v, permutation, |permutation|)
    ensures shapleyValues.Keys == acc.Keys + Coalition(permutation, |permutation|)
    ensures Total(shapleyValues) == Total(acc) + (if |permutation| == 0 then 0.0 else v(Coalition(permutation, |permutation|)))
    ensures passQueries == PassQueries(permutation, |permutation|)
  {
    shapleyValues := acc;
    var currentCoalition: set<int> := {};
    var prevValue: real := 0.0;
    passQueries := [];
    var j := 0;
    while j < |permutation|
      invariant 0 <= j <= |permutation|
      invariant currentCoalition == Coalition(permutation, j)
      invariant prevValue == if j == 0 then 0.0 else v(currentCoalition)
      invariant shapleyValues == PassAccumulate(acc, v, permutation, j)
      invariant passQueries == PassQueries(permutation, j)
    {
      var worker := permutation[j];
      CoalitionStep(permutation, j);
      currentCoalition := currentCoalition + {worker};
      var currentValue := v(currentCoalition);
      passQueries := passQueries + [currentCoalition];
      var marginalValue := currentValue - prevValue;
      assert marginalValue == StepMarginal(v, permutation, j);
      shapleyValues := shapleyValues[worker := (if worker in shapleyValues then shapleyValues[worker] else 0.0) + marginalValue];
      prevValue := currentValue;
      j := j + 1;
    }
    PassAccumulateKeys(acc, v, permutation, |permutation|);
    PassAccumulateTotal(acc, v, permutation, |permutation|);
    PassTelescopes(v, permutation, |permutation|);
  }

  /** `estimate_shapley`: `perms[s]` is the ordering drawn for sample `s`;
      `queries` records, in order, every coalition passed to `v`. */
  method EstimateShapley(numWorkers: int, numSamples: int, v: set<int> -> real, perms: seq<seq<int>>)
    returns (shapleyValues: map<int, real>, ghost queries: seq<set<int>>)
    requires |perms| == if numSamples > 0 then numSamples else 0
    requires AllPermutations(perms, numWorkers)
    ensures shapleyValues == Estimate(v, perms)
    ensures shapleyValues.Keys == if numSamples > 0 then Workers(numWorkers) else {}
    ensures numSamples > 0 && numWorkers > 0 ==> Total(shapleyValues) == v(Workers(numWorkers))
    ensures queries == Queries(perms, |perms|)
    ensures |queries| == |perms| * numWorkers
  {
    shapleyValues := map[];
    queries := [];
    var s := 0;
    while s < numSamples
      invariant 0 <= s <= |perms|
      invariant shapleyValues == Accumulate(v, perms, s)
      invariant queries == Queries(perms, s)
    {
      var permutation := perms[s];
      ghost var passQueries;
      shapleyValues, passQueries := SamplePass(shapleyValues, v, permutation);
      assert Accumulate(v, perms, s + 1) == shapleyValues;
      assert Queries(perms, s + 1) == queries + passQueries;
      queries := queries + passQueries;
      s := s + 1;
    }
    assert s == |perms|;

    ghost var sums := shapleyValues;
    var pending := shapleyValues.Keys;
    while pending != {}
      invariant pending <= sums.Keys == shapleyValues.Keys
      invariant numSamples <= 0 ==> sums == map[]
      invariant forall w :: w in shapleyValues ==>
        shapleyValues[w] == if w in pending then sums[w] else sums[w] / (numSamples as real)
      decreases pending
    {
      assert (forall w :: w !in pending) ==> pending == {};
      var worker :| worker in pending;
      shapleyValues := shapleyValues[worker := shapleyValues[worker] / (numSamples as real)];
      pending := pending - {worker};
    }

    if |perms| == 0 {
      assert shapleyValues == map[];
    } else {
      ghost var normalised := Normalise(sums, |perms|);
      assert numSamples == |perms|;
      forall w | w in shapleyValues
        ensures w in normalised && shapleyValues[w] == normalised[w]
      {
      }
      assert shapleyValues == normalised;
    }
    EstimateKeys(v, perms, numWorkers);
    QueryCount(perms, numWorkers, |perms|);
    if numSamples > 0 && numWorkers > 0 {
      EstimateEfficiency(v, perms, numWorkers);
    }
  }
}
