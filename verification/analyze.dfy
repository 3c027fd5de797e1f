/** `analyze_retries` of `evaluation/analyze_results.py`: one pass over the
    evaluation results that files each one as a first-try success, a
    success after retries or a failure, overall and per prompting strategy,
    and then derives the retry averages and the success rates. */
module Analyze {
  import opened Wrappers

  /** The fields of one result dictionary the analysis reads; `retryCount`
      is `None` when the key is missing. */
  datatype Row = Row(strategy: string, success: bool, retryCount: Option<int>)

  /** `r.get('retry_count', 0)`. */
  function RetryOf(r: Row): int {
    match r.retryCount
    case None => 0
    case Some(n) => n
  }

  /** Where a result is counted. */
  datatype Kind = FirstTry | OnRetry | Never

  function KindOf(r: Row): Kind {
    if !r.success then Never
    else if RetryOf(r) == 0 then FirstTry
    else OnRetry
  }

  // ------------------------------------------------ reference definitions

  /** The number of results of kind `k`. */
  function Count(rs: seq<Row>, k: Kind): nat {
    if |rs| == 0 then 0
    else Count(rs[..|rs| - 1], k) + (if KindOf(rs[|rs| - 1]) == k then 1 else 0)
  }

  /** The number of results of strategy `s`. */
  function CountStrategy(rs: seq<Row>, s: string): nat {
    if |rs| == 0 then 0
    else CountStrategy(rs[..|rs| - 1], s) + (if rs[|rs| - 1].strategy == s then 1 else 0)
  }

  /** The number of results of strategy `s` and kind `k`. */
  function CountFor(rs: seq<Row>, s: string, k: Kind): nat {
    if |rs| == 0 then 0
    else CountFor(rs[..|rs| - 1], s, k)
         + (if rs[|rs| - 1].strategy == s && KindOf(rs[|rs| - 1]) == k then 1 else 0)
  }

  /** The retry counts of the successes after retries, in result order. */
  function Retries(rs: seq<Row>): seq<int> {
    if |rs| == 0 then []
    else
      var last := rs[|rs| - 1];
      Retries(rs[..|rs| - 1]) + (if KindOf(last) == OnRetry then [RetryOf(last)] else [])
  }

  /** The same, for strategy `s` only. */
  function RetriesFor(rs: seq<Row>, s: string): seq<int> {
    if |rs| == 0 then []
    else
      var last := rs[|rs| - 1];
      RetriesFor(rs[..|rs| - 1], s)
      + (if last.strategy == s && KindOf(last) == OnRetry then [RetryOf(last)] else [])
  }

  /** The strategies that occur. */
  function Strategies(rs: seq<Row>): set<string> {
    set i | 0 <= i < |rs| :: rs[i].strategy
  }

  /** The four counters kept for one strategy. */
  datatype StrategyStats = StrategyStats(firstTry: nat, retrySuccess: nat, failed: nat, retryCounts: seq<int>)

  const NoStats := StrategyStats(0, 0, 0, [])

  function StatsFor(rs: seq<Row>, s: string): StrategyStats {
    StrategyStats(CountFor(rs, s, FirstTry), CountFor(rs, s, OnRetry), CountFor(rs, s, Never), RetriesFor(rs, s))
  }

  // ------------------------------------------------------------ results

  /** The three percentages, present when there is at least one task. */
  datatype Rates = Rates(firstTryRate: real, finalRate: real, improvement: real)

  datatype RetryStats = RetryStats(
    totalTasks: nat,
    succeededOnFirstTry: nat,
    succeededOnRetry: nat,
    neverSucceeded: nat,
    retryAttempts: seq<int>,
    byStrategy: map<string, StrategyStats>,
    meanRetriesWhenNeeded: real,
    maxRetriesNeeded: int,
    rates: Option<Rates>)

  function Sum(xs: seq<int>): int {
    if |xs| == 0 then 0 else Sum(xs[..|xs| - 1]) + xs[|xs| - 1]
  }

  /** Python's `max` on a non-empty list. */
  function MaxOf(xs: seq<int>): (m: int)
    requires |xs| > 0
    ensures m in xs
    ensures forall k :: 0 <= k < |xs| ==> xs[k] <= m
  {
    if |xs| == 1 then xs[0]
    else
      var m := MaxOf(xs[..|xs| - 1]);
      assert forall k :: 0 <= k < |xs| - 1 ==> xs[k] == xs[..|xs| - 1][k];
      if xs[|xs| - 1] > m then xs[|xs| - 1] else m
  }

  /** The derived figures: mean and maximum of the retry counts (0 when
      there are none) and, for a non-empty result list, the percentages. */
  function Summary(first: nat, onRetry: nat, total: nat, attempts: seq<int>): (r: (real, int, Option<Rates>))
    requires first + onRetry <= total
    ensures |attempts| == 0 ==> r.0 == 0.0 && r.1 == 0
    ensures |attempts| > 0 ==> r.0 * |attempts| as real == Sum(attempts) as real
    ensures |attempts| > 0 ==> r.1 in attempts && forall k :: 0 <= k < |attempts| ==> attempts[k] <= r.1
    ensures r.2.Some? <==> total > 0
    ensures r.2.Some? ==> r.2.value.firstTryRate * total as real == first as real * 100.0
    ensures r.2.Some? ==> r.2.value.finalRate * total as real == (first + onRetry) as real * 100.0
    ensures r.2.Some? ==> 0.0 <= r.2.value.firstTryRate <= r.2.value.finalRate <= 100.0
    ensures r.2.Some? ==> r.2.value.improvement == r.2.value.finalRate - r.2.value.firstTryRate >= 0.0
  {
    var mean := if |attempts| > 0 then Quotient(Sum(attempts) as real, |attempts| as real) else 0.0;
    var max := if |attempts| > 0 then MaxOf(attempts) else 0;
    if total > 0 then
      var firstRate := Rate(first, total);
      var finalRate := Rate(first + onRetry, total);
      RateOrder(first, first + onRetry, total);
      (mean, max, Some(Rates(firstRate, finalRate, finalRate - firstRate)))
    else (mean, max, None)
  }

  /** `x / y` for a positive `y`: the number that `y` times gives `x`. */
  function Quotient(x: real, y: real): (q: real)
    requires y > 0.0
    ensures q * y == x
  {
    x / y
  }

  /** The percentage `a / total * 100`: the number that `total` times gives
      `100 * a`. */
  function Rate(a: nat, total: nat): (q: real)
    requires total > 0
    ensures q * total as real == a as real * 100.0
  {
    var x := a as real / total as real;
    assert x * total as real == a as real;
    assert x * 100.0 * total as real == x * total as real * 100.0;
    x * 100.0
  }

  /** A larger share of the same whole is a larger percentage, and no share
      exceeds 100. */
  lemma RateOrder(a: nat, b: nat, total: nat)
    requires a <= b <= total && total > 0
    ensures 0.0 <= Rate(a, total) <= Rate(b, total) <= 100.0
  {
    var t := total as real;
    var x, y := Rate(a, total), Rate(b, total);
    NonNegativeFactor(x, t);
    assert (y - x) * t == (b - a) as real * 100.0;
    NonNegativeFactor(y - x, t);
    assert (100.0 - y) * t == (total - b) as real * 100.0;
    NonNegativeFactor(100.0 - y, t);
  }

  /** A number that a positive number times leaves non-negative is itself
      non-negative. */
  lemma NonNegativeFactor(d: real, t: real)
    requires t > 0.0 && d * t >= 0.0
    ensures d >= 0.0
  {
  }

  /** `analyze_retries`: one pass that counts every result once, overall and
      under its strategy, then the derived figures. */
  method AnalyzeRetries(results: seq<Row>) returns (stats: RetryStats)
    ensures stats.totalTasks == |results|
    ensures stats.succeededOnFirstTry == Count(results, FirstTry)
    ensures stats.succeededOnRetry == Count(results, OnRetry)
    ensures stats.neverSucceeded == Count(results, Never)
    ensures stats.succeededOnFirstTry + stats.succeededOnRetry + stats.neverSucceeded == |results|
    ensures stats.retryAttempts == Retries(results)
    ensures stats.byStrategy.Keys == Strategies(results)
    ensures forall s :: s in stats.byStrategy ==> stats.byStrategy[s] == StatsFor(results, s)
    ensures (stats.meanRetriesWhenNeeded, stats.maxRetriesNeeded, stats.rates)
            == Summary(stats.succeededOnFirstTry, stats.succeededOnRetry, |results|, stats.retryAttempts)
  {
    var first, onRetry, never := 0, 0, 0;
    var attempts: seq<int> := [];
    var byStrategy: map<string, StrategyStats> := map[];
    var i := 0;
    while i < |results|
      invariant 0 <= i <= |results|
      invariant first == Count(results[..i], FirstTry)
      invariant onRetry == Count(results[..i], OnRetry)
      invariant never == Count(results[..i], Never)
      invariant attempts == Retries(results[..i])
      invariant byStrategy.Keys == Strategies(results[..i])
      invariant forall s :: s in byStrategy ==> byStrategy[s] == StatsFor(results[..i], s)
    {
      var r := results[i];
      var s := r.strategy;
      ghost var done, before := results[..i], byStrategy;
      assert results[..i + 1] == done + [r];
      CountStep(done, r);
      if s !in byStrategy {
        byStrategy := byStrategy[s := NoStats];
      }
      ghost var seen := byStrategy;
      if r.success {
        var rc := RetryOf(r);
        if rc == 0 {
          first := first + 1;
        } else {
          onRetry := onRetry + 1;
          attempts := attempts + [rc];
        }
      } else {
        never := never + 1;
      }
      byStrategy := byStrategy[s := Tally(byStrategy[s], r)];
      MapStep(before, done, r, seen, byStrategy);
      i := i + 1;
    }
    assert results[..i] == results;
    Conservation(results);
    var summary := Summary(first, onRetry, |results|, attempts);
    stats := RetryStats(|results|, first, onRetry, never, attempts, byStrategy, summary.0, summary.1, summary.2);
  }

  // --------------------------------------------------------- the fold step

  /** The counters of one strategy after one more result of it. */
  function Tally(st: StrategyStats, r: Row): StrategyStats {
    match KindOf(r)
    case FirstTry => st.(firstTry := st.firstTry + 1)
    case OnRetry => st.(retrySuccess := st.retrySuccess + 1, retryCounts := st.retryCounts + [RetryOf(r)])
    case Never => st.(failed := st.failed + 1)
  }

  /** What one more result adds to the overall counts. */
  lemma CountStep(rs: seq<Row>, r: Row)
    ensures Count(rs + [r], FirstTry) == Count(rs, FirstTry) + (if KindOf(r) == FirstTry then 1 else 0)
    ensures Count(rs + [r], OnRetry) == Count(rs, OnRetry) + (if KindOf(r) == OnRetry then 1 else 0)
    ensures Count(rs + [r], Never) == Count(rs, Never) + (if KindOf(r) == Never then 1 else 0)
    ensures Retries(rs + [r]) == Retries(rs) + (if KindOf(r) == OnRetry then [RetryOf(r)] else [])
  {
    var p := rs + [r];
    assert p[..|p| - 1] == rs && p[|p| - 1] == r;
  }

  /** One more result adds its strategy. */
  lemma StrategiesStep(rs: seq<Row>, r: Row)
    ensures Strategies(rs + [r]) == Strategies(rs) + {r.strategy}
  {
    var p := rs + [r];
    forall x | x in Strategies(p)
      ensures x in Strategies(rs) + {r.strategy}
    {
      var i :| 0 <= i < |p| && p[i].strategy == x;
      if i < |rs| {
        assert rs[i] == p[i];
      }
    }
    forall x | x in Strategies(rs)
      ensures x in Strategies(p)
    {
      var i :| 0 <= i < |rs| && rs[i].strategy == x;
      assert p[i] == rs[i];
    }
    assert p[|rs|].strategy == r.strategy;
  }

  /** One more result changes the counters of its own strategy only, as
      `Tally` does. */
  lemma StatsStep(rs: seq<Row>, r: Row)
    ensures forall s :: StatsFor(rs + [r], s)
                        == if s == r.strategy then Tally(StatsFor(rs, s), r) else StatsFor(rs, s)
  {
    var p := rs + [r];
    assert p[..|p| - 1] == rs && p[|p| - 1] == r;
  }

  /** The per-strategy table after one more result: its strategy is added
      if new, then its counters are tallied. */
  lemma MapStep(table: map<string, StrategyStats>, done: seq<Row>, r: Row,
                seen: map<string, StrategyStats>, after: map<string, StrategyStats>)
    requires table.Keys == Strategies(done)
    requires forall t :: t in table ==> table[t] == StatsFor(done, t)
    requires seen == if r.strategy in table then table else table[r.strategy := NoStats]
    requires after == seen[r.strategy := Tally(seen[r.strategy], r)]
    ensures after.Keys == Strategies(done + [r])
    ensures forall t :: t in after ==> after[t] == StatsFor(done + [r], t)
  {
    StrategiesStep(done, r);
    StatsStep(done, r);
    if r.strategy !in table {
      UnseenStrategy(done, r.strategy);
    }
  }

  /** A strategy not seen yet has nothing counted under it. */
  lemma {:induction false} UnseenStrategy(rs: seq<Row>, s: string)
    requires s !in Strategies(rs)
    ensures StatsFor(rs, s) == NoStats
  {
    if |rs| > 0 {
      var front := rs[..|rs| - 1];
      assert rs[|rs| - 1].strategy in Strategies(rs);
      assert Strategies(front) <= Strategies(rs) by {
        forall x | x in Strategies(front)
          ensures x in Strategies(rs)
        {
          var i :| 0 <= i < |front| && front[i].strategy == x;
          assert rs[i] == front[i];
        }
      }
      UnseenStrategy(front, s);
    }
  }

  // ------------------------------------------------------ the invariants

  /** Every result is counted exactly once. */
  lemma {:induction false} Conservation(rs: seq<Row>)
    ensures Count(rs, FirstTry) + Count(rs, OnRetry) + Count(rs, Never) == |rs|
  {
    if |rs| > 0 {
      Conservation(rs[..|rs| - 1]);
    }
  }

  /** Within a strategy every result is counted exactly once. */
  lemma {:induction false} StrategyConservation(rs: seq<Row>, s: string)
    ensures CountFor(rs, s, FirstTry) + CountFor(rs, s, OnRetry) + CountFor(rs, s, Never) == CountStrategy(rs, s)
  {
    if |rs| > 0 {
      StrategyConservation(rs[..|rs| - 1], s);
    }
  }

  /** One retry count is listed per success after retries, and none is 0. */
  lemma {:induction false} RetriesMatchCount(rs: seq<Row>)
    ensures |Retries(rs)| == Count(rs, OnRetry)
    ensures forall k :: 0 <= k < |Retries(rs)| ==> Retries(rs)[k] != 0
  {
    if |rs| > 0 {
      RetriesMatchCount(rs[..|rs| - 1]);
    }
  }

  /** The same within a strategy. */
  lemma {:induction false} RetriesForMatchCount(rs: seq<Row>, s: string)
    ensures |RetriesFor(rs, s)| == CountFor(rs, s, OnRetry)
    ensures forall k :: 0 <= k < |RetriesFor(rs, s)| ==> RetriesFor(rs, s)[k] != 0
  {
    if |rs| > 0 {
      RetriesForMatchCount(rs[..|rs| - 1], s);
    }
  }

  /** A success whose dictionary has no `retry_count` is a first-try
      success. */
  lemma MissingCountIsFirstTry(rs: seq<Row>, r: Row)
    requires r.success && r.retryCount.None?
    ensures Count(rs + [r], FirstTry) == Count(rs, FirstTry) + 1
  {
    CountStep(rs, r);
  }

  /** The figures `analyze_retries` promises, gathered: the three counters
      add up to the number of results, so do the counters of each strategy,
      `retry_attempts` has one non-zero entry per success after retries, and
      retries never lower the success rate. */
  method AnalyzeRetriesInvariants(results: seq<Row>) returns (stats: RetryStats)
    ensures stats.succeededOnFirstTry + stats.succeededOnRetry + stats.neverSucceeded == stats.totalTasks == |results|
    ensures |stats.retryAttempts| == stats.succeededOnRetry
    ensures forall k :: 0 <= k < |stats.retryAttempts| ==> stats.retryAttempts[k] != 0
    ensures forall s :: s in stats.byStrategy ==>
              var st := stats.byStrategy[s];
              st.firstTry + st.retrySuccess + st.failed == CountStrategy(results, s)
              && |st.retryCounts| == st.retrySuccess
    ensures |stats.retryAttempts| == 0 ==> stats.maxRetriesNeeded == 0
    ensures |stats.retryAttempts| > 0 ==> stats.maxRetriesNeeded in stats.retryAttempts
    ensures stats.rates.Some? <==> |results| > 0
    ensures stats.rates.Some? ==> stats.rates.value.improvement >= 0.0
  {
    stats := AnalyzeRetries(results);
    Conservation(results);
    RetriesMatchCount(results);
    forall s | s in stats.byStrategy
      ensures var st := stats.byStrategy[s];
              st.firstTry + st.retrySuccess + st.failed == CountStrategy(results, s)
              && |st.retryCounts| == st.retrySuccess
    {
      StrategyConservation(results, s);
      RetriesForMatchCount(results, s);
    }
  }
}
