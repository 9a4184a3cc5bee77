/** The benchmark harness: distributions over runs, the validity gate and the alternating schedule. */
module Benchmarks {
  import opened Words
  import opened Trades
  import opened OrderStatistics
  import opened Reports
  import opened Pipelines

  // ----- distributions

  /** Inserts a value into a sorted list. */
  function Insert(sorted: seq<u64>, x: u64): (r: seq<u64>)
    requires IsSorted(sorted)
    ensures IsSorted(r) && multiset(r) == multiset(sorted) + multiset{x}
  {
    var k := FirstAbove(sorted, x);
    assert sorted == sorted[..k] + sorted[k..];
    sorted[..k] + [x] + sorted[k..]
  }

  /** Any sort of words gives this list. */
  function Sorted(values: seq<u64>): (r: seq<u64>)
    ensures IsSorted(r) && IsPermutation(values, r)
  {
    if values == [] then []
    else
      assert values == values[..|values| - 1] + [values[|values| - 1]];
      Insert(Sorted(values[..|values| - 1]), values[|values| - 1])
  }

  datatype Distribution = Distribution(samples: nat, min: u64, p25: u64, median: u64, p75: u64, p95: u64, max: u64)

  method Distribute(values: seq<u64>) returns (d: Distribution)
    ensures d.samples == |values|
    ensures values == [] ==> d == Distribution(0, 0, 0, 0, 0, 0, 0)
    ensures values != [] ==> IsRank(values, 1, d.min) && IsRank(values, |values|, d.max)
    ensures values != [] && RankFits(|values|, 95) ==>
              && IsRank(values, TargetRank(|values|, 25), d.p25)
              && IsRank(values, TargetRank(|values|, 50), d.median)
              && IsRank(values, TargetRank(|values|, 75), d.p75)
              && IsRank(values, TargetRank(|values|, 95), d.p95)
  {
    hide IsRank, TargetRank, NearestRank;
    var sorted := Sorted(values);
    assert |sorted| == |values| by {
      assert |multiset(sorted)| == |multiset(values)|;
    }
    if values != [] {
      RankOf(values, sorted, 1);
      RankOf(values, sorted, |values|);
      if RankFits(|values|, 95) {
        RankFitsFor(|values|);
        NearestRankIsRank(values, sorted, 25);
        NearestRankIsRank(values, sorted, 50);
        NearestRankIsRank(values, sorted, 75);
        NearestRankIsRank(values, sorted, 95);
      }
      d := Distribution(|values|, sorted[0], NearestRank(sorted, 25), NearestRank(sorted, 50), NearestRank(sorted, 75),
                        NearestRank(sorted, 95), sorted[|sorted| - 1]);
    } else {
      NoRank();
      d := Distribution(0, 0, NearestRank(sorted, 25), NearestRank(sorted, 50), NearestRank(sorted, 75),
                        NearestRank(sorted, 95), 0);
    }
  }

  lemma NoRank()
    ensures forall p: nat :: NearestRank([], p) == 0
  {
  }

  lemma RankOf(values: seq<u64>, sorted: seq<u64>, k: nat)
    requires IsSorted(sorted) && IsPermutation(values, sorted) && 1 <= k <= |sorted|
    ensures IsRank(values, k, sorted[k - 1])
  {
    hide IsRank;
    SortedRank(sorted, k);
    RankPermutation(values, sorted, k, sorted[k - 1]);
  }

  lemma RankFitsFor(samples: nat)
    requires RankFits(samples, 95)
    ensures RankFits(samples, 25) && RankFits(samples, 50) && RankFits(samples, 75)
  {
  }

  // ----- the validity gate

  ghost predicate PairComparable(a: ReplayReport, b: ReplayReport) {
    && ReportsComparable(a, b)
    && a.input.sequenceGaps == b.input.sequenceGaps
    && a.input.outOfOrder == b.input.outOfOrder
  }

  /** Every run can be compared with every run, itself included. */
  ghost predicate AllComparable(reports: seq<ReplayReport>) {
    && reports != []
    && forall a, b :: a in reports && b in reports ==> PairComparable(a, b)
  }

  /** The gate compares with the first run only, and yet decides the symmetric question. */
  method Comparable(runs: seq<ReplayReport>) returns (valid: bool)
    ensures valid <==> AllComparable(runs)
  {
    if runs == [] {
      return false;
    }
    var first := runs[0];
    var expectedEvents := first.events;
    var expectedChecksum := first.checksum;
    var expectedFrames := first.input.frames;
    var expectedGaps := first.input.sequenceGaps;
    var expectedOutOfOrder := first.input.outOfOrder;
    for i := 0 to |runs|
      invariant forall k :: 0 <= k < i ==> PairComparable(first, runs[k]) && PairComparable(runs[k], runs[k])
    {
      var report := runs[i];
      if report.input.parseErrors != 0 || report.dropped != 0 || report.events != expectedEvents
         || report.checksum != expectedChecksum || report.input.frames != expectedFrames
         || report.input.sequenceGaps != expectedGaps || report.input.outOfOrder != expectedOutOfOrder
         || report.stageLatency.samples != expectedEvents
      {
        assert !PairComparable(report, report) || !PairComparable(first, report);
        return false;
      }
      assert i > 0 ==> PairComparable(first, runs[0]);
    }
    return true;
  }

  /**
   * What the gate asks of a set of runs, run by run: none has an error, a drop or a missing latency sample, and frames,
   * events, checksum, gaps and late numbers are the same for all.
   */
  lemma AllComparableExactly(reports: seq<ReplayReport>)
    ensures AllComparable(reports) <==>
            && reports != []
            && (forall r :: r in reports ==>
                  r.input.parseErrors == 0 && r.dropped == 0 && r.stageLatency.samples == r.events)
            && (forall r :: r in reports ==>
                  && r.input.frames == reports[0].input.frames && r.events == reports[0].events
                  && r.checksum == reports[0].checksum
                  && r.input.sequenceGaps == reports[0].input.sequenceGaps
                  && r.input.outOfOrder == reports[0].input.outOfOrder)
  {
    if AllComparable(reports) {
      forall r | r in reports
        ensures PairComparable(r, r) && PairComparable(reports[0], r)
      {
      }
    }
  }

  /** So the verdict does not depend on the order of the runs. */
  lemma OrderIrrelevant(a: seq<ReplayReport>, b: seq<ReplayReport>)
    requires multiset(a) == multiset(b)
    ensures AllComparable(a) <==> AllComparable(b)
  {
    assert |multiset(a)| == |multiset(b)|;
    forall r
      ensures r in a <==> r in b
    {
      assert r in a <==> r in multiset(a);
      assert r in b <==> r in multiset(b);
    }
  }

  /** Runs over one clean input that all drained pass the gate, whatever their schedules and engines. */
  lemma DrainedBenchmarkIsValid(runs: seq<seq<Action>>, reports: seq<ReplayReport>, input: ParseMetrics)
    requires runs != [] && |reports| == |runs| && input.parseErrors == 0
    requires forall i :: 0 <= i < |runs| ==> DrainedRun(runs[i], reports[i], input)
    requires forall i :: 0 <= i < |runs| ==> SameTrades(Submitted(runs[0]), Submitted(runs[i]))
    ensures AllComparable(reports)
  {
    hide DrainedRun, Submitted, ReportsComparable;
    forall a, b | a in reports && b in reports
      ensures PairComparable(a, b)
    {
      var i :| 0 <= i < |reports| && reports[i] == a;
      var j :| 0 <= j < |reports| && reports[j] == b;
      SameTradesTogether(Submitted(runs[0]), Submitted(runs[i]), Submitted(runs[j]));
      DrainedPair(runs[i], runs[j], input, a, b);
    }
  }

  ghost predicate DrainedRun(run: seq<Action>, report: ReplayReport, input: ParseMetrics) {
    && Run(run).Some? && Run(run).value.producer.Finished? && LatePushes(run) == 0
    && |Submitted(run)| < TWO64
    && Describes(report, Run(run).value.work, input)
  }

  lemma SameTradesTogether(s: seq<Trade>, t: seq<Trade>, u: seq<Trade>)
    requires SameTrades(s, t) && SameTrades(s, u)
    ensures SameTrades(t, u)
  {
    forall i | 0 <= i < |t|
      ensures t[i].Logical() == u[i].Logical()
    {
      assert s[i].Logical() == t[i].Logical() && s[i].Logical() == u[i].Logical();
    }
  }

  lemma DrainedPair(a: seq<Action>, b: seq<Action>, input: ParseMetrics, r: ReplayReport, q: ReplayReport)
    requires DrainedRun(a, r, input) && DrainedRun(b, q, input)
    requires SameTrades(Submitted(a), Submitted(b)) && input.parseErrors == 0
    ensures PairComparable(r, q)
  {
    hide Run, Submitted, LatePushes, ReportsComparable, SameTrades;
    DrainedRunsCompareEqual(a, b, input, r, q);
  }

  // ----- the schedule

  datatype Engine = Bengal | Standard

  datatype Slot = Slot(iteration: nat, order: nat, engine: Engine)

  const MAXIMUM_RUNS: nat := 1000

  /** The measured part of the benchmark: pairs of runs whose order alternates. */
  method MeasuredSchedule(runs: nat) returns (r: Option<seq<Slot>>)
    ensures r.Some? <==> 1 <= runs <= 1000
    ensures r.Some? ==> Alternating(r.value, runs)
  {
    if runs == 0 || runs > MAXIMUM_RUNS {
      return None;
    }
    var measured := [];
    var iteration := 1;
    while iteration <= runs
      invariant 1 <= iteration <= runs + 1
      invariant Alternating(measured, iteration - 1)
    {
      var bengalFirst := iteration % 2 != 0;
      var first := Slot(iteration, 1, if bengalFirst then Bengal else Standard);
      var second := Slot(iteration, 2, if bengalFirst then Standard else Bengal);
      AlternatingGrows(measured, iteration - 1, first, second);
      measured := measured + [first];
      measured := measured + [second];
      iteration := iteration + 1;
    }
    return Some(measured);
  }

  /** The two runs of one iteration, the Bengal engine first in every other one. */
  predicate Pair(first: Slot, second: Slot, i: nat) {
    && first.iteration == second.iteration == i + 1
    && first.order == 1 && second.order == 2
    && first.engine != second.engine
    && (first.engine == Bengal <==> i % 2 == 0)
  }

  /** Each iteration runs both engines once, and the engine that goes first changes from one iteration to the next. */
  predicate Alternating(measured: seq<Slot>, runs: nat) {
    && |measured| == 2 * runs
    && forall i :: 0 <= i < runs ==> Pair(measured[2 * i], measured[2 * i + 1], i)
  }

  lemma AlternatingGrows(measured: seq<Slot>, runs: nat, first: Slot, second: Slot)
    requires Alternating(measured, runs) && Pair(first, second, runs)
    ensures Alternating(measured + [first] + [second], runs + 1)
  {
    hide Pair;
    var grown := measured + [first] + [second];
    forall i | 0 <= i < runs + 1
      ensures Pair(grown[2 * i], grown[2 * i + 1], i)
    {
      if i < runs {
        assert grown[2 * i] == measured[2 * i] && grown[2 * i + 1] == measured[2 * i + 1];
      }
    }
  }

  function CountFirst(measured: seq<Slot>, engine: Engine): nat {
    if |measured| < 2 then 0
    else
      CountFirst(measured[..|measured| - 2], engine) + if measured[|measured| - 2].engine == engine then 1 else 0
  }

  function CountEngine(measured: seq<Slot>, engine: Engine): nat {
    if measured == [] then 0
    else CountEngine(measured[..|measured| - 1], engine) + if measured[|measured| - 1].engine == engine then 1 else 0
  }

  /** Both engines run equally often, and neither goes first more than once more often than the other. */
  lemma {:induction false} ScheduleIsFair(measured: seq<Slot>, runs: nat)
    requires Alternating(measured, runs)
    ensures CountEngine(measured, Bengal) == CountEngine(measured, Standard) == runs
    ensures CountFirst(measured, Bengal) == (runs + 1) / 2 && CountFirst(measured, Standard) == runs / 2
  {
    if runs > 0 {
      var init := measured[..|measured| - 2];
      assert Alternating(init, runs - 1) by {
        forall i | 0 <= i < runs - 1
          ensures init[2 * i] == measured[2 * i] && init[2 * i + 1] == measured[2 * i + 1]
        {
        }
      }
      ScheduleIsFair(init, runs - 1);
      var first, second := measured[2 * (runs - 1)], measured[2 * (runs - 1) + 1];
      assert measured[..|measured| - 1][..|measured| - 2] == init;
      assert Pair(first, second, runs - 1);
    }
  }
}
