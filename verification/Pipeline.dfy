/** The two-thread replay pipeline as atomic steps over a bounded queue, in every interleaving. */
module Pipelines {
  import opened Words
  import opened Trades
  import opened Queues
  import opened OrderStatistics
  import opened Histograms
  import opened Checksums
  import opened Reports

  const QUEUE_CAPACITY: nat := 4096

  // ----- what the consumer does with one trade

  /** What the consumer has made of the trades so far. */
  datatype Work = Work(consumed: seq<Trade>, latencies: seq<u64>, events: u64, checksum: u64) {
    function Handled(value: Trade, now: u64): Work {
      Work(consumed + [value], latencies + [Elapsed(now, value.enqueuedNs)], Plus(events, 1),
           Fold(checksum, value.Serialized()))
    }

    /** The counters describe exactly the trades consumed, in order. */
    ghost predicate Consistent() {
      && |latencies| == |consumed|
      && events == Wrap(|consumed|)
      && checksum == Checksum(consumed)
    }
  }

  /** Unsigned subtraction of two clock readings. */
  function Elapsed(now: u64, before: u64): u64 {
    Wrap(now as int - before as int)
  }

  const IDLE_WORK := Work([], [], 0, OFFSET_BASIS)

  lemma HandledConsistent(work: Work, value: Trade, now: u64)
    requires work.Consistent()
    ensures work.Handled(value, now).Consistent()
  {
    PlusOne(|work.consumed|);
    ChecksumSnoc(work.consumed, value);
  }

  lemma IdleConsistent()
    ensures IDLE_WORK.Consistent()
  {
  }

  /** The consumer thread's own fields. */
  class Worker {
    const histogram: LatencyHistogram
    var events: u64
    var checksum: u64
    ghost var consumed: seq<Trade>

    ghost predicate Valid()
      reads this, histogram, histogram.buckets
    {
      && histogram.Valid()
      && View().Consistent()
    }

    ghost function View(): Work
      reads this, histogram
    {
      Work(consumed, histogram.observed, events, checksum)
    }

    constructor ()
      ensures Valid() && View() == IDLE_WORK
      ensures fresh(histogram) && fresh(histogram.buckets)
    {
      histogram := new LatencyHistogram();
      events, checksum, consumed := 0, OFFSET_BASIS, [];
      new;
      IdleConsistent();
    }

    method Handle(value: Trade, now: u64)
      requires Valid()
      modifies this, histogram, histogram.buckets
      ensures Valid() && View() == old(View()).Handled(value, now)
    {
      HandledConsistent(View(), value, now);
      histogram.Observe(Elapsed(now, value.enqueuedNs));
      checksum := UpdateChecksum(checksum, value);
      events := Plus(events, 1);
      consumed := consumed + [value];
    }

    /** The consumer loop once no more trades can arrive: it empties the queue in order and then stops. */
    method Drain(queue: StandardSpscQueue<Trade>, clock: seq<u64>)
      requires Valid() && queue.Valid()
      requires |clock| >= |queue.contents|
      modifies this, histogram, histogram.buckets, queue, queue.slots
      ensures Valid() && queue.Valid() && queue.contents == []
      ensures consumed == old(consumed) + old(queue.contents)
    {
      hide Checksum, Fold;
      var ticks := 0;
      while true
        invariant Valid() && queue.Valid()
        invariant ticks + |queue.contents| == |old(queue.contents)|
        invariant consumed + queue.contents == old(consumed) + old(queue.contents)
        decreases |queue.contents|
      {
        var value := queue.TryPop();
        if value.None? {
          break;
        }
        Handle(value.value, clock[ticks]);
        ticks := ticks + 1;
      }
    }

    method Report(engine: string, input: ParseMetrics, backpressure: u64, elapsedNs: u64) returns (report: ReplayReport)
      requires Valid()
      ensures Describes(report, View(), input) && report.backpressure == backpressure
      ensures report.engine == engine && report.elapsedNs == elapsedNs
    {
      var summary := histogram.Summary();
      report := ReplayReport(engine, input, summary, events, 0, backpressure, checksum, elapsedNs);
    }
  }

  /** `report` is what the pipeline reports after `work`. */
  ghost predicate Describes(report: ReplayReport, work: Work, input: ParseMetrics) {
    && report.input == input
    && report.stageLatency.samples == Wrap(|work.latencies|)
    && (work.latencies != [] && RankFits(|work.latencies|, 99) ==>
          Summarizes(report.stageLatency, work.latencies))
    && report.events == work.events && report.checksum == work.checksum && report.dropped == 0
  }

  // ----- the protocol

  /** Where the producer is: between trades, retrying a push, waiting for the consumer to end, or past `finish`. */
  datatype Producer = Idle | Pushing(value: Trade) | Joining | Finished

  /** Where the consumer is: about to pop, about to load the done flag after an empty pop, or gone. */
  datatype Consumer = Popping | Loading | Exited

  datatype State = State(producer: Producer, consumer: Consumer, accepted: seq<Trade>, queue: seq<Trade>, done: bool,
                         backpressure: u64, work: Work)

  datatype Action =
    | Submit(value: Trade, now: u64)
    | PushOk
    | PushFull
    | StoreDone
    | Join
    | PopOk(now: u64)
    | PopEmpty
    | LoadFalse
    | LoadTrue

  const INITIAL := State(Idle, Popping, [], [], false, 0, IDLE_WORK)

  predicate Enabled(s: State, action: Action) {
    match action
    case Submit(_, _) => s.producer.Idle?
    case PushOk => s.producer.Pushing? && Pushed(s.queue, s.producer.value, QUEUE_CAPACITY).0
    case PushFull => s.producer.Pushing? && !Pushed(s.queue, s.producer.value, QUEUE_CAPACITY).0
    case StoreDone => s.producer.Idle?
    case Join => s.producer.Joining? && s.consumer.Exited?
    case PopOk(_) => s.consumer.Popping? && Popped(s.queue).0.Some?
    case PopEmpty => s.consumer.Popping? && Popped(s.queue).0.None?
    case LoadFalse => s.consumer.Loading? && !s.done
    case LoadTrue => s.consumer.Loading? && s.done
  }

  function Apply(s: State, action: Action): State
    requires Enabled(s, action)
  {
    match action
    case Submit(value, now) => s.(producer := Pushing(value.(enqueuedNs := now)))
    case PushOk =>
      s.(producer := Idle, accepted := s.accepted + [s.producer.value],
      queue := Pushed(s.queue, s.producer.value, QUEUE_CAPACITY).1)
    case PushFull => s.(backpressure := Plus(s.backpressure, 1))
    case StoreDone => s.(producer := Joining, done := true)
    case Join => s.(producer := Finished)
    case PopOk(now) => s.(work := s.work.Handled(Popped(s.queue).0.value, now), queue := Popped(s.queue).1)
    case PopEmpty => s.(consumer := Loading)
    case LoadFalse => s.(consumer := Popping)
    case LoadTrue => s.(consumer := Exited)
  }

  /** The state a sequence of actions leads to, if every one of them is possible where it stands. */
  function Run(actions: seq<Action>): Option<State> {
    if actions == [] then Some(INITIAL)
    else
      var before := Run(actions[..|actions| - 1]);
      var action := actions[|actions| - 1];
      if before.Some? && Enabled(before.value, action) then Some(Apply(before.value, action)) else None
  }

  /** The trades handed to `submit`, in order. */
  function Submitted(actions: seq<Action>): seq<Trade> {
    if actions == [] then []
    else
      var before := Submitted(actions[..|actions| - 1]);
      match actions[|actions| - 1]
      case Submit(value, now) => before + [value.(enqueuedNs := now)]
      case _ => before
  }

  // ----- what holds in every interleaving

  ghost predicate Invariant(s: State, submitted: seq<Trade>) {
    && s.work.Consistent()
    && s.work.consumed + s.queue == s.accepted
    && |s.queue| <= QUEUE_CAPACITY
    && submitted == s.accepted + (if s.producer.Pushing? then [s.producer.value] else [])
    && s.done == (s.producer.Joining? || s.producer.Finished?)
    && (s.consumer.Exited? ==> s.done)
    && (s.producer.Finished? ==> s.consumer.Exited?)
  }

  lemma StepKeepsInvariant(s: State, submitted: seq<Trade>, action: Action)
    requires Invariant(s, submitted) && Enabled(s, action)
    ensures Invariant(Apply(s, action),
                      match action
                      case Submit(value, now) => submitted + [value.(enqueuedNs := now)]
                      case _ => submitted)
  {
    hide Checksum, Fold, Wrap, Plus;
    match action
    case PopOk(now) =>
      HandledConsistent(s.work, s.queue[0], now);
      MoveHead(s.work.consumed, s.queue);
    case PushOk =>
      MoveTail(s.work.consumed, s.queue, s.producer.value);
    case _ =>
  }

  lemma MoveHead(consumed: seq<Trade>, queue: seq<Trade>)
    requires queue != []
    ensures consumed + [queue[0]] + queue[1..] == consumed + queue
  {
  }

  lemma MoveTail(consumed: seq<Trade>, queue: seq<Trade>, value: Trade)
    ensures consumed + (queue + [value]) == consumed + queue + [value]
    ensures consumed + queue + [value] + [] == consumed + queue + [value]
  {
  }

  /**
   * Nothing is lost, duplicated or reordered between submission and consumption, the queue never holds more than its
   * capacity, and events, latency samples and checksum describe exactly the trades consumed.
   */
  lemma {:induction false} EveryInterleaving(actions: seq<Action>)
    requires Run(actions).Some?
    ensures Invariant(Run(actions).value, Submitted(actions))
  {
    if actions == [] {
      IdleConsistent();
    } else {
      var init := actions[..|actions| - 1];
      EveryInterleaving(init);
      StepKeepsInvariant(Run(init).value, Submitted(init), actions[|actions| - 1]);
    }
  }

  /** The clock readings of the successful pops, in order. */
  function PopTimes(actions: seq<Action>): seq<u64> {
    if actions == [] then []
    else
      PopTimes(actions[..|actions| - 1]) +
      if actions[|actions| - 1].PopOk? then [actions[|actions| - 1].now] else []
  }

  function FullPushes(actions: seq<Action>): nat {
    if actions == [] then 0
    else FullPushes(actions[..|actions| - 1]) + if actions[|actions| - 1].PushFull? then 1 else 0
  }

  /** Each latency sample is the time from the submission of its trade to its pop; each refused push counts once. */
  lemma {:induction false} Measurements(actions: seq<Action>)
    requires Run(actions).Some?
    ensures var s, times := Run(actions).value, PopTimes(actions);
            && |s.work.latencies| == |s.work.consumed| == |times|
            && (forall i :: 0 <= i < |times| ==>
                  s.work.latencies[i] == Elapsed(times[i], s.work.consumed[i].enqueuedNs))
            && s.backpressure == Wrap(FullPushes(actions))
  {
    hide Fold, Wrap, Plus, Elapsed;
    if actions != [] {
      var init := actions[..|actions| - 1];
      Measurements(init);
      PlusOne(FullPushes(init));
    } else {
      NoFullPushes();
    }
  }

  // ----- the samples as clock readings

  /** The clock readings of the submissions, in order, and the values submitted. */
  function SubmitTimes(actions: seq<Action>): seq<u64> {
    if actions == [] then []
    else
      SubmitTimes(actions[..|actions| - 1]) +
      if actions[|actions| - 1].Submit? then [actions[|actions| - 1].now] else []
  }

  function SubmittedValues(actions: seq<Action>): seq<Trade> {
    if actions == [] then []
    else
      SubmittedValues(actions[..|actions| - 1]) +
      if actions[|actions| - 1].Submit? then [actions[|actions| - 1].value] else []
  }

  /** A submission stamps the trade with the clock and changes nothing else of it. */
  lemma {:induction false} SubmittedIsStamped(actions: seq<Action>)
    ensures var trades, values, times := Submitted(actions), SubmittedValues(actions), SubmitTimes(actions);
            && |trades| == |values| == |times|
            && forall i :: 0 <= i < |trades| ==>
                 && trades[i].enqueuedNs == times[i]
                 && trades[i].tradeId == values[i].tradeId && trades[i].productId == values[i].productId
                 && trades[i].price == values[i].price && trades[i].size == values[i].size
                 && trades[i].side == values[i].side && trades[i].sourceTimeNs == values[i].sourceTimeNs
  {
    if actions != [] {
      SubmittedIsStamped(actions[..|actions| - 1]);
    }
  }

  /** The difference of two words, and the whole difference whenever the clock did not run backwards. */
  lemma ElapsedIsDifference(now: u64, before: u64)
    ensures Plus(before, Elapsed(now, before)) == now
    ensures now >= before ==> Elapsed(now, before) == now - before
  {
  }

  /**
   * The i-th sample is the reading at the i-th pop less the reading at the i-th submission: added to the latter it
   * gives the former, in words, and as integers too unless the clock ran backwards.
   */
  lemma SamplesAreWaits(actions: seq<Action>)
    requires Run(actions).Some?
    ensures var samples, pops, submits := Run(actions).value.work.latencies, PopTimes(actions), SubmitTimes(actions);
            && |samples| == |pops| <= |submits|
            && forall i :: 0 <= i < |samples| ==>
                 && Plus(submits[i], samples[i]) == pops[i]
                 && (pops[i] >= submits[i] ==> samples[i] == pops[i] - submits[i])
  {
    hide Run, Submitted, Elapsed, Plus;
    Measurements(actions);
    SubmittedIsStamped(actions);
    ConsumedIsPrefix(actions);
    var work, pops, submits := Run(actions).value.work, PopTimes(actions), SubmitTimes(actions);
    forall i | 0 <= i < |work.latencies|
      ensures Plus(submits[i], work.latencies[i]) == pops[i]
      ensures pops[i] >= submits[i] ==> work.latencies[i] == pops[i] - submits[i]
    {
      assert work.consumed[i] == Submitted(actions)[i];
      ElapsedIsDifference(pops[i], submits[i]);
    }
  }

  /** A trade submitted at 100 and popped at 350 has waited 250. */
  lemma SampleOf250(value: Trade)
    ensures var actions := [Submit(value, 100), PushOk, PopOk(350)];
            Run(actions).Some? && Run(actions).value.work.latencies == [250]
  {
    var a1 := [Submit(value, 100)];
    var a2 := a1 + [PushOk];
    assert [] + [Submit(value, 100)] == a1;
    RunSnoc([], Submit(value, 100));
    RunSnoc(a1, PushOk);
    RunSnoc(a2, PopOk(350));
    assert a2 + [PopOk(350)] == [Submit(value, 100), PushOk, PopOk(350)];
  }

  /** The queue is full at 4096 trades and not before: then, and only then, a push is refused. */
  lemma FullAt4096(actions: seq<Action>)
    requires Run(actions).Some? && Run(actions).value.producer.Pushing?
    ensures |Run(actions).value.queue| <= 4096
    ensures Enabled(Run(actions).value, PushFull) <==> |Run(actions).value.queue| == 4096
    ensures Enabled(Run(actions).value, PushOk) <==> |Run(actions).value.queue| < 4096
  {
    hide Run, Submitted, Checksum;
    EveryInterleaving(actions);
  }

  lemma NoFullPushes()
    ensures INITIAL.backpressure == Wrap(0)
  {
  }

  // ----- what is left behind at exit

  /** How many pushes succeeded after the consumer last found the queue empty. */
  function LatePushes(actions: seq<Action>): nat {
    if actions == [] then 0
    else
      match actions[|actions| - 1]
      case PopEmpty => 0
      case PushOk => LatePushes(actions[..|actions| - 1]) + 1
      case _ => LatePushes(actions[..|actions| - 1])
  }

  /** The done flag was already stored when the consumer last found the queue empty. */
  predicate DoneBeforeLastEmpty(actions: seq<Action>) {
    actions != [] &&
    match actions[|actions| - 1]
    case PopEmpty => StoreDone in actions[..|actions| - 1]
    case _ => DoneBeforeLastEmpty(actions[..|actions| - 1])
  }

  lemma {:induction false} AfterLastEmpty(actions: seq<Action>)
    requires Run(actions).Some?
    ensures Run(actions).value.done <==> StoreDone in actions
    ensures !Run(actions).value.consumer.Popping? ==> |Run(actions).value.queue| == LatePushes(actions)
    ensures !Run(actions).value.consumer.Popping? && DoneBeforeLastEmpty(actions) ==>
              Run(actions).value.done && LatePushes(actions) == 0
  {
    hide Submitted, Checksum, Fold;
    if actions != [] {
      var init, last := actions[..|actions| - 1], actions[|actions| - 1];
      AfterLastEmpty(init);
      EveryInterleaving(init);
      assert actions == init + [last];
    }
  }

  /**
   * When the consumer is gone, what it did not consume is exactly what was pushed after its last empty pop: a suffix of
   * the accepted trades, at most a queue full, and empty whenever the done flag was stored before that pop.
   */
  lemma LeftBehind(actions: seq<Action>)
    requires Run(actions).Some? && Run(actions).value.consumer.Exited?
    ensures var s := Run(actions).value;
            && LatePushes(actions) <= QUEUE_CAPACITY
            && LatePushes(actions) <= |s.accepted|
            && s.accepted == Submitted(actions)
            && s.work.consumed == s.accepted[..|s.accepted| - LatePushes(actions)]
            && s.queue == s.accepted[|s.accepted| - LatePushes(actions)..]
    ensures DoneBeforeLastEmpty(actions) ==> Run(actions).value.work.consumed == Submitted(actions)
  {
    hide Run, LatePushes, Submitted, Checksum, Fold;
    EveryInterleaving(actions);
    AfterLastEmpty(actions);
  }

  /** Every submitted trade is consumed iff no push succeeded between the last empty pop and the exit. */
  lemma DrainedExactlyWhen(actions: seq<Action>)
    requires Run(actions).Some? && Run(actions).value.consumer.Exited?
    ensures Run(actions).value.work.consumed == Submitted(actions) <==> LatePushes(actions) == 0
  {
    hide Run, LatePushes, Submitted, DoneBeforeLastEmpty;
    LeftBehind(actions);
  }

  /** The race: the flag is loaded after an empty pop without popping again, so a trade pushed in between is lost. */
  lemma TradeLostAtExit(value: Trade, now: u64)
    ensures var actions := [PopEmpty, Submit(value, now), PushOk, StoreDone, LoadTrue, Join];
            && Run(actions).Some?
            && Run(actions).value.producer == Finished
            && Run(actions).value.work.consumed == []
            && Submitted(actions) == [value.(enqueuedNs := now)]
  {
    var stamped := value.(enqueuedNs := now);
    var a1 := [PopEmpty];
    var a2 := a1 + [Submit(value, now)];
    var a3 := a2 + [PushOk];
    var a4 := a3 + [StoreDone];
    var a5 := a4 + [LoadTrue];
    var a6 := a5 + [Join];
    RunSnoc([], PopEmpty);
    RunSnoc(a1, Submit(value, now));
    RunSnoc(a2, PushOk);
    RunSnoc(a3, StoreDone);
    RunSnoc(a4, LoadTrue);
    RunSnoc(a5, Join);
    assert a6 == [PopEmpty, Submit(value, now), PushOk, StoreDone, LoadTrue, Join];
  }

  lemma RunSnoc(actions: seq<Action>, action: Action)
    ensures Run(actions + [action]) ==
            (if Run(actions).Some? && Enabled(Run(actions).value, action) then Some(Apply(Run(actions).value, action))
             else None)
    ensures Submitted(actions + [action]) == Submitted(actions) +
            (match action case Submit(value, now) => [value.(enqueuedNs := now)] case _ => [])
  {
    assert (actions + [action])[..|actions|] == actions;
  }

  // ----- every loss that is possible

  /** The trades as they are once submitted at this time. */
  function Stamped(trades: seq<Trade>, at: u64): seq<Trade> {
    seq(|trades|, i requires 0 <= i < |trades| => trades[i].(enqueuedNs := at))
  }

  /** Each trade submitted, pushed and popped before the next. */
  function OneByOne(trades: seq<Trade>, at: u64): seq<Action> {
    if trades == [] then []
    else
      OneByOne(trades[..|trades| - 1], at) + [Submit(trades[|trades| - 1], at)] + [PushOk] + [PopOk(at)]
  }

  /** Each trade submitted and pushed. */
  function PushedOnly(trades: seq<Trade>, at: u64): seq<Action> {
    if trades == [] then [] else PushedOnly(trades[..|trades| - 1], at) + [Submit(trades[|trades| - 1], at)] + [PushOk]
  }

  /** All but the last `late` trades consumed, an empty pop, and only then the rest. */
  function Lossy(trades: seq<Trade>, late: nat, at: u64): seq<Action>
    requires late <= |trades|
  {
    OneByOne(trades[..|trades| - late], at) + [PopEmpty] + PushedOnly(trades[|trades| - late..], at) +
    [StoreDone] + [LoadTrue] + [Join]
  }

  ghost predicate Ready(actions: seq<Action>, consumer: Consumer, queued: nat) {
    && Run(actions).Some?
    && var s := Run(actions).value;
    s.producer.Idle? && s.consumer == consumer && !s.done && |s.queue| == queued
  }

  lemma LateSnoc(actions: seq<Action>, action: Action)
    ensures LatePushes(actions + [action]) ==
            match action
            case PopEmpty => 0
            case PushOk => LatePushes(actions) + 1
            case _ => LatePushes(actions)
  {
    assert (actions + [action])[..|actions|] == actions;
  }

  lemma StampedSnoc(trades: seq<Trade>, at: u64)
    requires trades != []
    ensures var k := |trades| - 1; Stamped(trades, at) == Stamped(trades[..k], at) + [trades[k].(enqueuedNs := at)]
  {
  }

  lemma NothingFed()
    ensures Run([]) == Some(INITIAL) && Submitted([]) == []
  {
  }

  lemma {:induction false} OneByOneRuns(trades: seq<Trade>, at: u64)
    ensures Ready(OneByOne(trades, at), Popping, 0)
    ensures Submitted(OneByOne(trades, at)) == Stamped(trades, at)
  {
    hide Run, Submitted, Work.Handled, Checksum;
    NothingFed();
    if trades != [] {
      var value := trades[|trades| - 1];
      var before := OneByOne(trades[..|trades| - 1], at);
      OneByOneRuns(trades[..|trades| - 1], at);
      RunSnoc(before, Submit(value, at));
      RunSnoc(before + [Submit(value, at)], PushOk);
      RunSnoc(before + [Submit(value, at)] + [PushOk], PopOk(at));
      StampedSnoc(trades, at);
    }
  }

  lemma {:induction false} PushedOnlyRuns(before: seq<Action>, trades: seq<Trade>, at: u64)
    requires Ready(before, Loading, 0) && |trades| <= QUEUE_CAPACITY
    ensures var all := before + PushedOnly(trades, at);
            && Ready(all, Loading, |trades|)
            && Submitted(all) == Submitted(before) + Stamped(trades, at)
            && LatePushes(all) == LatePushes(before) + |trades|
  {
    hide Run, Submitted, LatePushes;
    if trades == [] {
      assert before + PushedOnly(trades, at) == before;
    } else {
      var value := trades[|trades| - 1];
      var init := before + PushedOnly(trades[..|trades| - 1], at);
      PushedOnlyRuns(before, trades[..|trades| - 1], at);
      RunSnoc(init, Submit(value, at));
      RunSnoc(init + [Submit(value, at)], PushOk);
      LateSnoc(init, Submit(value, at));
      LateSnoc(init + [Submit(value, at)], PushOk);
      StampedSnoc(trades, at);
      assert before + PushedOnly(trades, at) == init + [Submit(value, at)] + [PushOk];
    }
  }

  lemma LastActions(before: seq<Action>, queued: nat)
    requires Ready(before, Loading, queued)
    ensures var all := before + [StoreDone] + [LoadTrue] + [Join];
            && Run(all).Some? && Run(all).value.producer.Finished?
            && Submitted(all) == Submitted(before) && LatePushes(all) == LatePushes(before)
  {
    hide Run, Submitted, LatePushes;
    var b1 := before + [StoreDone];
    var b2 := b1 + [LoadTrue];
    RunSnoc(before, StoreDone);
    RunSnoc(b1, LoadTrue);
    RunSnoc(b2, Join);
    LateSnoc(before, StoreDone);
    LateSnoc(b1, LoadTrue);
    LateSnoc(b2, Join);
  }

  /**
   * Every number of trades up to a queue full can be left behind, none included: for any trades there is a run that
   * submits exactly these, ends, and leaves that many.
   */
  lemma EveryLossOccurs(trades: seq<Trade>, late: nat, at: u64)
    requires late <= |trades| && late <= QUEUE_CAPACITY
    ensures var actions := Lossy(trades, late, at);
            && Run(actions).Some? && Run(actions).value.producer.Finished?
            && Submitted(actions) == Stamped(trades, at) && SameTrades(trades, Submitted(actions))
            && LatePushes(actions) == late
  {
    hide Run, Submitted, LatePushes;
    var k := |trades| - late;
    var b1 := OneByOne(trades[..k], at);
    OneByOneRuns(trades[..k], at);
    RunSnoc(b1, PopEmpty);
    LateSnoc(b1, PopEmpty);
    PushedOnlyRuns(b1 + [PopEmpty], trades[k..], at);
    LastActions(b1 + [PopEmpty] + PushedOnly(trades[k..], at), late);
    assert Stamped(trades, at) == Stamped(trades[..k], at) + Stamped(trades[k..], at);
  }

  // ----- comparing two runs over the same input

  ghost predicate SameTrades(s: seq<Trade>, t: seq<Trade>) {
    |s| == |t| && forall i :: 0 <= i < |s| ==> s[i].Logical() == t[i].Logical()
  }

  /**
   * Two reports over the same input are comparable iff the input is clean and both runs consumed equally many trades.
   */
  lemma ComparableExactlyWhen(a: seq<Action>, b: seq<Action>, input: ParseMetrics, r: ReplayReport, q: ReplayReport)
    requires Run(a).Some? && Run(a).value.producer.Finished?
    requires Run(b).Some? && Run(b).value.producer.Finished?
    requires SameTrades(Submitted(a), Submitted(b)) && |Submitted(a)| < TWO64
    requires Describes(r, Run(a).value.work, input) && Describes(q, Run(b).value.work, input)
    ensures ReportsComparable(r, q) <==>
            input.parseErrors == 0 && |Run(a).value.work.consumed| == |Run(b).value.work.consumed|
  {
    hide Run, Submitted, Checksum, SameTrades;
    SameLength(Submitted(a), Submitted(b));
    ConsumedIsPrefix(a);
    ConsumedIsPrefix(b);
    var c, d := Run(a).value.work.consumed, Run(b).value.work.consumed;
    if |c| == |d| {
      PrefixesSame(c, Submitted(a), d, Submitted(b));
    }
  }

  lemma ConsumedIsPrefix(actions: seq<Action>)
    requires Run(actions).Some?
    ensures Run(actions).value.work.Consistent()
    ensures Run(actions).value.work.consumed <= Submitted(actions)
  {
    hide Run, Submitted, Checksum;
    EveryInterleaving(actions);
  }

  lemma SameLength(s: seq<Trade>, t: seq<Trade>)
    requires SameTrades(s, t)
    ensures |s| == |t|
  {
  }

  lemma PrefixesSame(c: seq<Trade>, s: seq<Trade>, d: seq<Trade>, t: seq<Trade>)
    requires c <= s && d <= t && |c| == |d| && SameTrades(s, t)
    ensures Checksum(c) == Checksum(d)
  {
    forall i | 0 <= i < |c|
      ensures c[i].Logical() == d[i].Logical()
    {
      assert c[i] == s[i] && d[i] == t[i];
    }
    ChecksumIsLogical(c, d);
  }

  /** Runs whose consumer saw the done flag before its last empty pop always compare equal on a clean input. */
  lemma DrainedRunsCompareEqual(a: seq<Action>, b: seq<Action>, input: ParseMetrics, r: ReplayReport, q: ReplayReport)
    requires Run(a).Some? && Run(a).value.producer.Finished? && LatePushes(a) == 0
    requires Run(b).Some? && Run(b).value.producer.Finished? && LatePushes(b) == 0
    requires SameTrades(Submitted(a), Submitted(b)) && |Submitted(a)| < TWO64
    requires Describes(r, Run(a).value.work, input) && Describes(q, Run(b).value.work, input)
    requires input.parseErrors == 0
    ensures ReportsComparable(r, q)
  {
    hide Run, Submitted, LatePushes, ReportsComparable, Describes, Checksum;
    EveryInterleaving(a);
    EveryInterleaving(b);
    DrainedExactlyWhen(a);
    DrainedExactlyWhen(b);
    ComparableExactlyWhen(a, b, input, r, q);
  }

  // ----- the same consumer with the flag loaded before the pop

  /** The consumer of the reordered loop: about to load the flag, about to pop knowing what it read, or gone. */
  datatype Checker = Checking | PoppingAfter(sawDone: bool) | Gone

  /** The state of the reordered pipeline; producer and queue are those of `State`. */
  datatype Reordered = Reordered(base: State, checker: Checker)

  predicate ReorderedEnabled(r: Reordered, action: Action) {
    match action
    case Submit(_, _) => Enabled(r.base, action)
    case PushOk => Enabled(r.base, action)
    case PushFull => Enabled(r.base, action)
    case StoreDone => Enabled(r.base, action)
    case Join => r.base.producer.Joining? && r.checker.Gone?
    case LoadFalse => r.checker.Checking? && !r.base.done
    case LoadTrue => r.checker.Checking? && r.base.done
    case PopOk(_) => r.checker.PoppingAfter? && Popped(r.base.queue).0.Some?
    case PopEmpty => r.checker.PoppingAfter? && Popped(r.base.queue).0.None?
  }

  function ReorderedApply(r: Reordered, action: Action): Reordered
    requires ReorderedEnabled(r, action)
  {
    match action
    case Submit(_, _) => r.(base := Apply(r.base, action))
    case PushOk => r.(base := Apply(r.base, action))
    case PushFull => r.(base := Apply(r.base, action))
    case StoreDone => r.(base := Apply(r.base, action))
    case Join => r.(base := r.base.(producer := Finished))
    case LoadFalse => r.(checker := PoppingAfter(false))
    case LoadTrue => r.(checker := PoppingAfter(true))
    case PopOk(now) =>
      Reordered(r.base.(work := r.base.work.Handled(Popped(r.base.queue).0.value, now),
                        queue := Popped(r.base.queue).1),
                Checking)
    case PopEmpty => r.(checker := if r.checker.sawDone then Gone else Checking)
  }

  function ReorderedRun(actions: seq<Action>): Option<Reordered> {
    if actions == [] then Some(Reordered(INITIAL, Checking))
    else
      var before := ReorderedRun(actions[..|actions| - 1]);
      var action := actions[|actions| - 1];
      if before.Some? && ReorderedEnabled(before.value, action) then Some(ReorderedApply(before.value, action))
      else None
  }

  /**
   * Loading the flag before the pop drains fully: whenever that consumer is gone it has consumed every submitted
   * trade.
   */
  lemma {:induction false} ReorderedDrains(actions: seq<Action>)
    requires ReorderedRun(actions).Some?
    ensures var r := ReorderedRun(actions).value;
            && r.base.work.consumed + r.base.queue == r.base.accepted
            && Submitted(actions) ==
               r.base.accepted + (if r.base.producer.Pushing? then [r.base.producer.value] else [])
            && r.base.done == (r.base.producer.Joining? || r.base.producer.Finished?)
            && (r.checker == PoppingAfter(true) ==> r.base.done)
            && (r.checker.Gone? ==> r.base.done && r.base.work.consumed == Submitted(actions))
  {
    hide Fold, Wrap, Plus;
    if actions != [] {
      var init, last := actions[..|actions| - 1], actions[|actions| - 1];
      ReorderedDrains(init);
      var base := ReorderedRun(init).value.base;
      match last
      case PopOk(now) =>
        MoveHead(base.work.consumed, base.queue);
      case PushOk =>
        MoveTail(base.work.consumed, base.queue, base.producer.value);
      case _ =>
    }
  }
}
