/** Reading a recording: envelope checks, sequence tracking, trades handed over and the accounts of the lines. */
module Readers {
  import opened Words
  import opened Trades
  import opened Sequences
  import opened Reports
  import Decimals
  import Lines
  import Timestamps

  // ----- what JSON parsing yields

  /** A looked-up field: absent, of a type the reader's conversion throws on, or a value. */
  datatype Field<+T> = Missing | Mistyped | Present(value: T)

  datatype TradeInput = TradeInput(price: Field<string>, size: Field<string>, side: Field<string>, time: Field<string>,
                                   tradeId: Field<string>, productId: Field<string>)

  datatype Event = Event(trades: Field<seq<TradeInput>>)

  /** A payload; iterating over a scalar `events` visits the scalar itself, an event without trades. */
  datatype Payload = Payload(channel: Field<string>, sequence: Field<u64>, events: Field<seq<Event>>)

  /** A record; its `payload` is nothing when the payload text is not JSON. */
  datatype Record = Record(kind: Field<string>, format: Field<string>, version: Field<int>, source: Field<string>,
                           productIds: Field<seq<Field<string>>>, receivedNs: Field<u64>, connectionId: Field<u64>,
                           payload: Field<Option<Payload>>)

  /** A line of the file: empty, not JSON, or a record. */
  datatype Line = Blank | Malformed | Json(record: Record)

  // ----- trades

  /** What one trade of a payload yields, if all of it is valid. */
  ghost function Accepted(input: TradeInput): Option<Trade> {
    if input.price.Present? && input.size.Present? && input.side.Present? && input.time.Present?
       && input.tradeId.Present? && input.productId.Present?
       && Decimals.Parsed(input.price.value).Some? && Decimals.Parsed(input.size.value).Some?
       && Timestamps.Parsed(input.time.value).Some?
       && |input.tradeId.value| <= TRADE_ID_CAPACITY && |input.productId.value| <= PRODUCT_ID_CAPACITY
       && (input.side.value == "BUY" || input.side.value == "SELL")
    then Some(Trade(input.tradeId.value, input.productId.value, Decimals.Parsed(input.price.value).value,
                    Decimals.Parsed(input.size.value).value, if input.side.value == "BUY" then Buy else Sell,
                    Timestamps.Parsed(input.time.value).value, 0))
    else None
  }

  /** Everything the loops over events and trades come across, in order; an event without trades is a failure. */
  ghost function Attempts(events: seq<Event>): seq<Option<Trade>> {
    if events == [] then [] else Attempts(events[..|events| - 1]) + EventAttempts(events[|events| - 1])
  }

  ghost function EventAttempts(event: Event): seq<Option<Trade>> {
    if event.trades.Present? then TradeAttempts(event.trades.value) else [None]
  }

  ghost function TradeAttempts(inputs: seq<TradeInput>): seq<Option<Trade>> {
    seq(|inputs|, i requires 0 <= i < |inputs| => Accepted(inputs[i]))
  }

  /** The trades before the first failure. */
  function ValidPrefix(attempts: seq<Option<Trade>>): seq<Trade> {
    if attempts == [] || attempts[0].None? then [] else [attempts[0].value] + ValidPrefix(attempts[1..])
  }

  predicate AllValid(attempts: seq<Option<Trade>>) {
    forall i :: 0 <= i < |attempts| ==> attempts[i].Some?
  }

  /** The prefix is the longest one without a failure. */
  lemma {:induction false} ValidPrefixMaximal(attempts: seq<Option<Trade>>)
    ensures var p := ValidPrefix(attempts);
            && |p| <= |attempts|
            && (forall i :: 0 <= i < |p| ==> attempts[i] == Some(p[i]))
            && (|p| < |attempts| ==> attempts[|p|].None?)
            && (|p| == |attempts| <==> AllValid(attempts))
  {
    if attempts != [] && attempts[0].Some? {
      ValidPrefixMaximal(attempts[1..]);
      assert AllValid(attempts) <==> AllValid(attempts[1..]);
    }
  }

  lemma {:induction false} ValidPrefixConcat(a: seq<Option<Trade>>, b: seq<Option<Trade>>)
    ensures ValidPrefix(a + b) == if AllValid(a) then ValidPrefix(a) + ValidPrefix(b) else ValidPrefix(a)
    ensures AllValid(a + b) <==> AllValid(a) && AllValid(b)
  {
    if a == [] {
      assert a + b == b;
    } else {
      assert (a + b)[1..] == a[1..] + b;
      ValidPrefixConcat(a[1..], b);
      assert AllValid(a) <==> a[0].Some? && AllValid(a[1..]);
      assert AllValid(a + b) <==> (a + b)[0].Some? && AllValid((a + b)[1..]);
    }
  }

  // ----- one line

  /** The exact state of the reader; the reported metrics are these counters as words. */
  datatype Tally = Tally(metadataSeen: bool, frames: nat, parseErrors: nat, tracking: Tracking, handed: seq<Trade>)

  const EMPTY_TALLY := Tally(false, 0, 0, UNTRACKED, [])

  predicate MetadataAccepted(t: Tally, r: Record) {
    !t.metadataSeen && ValidMetadata(r)
  }

  predicate ValidMetadata(r: Record) {
    && r.format == Present("bengal-market-capture")
    && r.version == Present(1)
    && r.source.Present?
    && r.productIds.Present? && r.productIds.value != []
    && forall i :: 0 <= i < |r.productIds.value| ==> ProductAccepted(r.productIds.value[i])
  }

  predicate ProductAccepted(product: Field<string>) {
    product.Present? && product.value != "" && |product.value| <= 20
  }

  predicate EnvelopeAccepted(r: Record) {
    && r.receivedNs.Present? && r.connectionId.Present?
    && r.payload.Present? && r.payload.value.Some? && r.payload.value.value.channel.Present?
  }

  /** The effect of the body of the frame branch, and whether it ends without an exception. */
  ghost function Frame(t: Tally, r: Record): (Tally, bool) {
    var counted := t.(frames := t.frames + 1);
    if !EnvelopeAccepted(r) then (counted, false)
    else
      var p := r.payload.value.value;
      var channel := p.channel.value;
      if p.sequence.Missing? then (counted, channel != "market_trades" && channel != "heartbeats")
      else if p.sequence.Mistyped? || Rejected(t.tracking, r.connectionId.value) then (counted, false)
      else
        var tracked := counted.(tracking := Track(t.tracking, Observation(r.connectionId.value, p.sequence.value)));
        if channel != "market_trades" then (tracked, true)
        else if !p.events.Present? then (tracked, false)
        else
          (tracked.(handed := t.handed + ValidPrefix(Attempts(p.events.value))), AllValid(Attempts(p.events.value)))
  }

  /** What became of a line. */
  datatype Verdict = Skipped | Metadata | CleanFrame | BadFrame | BadRecord

  ghost function Judge(t: Tally, line: Line): (Tally, Verdict) {
    match line
    case Blank => (t, Skipped)
    case Malformed => (t.(parseErrors := t.parseErrors + 1), BadRecord)
    case Json(r) =>
      if r.kind == Present("metadata") then
        if MetadataAccepted(t, r) then (t.(metadataSeen := true), Metadata)
        else (t.(parseErrors := t.parseErrors + 1), BadRecord)
      else if r.kind != Present("frame") || !t.metadataSeen then (t.(parseErrors := t.parseErrors + 1), BadRecord)
      else
        var (u, clean) := Frame(t, r);
        if clean then (u, CleanFrame) else (u.(parseErrors := u.parseErrors + 1), BadFrame)
  }

  ghost function ReadLines(lines: seq<Line>): Tally {
    if lines == [] then EMPTY_TALLY else Judge(ReadLines(lines[..|lines| - 1]), lines[|lines| - 1]).0
  }

  ghost function Verdicts(lines: seq<Line>): seq<Verdict> {
    if lines == [] then []
    else Verdicts(lines[..|lines| - 1]) + [Judge(ReadLines(lines[..|lines| - 1]), lines[|lines| - 1]).1]
  }

  // ----- the loop

  class CaptureReader {
    var frames: u64
    var parseErrors: u64
    var sequenceGaps: u64
    var outOfOrder: u64
    var lastSequences: map<u64, u64>
    var metadataSeen: bool
    var delivered: seq<Trade>
    ghost var tally: Tally

    ghost predicate Valid()
      reads this
    {
      && frames == Wrap(tally.frames) && parseErrors == Wrap(tally.parseErrors)
      && sequenceGaps == Wrap(tally.tracking.gaps) && outOfOrder == Wrap(tally.tracking.outOfOrder)
      && lastSequences == tally.tracking.last
      && metadataSeen == tally.metadataSeen
      && delivered == tally.handed
    }

    constructor ()
      ensures Valid() && tally == EMPTY_TALLY
    {
      frames, parseErrors, sequenceGaps, outOfOrder := 0, 0, 0, 0;
      lastSequences, metadataSeen, delivered := map[], false, [];
      tally := EMPTY_TALLY;
    }

    method TrackSequence(connectionId: u64, sequence: u64) returns (ok: bool)
      requires Valid()
      modifies this
      ensures Valid()
      ensures ok == !Rejected(old(tally.tracking), connectionId)
      ensures !ok ==> tally == old(tally)
      ensures tally == old(tally).(tracking :=
                         Sequences.Track(old(tally.tracking), Observation(connectionId, sequence)))
    {
      ghost var t := tally.tracking;
      if connectionId !in lastSequences {
        if |lastSequences| == MAXIMUM_SEQUENCE_STREAMS {
          return false;
        }
        lastSequences := lastSequences[connectionId := sequence];
      } else {
        var previous := lastSequences[connectionId];
        if sequence > previous && sequence - previous > 1 {
          PlusWraps(t.gaps, sequence - previous - 1);
          sequenceGaps := Plus(sequenceGaps, sequence - previous - 1);
        } else if sequence <= previous {
          PlusOne(t.outOfOrder);
          outOfOrder := Plus(outOfOrder, 1);
        }
        if sequence > previous {
          lastSequences := lastSequences[connectionId := sequence];
        }
      }
      tally := tally.(tracking := Sequences.Track(t, Observation(connectionId, sequence)));
      return true;
    }

    method ReadTrade(input: TradeInput) returns (r: Option<Trade>)
      ensures r == Accepted(input)
    {
      hide Decimals.Parsed, Timestamps.Parsed;
      if !input.price.Present? || !input.size.Present? || !input.side.Present? || !input.time.Present? {
        return None;
      }
      var price := Decimals.ParseDecimal(input.price.value);
      var size := Decimals.ParseDecimal(input.size.value);
      var side := input.side.value;
      var timestamp := Timestamps.ParseTimestampNs(input.time.value);
      if price.None? || size.None? || timestamp.None? || !input.tradeId.Present? {
        return None;
      }
      var tradeId := new BoundedText(TRADE_ID_CAPACITY);
      var fits := tradeId.Assign(input.tradeId.value);
      if !fits || !input.productId.Present? {
        return None;
      }
      var productId := new BoundedText(PRODUCT_ID_CAPACITY);
      fits := productId.Assign(input.productId.value);
      if !fits || (side != "BUY" && side != "SELL") {
        return None;
      }
      return Some(Trade(tradeId.View(), productId.View(), price.value, size.value, if side == "BUY" then Buy else Sell,
                        timestamp.value, 0));
    }

    /** The trades of one event, handed over one by one until the first bad one. */
    method HandEvent(event: Event) returns (ok: bool)
      requires Valid()
      modifies this
      ensures Valid()
      ensures ok == AllValid(EventAttempts(event))
      ensures tally == old(tally).(handed := old(tally.handed) + ValidPrefix(EventAttempts(event)))
    {
      hide Accepted, ValidPrefix, AllValid, EventAttempts;
      EventAttemptsOf(event);
      if !event.trades.Present? {
        return false;
      }
      var inputs := event.trades.value;
      ghost var start := tally;
      ghost var all := TradeAttempts(inputs);
      NothingHanded();
      for j := 0 to |inputs|
        invariant Valid()
        invariant AllValid(all[..j])
        invariant tally == start.(handed := start.handed + ValidPrefix(all[..j]))
      {
        var value := ReadTrade(inputs[j]);
        assert all[j] == value;
        NextAttempt(all, j);
        if value.None? {
          return false;
        }
        delivered := delivered + [value.value];
        tally := tally.(handed := tally.handed + [value.value]);
      }
      assert all[..|inputs|] == all;
      return true;
    }

    /** All events of a payload, up to the first bad trade. */
    method HandTrades(events: seq<Event>) returns (ok: bool)
      requires Valid()
      modifies this
      ensures Valid()
      ensures ok == AllValid(Attempts(events))
      ensures tally == old(tally).(handed := old(tally.handed) + ValidPrefix(Attempts(events)))
    {
      ghost var start := tally;
      hide Attempts, EventAttempts, ValidPrefix, AllValid;
      NothingHanded();
      for i := 0 to |events|
        invariant Valid()
        invariant AllValid(Attempts(events[..i]))
        invariant tally == start.(handed := start.handed + ValidPrefix(Attempts(events[..i])))
      {
        var good := HandEvent(events[i]);
        NextEvent(events, i);
        if !good {
          return false;
        }
      }
      assert events[..|events|] == events;
      return true;
    }

    /** The frame branch; `false` stands for an exception. */
    method HandleFrame(r: Record) returns (ok: bool)
      requires Valid()
      modifies this
      ensures Valid()
      ensures (tally, ok) == Frame(old(tally), r)
    {
      hide Attempts, ValidPrefix, Sequences.Track, AllValid;
      PlusOne(tally.frames);
      frames := Plus(frames, 1);
      tally := tally.(frames := tally.frames + 1);
      if !r.receivedNs.Present? || !r.connectionId.Present? || !r.payload.Present? || r.payload.value.None? {
        return false;
      }
      var payload := r.payload.value.value;
      if !payload.channel.Present? {
        return false;
      }
      var channel := payload.channel.value;
      if payload.sequence.Missing? {
        return !(channel == "market_trades" || channel == "heartbeats");
      }
      if payload.sequence.Mistyped? {
        return false;
      }
      ok := TrackSequence(r.connectionId.value, payload.sequence.value);
      if !ok {
        return false;
      }
      if channel != "market_trades" {
        return true;
      }
      if !payload.events.Present? {
        return false;
      }
      ok := HandTrades(payload.events.value);
    }

    method HandleMetadata(r: Record) returns (ok: bool)
      requires Valid()
      modifies this
      ensures Valid()
      ensures ok == MetadataAccepted(old(tally), r)
      ensures tally == if ok then old(tally).(metadataSeen := true) else old(tally)
    {
      if metadataSeen || r.format != Present("bengal-market-capture") || r.version != Present(1) {
        return false;
      }
      if !r.source.Present? || !r.productIds.Present? || r.productIds.value == [] {
        return false;
      }
      var productIds := r.productIds.value;
      for i := 0 to |productIds|
        invariant forall k :: 0 <= k < i ==> ProductAccepted(productIds[k])
        invariant Valid() && tally == old(tally)
      {
        if !productIds[i].Present? || productIds[i].value == "" || |productIds[i].value| > 20 {
          return false;
        }
      }
      metadataSeen := true;
      tally := tally.(metadataSeen := true);
      return true;
    }

    /** One turn of the read loop: the try block and its handler, which counts a parse error and nothing more. */
    method HandleLine(line: Line)
      requires Valid()
      modifies this
      ensures Valid()
      ensures tally == Judge(old(tally), line).0
    {
      hide Frame, MetadataAccepted;
      if line.Blank? {
        return;
      }
      var ok := false;
      if line.Json? && line.record.kind == Present("metadata") {
        ok := HandleMetadata(line.record);
      } else if line.Json? && line.record.kind == Present("frame") && metadataSeen {
        ok := HandleFrame(line.record);
      }
      if !ok {
        PlusOne(tally.parseErrors);
        parseErrors := Plus(parseErrors, 1);
        tally := tally.(parseErrors := tally.parseErrors + 1);
      }
    }
  }

  lemma NothingHanded()
    ensures ValidPrefix([]) == [] && AllValid([])
    ensures Attempts([]) == []
  {
  }

  lemma EventAttemptsOf(event: Event)
    ensures event.trades.Present? ==> EventAttempts(event) == TradeAttempts(event.trades.value)
    ensures !event.trades.Present? ==> !AllValid(EventAttempts(event)) && ValidPrefix(EventAttempts(event)) == []
  {
    if !event.trades.Present? {
      assert EventAttempts(event)[0].None?;
    }
  }

  /** One more attempt after only valid ones. */
  lemma NextAttempt(all: seq<Option<Trade>>, j: nat)
    requires j < |all| && AllValid(all[..j])
    ensures all[j].Some? ==>
              AllValid(all[..j + 1]) && ValidPrefix(all[..j + 1]) == ValidPrefix(all[..j]) + [all[j].value]
    ensures all[j].None? ==> !AllValid(all) && ValidPrefix(all) == ValidPrefix(all[..j])
  {
    var one := [all[j]];
    assert all[..j + 1] == all[..j] + one;
    ValidPrefixConcat(all[..j], one);
    if all[j].Some? {
      assert ValidPrefix(one) == [all[j].value] + ValidPrefix(one[1..]);
      assert AllValid(one);
    } else {
      assert all == all[..j] + all[j..];
      ValidPrefixConcat(all[..j], all[j..]);
    }
  }

  /** One more event after only valid ones. */
  lemma NextEvent(events: seq<Event>, i: nat)
    requires i < |events| && AllValid(Attempts(events[..i]))
    ensures ValidPrefix(Attempts(events[..i + 1])) ==
            ValidPrefix(Attempts(events[..i])) + ValidPrefix(EventAttempts(events[i]))
    ensures AllValid(Attempts(events[..i + 1])) == AllValid(EventAttempts(events[i]))
    ensures !AllValid(EventAttempts(events[i])) ==>
              !AllValid(Attempts(events)) && ValidPrefix(Attempts(events)) == ValidPrefix(Attempts(events[..i + 1]))
  {
    hide Attempts, EventAttempts, ValidPrefix, AllValid;
    AttemptsSnoc(events[..i], events[i]);
    assert events[..i + 1] == events[..i] + [events[i]];
    ValidPrefixConcat(Attempts(events[..i]), EventAttempts(events[i]));
    AttemptsConcat(events[..i + 1], events[i + 1..]);
    assert events == events[..i + 1] + events[i + 1..];
    ValidPrefixConcat(Attempts(events[..i + 1]), Attempts(events[i + 1..]));
  }

  lemma AttemptsSnoc(events: seq<Event>, event: Event)
    ensures Attempts(events + [event]) == Attempts(events) + EventAttempts(event)
  {
    assert (events + [event])[..|events|] == events;
  }

  lemma {:induction false} AttemptsConcat(a: seq<Event>, b: seq<Event>)
    ensures Attempts(a + b) == Attempts(a) + Attempts(b)
  {
    hide Attempts, EventAttempts;
    if b == [] {
      NothingHanded();
      assert a + b == a;
    } else {
      var init, last := b[..|b| - 1], b[|b| - 1];
      assert b == init + [last];
      AttemptsSnoc(init, last);
      AttemptsConcat(a, init);
      AttemptsSnoc(a + init, last);
      assert a + b == a + init + [last];
    }
  }

  // ----- the whole file

  /**
   * How reading a file ends; a record that is too long throws wherever it stands, a missing metadata record at the
   * end, and a file that cannot be opened at once.
   */
  datatype ReadOutcome = Returned(metrics: ParseMetrics) | NoMetadata | RecordTooLong | CannotOpen

  /** What a line is, given what parsing makes of its text. */
  function LineOf(parse: string -> Option<Record>, text: string): Line {
    if text == "" then Blank else if parse(text).None? then Malformed else Json(parse(text).value)
  }

  function LinesOf(parse: string -> Option<Record>, texts: seq<string>): seq<Line> {
    seq(|texts|, i requires 0 <= i < |texts| => LineOf(parse, texts[i]))
  }

  /** The lines of a file up to its end or to the record that is too long. */
  function FileLines(file: string, parse: string -> Option<Record>): seq<Line> {
    LinesOf(parse, Lines.ReadAll(file, 0).1)
  }

  ghost function Outcome(file: string, parse: string -> Option<Record>): ReadOutcome {
    var t := ReadLines(FileLines(file, parse));
    if !Lines.ReadAll(file, 0).0 then RecordTooLong
    else if !t.metadataSeen then NoMetadata
    else Returned(Reported(t))
  }

  /** Trades are handed over as they are read, so those before a record that is too long have left when it throws. */
  method ReadStream(file: string, parse: string -> Option<Record>) returns (outcome: ReadOutcome, delivered: seq<Trade>)
    ensures outcome == Outcome(file, parse)
    ensures delivered == ReadLines(FileLines(file, parse)).handed
  {
    hide Judge, ReadLines, Lines.ReadAll, Lines.NextLine;
    var reader := new CaptureReader();
    ghost var texts := [];
    var pos := 0;
    NothingRead(parse);
    assert [] + Lines.ReadAll(file, 0).1 == Lines.ReadAll(file, 0).1;
    while true
      invariant fresh(reader) && reader.Valid()
      invariant pos <= |file|
      invariant Lines.ReadAll(file, 0) == (Lines.ReadAll(file, pos).0, texts + Lines.ReadAll(file, pos).1)
      invariant reader.tally == ReadLines(LinesOf(parse, texts))
      decreases |file| - pos
    {
      var r := Lines.ReadBoundedLine(file, pos);
      Lines.ReadStep(file, pos);
      assert texts + [] == texts;
      match r
      case End =>
        break;
      case TooLong =>
        return RecordTooLong, reader.delivered;
      case Got(line, next) =>
        Lines.NextLineAdvances(file, pos);
        reader.HandleLine(LineOf(parse, line));
        NextText(parse, texts, line);
        assert texts + ([line] + Lines.ReadAll(file, next).1) == (texts + [line]) + Lines.ReadAll(file, next).1;
        texts := texts + [line];
        pos := next;
    }
    delivered := reader.delivered;
    if !reader.metadataSeen {
      return NoMetadata, delivered;
    }
    return Returned(ParseMetrics(reader.frames, reader.parseErrors, reader.sequenceGaps, reader.outOfOrder)), delivered;
  }

  /** A file that cannot be opened is refused before anything is handed over. */
  method ReadCapture(input: Option<string>, parse: string -> Option<Record>)
    returns (outcome: ReadOutcome, delivered: seq<Trade>)
    ensures input.None? ==> outcome == CannotOpen && delivered == []
    ensures input.Some? ==>
              outcome == Outcome(input.value, parse) && delivered == ReadLines(FileLines(input.value, parse)).handed
  {
    if input.None? {
      return CannotOpen, [];
    }
    outcome, delivered := ReadStream(input.value, parse);
  }

  lemma NothingRead(parse: string -> Option<Record>)
    ensures ReadLines(LinesOf(parse, [])) == EMPTY_TALLY
  {
  }

  lemma NextText(parse: string -> Option<Record>, texts: seq<string>, line: string)
    ensures LinesOf(parse, texts + [line]) == LinesOf(parse, texts) + [LineOf(parse, line)]
    ensures ReadLines(LinesOf(parse, texts + [line])) == Judge(ReadLines(LinesOf(parse, texts)), LineOf(parse, line)).0
  {
    hide Judge, LineOf;
    var lines := LinesOf(parse, texts + [line]);
    assert lines[..|texts|] == LinesOf(parse, texts);
  }

  function Reported(t: Tally): ParseMetrics {
    ParseMetrics(Wrap(t.frames), Wrap(t.parseErrors), Wrap(t.tracking.gaps), Wrap(t.tracking.outOfOrder))
  }

  // ----- the accounts of the lines

  function Count(verdicts: seq<Verdict>, v: Verdict): nat {
    if verdicts == [] then 0
    else Count(verdicts[..|verdicts| - 1], v) + if verdicts[|verdicts| - 1] == v then 1 else 0
  }

  function CountBlank(lines: seq<Line>): nat {
    if lines == [] then 0 else CountBlank(lines[..|lines| - 1]) + if lines[|lines| - 1].Blank? then 1 else 0
  }

  /**
   * Every line that is not empty is the one accepted metadata record, an error-free frame or a parse error; frames are
   * counted before they are checked, so they also include the frames that end as parse errors.
   */
  lemma {:induction false} LineAccounts(lines: seq<Line>)
    ensures var t, vs := ReadLines(lines), Verdicts(lines);
            && |lines| - CountBlank(lines) == (if t.metadataSeen then 1 else 0) + Count(vs, CleanFrame) + t.parseErrors
            && t.parseErrors == Count(vs, BadFrame) + Count(vs, BadRecord)
            && t.frames == Count(vs, CleanFrame) + Count(vs, BadFrame)
            && Count(vs, Metadata) == if t.metadataSeen then 1 else 0
  {
    if lines != [] {
      var init, line := lines[..|lines| - 1], lines[|lines| - 1];
      var t := ReadLines(init);
      LineAccounts(init);
      JudgeCounts(t, line);
      hide Judge;
      var verdict := Judge(t, line).1;
      forall v
        ensures Count(Verdicts(lines), v) == Count(Verdicts(init), v) + if v == verdict then 1 else 0
      {
        CountSnoc(Verdicts(init), verdict, v);
      }
    }
  }

  lemma CountSnoc(verdicts: seq<Verdict>, last: Verdict, v: Verdict)
    ensures Count(verdicts + [last], v) == Count(verdicts, v) + if last == v then 1 else 0
  {
    assert (verdicts + [last])[..|verdicts|] == verdicts;
  }

  /** What each verdict does to the counters. */
  lemma JudgeCounts(t: Tally, line: Line)
    ensures var (u, v) := Judge(t, line);
            && u.frames == t.frames + (if v == CleanFrame || v == BadFrame then 1 else 0)
            && u.parseErrors == t.parseErrors + (if v == BadFrame || v == BadRecord then 1 else 0)
            && u.metadataSeen == (t.metadataSeen || v == Metadata)
            && (v == Metadata ==> !t.metadataSeen)
            && (v == CleanFrame || v == BadFrame ==> t.metadataSeen)
            && (v == Skipped <==> line.Blank?)
            && t.handed <= u.handed
  {
    hide Attempts, ValidPrefix, AllValid;
  }

  /** Apart from empty lines, a metadata record comes first and only error-free frames follow. */
  ghost predicate WellFormed(verdicts: seq<Verdict>) {
    exists k :: 0 <= k < |verdicts| && verdicts[k] == Metadata && FramesAround(verdicts, k)
  }

  ghost predicate FramesAround(verdicts: seq<Verdict>, k: int) {
    && (forall i :: 0 <= i < k && i < |verdicts| ==> verdicts[i] == Skipped)
    && (forall i :: 0 <= k < i < |verdicts| ==> verdicts[i] == Skipped || verdicts[i] == CleanFrame)
  }

  lemma {:induction false} CleanSoFar(lines: seq<Line>)
    ensures |Verdicts(lines)| == |lines|
    ensures var t, vs := ReadLines(lines), Verdicts(lines);
            if t.parseErrors != 0 then exists i :: 0 <= i < |vs| && (vs[i] == BadFrame || vs[i] == BadRecord)
            else if t.metadataSeen then WellFormed(vs)
            else forall i :: 0 <= i < |vs| ==> vs[i] == Skipped
  {
    if lines != [] {
      var init, line := lines[..|lines| - 1], lines[|lines| - 1];
      var t := ReadLines(init);
      CleanSoFar(init);
      JudgeCounts(t, line);
      hide Judge;
      var before, vs, verdict := Verdicts(init), Verdicts(lines), Judge(t, line).1;
      assert vs == before + [verdict];
      if t.parseErrors != 0 {
        var i :| 0 <= i < |before| && (before[i] == BadFrame || before[i] == BadRecord);
        assert vs[i] == before[i];
      } else if ReadLines(lines).parseErrors != 0 {
        assert vs[|before|] == verdict;
      } else if t.metadataSeen {
        var k :| 0 <= k < |before| && before[k] == Metadata && FramesAround(before, k);
        assert vs[k] == Metadata && FramesAround(vs, k);
      } else if verdict == Metadata {
        assert vs[|before|] == Metadata && FramesAround(vs, |before|);
      }
    }
  }

  /** A replay is accepted without parse errors iff one metadata record precedes nothing but error-free frames. */
  lemma CleanReplay(lines: seq<Line>)
    ensures ReadLines(lines).metadataSeen && ReadLines(lines).parseErrors == 0 <==> WellFormed(Verdicts(lines))
  {
    hide ReadLines, Verdicts;
    CleanSoFar(lines);
    var vs := Verdicts(lines);
    if WellFormed(vs) {
      var k :| 0 <= k < |vs| && vs[k] == Metadata && FramesAround(vs, k);
      forall i | 0 <= i < |vs|
        ensures vs[i] != BadFrame && vs[i] != BadRecord
      {
        assert i < k || i == k || i > k;
      }
    }
  }

  // ----- what is handed over and what is tracked

  /** Nothing handed over is ever taken back, whatever follows. */
  lemma {:induction false} NothingTakenBack(lines: seq<Line>, i: nat)
    requires i <= |lines|
    ensures ReadLines(lines[..i]).handed <= ReadLines(lines).handed
  {
    if i < |lines| {
      var init := lines[..|lines| - 1];
      NothingTakenBack(init, i);
      assert init[..i] == lines[..i];
      JudgeCounts(ReadLines(init), lines[|lines| - 1]);
    } else {
      assert lines[..i] == lines;
    }
  }

  // ----- what becomes of a line, in terms of the lines before it

  predicate IsMetadata(line: Line) {
    line.Json? && line.record.kind == Present("metadata") && ValidMetadata(line.record)
  }

  predicate IsFrame(line: Line) {
    line.Json? && line.record.kind == Present("frame")
  }

  predicate MetadataIn(lines: seq<Line>) {
    exists i :: 0 <= i < |lines| && IsMetadata(lines[i])
  }

  /** A valid metadata record is accepted wherever it stands, whatever was rejected before it, and nothing else is. */
  lemma {:induction false} MetadataSeenExactly(lines: seq<Line>)
    ensures ReadLines(lines).metadataSeen <==> MetadataIn(lines)
  {
    if lines != [] {
      var init, line := lines[..|lines| - 1], lines[|lines| - 1];
      MetadataSeenExactly(init);
      JudgeSees(ReadLines(init), line);
      hide Judge, IsMetadata;
      assert lines == init + [line];
      MetadataSnoc(init, line);
    }
  }

  lemma MetadataSnoc(lines: seq<Line>, line: Line)
    ensures MetadataIn(lines + [line]) <==> MetadataIn(lines) || IsMetadata(line)
  {
    hide IsMetadata;
    var all := lines + [line];
    assert all[|lines|] == line;
    assert forall i :: 0 <= i < |lines| ==> all[i] == lines[i];
  }

  lemma JudgeSees(t: Tally, line: Line)
    ensures Judge(t, line).0.metadataSeen == (t.metadataSeen || IsMetadata(line))
  {
    hide Attempts, ValidPrefix, AllValid, ValidMetadata;
  }

  /** A recording is accepted although its metadata is not its first line: anything rejected may precede it. */
  lemma MetadataNeedNotBeFirst(r: Record)
    requires IsMetadata(Json(r))
    ensures ReadLines([Malformed, Json(r)]) == Tally(true, 0, 1, UNTRACKED, [])
  {
    var lines := [Malformed, Json(r)];
    assert lines[..1] == [Malformed] && [Malformed][..0] == [];
    assert ReadLines([Malformed]) == Tally(false, 0, 1, UNTRACKED, []);
  }

  /** The sequence number a line contributes once the envelope is accepted, whatever becomes of its trades. */
  ghost function Observed(before: seq<Line>, line: Line): Option<Observation> {
    if IsFrame(line) && MetadataIn(before) && EnvelopeAccepted(line.record)
       && line.record.payload.value.value.sequence.Present?
    then Some(Observation(line.record.connectionId.value, line.record.payload.value.value.sequence.value))
    else None
  }

  ghost function Observations(lines: seq<Line>): seq<Observation> {
    if lines == [] then []
    else
      var init := lines[..|lines| - 1];
      var o := Observed(init, lines[|lines| - 1]);
      Observations(init) + if o.Some? then [o.value] else []
  }

  /** Its number is tracked: the stream table has room for its connection. */
  ghost predicate Tracked(before: seq<Line>, line: Line) {
    var o := Observed(before, line);
    o.Some? && !Rejected(TrackAll(Observations(before)), o.value.connection)
  }

  ghost predicate CarriesTrades(before: seq<Line>, line: Line) {
    && Tracked(before, line)
    && line.record.payload.value.value.channel == Present("market_trades")
    && line.record.payload.value.value.events.Present?
  }

  /** The longest valid prefix of what a tracked frame of the trade channel holds. */
  ghost function TradesOf(before: seq<Line>, line: Line): seq<Trade> {
    if CarriesTrades(before, line) then ValidPrefix(Attempts(line.record.payload.value.value.events.value)) else []
  }

  ghost function AllTrades(lines: seq<Line>): seq<Trade> {
    if lines == [] then []
    else AllTrades(lines[..|lines| - 1]) + TradesOf(lines[..|lines| - 1], lines[|lines| - 1])
  }

  ghost predicate FrameAccepted(before: seq<Line>, line: Line)
    requires IsFrame(line)
  {
    && EnvelopeAccepted(line.record)
    && var p := line.record.payload.value.value;
    if p.sequence.Missing? then p.channel.value != "market_trades" && p.channel.value != "heartbeats"
    else
      && Tracked(before, line)
      && (p.channel.value == "market_trades" ==> p.events.Present? && AllValid(Attempts(p.events.value)))
  }

  ghost function Fate(before: seq<Line>, line: Line): Verdict {
    if line.Blank? then Skipped
    else if IsMetadata(line) && !MetadataIn(before) then Metadata
    else if !IsFrame(line) || !MetadataIn(before) then BadRecord
    else if FrameAccepted(before, line) then CleanFrame
    else BadFrame
  }

  /** One line, when the state before it is known in terms of the lines alone. */
  lemma JudgeFate(t: Tally, before: seq<Line>, line: Line)
    requires t.metadataSeen == MetadataIn(before) && t.tracking == TrackAll(Observations(before))
    ensures var (u, verdict), o := Judge(t, line), Observed(before, line);
            && u.tracking == (if o.Some? then Sequences.Track(t.tracking, o.value) else t.tracking)
            && u.handed == t.handed + TradesOf(before, line)
            && verdict == Fate(before, line)
  {
    hide Attempts, ValidPrefix, AllValid, ValidMetadata, MetadataIn, TrackAll, Observations;
    assert t.handed + [] == t.handed;
  }

  // ----- the same in terms of the fields

  /** `t` is what the six texts of a trade spell. */
  ghost predicate SpellsTrade(input: TradeInput, t: Trade) {
    && input.price.Present? && Decimals.Denotes(input.price.value, t.price)
    && input.size.Present? && Decimals.Denotes(input.size.value, t.size)
    && input.time.Present?
    && (exists d :: Timestamps.Denotes(input.time.value, d) && d.Nanos() == t.sourceTimeNs)
    && input.tradeId.Present? && input.tradeId.value == t.tradeId && |t.tradeId| <= 24
    && input.productId.Present? && input.productId.value == t.productId && |t.productId| <= 20
    && ((input.side == Present("BUY") && t.side == Buy) || (input.side == Present("SELL") && t.side == Sell))
    && t.enqueuedNs == 0
  }

  /** A trade is accepted iff its texts spell one, and then as that one. */
  lemma AcceptedExactly(input: TradeInput, t: Trade)
    ensures Accepted(input) == Some(t) <==> SpellsTrade(input, t)
  {
    hide Decimals.Parsed, Timestamps.Parsed, Decimals.Denotes, Timestamps.Denotes;
    if input.price.Present? {
      Decimals.ParsedExact(input.price.value);
    }
    if input.size.Present? {
      Decimals.ParsedExact(input.size.value);
    }
    if input.time.Present? {
      Timestamps.ParsedExact(input.time.value, t.sourceTimeNs);
    }
  }

  /** The trades of a payload as they are written; an event without trades stands for itself. */
  function Inputs(events: seq<Event>): seq<Option<TradeInput>> {
    if events == [] then []
    else
      var event := events[|events| - 1];
      Inputs(events[..|events| - 1]) +
      if event.trades.Present?
      then seq(|event.trades.value|, i requires 0 <= i < |event.trades.value| => Some(event.trades.value[i]))
      else [None]
  }

  lemma {:induction false} AttemptsOfInputs(events: seq<Event>)
    ensures |Attempts(events)| == |Inputs(events)|
    ensures forall i :: 0 <= i < |Inputs(events)| ==>
              Attempts(events)[i] == if Inputs(events)[i].Some? then Accepted(Inputs(events)[i].value) else None
  {
    hide Accepted;
    if events != [] {
      AttemptsOfInputs(events[..|events| - 1]);
    }
  }

  /** What is handed over of a payload: the trades spelled, in order, up to the first that spells none. */
  ghost predicate HandsOver(inputs: seq<Option<TradeInput>>, trades: seq<Trade>) {
    && |trades| <= |inputs|
    && (forall i :: 0 <= i < |trades| ==> inputs[i].Some? && SpellsTrade(inputs[i].value, trades[i]))
    && (|trades| < |inputs| && inputs[|trades|].Some? ==> forall t :: !SpellsTrade(inputs[|trades|].value, t))
  }

  lemma PrefixHandsOver(events: seq<Event>)
    ensures HandsOver(Inputs(events), ValidPrefix(Attempts(events)))
    ensures AllValid(Attempts(events)) <==> |ValidPrefix(Attempts(events))| == |Inputs(events)|
  {
    hide Accepted, Attempts, Inputs, ValidPrefix, SpellsTrade;
    var all, trades, inputs := Attempts(events), ValidPrefix(Attempts(events)), Inputs(events);
    AttemptsOfInputs(events);
    ValidPrefixMaximal(all);
    forall i | 0 <= i < |trades|
      ensures inputs[i].Some? && SpellsTrade(inputs[i].value, trades[i])
    {
      assert all[i] == Some(trades[i]);
      AcceptedExactly(inputs[i].value, trades[i]);
    }
    if |trades| < |inputs| && inputs[|trades|].Some? {
      forall t
        ensures !SpellsTrade(inputs[|trades|].value, t)
      {
        AcceptedExactly(inputs[|trades|].value, t);
      }
    }
  }

  /** The events of a frame of the trade channel, or nothing. */
  function EventsIn(line: Line): seq<Event> {
    if line.Json? && line.record.payload.Present? && line.record.payload.value.Some?
       && line.record.payload.value.value.events.Present?
    then line.record.payload.value.value.events.value
    else []
  }

  /**
   * Line by line, what a file hands over: nothing unless the line is a frame behind the metadata whose connection has
   * room in the table, with all its fields and on the trade channel, and then what its events spell.
   */
  lemma HandedLineExactly(lines: seq<Line>, i: nat)
    requires i < |lines|
    ensures i + 1 <= |lines| && ReadLines(lines[..i]).handed <= ReadLines(lines[..i + 1]).handed
    ensures var more := ReadLines(lines[..i + 1]).handed[|ReadLines(lines[..i]).handed|..];
            if && (exists j :: 0 <= j < i && HasMetadataFields(lines[j]))
               && HasFrameFields(lines[i]) && OnTradeChannel(lines[i].record.payload.value.value)
               && HasRoom(lines[..i], lines[i].record.connectionId.value)
            then HandsOver(Inputs(EventsIn(lines[i])), more)
            else more == []
  {
    hide ReadLines, ValidPrefix, Attempts, HandsOver, CarriesTrades, HasRoom, HasFrameFields, OnTradeChannel, EventsIn;
    var init, line := lines[..i], lines[i];
    MetadataInExactly(lines, i);
    CarriesExactly(init, line);
    hide MetadataIn, HasMetadataFields;
    HandedExactly(init);
    HandedExactly(lines[..i + 1]);
    assert lines[..i + 1][..i] == init;
    AllTradesStep(lines[..i + 1]);
    PrefixHandsOver(EventsIn(line));
    CarriedEvents(init, line);
  }

  predicate OnTradeChannel(p: Payload) {
    p.channel == Present("market_trades") && p.sequence.Present? && p.events.Present?
  }

  lemma CarriesExactly(before: seq<Line>, line: Line)
    ensures CarriesTrades(before, line) <==>
            && MetadataIn(before) && HasFrameFields(line) && OnTradeChannel(line.record.payload.value.value)
            && HasRoom(before, line.record.connectionId.value)
  {
    hide MetadataIn, TrackAll, Observations, FirstConnections;
    TotalsOfAdmitted(Observations(before));
    TableIsFirst(Observations(before));
    hide AdmittedOk;
  }

  lemma AllTradesStep(lines: seq<Line>)
    requires lines != []
    ensures AllTrades(lines) ==
            AllTrades(lines[..|lines| - 1]) + TradesOf(lines[..|lines| - 1], lines[|lines| - 1])
  {
  }

  lemma CarriedEvents(before: seq<Line>, line: Line)
    ensures TradesOf(before, line) ==
            if CarriesTrades(before, line) then ValidPrefix(Attempts(EventsIn(line))) else []
  {
    hide MetadataIn, ValidPrefix, Attempts, TrackAll, Observations;
  }

  /** The line at `i` is the accepted metadata iff it has every field the format asks for and none before it has. */
  lemma MetadataLineExactly(lines: seq<Line>, i: nat)
    requires i < |lines|
    ensures |Verdicts(lines)| == |lines|
    ensures Verdicts(lines)[i] == Metadata <==>
            && (forall j :: 0 <= j < i ==> !HasMetadataFields(lines[j]))
            && HasMetadataFields(lines[i])
  {
    hide Verdicts;
    VerdictsExactly(lines);
    forall j | 0 <= j <= i
      ensures HasMetadataFields(lines[j]) <==> IsMetadata(lines[j])
    {
    }
    hide IsMetadata, HasMetadataFields, FrameAccepted;
    assert forall j :: 0 <= j < i ==> lines[..i][j] == lines[j];
  }

  predicate HasMetadataFields(line: Line) {
    && line.Json?
    && var r := line.record;
    && r.kind == Present("metadata") && r.format == Present("bengal-market-capture") && r.version == Present(1)
    && r.source.Present? && r.productIds.Present? && |r.productIds.value| >= 1
    && forall p :: p in r.productIds.value ==> p.Present? && 1 <= |p.value| <= 20
  }

  /** The fields every frame needs. */
  predicate HasFrameFields(line: Line) {
    && line.Json?
    && var r := line.record;
    && r.kind == Present("frame") && r.receivedNs.Present? && r.connectionId.Present?
    && r.payload.Present? && r.payload.value.Some? && r.payload.value.value.channel.Present?
  }

  /**
   * The line at `i` is an error-free frame iff metadata precedes it and it has its fields, and then either it has no
   * sequence number and is on neither data channel, or its number is tracked and, on the trade channel, all its trades
   * spell trades.
   */
  lemma CleanLineExactly(lines: seq<Line>, i: nat)
    requires i < |lines|
    ensures |Verdicts(lines)| == |lines|
    ensures Verdicts(lines)[i] == CleanFrame <==>
            && (exists j :: 0 <= j < i && HasMetadataFields(lines[j]))
            && HasFrameFields(lines[i])
            && var p := lines[i].record.payload.value.value;
            if p.sequence.Missing? then p.channel.value != "market_trades" && p.channel.value != "heartbeats"
            else
              && p.sequence.Present? && HasRoom(lines[..i], lines[i].record.connectionId.value)
              && (p.channel.value == "market_trades" ==>
                    p.events.Present? && |ValidPrefix(Attempts(p.events.value))| == |Inputs(p.events.value)|)
  {
    hide Verdicts, Attempts, ValidPrefix, AllValid, Inputs;
    VerdictsExactly(lines);
    MetadataInExactly(lines, i);
    CleanFate(lines[..i], lines[i]);
    PrefixHandsOver(EventsIn(lines[i]));
    hide Fate, MetadataIn, HasMetadataFields;
  }

  lemma MetadataInExactly(lines: seq<Line>, i: nat)
    requires i <= |lines|
    ensures MetadataIn(lines[..i]) <==> exists j :: 0 <= j < i && HasMetadataFields(lines[j])
  {
    forall j | 0 <= j < i
      ensures HasMetadataFields(lines[j]) <==> IsMetadata(lines[..i][j])
    {
      assert lines[..i][j] == lines[j];
    }
    hide IsMetadata, HasMetadataFields;
    if j :| 0 <= j < i && HasMetadataFields(lines[j]) {
      assert IsMetadata(lines[..i][j]);
    }
  }

  /** The table has room for a connection, or has it already. */
  ghost predicate HasRoom(before: seq<Line>, connection: u64) {
    var first := FirstConnections(Observations(before));
    connection in first || |first| < 4096
  }

  lemma CleanFate(before: seq<Line>, line: Line)
    ensures Fate(before, line) == CleanFrame <==>
            && MetadataIn(before) && HasFrameFields(line)
            && var p := line.record.payload.value.value;
            if p.sequence.Missing? then p.channel.value != "market_trades" && p.channel.value != "heartbeats"
            else
              && p.sequence.Present? && HasRoom(before, line.record.connectionId.value)
              && (p.channel.value == "market_trades" ==> p.events.Present? && AllValid(Attempts(p.events.value)))
  {
    hide MetadataIn, Attempts, AllValid, TrackAll, Observations, FirstConnections, ValidMetadata;
    TotalsOfAdmitted(Observations(before));
    TableIsFirst(Observations(before));
    hide AdmittedOk;
  }

  /** The reader's sequence table and counters are those of the observations alone, and the table stays bounded. */
  lemma {:induction false} TrackingOfObservations(lines: seq<Line>)
    ensures ReadLines(lines).tracking == TrackAll(Observations(lines))
    ensures |ReadLines(lines).tracking.last| <= MAXIMUM_SEQUENCE_STREAMS
  {
    hide TrackAll;
    if lines == [] {
      NothingTracked();
    } else {
      var init, line := lines[..|lines| - 1], lines[|lines| - 1];
      TrackingOfObservations(init);
      MetadataSeenExactly(init);
      JudgeFate(ReadLines(init), init, line);
      hide Judge, Observed;
      var o := Observed(init, line);
      if o.Some? {
        TrackSnoc(Observations(init), o.value);
      } else {
        assert Observations(lines) == Observations(init);
      }
    }
    TableBounded(Observations(lines));
  }

  lemma NothingTracked()
    ensures TrackAll([]) == UNTRACKED
  {
  }

  /**
   * What is handed over from a recording: of every frame of the trade channel whose number is tracked the longest valid
   * prefix of its trades, in order; nothing else adds to it and nothing is taken from it.
   */
  lemma {:induction false} HandedExactly(lines: seq<Line>)
    ensures ReadLines(lines).handed == AllTrades(lines)
  {
    if lines != [] {
      var init, line := lines[..|lines| - 1], lines[|lines| - 1];
      HandedExactly(init);
      MetadataSeenExactly(init);
      TrackingOfObservations(init);
      JudgeFate(ReadLines(init), init, line);
      hide Judge, TradesOf;
    }
  }

  /** What becomes of every line is decided by the line and the observations before it. */
  lemma {:induction false} VerdictsExactly(lines: seq<Line>)
    ensures |Verdicts(lines)| == |lines|
    ensures forall i :: 0 <= i < |lines| ==> Verdicts(lines)[i] == Fate(lines[..i], lines[i])
  {
    hide Fate;
    if lines != [] {
      var init, line := lines[..|lines| - 1], lines[|lines| - 1];
      VerdictsExactly(init);
      MetadataSeenExactly(init);
      TrackingOfObservations(init);
      JudgeFate(ReadLines(init), init, line);
      hide Judge;
      forall i | 0 <= i < |lines|
        ensures Verdicts(lines)[i] == Fate(lines[..i], lines[i])
      {
        assert i < |init| ==> lines[..i] == init[..i] && lines[i] == init[i];
      }
    }
  }

  /** The reported totals are sums over the first 4096 connections, each on its own; fewer are all counted. */
  lemma ReportedTotals(lines: seq<Line>)
    ensures var t, all := ReadLines(lines), Observations(lines);
            var obs := if |Connections(all)| <= MAXIMUM_SEQUENCE_STREAMS then all else Admitted(all);
            && Reported(t).sequenceGaps == Wrap(Sum(JumpsByConnection(obs)))
            && Reported(t).outOfOrder == Wrap(Sum(LateByConnection(obs)))
  {
    hide ReadLines, Observations, Wrap;
    TrackingOfObservations(lines);
    TotalsOfAdmitted(Observations(lines));
    if |Connections(Observations(lines))| <= MAXIMUM_SEQUENCE_STREAMS {
      AllAdmitted(Observations(lines));
    }
  }

  // ----- changing a recording

  /** A tally with more frames and errors on its counters. */
  function Charged(t: Tally, frames: nat, errors: nat): Tally {
    t.(frames := t.frames + frames, parseErrors := t.parseErrors + errors)
  }

  lemma FrameCharged(t: Tally, r: Record, frames: nat, errors: nat)
    ensures Frame(Charged(t, frames, errors), r) == (Charged(Frame(t, r).0, frames, errors), Frame(t, r).1)
  {
    hide Attempts, ValidPrefix, AllValid, Sequences.Track, EnvelopeAccepted;
  }

  lemma JudgeCharged(t: Tally, line: Line, frames: nat, errors: nat)
    ensures Judge(Charged(t, frames, errors), line).0 == Charged(Judge(t, line).0, frames, errors)
  {
    hide Frame, ValidMetadata;
    if line.Json? {
      FrameCharged(t, line.record, frames, errors);
    }
  }

  /** The counters do not influence how the rest is read. */
  lemma {:induction false} ChargedKept(a: seq<Line>, x: seq<Line>, b: seq<Line>, frames: nat, errors: nat)
    requires ReadLines(x) == Charged(ReadLines(a), frames, errors)
    ensures ReadLines(x + b) == Charged(ReadLines(a + b), frames, errors)
  {
    hide Judge, Charged;
    if b == [] {
      assert x + b == x && a + b == a;
    } else {
      var k := |b| - 1;
      ChargedKept(a, x, b[..k], frames, errors);
      assert (x + b)[..|x| + k] == x + b[..k] && (x + b)[|x| + k] == b[k];
      assert (a + b)[..|a| + k] == a + b[..k] && (a + b)[|a| + k] == b[k];
      JudgeCharged(ReadLines(a + b[..k]), b[k], frames, errors);
    }
  }

  lemma ReadSnoc(lines: seq<Line>, line: Line)
    ensures ReadLines(lines + [line]) == Judge(ReadLines(lines), line).0
  {
    hide Judge;
    assert (lines + [line])[..|lines|] == lines;
  }

  /** Empty lines of a file have no effect at all. */
  lemma EmptyLinesIgnored(parse: string -> Option<Record>, a: seq<string>, b: seq<string>)
    ensures ReadLines(LinesOf(parse, a + [""] + b)) == ReadLines(LinesOf(parse, a + b))
  {
    hide Judge, ReadLines, LineOf;
    NextText(parse, a, "");
    BlankSkipped(parse, ReadLines(LinesOf(parse, a)));
    NothingCharged(ReadLines(LinesOf(parse, a)));
    NothingCharged(ReadLines(LinesOf(parse, a + b)));
    assert LinesOf(parse, a + [""] + b) == LinesOf(parse, a + [""]) + LinesOf(parse, b);
    assert LinesOf(parse, a + b) == LinesOf(parse, a) + LinesOf(parse, b);
    ChargedKept(LinesOf(parse, a), LinesOf(parse, a + [""]), LinesOf(parse, b), 0, 0);
  }

  lemma BlankSkipped(parse: string -> Option<Record>, t: Tally)
    ensures Judge(t, LineOf(parse, "")).0 == t
  {
  }

  lemma NothingCharged(t: Tally)
    ensures Charged(t, 0, 0) == t
  {
  }

  /**
   * A line whose number is not tracked and that is not the metadata record may be struck from a recording: only the
   * frame count and the error count change, by one at most, and they change as its fate says.
   */
  lemma UntrackedLineStruck(a: seq<Line>, line: Line, b: seq<Line>)
    requires !Tracked(a, line) && Fate(a, line) != Metadata
    ensures var verdict := Fate(a, line);
            ReadLines(a + [line] + b) ==
            Charged(ReadLines(a + b), if verdict == CleanFrame || verdict == BadFrame then 1 else 0,
                    if verdict == BadFrame || verdict == BadRecord then 1 else 0)
  {
    var t := ReadLines(a);
    MetadataSeenExactly(a);
    TrackingOfObservations(a);
    JudgeFate(t, a, line);
    JudgeCounts(t, line);
    JudgeSees(t, line);
    ReadSnoc(a, line);
    UntrackedKept(a, line);
    hide Judge, Fate, ReadLines, Tracked, Observed;
    var verdict := Fate(a, line);
    ChargedKept(a, a + [line], b, if verdict == CleanFrame || verdict == BadFrame then 1 else 0,
                if verdict == BadFrame || verdict == BadRecord then 1 else 0);
  }

  lemma UntrackedKept(a: seq<Line>, line: Line)
    requires !Tracked(a, line)
    ensures TradesOf(a, line) == []
    ensures var o, t := Observed(a, line), TrackAll(Observations(a));
            o.Some? ==> Sequences.Track(t, o.value) == t
    ensures Fate(a, line) != Metadata && IsMetadata(line) ==> MetadataIn(a)
  {
    hide MetadataIn, Observations, TrackAll, ValidMetadata;
  }

  /** On the data channels a payload without a sequence number costs a parse error, and elsewhere nothing at all. */
  lemma DataChannelsNeedSequence(a: seq<Line>, r: Record, b: seq<Line>)
    requires MetadataIn(a) && IsFrame(Json(r)) && EnvelopeAccepted(r) && r.payload.value.value.sequence.Missing?
    ensures var channel := r.payload.value.value.channel.value;
            ReadLines(a + [Json(r)] + b) ==
            Charged(ReadLines(a + b), 1, if channel == "market_trades" || channel == "heartbeats" then 1 else 0)
  {
    hide ReadLines, MetadataIn, Observations, TrackAll;
    UntrackedLineStruck(a, Json(r), b);
  }

  /** The same record with other events. */
  function WithEvents(r: Record, events: seq<Event>): Record
    requires r.payload.Present? && r.payload.value.Some?
  {
    r.(payload := Present(Some(r.payload.value.value.(events := Present(events)))))
  }

  /**
   * Of the events of a frame only the valid prefix has an effect, beside one parse error when there is more than
   * that.
   */
  lemma OnlyTheValidPrefixCounts(a: seq<Line>, r: Record, long: seq<Event>, short: seq<Event>, b: seq<Line>)
    requires r.payload.Present? && r.payload.value.Some?
    requires ValidPrefix(Attempts(long)) == ValidPrefix(Attempts(short)) && AllValid(Attempts(short))
    ensures ReadLines(a + [Json(WithEvents(r, long))] + b) ==
            Charged(ReadLines(a + [Json(WithEvents(r, short))] + b), 0,
                    if CarriesTrades(a, Json(WithEvents(r, long))) && !AllValid(Attempts(long)) then 1 else 0)
  {
    var x, y := Json(WithEvents(r, long)), Json(WithEvents(r, short));
    var errors := if CarriesTrades(a, x) && !AllValid(Attempts(long)) then 1 else 0;
    MetadataSeenExactly(a);
    TrackingOfObservations(a);
    ReadSnoc(a, x);
    ReadSnoc(a, y);
    EventsJudged(ReadLines(a), a, r, long, short);
    hide ReadLines, Judge, CarriesTrades, WithEvents;
    ChargedKept(a + [y], a + [x], b, 0, errors);
  }

  lemma EventsJudged(t: Tally, a: seq<Line>, r: Record, long: seq<Event>, short: seq<Event>)
    requires r.payload.Present? && r.payload.value.Some?
    requires ValidPrefix(Attempts(long)) == ValidPrefix(Attempts(short)) && AllValid(Attempts(short))
    requires t.metadataSeen == MetadataIn(a) && t.tracking == TrackAll(Observations(a))
    ensures var x, y := Json(WithEvents(r, long)), Json(WithEvents(r, short));
            Judge(t, x).0 ==
            Charged(Judge(t, y).0, 0, if CarriesTrades(a, x) && !AllValid(Attempts(long)) then 1 else 0)
  {
    hide Attempts, ValidPrefix, AllValid, MetadataIn, TrackAll, Observations, Sequences.Track;
  }

  /**
   * A bad trade undoes neither the number of its frame nor the trades before it: a recording reads like the one whose
   * frame ends right before that trade, but for one parse error when the frame got as far as its trades.
   */
  lemma BadTradeUndoesNothing(a: seq<Line>, r: Record, events: seq<Event>, good: seq<TradeInput>, bad: TradeInput,
                              more: seq<TradeInput>, after: seq<Event>, b: seq<Line>)
    requires r.payload.Present? && r.payload.value.Some?
    requires AllValid(Attempts(events)) && AllValid(TradeAttempts(good)) && Accepted(bad).None?
    ensures var x := WithEvents(r, events + [Event(Present(good + [bad] + more))] + after);
            var y := WithEvents(r, events + [Event(Present(good))]);
            ReadLines(a + [Json(x)] + b) ==
            Charged(ReadLines(a + [Json(y)] + b), 0, if CarriesTrades(a, Json(x)) then 1 else 0)
  {
    hide ReadLines, CarriesTrades, WithEvents;
    CutAtBadTrade(events, good, bad, more, after);
    OnlyTheValidPrefixCounts(a, r, events + [Event(Present(good + [bad] + more))] + after,
                             events + [Event(Present(good))], b);
  }

  lemma CutAtBadTrade(events: seq<Event>, good: seq<TradeInput>, bad: TradeInput, more: seq<TradeInput>,
                      after: seq<Event>)
    requires AllValid(Attempts(events)) && AllValid(TradeAttempts(good)) && Accepted(bad).None?
    ensures var long, short := events + [Event(Present(good + [bad] + more))] + after, events + [Event(Present(good))];
            && ValidPrefix(Attempts(long)) == ValidPrefix(Attempts(short))
            && AllValid(Attempts(short)) && !AllValid(Attempts(long))
  {
    var e1, e2 := Event(Present(good + [bad] + more)), Event(Present(good));
    BadAttempt(good, bad, more);
    AttemptsSnoc(events, e1);
    AttemptsSnoc(events, e2);
    AttemptsConcat(events + [e1], after);
    hide Attempts, ValidPrefix, AllValid, TradeAttempts;
    ValidPrefixConcat(Attempts(events), EventAttempts(e1));
    ValidPrefixConcat(Attempts(events), EventAttempts(e2));
    ValidPrefixConcat(Attempts(events + [e1]), Attempts(after));
  }

  lemma BadAttempt(good: seq<TradeInput>, bad: TradeInput, more: seq<TradeInput>)
    requires AllValid(TradeAttempts(good)) && Accepted(bad).None?
    ensures var all := TradeAttempts(good + [bad] + more);
            ValidPrefix(all) == ValidPrefix(TradeAttempts(good)) && !AllValid(all)
  {
    hide Accepted;
    var all, k := TradeAttempts(good + [bad] + more), |good|;
    assert all[..k] == TradeAttempts(good);
    assert all[k] == Accepted(bad);
    NextAttempt(all, k);
  }
}
