/** The deterministic fixture and its replay: what is generated is what is handed over. */
module Fixtures {
  import opened Words
  import opened Numerals
  import opened Trades
  import opened Sequences
  import opened Readers
  import opened JsonText
  import Calendar
  import Decimals
  import Timestamps

  const FIXTURE_TIME := "2026-01-01T00:00:00.000000000Z"
  const FIXTURE_NANOS: u64 := 1_767_225_600_000_000_000

  /** Prices step by 0.0001 through ten thousand values and sizes by 0.00001 through a hundred, in units of 1e-8. */
  function Price(index: nat): i64 {
    3_000_000_000_000 + (index % 10_000) * 10_000
  }

  function Amount(index: nat): i64 {
    100_000 + (index % 100) * 1_000
  }

  /** The trade that record `index` describes. */
  function FixtureTrade(index: nat, product: string): Trade {
    Trade(Digits(index + 1), product, Price(index), Amount(index), if index % 2 == 0 then Buy else Sell,
          FIXTURE_NANOS, 0)
  }

  function FixtureTrades(count: nat, product: string): seq<Trade> {
    seq(count, i requires 0 <= i < count => FixtureTrade(i, product))
  }

  function MetadataLine(product: string): Line {
    Json(Record(Present("metadata"), Present("bengal-market-capture"), Present(1), Present("deterministic-generator"),
                Present([Present(product)]), Missing, Missing, Missing))
  }

  function Input(index: nat, product: string): TradeInput {
    TradeInput(Present(Decimals.Formatted(Price(index))), Present(Decimals.Formatted(Amount(index))),
               Present(if index % 2 == 0 then "BUY" else "SELL"), Present(FIXTURE_TIME),
               Present(Digits(index + 1)), Present(product))
  }

  function FrameLine(index: nat, product: string): Line
    requires index < UINT64_MAX
  {
    Json(Record(Present("frame"), Missing, Missing, Missing, Missing, Present(Wrap(index * 1_000)), Present(1),
                Present(Some(Payload(Present("market_trades"), Present(index + 1),
                                     Present([Event(Present([Input(index, product)]))]))))))
  }

  /** The lines of the whole fixture. */
  function FixtureLines(count: nat, product: string): seq<Line>
    requires count <= UINT64_MAX
  {
    if count == 0 then [MetadataLine(product)] else FixtureLines(count - 1, product) + [FrameLine(count - 1, product)]
  }

  lemma LinesStart(product: string)
    ensures FixtureLines(0, product) == [MetadataLine(product)]
  {
  }

  lemma LinesStep(index: nat, product: string)
    requires index < UINT64_MAX
    ensures FixtureLines(index + 1, product) == FixtureLines(index, product) + [FrameLine(index, product)]
  {
  }

  /** What the reader comes across in a record. */
  ghost function AttemptsIn(line: Line): seq<Option<Trade>>
    requires line.Json? && line.record.payload.Present? && line.record.payload.value.Some?
    requires line.record.payload.value.value.events.Present?
  {
    Attempts(line.record.payload.value.value.events.value)
  }

  /** The body of the loop: one record, whose only trade the reader accepts as the generated one. */
  method MakeRecord(index: u64, productId: string) returns (line: Line)
    requires index < UINT64_MAX
    ensures line == FrameLine(index, productId)
    ensures |productId| <= 20 ==> AttemptsIn(line) == [Some(FixtureTrade(index, productId))]
  {
    if |productId| <= 20 {
      InputAccepted(index, productId);
      OneAttempt(Input(index, productId), FixtureTrade(index, productId));
    }
    hide Digits, Decimals.Formatted, Wrap, Accepted, Attempts, FixtureTrade;
    var price: i64 := 3_000_000_000_000 + (index % 10_000) * 10_000;
    var amount: i64 := 100_000 + (index % 100) * 1_000;
    var priceText := Decimals.FormatDecimal(price);
    var amountText := Decimals.FormatDecimal(amount);
    var input := TradeInput(Present(priceText), Present(amountText), Present(if index % 2 == 0 then "BUY" else "SELL"),
                            Present(FIXTURE_TIME), Present(Digits(index + 1)), Present(productId));
    var payload := Payload(Present("market_trades"), Present(index + 1), Present([Event(Present([input]))]));
    line := Json(Record(Present("frame"), Missing, Missing, Missing, Missing, Present(Wrap(index * 1_000)), Present(1),
                        Present(Some(payload))));
  }

  /** A product of 1 to 20 bytes of UTF-8: the dump of anything else throws. */
  predicate Generates(eventCount: u64, productId: string) {
    eventCount != 0 && 1 <= |productId| <= 20 && ValidUtf8(productId)
  }

  /** A product of one byte that is refused: 0xFF begins no character. */
  lemma ProductRefused(eventCount: u64)
    ensures |[255 as char]| == 1 && !Generates(eventCount, [255 as char])
  {
  }

  /**
   * The lines of the fixture, or an exception; `created` and `written` say whether the file could be opened and
   * written.
   */
  method GenerateFixture(eventCount: u64, productId: string, created: bool, written: bool)
    returns (r: Option<seq<Line>>)
    ensures r == if Generates(eventCount, productId) && created && written
                 then Some(FixtureLines(eventCount, productId))
                 else None
  {
    hide FrameLine, MetadataLine, FixtureLines, ValidUtf8;
    LinesStart(productId);
    if eventCount == 0 {
      return None;
    }
    if productId == "" || |productId| > 20 {
      return None;
    }
    if !created {
      return None;
    }
    if !ValidUtf8(productId) {
      return None;
    }
    var stream := [MetadataLine(productId)];
    var index: u64 := 0;
    while index < eventCount
      invariant index <= eventCount
      invariant stream == FixtureLines(index, productId)
    {
      var line := MakeRecord(index, productId);
      LinesStep(index, productId);
      stream := stream + [line];
      index := index + 1;
    }
    if !written {
      return None;
    }
    return Some(stream);
  }

  // ----- every generated trade is accepted as generated

  const FIXTURE_STAMP := Timestamps.Stamp(Calendar.Date(2026, 1, 1), 0, 0, 0, true, "000000000")

  lemma StampFields()
    ensures Padded(2026, 4) == "2026" && Padded(1, 2) == "01" && Padded(0, 2) == "00"
    ensures FIXTURE_STAMP.Tail() == ".000000000Z"
  {
  }

  lemma StampLayout()
    ensures "2026" + "-" + "01" + "-" + "01" + "T" + "00" + ":" + "00" + ":" + "00" + ".000000000Z" == FIXTURE_TIME
  {
    assert "2026" + "-" + "01" == "2026-01";
    assert "2026-01" + "-" + "01" == "2026-01-01";
    assert "2026-01-01" + "T" + "00" == "2026-01-01T00";
    assert "2026-01-01T00" + ":" + "00" == "2026-01-01T00:00";
    assert "2026-01-01T00:00" + ":" + "00" == "2026-01-01T00:00:00";
  }

  lemma StampText()
    ensures FIXTURE_STAMP.Valid() && FIXTURE_STAMP.Text() == FIXTURE_TIME
  {
    hide Padded, Timestamps.Stamp.Tail;
    StampFields();
    StampLayout();
  }

  lemma StampNanos()
    requires FIXTURE_STAMP.Valid()
    ensures FIXTURE_STAMP.Nanos() == FIXTURE_NANOS
  {
    Calendar.DaysFromCivilCounts(FIXTURE_STAMP.date);
    FixtureDay();
    ZeroFraction();
    hide Calendar.DayCount, Calendar.DaysFromCivil, Value, Shift;
  }

  lemma FixtureDay()
    ensures Calendar.DaysFromCivil(FIXTURE_STAMP.date) == 20454
  {
  }

  lemma TimeParses()
    ensures Timestamps.Parsed(FIXTURE_TIME) == Some(FIXTURE_NANOS)
  {
    StampText();
    StampNanos();
    hide *;
    Spelled(FIXTURE_TIME, FIXTURE_STAMP);
  }

  lemma Spelled(text: string, d: Timestamps.Stamp)
    requires d.Valid() && d.Text() == text && 0 <= d.Nanos() < TWO64
    ensures Timestamps.Parsed(text) == Some(d.Nanos())
  {
    hide Timestamps.Parsed, Timestamps.Stamp.Nanos, Timestamps.Stamp.Text, Timestamps.Stamp.Valid;
    assert Timestamps.Denotes(text, d);
    Timestamps.ParsedExact(text, d.Nanos());
  }

  lemma ZeroFraction()
    ensures Value("000000000") == 0 && Shift(0, 0) == 0
  {
    AllZeros("000000000");
  }

  lemma {:induction false} AllZeros(s: string)
    requires forall i :: 0 <= i < |s| ==> s[i] == '0'
    ensures AllDigits(s) && Value(s) == 0
  {
    if s != "" {
      AllZeros(s[..|s| - 1]);
    }
  }

  lemma InputAccepted(index: nat, product: string)
    requires index < UINT64_MAX && |product| <= 20
    ensures Accepted(Input(index, product)) == Some(FixtureTrade(index, product))
  {
    hide Decimals.Parsed, Decimals.Formatted, Timestamps.Parsed;
    TimeParses();
    Decimals.RoundTrip(Price(index));
    Decimals.RoundTrip(Amount(index));
    IdentifierFits(index);
  }

  /** `text` is a spelling of this real number. */
  ghost predicate SpellsReal(text: string, x: real) {
    exists v: int :: Decimals.Denotes(text, v) && v as real == x * 100_000_000.0
  }

  /**
   * Record `index` in numbers: the price is 30000 and as many ten-thousandths as the index has beyond the ten
   * thousands, the size 0.001 and as many hundred-thousandths as it has beyond the hundreds, buys and sells
   * alternate, and the trade id and the sequence number count from one.
   */
  lemma GeneratedNumbers(index: nat, product: string)
    requires index < UINT64_MAX
    ensures var r := FrameLine(index, product).record;
            var p := r.payload.value.value;
            && r.kind == Present("frame") && r.connectionId == Present(1)
            && (index * 1_000 <= UINT64_MAX ==> r.receivedNs == Present(index * 1_000))
            && p.channel == Present("market_trades") && p.sequence == Present(index + 1)
            && Inputs(p.events.value) == [Some(Input(index, product))]
    ensures var t := Input(index, product);
            && SpellsReal(t.price.value, 30_000.0 + (index % 10_000) as real / 10_000.0)
            && SpellsReal(t.size.value, 0.001 + (index % 100) as real / 100_000.0)
            && t.side == Present(if index % 2 == 0 then "BUY" else "SELL")
            && t.time == Present("2026-01-01T00:00:00.000000000Z")
            && AllDigits(t.tradeId.value) && Value(t.tradeId.value) == index + 1 && t.productId == Present(product)
  {
    hide Decimals.Parsed, Decimals.Formatted, Decimals.Denotes, Value, Digits;
    Decimals.RoundTrip(Price(index));
    Decimals.ParsedExact(Decimals.Formatted(Price(index)));
    Decimals.RoundTrip(Amount(index));
    Decimals.ParsedExact(Decimals.Formatted(Amount(index)));
    PriceIs(index);
    DigitsCorrect(index + 1);
    OneInput(Input(index, product));
  }

  /** The metadata of a fixture, and as many frames as events behind it. */
  lemma GeneratedLines(count: nat, product: string)
    requires count <= UINT64_MAX
    ensures var lines := FixtureLines(count, product);
            && |lines| == count + 1
            && lines[0] == Json(Record(Present("metadata"), Present("bengal-market-capture"), Present(1),
                                       Present("deterministic-generator"), Present([Present(product)]), Missing,
                                       Missing, Missing))
            && forall i :: 0 <= i < count ==> lines[i + 1] == FrameLine(i, product)
  {
    hide FrameLine;
  }

  lemma PriceIs(index: nat)
    ensures Price(index) as real == (30_000.0 + (index % 10_000) as real / 10_000.0) * 100_000_000.0
    ensures Amount(index) as real == (0.001 + (index % 100) as real / 100_000.0) * 100_000_000.0
  {
  }

  lemma OneInput(input: TradeInput)
    ensures Inputs([Event(Present([input]))]) == [Some(input)]
  {
    var events := [Event(Present([input]))];
    assert events[..0] == [];
    assert Inputs([]) == [];
  }

  lemma IdentifierFits(index: nat)
    requires index < UINT64_MAX
    ensures |Digits(index + 1)| <= TRADE_ID_CAPACITY
  {
    assert Pow10(4) == 10_000;
    assert Pow10(8) == 100_000_000;
    assert Pow10(12) == 1_000_000_000_000;
    assert Pow10(16) == 10_000_000_000_000_000;
    assert Pow10(20) == 100_000_000_000_000_000_000;
    DigitsLength(index + 1, 20);
  }

  /** Replaying the fixture: as many frames as events, no error, gap or late frame, and exactly the generated trades. */
  lemma {:induction false} FixtureReplays(count: nat, product: string)
    requires count <= UINT64_MAX && 1 <= |product| <= 20
    ensures var t := ReadLines(FixtureLines(count, product));
            && t.metadataSeen && t.frames == count && t.parseErrors == 0
            && t.tracking == Tracking(if count == 0 then map[] else map[1 := count], 0, 0)
            && t.handed == FixtureTrades(count, product)
  {
    hide MetadataLine, FrameLine, Judge, FixtureTrade;
    if count == 0 {
      MetadataReplays(product);
    } else {
      var init, line := FixtureLines(count - 1, product), FrameLine(count - 1, product);
      FixtureReplays(count - 1, product);
      assert FixtureLines(count, product)[..|init|] == init;
      FrameReplays(ReadLines(init), count - 1, product);
      assert FixtureTrades(count, product) == FixtureTrades(count - 1, product) + [FixtureTrade(count - 1, product)];
    }
  }

  lemma MetadataReplays(product: string)
    requires 1 <= |product| <= 20
    ensures ReadLines([MetadataLine(product)]) == Tally(true, 0, 0, UNTRACKED, [])
  {
    assert [MetadataLine(product)][..0] == [];
    assert MetadataAccepted(EMPTY_TALLY, MetadataLine(product).record);
  }

  lemma FrameReplays(t: Tally, index: nat, product: string)
    requires index < UINT64_MAX && 1 <= |product| <= 20
    requires t.metadataSeen && t.tracking == Tracking(if index == 0 then map[] else map[1 := index], 0, 0)
    ensures Judge(t, FrameLine(index, product)).0 ==
            Tally(true, t.frames + 1, t.parseErrors, Tracking(map[1 := index + 1], 0, 0),
                  t.handed + [FixtureTrade(index, product)])
  {
    hide Accepted, Attempts, ValidPrefix, AllValid, Input, FixtureTrade;
    InputAccepted(index, product);
    OneAttempt(Input(index, product), FixtureTrade(index, product));
  }

  lemma OneAttempt(input: TradeInput, value: Trade)
    ensures var attempts := Attempts([Event(Present([input]))]);
            Accepted(input) == Some(value) ==>
              attempts == [Some(value)] && AllValid(attempts) && ValidPrefix(attempts) == [value]
  {
    hide Accepted;
    AttemptsSnoc([], Event(Present([input])));
    assert [] + [Event(Present([input]))] == [Event(Present([input]))];
    assert Attempts([Event(Present([input]))]) == [Accepted(input)];
  }
}
