/** Timestamps: the accepted profile of RFC 3339 and the exact nanoseconds it denotes. */
module Timestamps {
  import opened Words
  import opened Numerals
  import opened Calendar

  const FRACTION_DIGITS: nat := 9
  const NANOS_PER_SECOND: int := 1_000_000_000

  /**
   * The accepted grammar of RFC 3339 section 5.6: upper-case T and Z, no offset, no leap second,
   * years from 1970 and, after a dot, one to nine digits.
   */
  datatype Stamp = Stamp(date: Date, hour: int, minute: int, second: int, dotted: bool, fraction: string) {
    predicate Valid() {
      && 1970 <= date.year <= 9999 && date.Valid()
      && 0 <= hour <= 23 && 0 <= minute <= 59 && 0 <= second <= 59
      && AllDigits(fraction)
      && (if dotted then 1 <= |fraction| <= FRACTION_DIGITS else fraction == "")
    }

    function Text(): string
      requires Valid()
    {
      Padded(date.year, 4) + "-" + Padded(date.month, 2) + "-" + Padded(date.day, 2) + "T" +
      Padded(hour, 2) + ":" + Padded(minute, 2) + ":" + Padded(second, 2) + Tail()
    }

    function Tail(): string {
      (if dotted then "." + fraction else "") + "Z"
    }

    function Seconds(): int
      requires Valid()
    {
      DayCount(date) * 86_400 + hour * 3_600 + minute * 60 + second
    }

    function FractionNanos(): nat
      requires Valid()
    {
      Shift(Value(fraction), FRACTION_DIGITS - |fraction|)
    }

    /** Nanoseconds since 1970-01-01T00:00:00Z, with the days counted by the calendar. */
    function Nanos(): int
      requires Valid()
    {
      Seconds() * NANOS_PER_SECOND + FractionNanos()
    }

    /** The order of instants, field by field. */
    predicate Before(that: Stamp)
      requires Valid() && that.Valid()
    {
      || date.Before(that.date)
      || (date == that.date &&
          (|| hour < that.hour
           || (hour == that.hour && minute < that.minute)
           || (hour == that.hour && minute == that.minute && second < that.second)
           || (hour == that.hour && minute == that.minute && second == that.second &&
               FractionNanos() < that.FractionNanos())))
    }
  }

  ghost predicate Denotes(text: string, d: Stamp) {
    d.Valid() && d.Text() == text
  }

  /** The reference for `ParseTimestampNs`: the denoted instant when there is one and it fits in a word. */
  ghost function Parsed(text: string): Option<u64> {
    if exists d :: Denotes(text, d) && 0 <= d.Nanos() < TWO64
    then var d :| Denotes(text, d) && 0 <= d.Nanos() < TWO64; Some(d.Nanos())
    else None
  }

  // ----- the grammar is unambiguous

  /** A fixed-width run of digits inside a text. */
  function Component(text: string, offset: nat, length: nat): Option<nat> {
    if offset + length > |text| || !AllDigits(text[offset..offset + length]) then None
    else Some(Value(text[offset..offset + length]))
  }

  predicate Separated(text: string) {
    && |text| >= 20
    && text[4] == '-' && text[7] == '-' && text[10] == 'T' && text[13] == ':' && text[16] == ':'
  }

  predicate AllComponents(text: string) {
    && Component(text, 0, 4).Some? && Component(text, 5, 2).Some? && Component(text, 8, 2).Some?
    && Component(text, 11, 2).Some? && Component(text, 14, 2).Some? && Component(text, 17, 2).Some?
  }

  function FractionPart(text: string): string
    requires |text| >= 20
  {
    if text[19] == '.' && |text| > 20 then text[20..|text| - 1] else ""
  }

  /** The only reading of a text the grammar allows, whether or not its fields are in range. */
  function Split(text: string): Stamp
    requires Separated(text) && AllComponents(text)
  {
    Stamp(Date(Component(text, 0, 4).value, Component(text, 5, 2).value, Component(text, 8, 2).value),
          Component(text, 11, 2).value, Component(text, 14, 2).value, Component(text, 17, 2).value,
          text[19] == '.', FractionPart(text))
  }

  predicate Ended(text: string) {
    && |text| >= 20
    && text[|text| - 1] == 'Z'
    && (text[19] == '.' || |text| == 20)
  }

  predicate Recognized(text: string) {
    Separated(text) && AllComponents(text) && Ended(text) && Split(text).Valid()
  }

  lemma PaddedComponent(text: string, offset: nat, length: nat, n: nat)
    requires offset + length <= |text|
    requires n < Pow10(length)
    ensures Component(text, offset, length) == Some(n) <==> text[offset..offset + length] == Padded(n, length)
  {
    PaddedCorrect(n, length);
    if Component(text, offset, length).Some? {
      PaddedUnique(text[offset..offset + length]);
    }
  }

  lemma FieldWidths()
    ensures Pow10(2) == 100 && Pow10(4) == 10_000
  {
    assert Pow10(3) == 1_000;
  }

  lemma ComponentBound(text: string, offset: nat, length: nat)
    requires Component(text, offset, length).Some?
    ensures Component(text, offset, length).value < Pow10(length)
  {
    ValueBound(text[offset..offset + length]);
  }

  /** The fixed part of the layout, position by position. */
  ghost predicate Laid(text: string, d: Stamp)
    requires d.Valid()
  {
    && |text| >= 20 && Separated(text)
    && text[0..4] == Padded(d.date.year, 4) && text[5..7] == Padded(d.date.month, 2)
    && text[8..10] == Padded(d.date.day, 2) && text[11..13] == Padded(d.hour, 2)
    && text[14..16] == Padded(d.minute, 2) && text[17..19] == Padded(d.second, 2)
    && text[19..] == d.Tail()
  }

  lemma PaddedLengths(d: Stamp)
    requires d.Valid()
    ensures |Padded(d.date.year, 4)| == 4 && |Padded(d.date.month, 2)| == 2 && |Padded(d.date.day, 2)| == 2
    ensures |Padded(d.hour, 2)| == 2 && |Padded(d.minute, 2)| == 2 && |Padded(d.second, 2)| == 2
  {
    PaddedCorrect(d.date.year, 4);
    PaddedCorrect(d.date.month, 2);
    PaddedCorrect(d.date.day, 2);
    PaddedCorrect(d.hour, 2);
    PaddedCorrect(d.minute, 2);
    PaddedCorrect(d.second, 2);
  }

  lemma TextIsLaid(text: string, d: Stamp)
    requires d.Valid()
    ensures text == d.Text() <==> Laid(text, d)
  {
    PaddedLengths(d);
    var y, mo, da := Padded(d.date.year, 4), Padded(d.date.month, 2), Padded(d.date.day, 2);
    var h, mi, s := Padded(d.hour, 2), Padded(d.minute, 2), Padded(d.second, 2);
    Assembled(text, y, mo, da, h, mi, s, d.Tail());
  }

  lemma Assembled(text: string, y: string, mo: string, da: string, h: string, mi: string, s: string, tail: string)
    requires |y| == 4 && |mo| == |da| == |h| == |mi| == |s| == 2 && |tail| >= 1
    ensures text == y + "-" + mo + "-" + da + "T" + h + ":" + mi + ":" + s + tail <==>
            Separated(text) && text[0..4] == y && text[5..7] == mo && text[8..10] == da && text[11..13] == h &&
            text[14..16] == mi && text[17..19] == s && text[19..] == tail
  {
    if Separated(text) {
      assert text == text[0..4] + [text[4]] + text[5..7] + [text[7]] + text[8..10] + [text[10]] + text[11..13] +
                     [text[13]] + text[14..16] + [text[16]] + text[17..19] + text[19..];
    }
  }

  /** A text spells a stamp iff it is recognised, and then the stamp is its split. */
  lemma DenotesSplit(text: string, d: Stamp)
    ensures Denotes(text, d) <==> Recognized(text) && Split(text) == d
  {
    hide Padded, Value;
    if d.Valid() && |text| >= 20 && Separated(text) {
      TextIsLaid(text, d);
      FieldWidths();
      PaddedComponent(text, 0, 4, d.date.year);
      PaddedComponent(text, 5, 2, d.date.month);
      PaddedComponent(text, 8, 2, d.date.day);
      PaddedComponent(text, 11, 2, d.hour);
      PaddedComponent(text, 14, 2, d.minute);
      PaddedComponent(text, 17, 2, d.second);
      TailSplit(text, d);
    } else if d.Valid() {
      TextIsLaid(text, d);
    }
  }

  lemma TailSplit(text: string, d: Stamp)
    requires d.Valid() && |text| >= 20
    ensures text[19..] == d.Tail() <==>
            Ended(text) && d.dotted == (text[19] == '.') &&
            d.fraction == FractionPart(text)
  {
    var tail := text[19..];
    if tail == d.Tail() {
      assert tail[|tail| - 1] == 'Z';
      if d.dotted {
        assert tail == ['.'] + d.fraction + ['Z'];
        assert tail[1..|tail| - 1] == d.fraction;
        assert text[20..|text| - 1] == tail[1..|tail| - 1];
      }
    } else if Ended(text) && text[19] == '.' && |text| > 20 {
      assert tail == ['.'] + text[20..|text| - 1] + ['Z'];
    }
  }

  function Resolved(text: string): Option<u64> {
    if Recognized(text) && 0 <= Split(text).Nanos() < TWO64 then Some(Split(text).Nanos()) else None
  }

  lemma ParsedSplit(text: string)
    ensures Parsed(text) == Resolved(text)
  {
    forall d | Denotes(text, d)
      ensures Recognized(text) && Split(text) == d
    {
      DenotesSplit(text, d);
    }
    if Recognized(text) {
      DenotesSplit(text, Split(text));
    }
  }

  // ----- reading

  // Every caller asks for two or four digits; up to nine digits fit in a 32-bit word.
  method ParseComponent(value: string, offset: nat, length: nat) returns (r: Option<nat>)
    requires length <= 9
    ensures r == Component(value, offset, length)
  {
    if offset + length > |value| {
      return None;
    }
    var result := 0;
    for index := offset to offset + length
      invariant AllDigits(value[offset..index])
      invariant result == Value(value[offset..index])
    {
      var character := value[index];
      if character < '0' || character > '9' {
        ghost var field := value[offset..offset + length];
        assert !IsDigit(field[index - offset]);
        assert !AllDigits(field);
        return None;
      }
      assert value[offset..index + 1] == value[offset..index] + [character];
      ValueAppend(value[offset..index], character);
      result := result * 10 + DigitOf(character);
    }
    return Some(result);
  }

  predicate FractionAccepted(text: string) {
    && Ended(text)
    && AllDigits(FractionPart(text))
    && (text[19] == '.' ==> 1 <= |FractionPart(text)| <= FRACTION_DIGITS)
  }

  /** Where the scan of a fraction stops, unless it stops at a closing Z, no accepted fraction goes on. */
  lemma ScanStops(text: string, cursor: nat)
    requires 20 <= cursor <= |text| && text[19] == '.' && AllDigits(text[20..cursor])
    requires cursor == |text| || !IsDigit(text[cursor]) || (cursor - 20 == 9 && text[cursor] != 'Z')
    requires !(20 < cursor < |text| && cursor + 1 == |text| && text[cursor] == 'Z')
    ensures !FractionAccepted(text)
  {
  }

  lemma WordPower(k: nat)
    requires k < FRACTION_DIGITS
    ensures Pow10(k + 1) <= NANOS_PER_SECOND
  {
    ShiftNine();
    ShiftShift(1, k + 1, FRACTION_DIGITS - 1 - k);
    ShiftGrows(Pow10(k + 1), FRACTION_DIGITS - 1 - k);
  }

  lemma ShiftNine()
    ensures Pow10(FRACTION_DIGITS) == NANOS_PER_SECOND
  {
    assert Pow10(3) == 1_000;
    assert Pow10(6) == 1_000_000;
  }

  /** The digits after the dot, up to the closing Z. */
  method ScanFraction(value: string) returns (ok: bool, significand: u64, fractionDigits: nat)
    requires |value| >= 20
    ensures ok <==> FractionAccepted(value)
    ensures ok ==> significand == Value(FractionPart(value)) && fractionDigits == |FractionPart(value)|
    ensures ok ==> fractionDigits <= 9 && significand < Pow10(fractionDigits)
  {
    hide Value;
    ValueEmpty();
    significand := 0;
    fractionDigits := 0;
    var cursor := 19;
    if value[cursor] == '.' {
      cursor := cursor + 1;
      while cursor < |value| && value[cursor] != 'Z'
        invariant 20 <= cursor <= |value|
        invariant fractionDigits == cursor - 20 <= 9
        invariant AllDigits(value[20..cursor])
        invariant significand == Value(value[20..cursor])
        invariant significand < Pow10(fractionDigits)
      {
        if fractionDigits == 9 || value[cursor] < '0' || value[cursor] > '9' {
          ScanStops(value, cursor);
          return false, 0, 0;
        }
        ValueAppend(value[20..cursor], value[cursor]);
        assert value[20..cursor + 1] == value[20..cursor] + [value[cursor]];
        WordPower(fractionDigits);
        significand := significand * 10 + DigitOf(value[cursor]);
        fractionDigits := fractionDigits + 1;
        cursor := cursor + 1;
      }
      if fractionDigits == 0 {
        ScanStops(value, cursor);
        return false, 0, 0;
      }
    }
    if cursor + 1 != |value| || value[cursor] != 'Z' {
      if value[19] == '.' {
        ScanStops(value, cursor);
      }
      return false, 0, 0;
    }
    assert value[19] == '.' ==> value[20..cursor] == FractionPart(value);
    ok := true;
  }

  /** The scan followed by the loop that scales its digits to nanoseconds. */
  method ParseFraction(value: string) returns (ok: bool, fraction: u64)
    requires |value| >= 20
    ensures ok <==> FractionAccepted(value)
    ensures ok ==> fraction == Shift(Value(FractionPart(value)), FRACTION_DIGITS - |FractionPart(value)|)
    ensures ok ==> fraction < NANOS_PER_SECOND
  {
    var significand, digits;
    ok, significand, digits := ScanFraction(value);
    fraction := significand;
    if ok {
      var fractionDigits := digits;
      while fractionDigits < 9
        invariant digits <= fractionDigits <= 9
        invariant fraction == Shift(significand, fractionDigits - digits)
        invariant fraction < Pow10(fractionDigits)
      {
        WordPower(fractionDigits);
        fraction := fraction * 10;
        fractionDigits := fractionDigits + 1;
      }
      ShiftNine();
    }
  }

  datatype CivilTime = CivilTime(date: Date, hour: nat, minute: nat, second: nat)

  function Civil(text: string): CivilTime
    requires Separated(text) && AllComponents(text)
  {
    var d := Split(text);
    CivilTime(d.date, d.hour, d.minute, d.second)
  }

  predicate CivilAccepted(text: string) {
    && Separated(text) && AllComponents(text)
    && var c := Civil(text);
    && 1970 <= c.date.year && c.date.Valid() && c.hour <= 23 && c.minute <= 59 && c.second <= 59
  }

  function ExactNanos(c: CivilTime, fraction: nat): int
    requires c.date.Valid()
  {
    (DaysFromCivil(c.date) * 86_400 + c.hour * 3_600 + c.minute * 60 + c.second) * NANOS_PER_SECOND + fraction
  }

  function InWord(exact: int): Option<u64> {
    if 0 <= exact < TWO64 then Some(exact) else None
  }

  lemma RecognizedParts(text: string)
    ensures Recognized(text) <==> CivilAccepted(text) && FractionAccepted(text)
    ensures CivilAccepted(text) ==> Civil(text).date.year <= 9999
    ensures Recognized(text) ==>
              Split(text).Nanos() ==
              ExactNanos(Civil(text), Shift(Value(FractionPart(text)), FRACTION_DIGITS - |FractionPart(text)|))
    ensures Resolved(text) == if Recognized(text) then InWord(Split(text).Nanos()) else None
  {
    if CivilAccepted(text) {
      ComponentBound(text, 0, 4);
      FieldWidths();
      SinceEpoch(Civil(text).date);
    }
  }

  /** The six fixed-width fields and their range checks. */
  method ParseCivil(value: string) returns (r: Option<CivilTime>)
    ensures r.Some? <==> CivilAccepted(value)
    ensures r.Some? ==> r.value == Civil(value)
  {
    if |value| < 20 || value[4] != '-' || value[7] != '-' || value[10] != 'T' || value[13] != ':' || value[16] != ':' {
      return None;
    }
    var year := ParseComponent(value, 0, 4);
    var month := ParseComponent(value, 5, 2);
    var day := ParseComponent(value, 8, 2);
    var hour := ParseComponent(value, 11, 2);
    var minute := ParseComponent(value, 14, 2);
    var second := ParseComponent(value, 17, 2);
    if year.None? || month.None? || day.None? || hour.None? || minute.None? || second.None?
       || year.value < 1970 || month.value < 1 || month.value > 12
       || day.value < 1 || day.value > DaysInMonth(year.value, month.value)
       || hour.value > 23 || minute.value > 59 || second.value > 59
    {
      return None;
    }
    return Some(CivilTime(Date(year.value, month.value, day.value), hour.value, minute.value, second.value));
  }

  method ParseTimestampNs(value: string) returns (r: Option<u64>)
    ensures r == Parsed(value)
  {
    ParsedSplit(value);
    RecognizedParts(value);
    var civil := ParseCivil(value);
    if civil.None? {
      return None;
    }
    var accepted, fraction := ParseFraction(value);
    if !accepted {
      return None;
    }
    r := Assemble(civil.value, fraction);
  }

  /** The end of `ParseTimestampNs`: no intermediate word wraps and the divided check is the exact range test. */
  method Assemble(c: CivilTime, fraction: u64) returns (r: Option<u64>)
    requires c.date.Valid() && c.date.year <= 9999
    requires c.hour <= 23 && c.minute <= 59 && c.second <= 59 && fraction < NANOS_PER_SECOND
    ensures r == InWord(ExactNanos(c, fraction))
  {
    var days := DaysFromCivil(c.date);
    OrderIsLexicographic(c.date, Date(9999, 12, 31));
    assert days <= 3_000_000;
    if days < 0 {
      return None;
    }
    var seconds: u64 := days * 86_400 + c.hour * 3_600 + c.minute * 60 + c.second;
    if seconds > (UINT64_MAX - fraction) / NANOS_PER_SECOND {
      return None;
    }
    return Some(seconds * NANOS_PER_SECOND + fraction);
  }

  /** No date the parser accepts is before the epoch, and its seconds are far from wrapping. */
  lemma SinceEpoch(date: Date)
    requires date.Valid() && 1970 <= date.year <= 9999
    ensures 0 <= DaysFromCivil(date) == DayCount(date) <= 3_000_000
  {
    DaysFromCivilCounts(date);
    EpochIsDayZero();
    OrderIsLexicographic(date, EPOCH);
    OrderIsLexicographic(date, Date(9999, 12, 31));
  }

  // ----- the order of instants

  /** Nanoseconds order accepted stamps exactly as their fields do. */
  lemma NanosAreMonotone(a: Stamp, b: Stamp)
    requires a.Valid() && b.Valid()
    ensures a.Nanos() < b.Nanos() <==> a.Before(b)
  {
    SinceEpoch(a.date);
    SinceEpoch(b.date);
    OrderIsLexicographic(a.date, b.date);
    FractionBelowSecond(a);
    FractionBelowSecond(b);
  }

  lemma FractionBelowSecond(a: Stamp)
    requires a.Valid()
    ensures a.FractionNanos() < NANOS_PER_SECOND
  {
    var k := |a.fraction|;
    ValueBound(a.fraction);
    ShiftBelow(Value(a.fraction), Pow10(k), FRACTION_DIGITS - k);
    ShiftShift(1, k, FRACTION_DIGITS - k);
    ShiftNine();
  }

  /** The parser accepts exactly the spellings of instants that fit, and returns their nanoseconds. */
  lemma ParsedExact(text: string, t: u64)
    ensures Parsed(text) == Some(t) <==> exists d :: Denotes(text, d) && d.Nanos() == t
  {
    ParsedSplit(text);
    if d :| Denotes(text, d) && d.Nanos() == t {
      DenotesSplit(text, d);
    }
    if Parsed(text) == Some(t) {
      DenotesSplit(text, Split(text));
    }
  }

  /** So the words returned for two accepted texts are in the order of the instants they spell. */
  lemma ParsedMonotone(a: string, b: string, d: Stamp, e: Stamp)
    ensures Denotes(a, d) && Denotes(b, e) && Parsed(a).Some? && Parsed(b).Some? ==>
              (Parsed(a).value < Parsed(b).value <==> d.Before(e))
  {
    hide Parsed, Stamp.Before, Stamp.Nanos, Stamp.Text, Stamp.Valid;
    if Denotes(a, d) && Denotes(b, e) {
      SpelledOnce(a, d);
      SpelledOnce(b, e);
      NanosAreMonotone(d, e);
    }
  }

  lemma SpelledOnce(text: string, d: Stamp)
    ensures Denotes(text, d) && Parsed(text).Some? ==> Parsed(text).value == d.Nanos()
  {
    ParsedSplit(text);
    DenotesSplit(text, d);
    hide Parsed, Recognized, Split, Stamp.Nanos;
  }

  // ----- the instants there are

  const LAST_DAY := Date(9999, 12, 31)

  lemma LastDay()
    ensures DaysFromCivil(LAST_DAY) == 2_932_896
  {
  }

  /** The date of a day that a word of nanoseconds can reach is in the accepted years. */
  lemma DateOfDay(day: nat) returns (date: Date)
    requires day <= 213_504
    ensures date.Valid() && 1970 <= date.year <= 9999 && DayCount(date) == day
  {
    date := EveryDayHasADate(day);
    DaysFromCivilCounts(date);
    EpochIsDayZero();
    LastDay();
    hide DaysFromCivil, DayCount;
    OrderIsLexicographic(date, EPOCH);
    OrderIsLexicographic(LAST_DAY, date);
  }

  lemma NineDigits(n: nat)
    requires n < NANOS_PER_SECOND
    ensures var s := Padded(n, 9); |s| == 9 && AllDigits(s) && Value(s) == n
  {
    ShiftNine();
    PaddedCorrect(n, 9);
  }

  /**
   * Every word is the nanoseconds of a valid stamp. With the order of stamps this leaves no choice: the n-th instant
   * after the first, in the order of the fields, has the number n.
   */
  lemma EveryInstantHasAStamp(n: u64) returns (d: Stamp)
    ensures d.Valid() && d.Nanos() == n
  {
    hide DayCount, Value, Padded, Shift;
    var seconds, nanos := n / NANOS_PER_SECOND, n % NANOS_PER_SECOND;
    var day, rest := seconds / 86_400, seconds % 86_400;
    var date := DateOfDay(day);
    NineDigits(nanos);
    NothingShifted(nanos);
    d := Stamp(date, rest / 3_600, rest % 3_600 / 60, rest % 60, true, Padded(nanos, 9));
    ClockSplit(rest);
  }

  lemma NothingShifted(n: nat)
    ensures Shift(n, 0) == n
  {
  }

  lemma ClockSplit(rest: nat)
    requires rest < 86_400
    ensures rest / 3_600 <= 23 && rest % 3_600 / 60 <= 59
    ensures rest / 3_600 * 3_600 + rest % 3_600 / 60 * 60 + rest % 60 == rest
  {
  }

  // ----- one of them

  const SOME_STAMP := Stamp(Date(2026, 7, 5), 12, 34, 56, true, "5")
  const SOME_TEXT := "2026-07-05T12:34:56.5Z"

  lemma SomeDateFields()
    ensures Padded(2026, 4) == "2026" && Padded(7, 2) == "07" && Padded(5, 2) == "05"
  {
  }

  lemma SomeTimeFields()
    ensures Padded(12, 2) == "12" && Padded(34, 2) == "34" && Padded(56, 2) == "56"
  {
  }

  lemma SomeLayout()
    ensures "2026" + "-" + "07" + "-" + "05" + "T" + "12" + ":" + "34" + ":" + "56" + ".5Z" == SOME_TEXT
  {
    assert "2026" + "-" + "07" == "2026-07";
    assert "2026-07" + "-" + "05" == "2026-07-05";
    assert "2026-07-05" + "T" + "12" == "2026-07-05T12";
    assert "2026-07-05T12" + ":" + "34" == "2026-07-05T12:34";
    assert "2026-07-05T12:34" + ":" + "56" == "2026-07-05T12:34:56";
  }

  lemma SomeText()
    ensures SOME_STAMP.Valid() && SOME_STAMP.Text() == SOME_TEXT
  {
    hide Padded;
    SomeDateFields();
    SomeTimeFields();
    SomeLayout();
    assert "." + "5" + "Z" == ".5Z";
  }

  lemma SomeDay()
    ensures DaysFromCivil(SOME_STAMP.date) == 20_639
  {
  }

  lemma SomeNanos()
    requires SOME_STAMP.Valid()
    ensures SOME_STAMP.Nanos() == 1_783_254_896_500_000_000
  {
    DaysFromCivilCounts(SOME_STAMP.date);
    SomeDay();
    ValueEmpty();
    ValueAppend("", '5');
    assert "" + ['5'] == "5";
    assert Shift(5, 8) == 500_000_000;
    hide DayCount, DaysFromCivil, Value, Shift;
  }

  /** Half a second past 12:34:56 on 5 July 2026, year, month, day, hour, minute and second in this order. */
  lemma SomeInstant()
    ensures Parsed(SOME_TEXT) == Some(1_783_254_896_500_000_000)
  {
    SomeText();
    SomeNanos();
    hide *;
    assert Denotes(SOME_TEXT, SOME_STAMP);
    ParsedExact(SOME_TEXT, 1_783_254_896_500_000_000);
  }
}
