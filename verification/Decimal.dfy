/** Fixed-point decimals at scale 1e8: reading with exact range checks and canonical printing. */
module Decimals {
  import opened Words
  import opened Numerals

  const DECIMAL_SCALE: int := 100_000_000
  const FRACTION_DIGITS: nat := 8

  /**
   * The grammar, independent of how it is scanned: an optional sign, one or more digits and,
   * after an optional dot, at most eight more.
   */
  datatype Decimal = Decimal(sign: string, whole: string, dotted: bool, fraction: string) {
    predicate Valid() {
      && (sign == "" || sign == "+" || sign == "-")
      && whole != "" && AllDigits(whole)
      && AllDigits(fraction) && |fraction| <= FRACTION_DIGITS
      && (dotted || fraction == "")
    }

    function Text(): string {
      sign + whole + (if dotted then "." + fraction else "")
    }

    /** All the digits read as one integer, moved to eight decimal places. */
    function Magnitude(): nat
      requires Valid()
    {
      Shift(Value(whole + fraction), FRACTION_DIGITS - |fraction|)
    }

    /** The denoted number times 1e8, exactly. */
    function Scaled(): int
      requires Valid()
    {
      var magnitude: int := Magnitude();
      if sign == "-" then -magnitude else magnitude
    }

    /** The shortest spelling: no plus sign, no negative zero, no redundant zero on either side. */
    predicate Canonical() {
      && Valid()
      && sign != "+"
      && (sign == "-" ==> Magnitude() != 0)
      && (whole[0] == '0' ==> |whole| == 1)
      && dotted == (fraction != "")
      && (dotted ==> fraction[|fraction| - 1] != '0')
    }
  }

  /** `text` is a spelling of the number v / 1e8. */
  ghost predicate Denotes(text: string, v: int) {
    exists d: Decimal :: d.Text() == text && d.Valid() && d.Scaled() == v
  }

  predicate InInt64(v: int) {
    INT64_MIN <= v <= INT64_MAX
  }

  /** The reference for `ParseDecimal`: the denoted number, when there is one and it fits. */
  ghost function Parsed(text: string): Option<i64> {
    if exists v :: Denotes(text, v) && InInt64(v)
    then var v :| Denotes(text, v) && InInt64(v); Some(v)
    else None
  }

  // ----- the number as a real

  /** What digits after a dot are worth: each a tenth of the one before it. */
  function Fractional(digits: string): real
    requires AllDigits(digits)
  {
    if digits == "" then 0.0 else (DigitOf(digits[0]) as real + Fractional(digits[1..])) / 10.0
  }

  /** What digits before it are worth: each ten times the one after it. */
  function Integral(digits: string): real
    requires AllDigits(digits)
  {
    if digits == "" then 0.0 else Integral(digits[..|digits| - 1]) * 10.0 + DigitOf(digits[|digits| - 1]) as real
  }

  function Power10(k: nat): real {
    if k == 0 then 1.0 else 10.0 * Power10(k - 1)
  }

  lemma {:induction false} ValueIsIntegral(digits: string)
    requires AllDigits(digits)
    ensures Value(digits) as real == Integral(digits)
  {
    if digits != "" {
      ValueIsIntegral(digits[..|digits| - 1]);
    }
  }

  lemma {:induction false} ShiftIsReal(n: nat, k: nat)
    ensures Shift(n, k) as real == n as real * Power10(k)
  {
    if k > 0 {
      ShiftIsReal(n, k - 1);
    }
  }

  lemma {:induction false} FractionalSnoc(digits: string, c: char)
    requires AllDigits(digits) && IsDigit(c)
    ensures AllDigits(digits + [c])
    ensures Fractional(digits + [c]) * Power10(|digits| + 1) ==
            Fractional(digits) * Power10(|digits| + 1) + DigitOf(c) as real
  {
    hide Fractional, Power10, IsDigit, DigitOf;
    if digits == "" {
      assert digits + [c] == [c];
      FractionalOne(c);
    } else {
      var all := digits + [c];
      assert all[1..] == digits[1..] + [c] && all[0] == digits[0];
      FractionalSnoc(digits[1..], c);
      FractionalStep(digits);
      FractionalStep(all);
      PowerStep(|digits|);
      Tenfold(DigitOf(digits[0]) as real, Fractional(all[1..]), Fractional(digits[1..]), Power10(|digits|),
              DigitOf(c) as real);
    }
  }

  lemma FractionalOne(c: char)
    requires IsDigit(c)
    ensures AllDigits([c]) && Fractional([c]) * Power10(1) == Fractional("") * Power10(1) + DigitOf(c) as real
  {
    assert Power10(1) == 10.0 * Power10(0);
    assert Fractional([c]) == (DigitOf(c) as real + Fractional("")) / 10.0 by {
      assert [c][1..] == "";
    }
  }

  lemma FractionalStep(digits: string)
    requires digits != "" && AllDigits(digits)
    ensures Fractional(digits) == (DigitOf(digits[0]) as real + Fractional(digits[1..])) / 10.0
  {
  }

  lemma Tenfold(d: real, f: real, g: real, p: real, c: real)
    requires f * p == g * p + c
    ensures (d + f) / 10.0 * (10.0 * p) == (d + g) / 10.0 * (10.0 * p) + c
  {
  }

  /** Joining the digits before and after the dot is adding their worth, scaled by the number of the latter. */
  lemma {:induction false} JoinedDigits(whole: string, fraction: string)
    requires AllDigits(whole) && AllDigits(fraction)
    ensures Value(whole + fraction) as real == (Integral(whole) + Fractional(fraction)) * Power10(|fraction|)
  {
    hide Value, Integral, Fractional, Power10;
    if fraction == "" {
      assert whole + fraction == whole;
      JoinedNothing(whole);
    } else {
      var init, c := fraction[..|fraction| - 1], fraction[|fraction| - 1];
      JoinedDigits(whole, init);
      PowerStep(|init|);
      assert fraction == init + [c];
      assert whole + fraction == whole + init + [c];
      ValueAppend(whole + init, c);
      FractionalSnoc(init, c);
      JoinedStep(Value(whole + init) as real, Integral(whole), Fractional(init), Fractional(fraction), Power10(|init|),
                 DigitOf(c) as real);
    }
  }

  lemma JoinedNothing(whole: string)
    requires AllDigits(whole)
    ensures Value(whole) as real == (Integral(whole) + Fractional("")) * Power10(0)
  {
    ValueIsIntegral(whole);
  }

  lemma PowerStep(k: nat)
    ensures Power10(k + 1) == 10.0 * Power10(k)
  {
  }

  lemma JoinedStep(v: real, w: real, f: real, g: real, p: real, c: real)
    requires v == (w + f) * p && g * (10.0 * p) == f * (10.0 * p) + c
    ensures v * 10.0 + c == (w + g) * (10.0 * p)
  {
    assert (w + g) * (10.0 * p) == w * (10.0 * p) + g * (10.0 * p);
    assert w * (10.0 * p) + f * (10.0 * p) == (w + f) * p * 10.0;
  }

  lemma {:induction false} PowerSum(j: nat, k: nat)
    ensures Power10(j) * Power10(k) == Power10(j + k)
  {
    if j > 0 {
      PowerSum(j - 1, k);
    }
  }

  /**
   * What the grammar's numbers are, as real numbers: the signed sum of digits each worth ten times the next, multiplied
   * by a hundred million.
   */
  lemma ScaledIsReal(d: Decimal)
    requires d.Valid()
    ensures d.Scaled() as real ==
            (if d.sign == "-" then -1.0 else 1.0) * (Integral(d.whole) + Fractional(d.fraction)) * 100_000_000.0
  {
    hide Integral, Fractional, Power10, Value, Shift;
    var k := FRACTION_DIGITS - |d.fraction|;
    JoinedDigits(d.whole, d.fraction);
    ShiftIsReal(Value(d.whole + d.fraction), k);
    PowerSum(|d.fraction|, k);
    EightZeros();
    Product(d.Magnitude() as real, Value(d.whole + d.fraction) as real, Integral(d.whole) + Fractional(d.fraction),
            Power10(|d.fraction|), Power10(k));
  }

  lemma Product(m: real, v: real, w: real, p: real, q: real)
    requires m == v * q && v == w * p && p * q == 100_000_000.0
    ensures m == w * 100_000_000.0
    ensures -m == -1.0 * w * 100_000_000.0 && m == 1.0 * w * 100_000_000.0
  {
    assert w * p * q == w * (p * q);
  }

  lemma EightZeros()
    ensures Power10(8) == 100_000_000.0
  {
    assert Power10(4) == 10_000.0;
  }

  // ----- the grammar is unambiguous

  function SignLength(text: string): nat {
    if text != "" && (text[0] == '-' || text[0] == '+') then 1 else 0
  }

  /** The position of the first dot, or the length when there is none. */
  function FirstDot(text: string): (i: nat)
    ensures i <= |text|
    ensures forall k :: 0 <= k < i ==> text[k] != '.'
    ensures i < |text| ==> text[i] == '.'
  {
    DotFrom(text, 0)
  }

  function DotFrom(text: string, from: nat): (i: nat)
    requires from <= |text|
    ensures from <= i <= |text|
    ensures forall k :: from <= k < i ==> text[k] != '.'
    ensures i < |text| ==> text[i] == '.'
    decreases |text| - from
  {
    if from == |text| || text[from] == '.' then from else DotFrom(text, from + 1)
  }

  function Split(text: string): Decimal {
    var body := text[SignLength(text)..];
    var dot := FirstDot(body);
    Decimal(text[..SignLength(text)], body[..dot], dot < |body|, if dot < |body| then body[dot + 1..] else "")
  }

  lemma FirstDotIs(text: string, i: nat)
    requires i <= |text|
    requires forall k :: 0 <= k < i ==> text[k] != '.'
    requires i < |text| ==> text[i] == '.'
    ensures FirstDot(text) == i
  {
  }

  lemma SplitText(text: string)
    ensures Split(text).Text() == text
  {
    var n := SignLength(text);
    var body := text[n..];
    SplitBody(body);
    hide FirstDot, SignLength;
    assert text == text[..n] + body;
    Reassociate(text[..n], Split(text).whole, Tail(Split(text)));
  }

  lemma Reassociate(a: string, b: string, c: string)
    ensures a + (b + c) == a + b + c
  {
  }

  function Tail(d: Decimal): string {
    if d.dotted then "." + d.fraction else ""
  }

  lemma SplitBody(body: string)
    ensures var dot := FirstDot(body);
            body == body[..dot] + (if dot < |body| then "." + body[dot + 1..] else "")
  {
    var dot := FirstDot(body);
    if dot < |body| {
      assert body[dot..] == "." + body[dot + 1..];
    }
  }

  lemma SplitValid(d: Decimal)
    requires d.Valid()
    ensures Split(d.Text()) == d
  {
    hide FirstDot, DotFrom;
    var text, tail := d.Text(), if d.dotted then "." + d.fraction else "";
    var rest := d.whole + tail;
    assert text == d.sign + rest;
    assert IsDigit(d.whole[0]) && rest[0] == d.whole[0];
    assert SignLength(text) == |d.sign| by {
      assert text[0] == if d.sign == "" then rest[0] else d.sign[0];
    }
    assert text[..|d.sign|] == d.sign && text[|d.sign|..] == rest;
    FirstDotIs(rest, |d.whole|);
    assert rest[..|d.whole|] == d.whole && rest[|d.whole|..] == tail;
    if d.dotted {
      assert rest[|d.whole| + 1..] == tail[1..] == d.fraction;
    }
  }

  /** Each text spells at most one number. */
  lemma DenotesUnique(text: string, v: int, w: int)
    requires Denotes(text, v) && Denotes(text, w)
    ensures v == w
  {
    DenotesSplit(text, v);
    DenotesSplit(text, w);
  }

  lemma DenotesSplit(text: string, v: int)
    ensures Denotes(text, v) <==> Split(text).Valid() && Split(text).Scaled() == v
  {
    SplitText(text);
    if Denotes(text, v) {
      var d: Decimal :| d.Text() == text && d.Valid() && d.Scaled() == v;
      SplitValid(d);
    }
  }

  /** `Parsed` is exactly the in-range part of the relation `Denotes`. */
  lemma ParsedExact(text: string)
    ensures forall v :: Parsed(text) == Some(v) <==> Denotes(text, v) && InInt64(v)
  {
    forall v, w | Denotes(text, v) && Denotes(text, w)
      ensures v == w
    {
      DenotesUnique(text, v, w);
    }
  }

  function Resolved(d: Decimal): Option<i64> {
    if d.Valid() && InInt64(d.Scaled()) then Some(d.Scaled()) else None
  }

  lemma ParsedSplit(text: string)
    ensures Parsed(text) == Resolved(Split(text))
  {
    ParsedExact(text);
    if Split(text).Valid() {
      DenotesSplit(text, Split(text).Scaled());
    }
    forall v | Denotes(text, v)
      ensures Split(text).Valid() && Split(text).Scaled() == v
    {
      DenotesSplit(text, v);
    }
  }

  // ----- reading

  datatype CharsResult = Converted(ptr: nat, value: u64) | InvalidArgument | OutOfRange(ptr: nat)

  function DigitsFrom(text: string, from: nat): (n: nat)
    requires from <= |text|
    ensures from <= n <= |text|
    ensures forall k :: from <= k < n ==> IsDigit(text[k])
    ensures n < |text| ==> !IsDigit(text[n])
    decreases |text| - from
  {
    if from == |text| || !IsDigit(text[from]) then from else DigitsFrom(text, from + 1)
  }

  /** The standard library conversion of the longest run of leading digits to an unsigned word. */
  function FromChars(text: string): CharsResult {
    var n := DigitsFrom(text, 0);
    if n == 0 then InvalidArgument
    else if Value(text[..n]) > UINT64_MAX then OutOfRange(n)
    else Converted(n, Value(text[..n]))
  }

  lemma FromCharsWhole(text: string)
    ensures match FromChars(text)
            case Converted(ptr, value) => ptr == |text| <==> AllDigits(text) && text != ""
            case InvalidArgument => !(AllDigits(text) && text != "")
            case OutOfRange(ptr) => AllDigits(text) ==> ptr == |text| && Value(text) > UINT64_MAX
    ensures match FromChars(text)
            case Converted(ptr, value) => ptr == |text| ==> AllDigits(text) && value == Value(text)
            case _ => true
  {
    var n := DigitsFrom(text, 0);
    if n == |text| {
      assert text[..n] == text;
    }
  }

  /** A fraction part in units of 1e-8. */
  function Scaled8(fraction: string): nat
    requires AllDigits(fraction) && |fraction| <= FRACTION_DIGITS
  {
    Shift(Value(fraction), FRACTION_DIGITS - |fraction|)
  }

  lemma MagnitudeParts(d: Decimal)
    requires d.Valid()
    ensures d.Magnitude() == Value(d.whole) * DECIMAL_SCALE + Scaled8(d.fraction)
    ensures Scaled8(d.fraction) < DECIMAL_SCALE
  {
    hide Value, Shift;
    var k := |d.fraction|;
    ValueConcat(d.whole, d.fraction);
    ShiftAdd(Shift(Value(d.whole), k), Value(d.fraction), FRACTION_DIGITS - k);
    ShiftShift(Value(d.whole), k, FRACTION_DIGITS - k);
    ShiftEight(Value(d.whole));
    ValueBound(d.fraction);
    ShiftBelow(Value(d.fraction), Pow10(k), FRACTION_DIGITS - k);
    ShiftShift(1, k, FRACTION_DIGITS - k);
    ShiftEight(1);
  }

  lemma ShiftEight(n: nat)
    ensures Shift(n, FRACTION_DIGITS) == n * DECIMAL_SCALE
  {
    assert Shift(n, 1) == 10 * n;
    assert Shift(n, 2) == 100 * n;
    assert Shift(n, 3) == 1_000 * n;
    assert Shift(n, 4) == 10_000 * n;
    assert Shift(n, 5) == 100_000 * n;
    assert Shift(n, 6) == 1_000_000 * n;
    assert Shift(n, 7) == 10_000_000 * n;
  }

  /** The digits after the dot in units of 1e-8, read by one loop and scaled by a second. */
  method ParseFraction(fractionText: string) returns (digits: bool, fraction: u64)
    requires |fractionText| <= 8
    ensures digits == AllDigits(fractionText)
    ensures digits ==> fraction == Scaled8(fractionText)
  {
    fraction := 0;
    var index := 0;
    while index < |fractionText|
      invariant index <= |fractionText|
      invariant AllDigits(fractionText[..index])
      invariant fraction == Value(fractionText[..index])
      invariant fraction < Pow10(index)
    {
      var character := fractionText[index];
      if !IsDigit(character) {
        return false, 0;
      }
      ValueAppend(fractionText[..index], character);
      assert fractionText[..index + 1] == fractionText[..index] + [character];
      WordPower(index);
      fraction := fraction * 10 + DigitOf(character);
      index := index + 1;
    }
    assert fractionText[..|fractionText|] == fractionText;
    ghost var significand := fraction;
    while index < 8
      invariant |fractionText| <= index <= 8
      invariant fraction == Shift(significand, index - |fractionText|)
      invariant fraction < Pow10(index)
    {
      WordPower(index);
      fraction := fraction * 10;
      index := index + 1;
    }
    digits := true;
  }

  /** The divided range checks: no intermediate word wraps, and they accept exactly what fits. */
  method Combine(negative: bool, whole: u64, fraction: u64) returns (r: Option<i64>)
    requires fraction < DECIMAL_SCALE
    ensures var v: int := whole * DECIMAL_SCALE + fraction;
            var s := if negative then -v else v;
            r == if InInt64(s) then Some(s) else None
  {
    var limit: u64 := if negative then INT64_MAX + 1 else INT64_MAX;
    var scale: u64 := DECIMAL_SCALE;
    if whole > limit / scale {
      return None;
    }
    var scaled: u64 := whole * scale;
    if fraction > limit - scaled {
      return None;
    }
    var magnitude: u64 := scaled + fraction;
    if negative && magnitude == limit {
      return Some(INT64_MIN);
    }
    var signedValue: i64 := magnitude;
    return Some(if negative then -signedValue else signedValue);
  }

  method ParseDecimal(value: string) returns (r: Option<i64>)
    ensures r == Parsed(value)
  {
    ParsedSplit(value);
    hide Parsed, DotFrom, FirstDot;
    if value == "" {
      return None;
    }
    var negative := false;
    var body := value;
    if value[0] == '-' || value[0] == '+' {
      negative := value[0] == '-';
      body := value[1..];
    }
    if body == "" {
      return None;
    }
    var dot := FirstDot(body);
    var wholeText := body[..dot];
    var fractionText := if dot == |body| then "" else body[dot + 1..];
    r := ParseUnsigned(negative, wholeText, dot != |body|, fractionText, Split(value));
  }

  /** The rest of `ParseDecimal`, once the sign and the dot have been found. */
  method ParseUnsigned(negative: bool, wholeText: string, dotted: bool, fractionText: string, ghost d: Decimal)
    returns (r: Option<i64>)
    requires d.sign == "" || d.sign == "+" || d.sign == "-"
    requires negative == (d.sign == "-")
    requires d.whole == wholeText && d.dotted == dotted && d.fraction == fractionText
    requires dotted || fractionText == ""
    ensures r == Resolved(d)
  {
    if wholeText == "" || |fractionText| > 8 || (dotted && FirstDot(fractionText) != |fractionText|) {
      return None;
    }
    FromCharsWhole(wholeText);
    var conversion := FromChars(wholeText);
    if !conversion.Converted? || conversion.ptr != |wholeText| {
      if d.Valid() {
        MagnitudeParts(d);
      }
      return None;
    }
    var digits, fraction := ParseFraction(fractionText);
    if !digits {
      return None;
    }
    MagnitudeParts(d);
    r := Combine(negative, conversion.value, fraction);
  }

  lemma WordPower(index: nat)
    requires index < 8
    ensures Pow10(index + 1) <= DECIMAL_SCALE
  {
    ShiftShift(1, index + 1, 7 - index);
    ShiftEight(1);
    ShiftGrows(Pow10(index + 1), 7 - index);
  }

  // ----- printing

  function TrimZeros(s: string): string {
    if s != "" && s[|s| - 1] == '0' then TrimZeros(s[..|s| - 1]) else s
  }

  /** The parts `FormatDecimal` prints for a magnitude. */
  function Parts(v: int): Decimal {
    var magnitude := if v < 0 then -v else v;
    var fraction := magnitude % DECIMAL_SCALE;
    Decimal(
      if v < 0 then "-" else "",
      Digits(magnitude / DECIMAL_SCALE),
      fraction != 0,
      if fraction != 0 then TrimZeros(Padded(fraction, FRACTION_DIGITS)) else "")
  }

  function Formatted(v: int): string {
    Parts(v).Text()
  }

  lemma {:induction false} TrimZerosCorrect(s: string)
    requires AllDigits(s) && Value(s) != 0
    ensures var t := TrimZeros(s);
            && t != "" && |t| <= |s| && AllDigits(t) && t[|t| - 1] != '0'
            && Value(s) == Shift(Value(t), |s| - |t|)
  {
    if s[|s| - 1] == '0' {
      TrimZerosCorrect(s[..|s| - 1]);
    }
  }

  /** What is printed is canonical and denotes the number printed. */
  lemma PartsCanonical(v: int)
    ensures Parts(v).Canonical() && Parts(v).Scaled() == v
  {
    hide Value, Digits, Padded, TrimZeros;
    var d := Parts(v);
    var magnitude := if v < 0 then -v else v;
    var fraction := magnitude % DECIMAL_SCALE;
    ValueEmpty();
    DigitsCorrect(magnitude / DECIMAL_SCALE);
    ShiftEight(1);
    if fraction != 0 {
      PaddedCorrect(fraction, FRACTION_DIGITS);
      TrimZerosCorrect(Padded(fraction, FRACTION_DIGITS));
    }
    MagnitudeParts(d);
  }

  /** A number has one canonical spelling. */
  lemma CanonicalUnique(d: Decimal, e: Decimal)
    requires d.Canonical() && e.Canonical()
    requires d.Scaled() == e.Scaled()
    ensures d == e
  {
    MagnitudeParts(d);
    MagnitudeParts(e);
    assert d.Magnitude() == e.Magnitude() && d.sign == e.sign;
    SamePlaces(Value(d.whole), Value(e.whole), Scaled8(d.fraction), Scaled8(e.fraction));
    DigitsUnique(d.whole);
    DigitsUnique(e.whole);
    CanonicalFraction(d);
    CanonicalFraction(e);
  }

  lemma SamePlaces(w: nat, x: nat, f: nat, g: nat)
    requires f < DECIMAL_SCALE && g < DECIMAL_SCALE
    requires w * DECIMAL_SCALE + f == x * DECIMAL_SCALE + g
    ensures w == x && f == g
  {
  }

  lemma CanonicalFraction(d: Decimal)
    requires d.Canonical()
    ensures var f := Scaled8(d.fraction);
            d.fraction == (if f == 0 then "" else TrimZeros(Padded(f, FRACTION_DIGITS)))
  {
    hide Value, Digits, Padded, TrimZeros;
    var k := FRACTION_DIGITS - |d.fraction|;
    if d.fraction != "" {
      PaddedUnique(d.fraction);
      PaddedShift(d.fraction, k);
      assert d.fraction[|d.fraction| - 1] != '0';
      TrimShift(d.fraction, k);
      LastDigitNonZero(d.fraction);
      ShiftGrows(Value(d.fraction), k);
    } else {
      ShiftEight(0);
      ValueEmpty();
    }
  }

  lemma LastDigitNonZero(s: string)
    requires AllDigits(s) && s != "" && s[|s| - 1] != '0'
    ensures Value(s) != 0
  {
  }

  function Zeros(k: nat): string {
    if k == 0 then "" else Zeros(k - 1) + "0"
  }

  lemma {:induction false} PaddedShift(s: string, k: nat)
    requires AllDigits(s)
    ensures Padded(Shift(Value(s), k), |s| + k) == s + Zeros(k)
  {
    if k == 0 {
      PaddedUnique(s);
    } else {
      PaddedShift(s, k - 1);
      assert s + Zeros(k) == s + Zeros(k - 1) + "0";
    }
  }

  lemma {:induction false} TrimShift(s: string, k: nat)
    requires s != "" && s[|s| - 1] != '0'
    ensures TrimZeros(s + Zeros(k)) == s
  {
    if k > 0 {
      TrimShift(s, k - 1);
      assert (s + Zeros(k))[..|s| + |Zeros(k)| - 1] == s + Zeros(k - 1);
    } else {
      assert s + Zeros(0) == s;
    }
  }

  /** Negating the unsigned image of a negative number gives its magnitude, the minimum included. */
  lemma SignedMagnitude(v: i64)
    ensures v as int < 0 ==> Wrap(0 - Wrap(v)) == -(v as int)
    ensures v as int >= 0 ==> Wrap(v) == v
  {
  }

  method FormatDecimal(value: i64) returns (result: string)
    ensures result == Formatted(value)
  {
    hide Value, Digits, Padded, TrimZeros, Shift, Wrap;
    var negative := value < 0;
    var magnitude: u64 := if negative then Wrap(0 - Wrap(value)) else Wrap(value);
    SignedMagnitude(value);
    ghost var parts := Parts(value);
    var scale: u64 := DECIMAL_SCALE;
    var whole := magnitude / scale;
    var fraction := magnitude % scale;
    result := if negative then "-" else "";
    result := result + Digits(whole);
    if fraction != 0 {
      PaddedCorrect(fraction, 8);
      ShiftEight(1);
      ghost var head := parts.sign + parts.whole;
      result := PopZeros(result + "." + Padded(fraction, 8), head + ".", Padded(fraction, 8));
      assert head + ("." + parts.fraction) == head + "." + parts.fraction;
    }
  }

  /** The pop loop: the zeros it drops never reach past the digits after the dot. */
  method PopZeros(text: string, ghost head: string, ghost tail: string) returns (result: string)
    requires text == head + tail
    requires AllDigits(tail) && Value(tail) != 0
    ensures result == head + TrimZeros(tail)
  {
    result := text;
    ghost var rest := tail;
    while result[|result| - 1] == '0'
      invariant AllDigits(rest) && Value(rest) != 0
      invariant result == head + rest
      invariant TrimZeros(rest) == TrimZeros(tail)
      decreases |rest|
    {
      assert result[|result| - 1] == rest[|rest| - 1];
      assert head + rest[..|rest| - 1] == result[..|result| - 1];
      rest := rest[..|rest| - 1];
      result := result[..|result| - 1];
    }
    assert result[|result| - 1] == rest[|rest| - 1];
  }

  // ----- reading and printing are inverse

  /** Every 64-bit number survives being printed and read back, the minimum included. */
  lemma RoundTrip(v: i64)
    ensures Parsed(Formatted(v)) == Some(v)
  {
    PartsCanonical(v);
    ParsedExact(Formatted(v));
    assert Denotes(Formatted(v), v);
  }

  /**
   * Printing what was read gives the one canonical spelling of the number: two accepted texts reprint alike iff they
   * denote the same number.
   */
  lemma ReprintIsCanonical(a: string, b: string)
    requires Parsed(a).Some? && Parsed(b).Some?
    ensures Formatted(Parsed(a).value) == Formatted(Parsed(b).value) <==> Parsed(a) == Parsed(b)
    ensures forall d: Decimal :: d.Canonical() && d.Scaled() == Parsed(a).value ==>
              d.Text() == Formatted(Parsed(a).value)
  {
    RoundTrip(Parsed(a).value);
    RoundTrip(Parsed(b).value);
    PartsCanonical(Parsed(a).value);
    forall d: Decimal | d.Canonical() && d.Scaled() == Parsed(a).value
      ensures d.Text() == Formatted(Parsed(a).value)
    {
      CanonicalUnique(d, Parts(Parsed(a).value));
    }
  }

  // ----- a few of the numbers

  lemma DigitsOf125()
    ensures Value("1") == 1 && Value("125") == 125 && Value("000000001") == 1
  {
    ValueEmpty();
    ValueAppend("", '1');
    ValueAppend("1", '2');
    ValueAppend("12", '5');
    assert "" + ['1'] == "1" && "1" + ['2'] == "12" && "12" + ['5'] == "125";
    LeadingZeros("00000000");
    ValueAppend("00000000", '1');
    assert "00000000" + ['1'] == "000000001";
  }

  lemma {:induction false} LeadingZeros(zeros: string)
    requires forall i :: 0 <= i < |zeros| ==> zeros[i] == '0'
    ensures AllDigits(zeros) && Value(zeros) == 0
  {
    if zeros != "" {
      LeadingZeros(zeros[..|zeros| - 1]);
    }
  }

  lemma OneAndAQuarter()
    ensures Parsed("1.25") == Some(125_000_000) && Formatted(125_000_000) == "1.25"
  {
    DigitsOf125();
    hide Value;
    var d := Decimal("", "1", true, "25");
    assert "" + "1" + ("." + "25") == "1.25" && "1" + "25" == "125";
    assert Shift(125, 6) == 125_000_000;
    Spells("1.25", d);
    PartsCanonical(125_000_000);
    CanonicalUnique(d, Parts(125_000_000));
  }

  lemma WithPlus()
    ensures Parsed("+1.25") == Some(125_000_000)
  {
    DigitsOf125();
    hide Value;
    assert "+" + "1" + ("." + "25") == "+1.25" && "1" + "25" == "125";
    assert Shift(125, 6) == 125_000_000;
    Spells("+1.25", Decimal("+", "1", true, "25"));
  }

  lemma WithBareDot()
    ensures Parsed("1.") == Some(100_000_000)
  {
    DigitsOf125();
    hide Value;
    assert "" + "1" + ("." + "") == "1." && "1" + "" == "1";
    assert Shift(1, 8) == 100_000_000;
    Spells("1.", Decimal("", "1", true, ""));
  }

  lemma GreatestNegative()
    ensures Parsed("-0.00000001") == Some(-1)
  {
    DigitsOf125();
    hide Value;
    assert "-" + "0" + ("." + "00000001") == "-0.00000001" && "0" + "00000001" == "000000001";
    assert Shift(1, 0) == 1;
    Spells("-0.00000001", Decimal("-", "0", true, "00000001"));
  }

  /** One and a quarter, printed without redundant zeros, a sign or a bare dot, and the greatest number below zero. */
  lemma SomeNumbers()
    ensures Parsed("1.25") == Some(125_000_000) && Formatted(125_000_000) == "1.25"
    ensures Parsed("-0.00000001") == Some(-1)
    ensures Parsed("+1.25") == Some(125_000_000) && Parsed("1.") == Some(100_000_000)
  {
    hide Parsed, Formatted;
    OneAndAQuarter();
    WithPlus();
    WithBareDot();
    GreatestNegative();
  }

  lemma Spells(text: string, d: Decimal)
    requires d.Valid() && d.Text() == text && InInt64(d.Scaled())
    ensures Parsed(text) == Some(d.Scaled())
  {
    hide Decimal.Scaled, Decimal.Valid, Decimal.Text;
    assert Denotes(text, d.Scaled());
    ParsedExact(text);
  }

  /** `dot` is where the digits after the sign end. */
  lemma NotSpelled(text: string, dot: nat)
    requires SignLength(text) == 0 && dot <= |text|
    requires forall k :: 0 <= k < dot ==> text[k] != '.'
    requires dot < |text| ==> text[dot] == '.'
    requires dot == 0 || !AllDigits(text[..dot]) || |text| > dot + 1 + FRACTION_DIGITS
    ensures Parsed(text) == None
  {
    hide Value, FirstDot, DotFrom;
    FirstDotIs(text, dot);
    assert text[0..] == text;
    ParsedSplit(text);
  }

  /** Nothing but digits, no more than eight places, and at least one digit before the dot. */
  lemma SomeTexts()
    ensures Parsed("") == None && Parsed("1x") == None && Parsed(".5") == None && Parsed("1.000000001") == None
  {
    NotSpelled("", 0);
    assert "1x"[..2][1] == 'x';
    NotSpelled("1x", 2);
    NotSpelled(".5", 0);
    NotSpelled("1.000000001", 1);
  }
}
