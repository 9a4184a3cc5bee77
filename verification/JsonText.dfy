/** The JSON text of the recorded lines: what is written for a record, and why cut lines are not JSON. */
module JsonText {
  import opened Words
  import opened Numerals

  // ----- strings

  function HexDigit(d: nat): char
    requires d < 16
  {
    if d < 10 then DigitChar(d) else 'a' + (d - 10) as char
  }

  /** The dump of one character of a string; bytes from 0x20 on stand for themselves. */
  function EscapeChar(c: char): (e: string)
    ensures 1 <= |e| <= 6
  {
    if c == '"' then ['\\', '"']
    else if c == '\\' then ['\\', '\\']
    else if c as int == 8 then ['\\', 'b']
    else if c as int == 9 then ['\\', 't']
    else if c as int == 10 then ['\\', 'n']
    else if c as int == 12 then ['\\', 'f']
    else if c as int == 13 then ['\\', 'r']
    else if c as int < 32 then ['\\', 'u', '0', '0', HexDigit(c as int / 16), HexDigit(c as int % 16)]
    else [c]
  }

  function Escape(s: string): string {
    if s == "" then "" else EscapeChar(s[0]) + Escape(s[1..])
  }

  function Quoted(s: string): string {
    ['"'] + Escape(s) + ['"']
  }

  function Key(name: string): string {
    Quoted(name) + [':']
  }

  /** Escaping never shortens, and at most sextuples. */
  lemma {:induction false} EscapeLength(s: string)
    ensures |s| <= |Escape(s)| <= 6 * |s|
  {
    if s != "" {
      EscapeLength(s[1..]);
    }
  }

  /** Nothing below 0x20 survives, so a dump never holds a newline. */
  lemma {:induction false} EscapePrintable(s: string)
    ensures forall i :: 0 <= i < |Escape(s)| ==> Escape(s)[i] as int >= 32
  {
    if s != "" {
      EscapePrintable(s[1..]);
    }
  }

  // ----- UTF-8, which the dump insists on

  predicate InRange(s: string, i: nat, low: int, high: int) {
    i < |s| && low <= s[i] as int <= high
  }

  /** The length of the well-formed sequence at `i`, zero if there is none (RFC 3629 section 4). */
  function SequenceLength(s: string, i: nat): (n: nat)
    requires i < |s|
    ensures i + n <= |s|
  {
    var tail1, tail2 := InRange(s, i + 1, 0x80, 0xBF), InRange(s, i + 2, 0x80, 0xBF);
    var tail3 := InRange(s, i + 3, 0x80, 0xBF);
    if InRange(s, i, 0x00, 0x7F) then 1
    else if InRange(s, i, 0xC2, 0xDF) && tail1 then 2
    else if InRange(s, i, 0xE0, 0xE0) && InRange(s, i + 1, 0xA0, 0xBF) && tail2 then 3
    else if (InRange(s, i, 0xE1, 0xEC) || InRange(s, i, 0xEE, 0xEF)) && tail1 && tail2 then 3
    else if InRange(s, i, 0xED, 0xED) && InRange(s, i + 1, 0x80, 0x9F) && tail2 then 3
    else if InRange(s, i, 0xF0, 0xF0) && InRange(s, i + 1, 0x90, 0xBF) && tail2 && tail3 then 4
    else if InRange(s, i, 0xF1, 0xF3) && tail1 && tail2 && tail3 then 4
    else if InRange(s, i, 0xF4, 0xF4) && InRange(s, i + 1, 0x80, 0x8F) && tail2 && tail3 then 4
    else 0
  }

  predicate ValidFrom(s: string, i: nat)
    requires i <= |s|
    decreases |s| - i
  {
    i == |s| || (SequenceLength(s, i) > 0 && ValidFrom(s, i + SequenceLength(s, i)))
  }

  predicate ValidUtf8(s: string) {
    ValidFrom(s, 0)
  }

  // ----- records

  /** What is recorded as one line. */
  datatype Piece =
    | MetadataPiece(endpoint: string, products: seq<string>)
    | FramePiece(receivedNs: u64, connection: nat, payload: string)

  function Listed(products: seq<string>): string {
    if products == [] then ""
    else if |products| == 1 then Quoted(products[0])
    else Quoted(products[0]) + "," + Listed(products[1..])
  }

  /** The members of a frame between the braces, keys in alphabetical order and no spaces. */
  function Members(receivedNs: u64, connection: nat, payload: string): string {
    Key("connection_id") + Digits(connection) + "," + (Key("payload") + Quoted(payload) + "," +
    (Key("received_ns") + Digits(receivedNs) + "," + (Key("type") + Quoted("frame"))))
  }

  function Render(p: Piece): string {
    match p
    case MetadataPiece(endpoint, products) =>
      "{" + Key("endpoint") + Quoted(endpoint) + "," + Key("format") + Quoted("bengal-market-capture") + "," +
      Key("product_ids") + "[" + Listed(products) + "]," + Key("source") + Quoted("coinbase-advanced-trade") + "," +
      Key("type") + Quoted("metadata") + "," + Key("version") + "1}"
    case FramePiece(receivedNs, connection, payload) =>
      "{" + Members(receivedNs, connection, payload) + "}"
  }

  predicate Printable(s: string) {
    forall i :: 0 <= i < |s| ==> s[i] as int >= 32
  }

  lemma QuotedPrintable(s: string)
    ensures Printable(Quoted(s)) && Printable(Key(s))
  {
    EscapePrintable(s);
  }

  lemma DigitsPrintable(n: nat)
    ensures Printable(Digits(n))
  {
    DigitsCorrect(n);
  }

  lemma {:induction false} ListedPrintable(products: seq<string>)
    ensures Printable(Listed(products))
  {
    if products != [] {
      QuotedPrintable(products[0]);
      ListedPrintable(products[1..]);
    }
  }

  /** A rendered line holds no newline. */
  lemma RenderPrintable(p: Piece)
    ensures Printable(Render(p)) && '\n' !in Render(p)
  {
    hide Escape, Digits, Listed, Key, Quoted;
    match p
    case MetadataPiece(endpoint, products) =>
      ListedPrintable(products);
      QuotedPrintable("endpoint");
      QuotedPrintable(endpoint);
      QuotedPrintable("format");
      QuotedPrintable("bengal-market-capture");
      QuotedPrintable("product_ids");
      QuotedPrintable("source");
      QuotedPrintable("coinbase-advanced-trade");
      QuotedPrintable("type");
      QuotedPrintable("metadata");
      QuotedPrintable("version");
    case FramePiece(receivedNs, connection, payload) =>
      QuotedPrintable("connection_id");
      QuotedPrintable("payload");
      QuotedPrintable(payload);
      QuotedPrintable("received_ns");
      QuotedPrintable("type");
      QuotedPrintable("frame");
      DigitsPrintable(connection);
      DigitsPrintable(receivedNs);
  }

  // ----- a necessary condition for JSON

  /** What a scan from the left knows: inside a string and after a backslash, just after a string, nesting, finished. */
  datatype Scan = Bad | Scan(inString: bool, escaped: bool, closed: bool, depth: nat, done: bool)

  const START := Scan(false, false, false, 0, false)

  predicate MayFollowString(c: char) {
    c == ',' || c == ':' || c == '}' || c == ']' || c == ' ' || c as int == 9 || c as int == 10 || c as int == 13
  }

  predicate MayFollowBackslash(c: char) {
    c == '"' || c == '\\' || c == '/' || c == 'b' || c == 'f' || c == 'n' || c == 'r' || c == 't' || c == 'u'
  }

  /** One character of a JSON text (RFC 8259), as far as strings, nesting and the single top-level value go. */
  function Next(s: Scan, c: char): Scan {
    if s.Bad? then Bad
    else if s.inString then
      if s.escaped then if MayFollowBackslash(c) then s.(escaped := false) else Bad
      else if c == '\\' then s.(escaped := true)
      else if c == '"' then s.(inString := false, closed := true)
      else if c as int < 32 then Bad
      else s
    else if s.closed && !MayFollowString(c) then Bad
    else if c == '"' then if s.done then Bad else s.(inString := true, closed := false)
    else if c == '{' || c == '[' then if s.done then Bad else s.(depth := s.depth + 1, closed := false)
    else if c == '}' || c == ']' then
      if s.depth == 0 then Bad else s.(depth := s.depth - 1, closed := false, done := s.depth == 1)
    else s.(closed := false)
  }

  function Scanned(s: Scan, text: string): Scan {
    if text == "" then s else Next(Scanned(s, text[..|text| - 1]), text[|text| - 1])
  }

  /** Every JSON text passes: no string is left open and every brace is closed. */
  predicate Balanced(text: string) {
    var s := Scanned(START, text);
    s.Scan? && !s.inString && s.depth == 0
  }

  lemma {:induction false} ScannedConcat(s: Scan, a: string, b: string)
    ensures Scanned(s, a + b) == Scanned(Scanned(s, a), b)
  {
    if b == "" {
      assert a + b == a;
    } else {
      ScannedConcat(s, a, b[..|b| - 1]);
      assert (a + b)[..|a + b| - 1] == a + b[..|b| - 1];
    }
  }

  lemma {:induction false} BadForever(text: string)
    ensures Scanned(Bad, text) == Bad
  {
    if text != "" {
      BadForever(text[..|text| - 1]);
    }
  }

  lemma ScannedOne(s: Scan, c: char)
    ensures Scanned(s, [c]) == Next(s, c)
  {
    assert [c][..0] == "";
  }

  // ----- scanning a rendered frame

  predicate At(s: Scan, depth: nat) {
    s.Scan? && s.depth == depth && !s.done
  }

  /** Outside strings at some depth, with a value or member expected next. */
  function Outside(depth: nat): Scan {
    Scan(false, false, false, depth, false)
  }

  function AfterString(depth: nat): Scan {
    Scan(false, false, true, depth, false)
  }

  function Inside(depth: nat): Scan {
    Scan(true, false, false, depth, false)
  }

  /** The nesting does not change anywhere in the text. */
  ghost predicate Steady(s: Scan, text: string, depth: nat) {
    forall k :: 0 <= k <= |text| ==> At(Scanned(s, text[..k]), depth)
  }

  lemma SteadyConcat(s: Scan, a: string, b: string, depth: nat)
    requires Steady(s, a, depth) && Steady(Scanned(s, a), b, depth)
    ensures Steady(s, a + b, depth)
  {
    hide Scanned, At;
    forall k | 0 <= k <= |a + b|
      ensures At(Scanned(s, (a + b)[..k]), depth)
    {
      if k <= |a| {
        assert (a + b)[..k] == a[..k];
      } else {
        assert (a + b)[..k] == a + b[..k - |a|];
        ScannedConcat(s, a, b[..k - |a|]);
      }
    }
  }

  lemma SteadyOne(s: Scan, c: char, depth: nat)
    requires At(s, depth) && At(Next(s, c), depth)
    ensures Steady(s, [c], depth)
  {
    ScannedOne(s, c);
    assert [c][..0] == "" && [c][..1] == [c];
  }

  lemma {:induction false} SteadyExtend(s: Scan, text: string, c: char, depth: nat)
    requires Steady(s, text, depth) && At(Next(Scanned(s, text), c), depth)
    ensures Steady(s, text + [c], depth) && Scanned(s, text + [c]) == Next(Scanned(s, text), c)
  {
    assert text[..|text|] == text;
    ScannedOne(Scanned(s, text), c);
    SteadyOne(Scanned(s, text), c, depth);
    SteadyConcat(s, text, [c], depth);
    ScannedConcat(s, text, [c]);
  }

  lemma SteadyEmpty(s: Scan, depth: nat)
    requires At(s, depth)
    ensures Steady(s, "", depth) && Scanned(s, "") == s
  {
    assert ""[..0] == "";
  }

  /** The three shapes of a dumped character. */
  lemma EscapeCharShape(c: char)
    ensures var e := EscapeChar(c);
            || (|e| == 1 && e[0] as int >= 32 && e[0] != '"' && e[0] != '\\')
            || (|e| == 2 && e[0] == '\\' && MayFollowBackslash(e[1]))
            || (|e| == 6 && e[0] == '\\' && e[1] == 'u' &&
                forall i :: 2 <= i < 6 ==> '0' <= e[i] <= 'f' && e[i] != '\\')
  {
  }

  lemma EscapeCharSteady(c: char, depth: nat)
    ensures Steady(Inside(depth), EscapeChar(c), depth) && Scanned(Inside(depth), EscapeChar(c)) == Inside(depth)
  {
    hide EscapeChar, Scanned, Steady;
    var e := EscapeChar(c);
    EscapeCharShape(c);
    SteadyEmpty(Inside(depth), depth);
    SteadyExtend(Inside(depth), "", e[0], depth);
    assert "" + [e[0]] == [e[0]];
    if |e| == 1 {
      assert e == [e[0]];
    } else {
      SteadyExtend(Inside(depth), [e[0]], e[1], depth);
      assert [e[0]] + [e[1]] == [e[0], e[1]];
      if |e| == 2 {
        assert e == [e[0], e[1]];
      } else {
        HexSteady(e, depth);
      }
    }
  }

  lemma HexSteady(e: string, depth: nat)
    requires |e| == 6 && e[0] == '\\' && e[1] == 'u' && forall i :: 2 <= i < 6 ==> '0' <= e[i] <= 'f' && e[i] != '\\'
    requires Steady(Inside(depth), [e[0], e[1]], depth) && Scanned(Inside(depth), [e[0], e[1]]) == Inside(depth)
    ensures Steady(Inside(depth), e, depth) && Scanned(Inside(depth), e) == Inside(depth)
  {
    hide Scanned, Steady;
    SteadyExtend(Inside(depth), [e[0], e[1]], e[2], depth);
    SteadyExtend(Inside(depth), [e[0], e[1]] + [e[2]], e[3], depth);
    SteadyExtend(Inside(depth), [e[0], e[1]] + [e[2]] + [e[3]], e[4], depth);
    SteadyExtend(Inside(depth), [e[0], e[1]] + [e[2]] + [e[3]] + [e[4]], e[5], depth);
    assert e == [e[0], e[1]] + [e[2]] + [e[3]] + [e[4]] + [e[5]];
  }

  lemma {:induction false} EscapeSteady(s: string, depth: nat)
    ensures Steady(Inside(depth), Escape(s), depth) && Scanned(Inside(depth), Escape(s)) == Inside(depth)
  {
    hide Scanned, Steady, EscapeChar;
    if s == "" {
      SteadyEmpty(Inside(depth), depth);
    } else {
      EscapeCharSteady(s[0], depth);
      EscapeSteady(s[1..], depth);
      SteadyConcat(Inside(depth), EscapeChar(s[0]), Escape(s[1..]), depth);
      ScannedConcat(Inside(depth), EscapeChar(s[0]), Escape(s[1..]));
    }
  }

  lemma QuotedSteady(s: string, depth: nat)
    ensures Steady(Outside(depth), Quoted(s), depth) && Scanned(Outside(depth), Quoted(s)) == AfterString(depth)
  {
    hide Scanned, Steady, Escape;
    ScannedOne(Outside(depth), '"');
    SteadyOne(Outside(depth), '"', depth);
    EscapeSteady(s, depth);
    SteadyConcat(Outside(depth), ['"'], Escape(s), depth);
    ScannedConcat(Outside(depth), ['"'], Escape(s));
    SteadyExtend(Outside(depth), ['"'] + Escape(s), '"', depth);
  }

  lemma KeySteady(name: string, depth: nat)
    ensures Steady(Outside(depth), Key(name), depth) && Scanned(Outside(depth), Key(name)) == Outside(depth)
  {
    hide Scanned, Steady, Quoted;
    QuotedSteady(name, depth);
    SteadyExtend(Outside(depth), Quoted(name), ':', depth);
  }

  lemma {:induction false} DigitsSteady(s: string, depth: nat)
    requires AllDigits(s)
    ensures Steady(Outside(depth), s, depth) && Scanned(Outside(depth), s) == Outside(depth)
  {
    hide Scanned, Steady;
    if s == "" {
      SteadyEmpty(Outside(depth), depth);
    } else {
      var init, c := s[..|s| - 1], s[|s| - 1];
      DigitsSteady(init, depth);
      SteadyExtend(Outside(depth), init, c, depth);
      assert s == init + [c];
    }
  }

  /** A member with a number, and the comma after it. */
  lemma NumberMemberSteady(name: string, n: nat, depth: nat)
    ensures var text := Key(name) + Digits(n) + ",";
            Steady(Outside(depth), text, depth) && Scanned(Outside(depth), text) == Outside(depth)
  {
    hide Scanned, Steady, Key, Digits;
    KeySteady(name, depth);
    DigitsCorrect(n);
    DigitsSteady(Digits(n), depth);
    SteadyConcat(Outside(depth), Key(name), Digits(n), depth);
    ScannedConcat(Outside(depth), Key(name), Digits(n));
    SteadyExtend(Outside(depth), Key(name) + Digits(n), ',', depth);
  }

  lemma StringMemberSteady(name: string, value: string, depth: nat)
    ensures var text := Key(name) + Quoted(value);
            Steady(Outside(depth), text, depth) && Scanned(Outside(depth), text) == AfterString(depth)
  {
    hide Scanned, Steady, Key, Quoted;
    KeySteady(name, depth);
    QuotedSteady(value, depth);
    SteadyConcat(Outside(depth), Key(name), Quoted(value), depth);
    ScannedConcat(Outside(depth), Key(name), Quoted(value));
  }

  lemma MembersSteady(receivedNs: u64, connection: nat, payload: string, depth: nat)
    ensures var text := Members(receivedNs, connection, payload);
            Steady(Outside(depth), text, depth) && Scanned(Outside(depth), text) == AfterString(depth)
  {
    hide Scanned, Steady, Key, Quoted, Digits;
    var a := Key("connection_id") + Digits(connection) + ",";
    var b := Key("payload") + Quoted(payload);
    var c := Key("received_ns") + Digits(receivedNs) + ",";
    var d := Key("type") + Quoted("frame");
    NumberMemberSteady("connection_id", connection, depth);
    StringMemberSteady("payload", payload, depth);
    SteadyExtend(Outside(depth), b, ',', depth);
    NumberMemberSteady("received_ns", receivedNs, depth);
    StringMemberSteady("type", "frame", depth);
    SteadyConcat(Outside(depth), c, d, depth);
    ScannedConcat(Outside(depth), c, d);
    SteadyConcat(Outside(depth), b + ",", c + d, depth);
    ScannedConcat(Outside(depth), b + ",", c + d);
    SteadyConcat(Outside(depth), a, b + "," + (c + d), depth);
    ScannedConcat(Outside(depth), a, b + "," + (c + d));
    assert Members(receivedNs, connection, payload) == a + (b + "," + (c + d));
  }

  // ----- scanning whole lines

  lemma {:induction false} ListedScan(products: seq<string>, depth: nat)
    ensures Scanned(Outside(depth), Listed(products)) == if products == [] then Outside(depth) else AfterString(depth)
  {
    hide Scanned, Quoted;
    if products == [] {
      SteadyEmpty(Outside(depth), depth);
    } else {
      QuotedSteady(products[0], depth);
      if |products| > 1 {
        ListedScan(products[1..], depth);
        ScannedOne(AfterString(depth), ',');
        ScannedConcat(Outside(depth), Quoted(products[0]), ",");
        ScannedConcat(Outside(depth), Quoted(products[0]) + ",", Listed(products[1..]));
      }
    }
  }

  /** A line so far, and one more part of it. */
  lemma Part(line: string, part: string, s: Scan)
    requires Scanned(START, line) == s
    ensures Scanned(START, line + part) == Scanned(s, part)
  {
    ScannedConcat(START, line, part);
  }

  lemma MemberPart(line: string, name: string, value: string)
    requires Scanned(START, line) == Outside(1)
    ensures Scanned(START, line + Key(name) + Quoted(value) + ",") == Outside(1)
  {
    hide Scanned, Key, Quoted;
    StringMemberSteady(name, value, 1);
    Part(line, Key(name) + Quoted(value), Outside(1));
    assert line + Key(name) + Quoted(value) == line + (Key(name) + Quoted(value));
    Part(line + Key(name) + Quoted(value), ",", AfterString(1));
    ScannedOne(AfterString(1), ',');
  }

  lemma ProductsPart(line: string, products: seq<string>)
    requires Scanned(START, line) == Outside(1)
    ensures Scanned(START, line + Key("product_ids") + "[" + Listed(products) + "],") == Outside(1)
  {
    hide Scanned, Key, Listed;
    var a := line + Key("product_ids");
    KeySteady("product_ids", 1);
    Part(line, Key("product_ids"), Outside(1));
    Part(a, "[", Outside(1));
    ScannedOne(Outside(1), '[');
    ListedScan(products, 2);
    Part(a + "[", Listed(products), Outside(2));
    var s := Scanned(START, a + "[" + Listed(products));
    ScannedOne(s, ']');
    ScannedOne(Next(s, ']'), ',');
    ScannedConcat(s, "]", ",");
    assert "]" + "," == "],";
    Part(a + "[" + Listed(products), "],", s);
  }

  lemma VersionPart(line: string)
    requires Scanned(START, line) == Outside(1)
    ensures Scanned(START, line + Key("version") + "1}") == FINISHED
  {
    hide Scanned, Key;
    KeySteady("version", 1);
    Part(line, Key("version"), Outside(1));
    ScannedOne(Outside(1), '1');
    ScannedConcat(Outside(1), "1", "}");
    ScannedOne(Outside(1), '}');
    assert "1" + "}" == "1}";
    Part(line + Key("version"), "1}", Outside(1));
  }

  lemma MetadataBalanced(endpoint: string, products: seq<string>)
    ensures Balanced(Render(MetadataPiece(endpoint, products)))
  {
    hide Scanned, Key, Quoted, Listed;
    ScannedOne(START, '{');
    MemberPart("{", "endpoint", endpoint);
    var a := "{" + Key("endpoint") + Quoted(endpoint) + ",";
    MemberPart(a, "format", "bengal-market-capture");
    var b := a + Key("format") + Quoted("bengal-market-capture") + ",";
    ProductsPart(b, products);
    var c := b + Key("product_ids") + "[" + Listed(products) + "],";
    MemberPart(c, "source", "coinbase-advanced-trade");
    var d := c + Key("source") + Quoted("coinbase-advanced-trade") + ",";
    MemberPart(d, "type", "metadata");
    VersionPart(d + Key("type") + Quoted("metadata") + ",");
  }

  /** A dumped record is one JSON value as far as the scan goes. */
  lemma RenderBalanced(p: Piece)
    ensures Balanced(Render(p))
  {
    hide Render, Scanned;
    match p
    case MetadataPiece(endpoint, products) =>
      MetadataBalanced(endpoint, products);
    case FramePiece(_, _, _) =>
      FrameStart(p);
      FrameScan(p, 0, |Render(p)|);
  }

  // ----- cut and glued lines

  /** Nested in at least one brace that is still open. */
  predicate Open(s: Scan) {
    s.Scan? && s.depth >= 1 && !s.done && Sane(s)
  }

  /** What every reachable scan satisfies. */
  predicate Sane(s: Scan) {
    s.Scan? ==> (s.inString ==> !s.closed) && (!s.inString ==> !s.escaped)
  }

  lemma {:induction false} ScannedSane(s: Scan, text: string)
    requires Sane(s)
    ensures Sane(Scanned(s, text))
  {
    if text != "" {
      ScannedSane(s, text[..|text| - 1]);
    }
  }

  const FINISHED := Scan(false, false, false, 0, true)

  /** A cut of a rendered frame: some of its first bytes, possibly all of them. */
  predicate IsCut(text: string, p: Piece) {
    p.FramePiece? && 0 < |text| <= |Render(p)| && text == Render(p)[..|text|]
  }

  /**
   * Wherever a value may stand, a frame leaves the nesting as it was, and any shorter cut of it leaves a brace open.
   */
  lemma FrameScan(p: Piece, depth: nat, k: nat)
    requires p.FramePiece? && 0 < k <= |Render(p)|
    ensures k < |Render(p)| ==> At(Scanned(Outside(depth), Render(p)[..k]), depth + 1)
    ensures Scanned(Outside(depth), Render(p)) == Scan(false, false, false, depth, depth == 0)
  {
    hide Members, Scanned;
    var m := Members(p.receivedNs, p.connection, p.payload);
    MembersSteady(p.receivedNs, p.connection, p.payload, depth + 1);
    ScannedOne(Outside(depth), '{');
    ScannedConcat(Outside(depth), "{", m);
    ScannedConcat(Outside(depth), "{" + m, "}");
    ScannedOne(AfterString(depth + 1), '}');
    assert Render(p) == "{" + m + "}";
    if k < |Render(p)| {
      assert Render(p)[..k] == "{" + m[..k - 1];
      ScannedConcat(Outside(depth), "{", m[..k - 1]);
    }
  }

  lemma FrameStart(p: Piece)
    requires p.FramePiece?
    ensures |Render(p)| > 3 && Render(p)[0] == '{' && Render(p)[1] == '"' && Render(p)[2] == 'c'
  {
    hide Digits, Quoted;
    QuotedStart("connection_id", 'c');
  }

  lemma QuotedStart(s: string, c: char)
    requires s != "" && s[0] == c && 'a' <= c <= 'z'
    ensures |Quoted(s)| >= 3 && Quoted(s)[0] == '"' && Quoted(s)[1] == c
  {
  }

  /** Where a brace is open or the text is finished, a cut frame neither closes that brace nor is it allowed. */
  lemma CutAfter(s: Scan, text: string, p: Piece)
    requires IsCut(text, p) && (Open(s) || s == FINISHED || s == Bad)
    ensures Scanned(s, text) == Bad || (Open(s) && Open(Scanned(s, text)))
  {
    hide Render;
    FrameStart(p);
    ScannedSane(s, text);
    assert text == [text[0]] + text[1..];
    ScannedConcat(s, [text[0]], text[1..]);
    ScannedOne(s, text[0]);
    if s.Bad? || Next(s, '{').Bad? {
      BadForever(text[1..]);
    } else if s.inString {
      CutInsideString(s, text, p);
    } else {
      assert s == Outside(s.depth);
      FrameScan(p, s.depth, |text|);
      if |text| == |Render(p)| {
        assert text == Render(p);
      }
    }
  }

  /** Inside a string the first quote of a cut ends it, and what follows the quote cannot follow a string. */
  lemma CutInsideString(s: Scan, text: string, p: Piece)
    requires IsCut(text, p) && Open(s) && s.inString && !s.escaped && !s.closed
    ensures Scanned(s, text) == Bad || Open(Scanned(s, text))
  {
    hide Render;
    FrameStart(p);
    ScannedSane(s, text);
    ScannedOne(s, '{');
    if |text| == 1 {
      assert text == ['{'];
    } else {
      ScannedConcat(s, ['{'], ['"']);
      ScannedOne(Next(s, '{'), '"');
      assert ['{'] + ['"'] == text[..2];
      if |text| == 2 {
        assert text == text[..2];
      } else {
        var closed := Scanned(s, text[..2]);
        ScannedConcat(s, text[..2], text[2..]);
        assert text == text[..2] + text[2..];
        assert text[2..] == ['c'] + text[3..];
        ScannedConcat(closed, ['c'], text[3..]);
        ScannedOne(closed, 'c');
        BadForever(text[3..]);
      }
    }
  }

  /**
   * What a scan can have reached on a line that begins with a cut frame: all of one frame, or nothing that JSON
   * allows.
   */
  ghost predicate Spoiled(line: string) {
    var s := Scanned(START, line);
    Open(s) || s == Bad
  }

  /** A single cut is spoiled unless it is the whole frame. */
  lemma CutSpoils(text: string, p: Piece)
    requires IsCut(text, p)
    ensures if text == Render(p) then Scanned(START, text) == FINISHED else Spoiled(text)
  {
    hide Render;
    ScannedSane(START, text);
    FrameScan(p, 0, |text|);
    if |text| == |Render(p)| {
      assert text == Render(p);
    }
  }

  /** Whatever is appended to a cut frame, another cut or a whole one, the line is not JSON. */
  lemma GluedSpoils(line: string, text: string, p: Piece)
    requires IsCut(text, p) && (Spoiled(line) || Scanned(START, line) == FINISHED)
    ensures Spoiled(line + text)
  {
    hide Render, Scanned;
    ScannedConcat(START, line, text);
    CutAfter(Scanned(START, line), text, p);
  }

  lemma SpoiledNotBalanced(line: string)
    requires Spoiled(line)
    ensures !Balanced(line)
  {
  }

  // ----- a line determines its frame

  lemma {:induction false} EscapePrefixFree(c: char, u: string, d: char, v: string)
    requires EscapeChar(c) + u == EscapeChar(d) + v
    ensures c == d && u == v
  {
    var x, y := EscapeChar(c) + u, EscapeChar(d) + v;
    assert x[0] == EscapeChar(c)[0] && y[0] == EscapeChar(d)[0];
    if |EscapeChar(c)| > 1 {
      assert x[1] == EscapeChar(c)[1];
    }
    if |EscapeChar(d)| > 1 {
      assert y[1] == EscapeChar(d)[1];
    }
    if |EscapeChar(c)| == 6 && |EscapeChar(d)| == 6 {
      assert x[4] == EscapeChar(c)[4] && x[5] == EscapeChar(c)[5];
      assert y[4] == EscapeChar(d)[4] && y[5] == EscapeChar(d)[5];
      HexInjective(c as int / 16, d as int / 16);
      HexInjective(c as int % 16, d as int % 16);
    }
    assert c == d;
    assert u == x[|EscapeChar(c)|..] && v == y[|EscapeChar(d)|..];
  }

  lemma HexInjective(a: nat, b: nat)
    requires a < 16 && b < 16 && HexDigit(a) == HexDigit(b)
    ensures a == b
  {
  }

  lemma {:induction false} EscapeDecodes(m: string, u: string, n: string, v: string)
    requires Escape(m) + ['"'] + u == Escape(n) + ['"'] + v
    ensures m == n && u == v
  {
    hide EscapeChar;
    QuoteFirst(m, u);
    QuoteFirst(n, v);
    if m == "" {
      assert u == (Escape(m) + ['"'] + u)[1..] && v == (Escape(n) + ['"'] + v)[1..];
    } else {
      var a, b := Escape(m[1..]) + ['"'] + u, Escape(n[1..]) + ['"'] + v;
      assert Escape(m) + ['"'] + u == EscapeChar(m[0]) + a;
      assert Escape(n) + ['"'] + v == EscapeChar(n[0]) + b;
      EscapePrefixFree(m[0], a, n[0], b);
      EscapeDecodes(m[1..], u, n[1..], v);
      assert m == [m[0]] + m[1..] && n == [n[0]] + n[1..];
    }
  }

  lemma QuoteFirst(s: string, rest: string)
    ensures (Escape(s) + ['"'] + rest)[0] == '"' <==> s == ""
  {
    if s != "" {
      assert (Escape(s) + ['"'] + rest)[0] == EscapeChar(s[0])[0];
    }
  }

  lemma {:induction false} DigitsDecode(m: string, u: string, n: string, v: string)
    requires AllDigits(m) && AllDigits(n) && m + "," + u == n + "," + v
    ensures m == n && u == v
  {
    var x, y := m + "," + u, n + "," + v;
    assert x[|m|] == ',' && y[|n|] == ',';
    assert forall i :: 0 <= i < |m| ==> IsDigit(m[i]) && x[i] == m[i];
    assert forall i :: 0 <= i < |n| ==> IsDigit(n[i]) && y[i] == n[i];
    assert |m| == |n|;
    assert m == x[..|m|] && n == y[..|n|] && u == x[|m| + 1..] && v == y[|n| + 1..];
  }

  lemma SamePrefix(a: string, u: string, v: string)
    requires a + u == a + v
    ensures u == v
  {
    assert u == (a + u)[|a|..] && v == (a + v)[|a|..];
  }

  lemma DigitsInjective(m: nat, n: nat)
    requires Digits(m) == Digits(n)
    ensures m == n
  {
    DigitsCorrect(m);
    DigitsCorrect(n);
  }

  /** Different frames are written as different lines. */
  lemma RenderInjective(p: Piece, q: Piece)
    requires p.FramePiece? && q.FramePiece? && Render(p) == Render(q)
    ensures p == q
  {
    hide Digits, Escape, Key;
    var a, b := "{" + Key("connection_id"), Key("payload") + ['"'];
    var c, d := "," + Key("received_ns"), Key("type") + Quoted("frame") + "}";
    var p2 := Digits(p.receivedNs) + "," + d;
    var q2 := Digits(q.receivedNs) + "," + d;
    var p1 := Escape(p.payload) + ['"'] + (c + p2);
    var q1 := Escape(q.payload) + ['"'] + (c + q2);
    RenderLayout(p, a, b, c, d);
    RenderLayout(q, a, b, c, d);
    DigitsCorrect(p.connection);
    DigitsCorrect(q.connection);
    DigitsCorrect(p.receivedNs);
    DigitsCorrect(q.receivedNs);
    SamePrefix(a, Digits(p.connection) + "," + (b + p1), Digits(q.connection) + "," + (b + q1));
    DigitsDecode(Digits(p.connection), b + p1, Digits(q.connection), b + q1);
    SamePrefix(b, p1, q1);
    EscapeDecodes(p.payload, c + p2, q.payload, c + q2);
    SamePrefix(c, p2, q2);
    DigitsDecode(Digits(p.receivedNs), d, Digits(q.receivedNs), d);
    DigitsInjective(p.connection, q.connection);
    DigitsInjective(p.receivedNs, q.receivedNs);
  }

  /** And a frame is never written as metadata. */
  lemma KindsDiffer(p: Piece, q: Piece)
    requires p.MetadataPiece? && q.FramePiece?
    ensures Render(p) != Render(q)
  {
    MetadataStart(p);
    hide Render;
    FrameStart(q);
  }

  predicate HasThird(text: string, c: char) {
    |text| > 2 && text[2] == c
  }

  lemma MetadataStart(p: Piece)
    requires p.MetadataPiece?
    ensures HasThird(Render(p), 'e')
  {
    hide Listed, Quoted;
    QuotedStart("endpoint", 'e');
  }

  lemma RenderLayout(p: Piece, a: string, b: string, c: string, d: string)
    requires p.FramePiece?
    requires a == "{" + Key("connection_id") && b == Key("payload") + ['"']
    requires c == "," + Key("received_ns") && d == Key("type") + Quoted("frame") + "}"
    ensures Render(p) ==
            a + (Digits(p.connection) + "," +
                 (b + (Escape(p.payload) + ['"'] + (c + (Digits(p.receivedNs) + "," + d)))))
  {
    hide Digits, Escape, Key;
    var e, f := Escape(p.payload) + ['"'], Digits(p.receivedNs) + ",";
    assert Quoted(p.payload) == ['"'] + e;
    assert Key("payload") + Quoted(p.payload) == b + e;
  }

  // ----- the two limits

  const MAXIMUM_MESSAGE_SIZE: nat := 4 * 1024 * 1024
  const MAXIMUM_RECORD_SIZE: nat := 8 * 1024 * 1024

  function Quotes(n: nat): string {
    seq(n, _ => '"')
  }

  lemma {:induction false} QuotesEscape(n: nat)
    ensures |Escape(Quotes(n))| == 2 * n
    ensures ValidUtf8(Quotes(n))
  {
    QuotesValid(n, 0);
    QuotesDouble(n);
  }

  lemma {:induction false} QuotesDouble(n: nat)
    ensures |Escape(Quotes(n))| == 2 * n
  {
    if n > 0 {
      assert Quotes(n)[1..] == Quotes(n - 1);
      QuotesDouble(n - 1);
    }
  }

  lemma {:induction false} QuotesValid(n: nat, i: nat)
    requires i <= n
    ensures ValidFrom(Quotes(n), i)
    decreases n - i
  {
    if i < n {
      QuotesValid(n, i + 1);
    }
  }

  lemma FrameLongerThanPayload(p: Piece)
    requires p.FramePiece?
    ensures |Render(p)| > |Escape(p.payload)|
  {
    hide Escape, Digits, Key;
  }

  /**
   * A message within the capture's limit whose line is beyond the reader's: four million quotes double when escaped.
   */
  lemma LimitsDisagree(receivedNs: u64, connection: nat)
    ensures |Quotes(MAXIMUM_MESSAGE_SIZE)| <= MAXIMUM_MESSAGE_SIZE && ValidUtf8(Quotes(MAXIMUM_MESSAGE_SIZE))
    ensures |Render(FramePiece(receivedNs, connection, Quotes(MAXIMUM_MESSAGE_SIZE)))| > MAXIMUM_RECORD_SIZE
  {
    hide Escape, Render;
    QuotesEscape(MAXIMUM_MESSAGE_SIZE);
    FrameLongerThanPayload(FramePiece(receivedNs, connection, Quotes(MAXIMUM_MESSAGE_SIZE)));
  }
}
