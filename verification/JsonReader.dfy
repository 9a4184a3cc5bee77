/** Reading JSON (RFC 8259) back: strings, unsigned integers, arrays and objects without white space. */
module JsonReader {
  import opened Words
  import opened Numerals
  import opened JsonText
  import opened Utf8

  datatype Value = Str(text: string) | Num(number: nat) | Arr(items: seq<Value>) | Obj(members: seq<Member>)

  datatype Member = Member(name: string, value: Value)

  // ----- strings, section 7

  function HexValue(c: char): Option<nat> {
    if '0' <= c <= '9' then Some(c as int - '0' as int)
    else if 'a' <= c <= 'f' then Some(c as int - 'a' as int + 10)
    else if 'A' <= c <= 'F' then Some(c as int - 'A' as int + 10)
    else None
  }

  /** The code point of four hexadecimal digits, if they are that and it stands for itself. */
  function HexPoint(text: string): Option<nat> {
    if |text| < 4 || exists i :: 0 <= i < 4 && HexValue(text[i]).None? then None
    else
      var point := HexValue(text[0]).value * 4096 + HexValue(text[1]).value * 256 + HexValue(text[2]).value * 16 +
                   HexValue(text[3]).value;
      if IsScalar(point) then Some(point) else None
  }

  /** What a backslash and one character stand for. */
  function Short(c: char): Option<char> {
    match c
    case '"' => Some('"')
    case '\\' => Some('\\')
    case '/' => Some('/')
    case 'b' => Some(8 as char)
    case 'f' => Some(12 as char)
    case 'n' => Some(10 as char)
    case 'r' => Some(13 as char)
    case 't' => Some(9 as char)
    case _ => None
  }

  function Prepend(text: string, r: Option<(string, string)>): Option<(string, string)> {
    if r.None? then None else Some((text + r.value.0, r.value.1))
  }

  /** The string whose opening quotation mark has been read, and what follows its closing one. */
  function Chars(text: string): (r: Option<(string, string)>)
    ensures r.Some? ==> |r.value.1| < |text|
    decreases |text|
  {
    if text == "" then None
    else if text[0] == '"' then Some(("", text[1..]))
    else if text[0] as int < 0x20 then None
    else if text[0] != '\\' then Prepend([text[0]], Chars(text[1..]))
    else if |text| < 2 then None
    else if text[1] == 'u' then
      if HexPoint(text[2..]).None? then None else Prepend(Encode(HexPoint(text[2..]).value), Chars(text[6..]))
    else if Short(text[1]).None? then None
    else Prepend([Short(text[1]).value], Chars(text[2..]))
  }

  /** The text between two quotation marks, if it is a string. */
  function Unescape(s: string): Option<string> {
    var r := Chars(s + ['"']);
    if r.Some? && r.value.1 == "" then Some(r.value.0) else None
  }

  lemma HexDigitReads(d: nat)
    requires d < 16
    ensures HexValue(HexDigit(d)) == Some(d)
  {
  }

  /** One dumped character is read as that character. */
  lemma EscapeCharReads(c: char, rest: string)
    ensures Chars(EscapeChar(c) + rest) == Prepend([c], Chars(rest))
  {
    var e, text := EscapeChar(c), EscapeChar(c) + rest;
    assert text[|e|..] == rest;
    assert text[0] == e[0];
    if |e| >= 2 {
      assert text[1] == e[1];
    }
    if |e| == 6 {
      var n := c as int;
      HexDigitReads(n / 16);
      HexDigitReads(n % 16);
      var digits := text[2..];
      assert digits[0] == '0' && digits[1] == '0' && digits[2] == HexDigit(n / 16) && digits[3] == HexDigit(n % 16);
      assert HexPoint(digits) == Some(n);
      assert Encode(n) == [c];
    }
  }

  /** A dumped text, its closing quotation mark and anything behind it are read as that text and what is behind it. */
  lemma {:induction false} CharsOfEscape(s: string, rest: string)
    ensures Chars(Escape(s) + ['"'] + rest) == Some((s, rest))
  {
    hide EscapeChar;
    if s == "" {
      assert Escape(s) + ['"'] + rest == ['"'] + rest;
      QuoteCloses(rest);
    } else {
      hide Chars;
      var more := Escape(s[1..]) + ['"'] + rest;
      assert Escape(s) + ['"'] + rest == EscapeChar(s[0]) + more;
      EscapeCharReads(s[0], more);
      CharsOfEscape(s[1..], rest);
      assert [s[0]] + s[1..] == s;
    }
  }

  lemma QuoteCloses(rest: string)
    ensures Chars(['"'] + rest) == Some(("", rest))
  {
    assert (['"'] + rest)[1..] == rest;
  }

  /** Every text survives the dump: read as a JSON string it is the text that was dumped. */
  lemma UnescapeEscape(s: string)
    ensures Unescape(Escape(s)) == Some(s)
  {
    CharsOfEscape(s, "");
    assert Escape(s) + ['"'] + "" == Escape(s) + ['"'];
  }

  // ----- values

  function DigitPrefix(text: string): (n: nat)
    ensures n <= |text| && AllDigits(text[..n])
    ensures n < |text| ==> !IsDigit(text[n])
  {
    if text == "" || !IsDigit(text[0]) then 0
    else
      var n := DigitPrefix(text[1..]);
      assert text[..n + 1] == [text[0]] + text[1..][..n];
      n + 1
  }

  /** An unsigned integer without redundant zeros, section 6. */
  function ReadNumber(text: string): (r: Option<(Value, string)>)
    ensures r.Some? ==> |r.value.1| < |text|
  {
    var n := DigitPrefix(text);
    if n == 0 || (n > 1 && text[0] == '0') then None else Some((Num(Numerals.Value(text[..n])), text[n..]))
  }

  /** A value at the start of the text, and what is behind it. */
  function ReadValue(text: string): (r: Option<(Value, string)>)
    ensures r.Some? ==> |r.value.1| < |text|
    decreases |text|, 0
  {
    if text == "" then None
    else if text[0] == '"' then
      var r := Chars(text[1..]);
      if r.None? then None else Some((Str(r.value.0), r.value.1))
    else if text[0] == '[' then
      if |text| > 1 && text[1] == ']' then Some((Arr([]), text[2..]))
      else
        var r := ReadItems(text[1..]);
        if r.None? then None else Some((Arr(r.value.0), r.value.1))
    else if text[0] == '{' then
      if |text| > 1 && text[1] == '}' then Some((Obj([]), text[2..]))
      else
        var r := ReadMembers(text[1..]);
        if r.None? then None else Some((Obj(r.value.0), r.value.1))
    else ReadNumber(text)
  }

  /** The items of an array up to and with its closing bracket. */
  function ReadItems(text: string): (r: Option<(seq<Value>, string)>)
    ensures r.Some? ==> |r.value.1| < |text|
    decreases |text|, 1
  {
    var first := ReadValue(text);
    if first.None? || first.value.1 == "" then None
    else
      var (value, more) := first.value;
      if more[0] == ']' then Some(([value], more[1..]))
      else if more[0] != ',' then None
      else
        var r := ReadItems(more[1..]);
        if r.None? then None else Some(([value] + r.value.0, r.value.1))
  }

  /** The members of an object up to and with its closing brace. */
  function ReadMembers(text: string): (r: Option<(seq<Member>, string)>)
    ensures r.Some? ==> |r.value.1| < |text|
    decreases |text|, 1
  {
    if text == "" || text[0] != '"' then None
    else
      var name := Chars(text[1..]);
      if name.None? || name.value.1 == "" || name.value.1[0] != ':' then None
      else
        var first := ReadValue(name.value.1[1..]);
        if first.None? || first.value.1 == "" then None
        else
          var (value, more) := first.value;
          var member := Member(name.value.0, value);
          if more[0] == '}' then Some(([member], more[1..]))
          else if more[0] != ',' then None
          else
            var r := ReadMembers(more[1..]);
            if r.None? then None else Some(([member] + r.value.0, r.value.1))
  }

  /** The members of the only value of a text, if that is an object. */
  function ReadObject(text: string): Option<seq<Member>> {
    var r := ReadValue(text);
    if r.Some? && r.value.1 == "" && r.value.0.Obj? then Some(r.value.0.members) else None
  }

  /** The member of that name. */
  function Find(members: seq<Member>, name: string): Option<Value> {
    if members == [] then None else if members[0].name == name then Some(members[0].value) else Find(members[1..], name)
  }

  // ----- reading what was dumped

  lemma QuotedReads(s: string, rest: string)
    ensures ReadValue(Quoted(s) + rest) == Some((Str(s), rest))
  {
    hide Chars, Escape;
    var text := Quoted(s) + rest;
    assert text[0] == '"' && text[1..] == Escape(s) + ['"'] + rest;
    CharsOfEscape(s, rest);
  }

  lemma {:induction false} DigitPrefixIs(digits: string, rest: string)
    requires AllDigits(digits) && (rest != "" ==> !IsDigit(rest[0]))
    ensures DigitPrefix(digits + rest) == |digits|
  {
    if digits == "" {
      assert digits + rest == rest;
    } else {
      assert (digits + rest)[1..] == digits[1..] + rest;
      DigitPrefixIs(digits[1..], rest);
    }
  }

  lemma DigitsRead(n: nat, rest: string)
    requires rest != "" && !IsDigit(rest[0])
    ensures ReadValue(Digits(n) + rest) == Some((Num(n), rest))
  {
    hide Digits, Numerals.Value, DigitPrefix;
    var digits := Digits(n);
    DigitsCorrect(n);
    DigitPrefixIs(digits, rest);
    var text := digits + rest;
    assert text[0] == digits[0] && IsDigit(text[0]);
    assert text[..|digits|] == digits && text[|digits|..] == rest;
  }

  /** The members behind a name, a colon, the text of a value and what is behind that. */
  lemma MemberReads(name: string, text: string, value: Value, more: string)
    requires more != "" && ReadValue(text + more) == Some((value, more))
    ensures ReadMembers(Key(name) + (text + more)) ==
            if more[0] == '}' then Some(([Member(name, value)], more[1..]))
            else if more[0] == ',' && ReadMembers(more[1..]).Some?
            then Some(([Member(name, value)] + ReadMembers(more[1..]).value.0, ReadMembers(more[1..]).value.1))
            else None
  {
    hide Chars, Escape, ReadValue;
    var all := Key(name) + (text + more);
    assert all[0] == '"' && all[1..] == Escape(name) + ['"'] + ([':'] + (text + more));
    CharsOfEscape(name, [':'] + (text + more));
    assert ([':'] + (text + more))[1..] == text + more;
    MembersStep(all);
  }

  lemma MembersStep(text: string)
    requires text != "" && text[0] == '"' && Chars(text[1..]).Some?
    requires Chars(text[1..]).value.1 != "" && Chars(text[1..]).value.1[0] == ':'
    ensures var name, after := Chars(text[1..]).value.0, Chars(text[1..]).value.1[1..];
            ReadMembers(text) ==
            if ReadValue(after).None? || ReadValue(after).value.1 == "" then None
            else
              var (value, more) := ReadValue(after).value;
              if more[0] == '}' then Some(([Member(name, value)], more[1..]))
              else if more[0] == ',' && ReadMembers(more[1..]).Some?
              then Some(([Member(name, value)] + ReadMembers(more[1..]).value.0, ReadMembers(more[1..]).value.1))
              else None
  {
    hide Chars, ReadValue;
  }

  function FrameMembers(receivedNs: u64, connection: nat, payload: string): seq<Member> {
    [Member("connection_id", Num(connection)), Member("payload", Str(payload)), Member("received_ns", Num(receivedNs)),
     Member("type", Str("frame"))]
  }

  lemma StringMember(name: string, value: string, more: string, members: seq<Member>)
    requires ReadMembers(more) == Some((members, ""))
    ensures ReadMembers(Key(name) + Quoted(value) + "," + more) == Some(([Member(name, Str(value))] + members, ""))
  {
    hide ReadMembers, ReadValue, Key, Quoted;
    QuotedReads(value, "," + more);
    MemberReads(name, Quoted(value), Str(value), "," + more);
    assert Key(name) + (Quoted(value) + ("," + more)) == Key(name) + Quoted(value) + "," + more;
    assert ("," + more)[1..] == more;
  }

  lemma NumberMember(name: string, value: nat, more: string, members: seq<Member>)
    requires ReadMembers(more) == Some((members, ""))
    ensures ReadMembers(Key(name) + Digits(value) + "," + more) == Some(([Member(name, Num(value))] + members, ""))
  {
    hide ReadMembers, ReadValue, Key, Digits;
    DigitsRead(value, "," + more);
    MemberReads(name, Digits(value), Num(value), "," + more);
    assert Key(name) + (Digits(value) + ("," + more)) == Key(name) + Digits(value) + "," + more;
    assert ("," + more)[1..] == more;
  }

  lemma LastString(name: string, value: string)
    ensures ReadMembers(Key(name) + Quoted(value) + "}") == Some(([Member(name, Str(value))], ""))
  {
    hide ReadMembers, ReadValue, Key, Quoted;
    QuotedReads(value, "}");
    MemberReads(name, Quoted(value), Str(value), "}");
    assert Key(name) + (Quoted(value) + "}") == Key(name) + Quoted(value) + "}";
  }

  lemma ObjectReads(text: string, members: seq<Member>)
    requires text != "" && text[0] == '"' && ReadMembers(text) == Some((members, ""))
    ensures ReadObject("{" + text) == Some(members)
  {
    hide ReadMembers;
    assert ("{" + text)[1..] == text;
  }

  /** A frame's line, read back: under their names the connection id, the payload, the receipt time and the type. */
  lemma FrameReads(p: Piece)
    requires p.FramePiece?
    ensures ReadObject(Render(p)) == Some(FrameMembers(p.receivedNs, p.connection, p.payload))
  {
    hide ReadMembers, Key, Quoted, Digits;
    var d := Key("type") + Quoted("frame") + "}";
    var c := Key("received_ns") + Digits(p.receivedNs) + "," + d;
    var b := Key("payload") + Quoted(p.payload) + "," + c;
    var a := Key("connection_id") + Digits(p.connection) + "," + b;
    LastString("type", "frame");
    NumberMember("received_ns", p.receivedNs, d, [Member("type", Str("frame"))]);
    StringMember("payload", p.payload, c, [Member("received_ns", Num(p.receivedNs))] + [Member("type", Str("frame"))]);
    NumberMember("connection_id", p.connection, b,
                 [Member("payload", Str(p.payload))] +
                 ([Member("received_ns", Num(p.receivedNs))] + [Member("type", Str("frame"))]));
    FrameShape(p, a, b, c, d);
    KeyQuotes("connection_id");
    assert a[0] == Key("connection_id")[0];
    assert [Member("connection_id", Num(p.connection))] +
           ([Member("payload", Str(p.payload))] +
            ([Member("received_ns", Num(p.receivedNs))] + [Member("type", Str("frame"))])) ==
           FrameMembers(p.receivedNs, p.connection, p.payload);
    ObjectReads(a, FrameMembers(p.receivedNs, p.connection, p.payload));
  }

  lemma KeyQuotes(name: string)
    ensures Key(name) != "" && Key(name)[0] == '"'
  {
  }

  lemma FrameShape(p: Piece, a: string, b: string, c: string, d: string)
    requires p.FramePiece? && d == Key("type") + Quoted("frame") + "}"
    requires c == Key("received_ns") + Digits(p.receivedNs) + "," + d
    requires b == Key("payload") + Quoted(p.payload) + "," + c
    requires a == Key("connection_id") + Digits(p.connection) + "," + b
    ensures Render(p) == "{" + a
  {
    hide Key, Quoted, Digits;
    var e := Key("type") + Quoted("frame");
    var f := Key("received_ns") + Digits(p.receivedNs) + "," + e;
    var g := Key("payload") + Quoted(p.payload) + "," + f;
    assert f + "}" == c;
    assert g + "}" == b;
    assert Key("connection_id") + Digits(p.connection) + "," + g + "}" == a;
  }

  // ----- the metadata line

  function Texts(products: seq<string>): seq<Value> {
    seq(|products|, i requires 0 <= i < |products| => Str(products[i]))
  }

  lemma {:induction false} ListedReads(products: seq<string>, rest: string)
    requires products != []
    ensures ReadItems(Listed(products) + "]" + rest) == Some((Texts(products), rest))
  {
    hide ReadValue, Quoted;
    if |products| == 1 {
      QuotedReads(products[0], "]" + rest);
      assert Listed(products) + "]" + rest == Quoted(products[0]) + ("]" + rest);
      assert ("]" + rest)[1..] == rest;
      assert Texts(products) == [Str(products[0])];
    } else {
      var more := Listed(products[1..]) + "]" + rest;
      ListedReads(products[1..], rest);
      QuotedReads(products[0], "," + more);
      assert Listed(products) + "]" + rest == Quoted(products[0]) + ("," + more);
      assert ("," + more)[1..] == more;
      assert Texts(products) == [Str(products[0])] + Texts(products[1..]);
    }
  }

  lemma ArrayReads(products: seq<string>, rest: string)
    ensures ReadValue("[" + Listed(products) + "]" + rest) == Some((Arr(Texts(products)), rest))
  {
    hide ReadItems, ReadMembers, ReadNumber, Quoted;
    var text := "[" + Listed(products) + "]" + rest;
    assert text[0] == '[' && text[1..] == Listed(products) + "]" + rest;
    if products == [] {
      assert text[1] == ']' && text[2..] == rest && Texts(products) == [];
    } else {
      ListedReads(products, rest);
      ListedQuotes(products);
      assert text[1] == Listed(products)[0];
    }
  }

  lemma ListedQuotes(products: seq<string>)
    requires products != []
    ensures Listed(products) != "" && Listed(products)[0] == '"'
  {
  }

  lemma ArrayMember(name: string, products: seq<string>, more: string, members: seq<Member>)
    requires ReadMembers(more) == Some((members, ""))
    ensures ReadMembers(Key(name) + "[" + Listed(products) + "]," + more) ==
            Some(([Member(name, Arr(Texts(products)))] + members, ""))
  {
    hide ReadMembers, ReadValue, Key, Listed;
    var text := "[" + Listed(products) + "]";
    ArrayReads(products, "," + more);
    MemberReads(name, text, Arr(Texts(products)), "," + more);
    assert "]" + "," == "],";
    assert Key(name) + (text + ("," + more)) == Key(name) + "[" + Listed(products) + "]," + more;
    assert ("," + more)[1..] == more;
  }

  lemma VersionMember()
    ensures ReadMembers(Key("version") + "1}") == Some(([Member("version", Num(1))], ""))
  {
    hide ReadMembers, ReadValue, Key;
    assert Digits(1) == "1";
    DigitsRead(1, "}");
    MemberReads("version", "1", Num(1), "}");
    assert Key("version") + ("1" + "}") == Key("version") + "1}";
  }

  function MetadataMembers(endpoint: string, products: seq<string>): seq<Member> {
    [Member("endpoint", Str(endpoint)), Member("format", Str("bengal-market-capture")),
     Member("product_ids", Arr(Texts(products))), Member("source", Str("coinbase-advanced-trade")),
     Member("type", Str("metadata")), Member("version", Num(1))]
  }

  /** The metadata line, read back. */
  lemma MetadataReads(endpoint: string, products: seq<string>)
    ensures ReadObject(Render(MetadataPiece(endpoint, products))) == Some(MetadataMembers(endpoint, products))
  {
    hide ReadMembers, Key, Quoted, Listed;
    var f := Key("version") + "1}";
    var e := Key("type") + Quoted("metadata") + "," + f;
    var d := Key("source") + Quoted("coinbase-advanced-trade") + "," + e;
    var c := Key("product_ids") + "[" + Listed(products) + "]," + d;
    var b := Key("format") + Quoted("bengal-market-capture") + "," + c;
    var a := Key("endpoint") + Quoted(endpoint) + "," + b;
    var all := MetadataMembers(endpoint, products);
    VersionMember();
    assert all[5..] == [all[5]];
    StringMember("type", "metadata", f, all[5..]);
    assert all[4..] == [all[4]] + all[5..];
    StringMember("source", "coinbase-advanced-trade", e, all[4..]);
    assert all[3..] == [all[3]] + all[4..];
    ArrayMember("product_ids", products, d, all[3..]);
    assert all[2..] == [all[2]] + all[3..];
    StringMember("format", "bengal-market-capture", c, all[2..]);
    assert all[1..] == [all[1]] + all[2..];
    StringMember("endpoint", endpoint, b, all[1..]);
    assert all == [all[0]] + all[1..];
    MetadataShape(endpoint, products, a, b, c, d, e, f);
    KeyQuotes("endpoint");
    ObjectReads(a, all);
  }

  lemma Reassociate(line: string, x: string, y: string, z: string, more: string)
    ensures line + (x + y + z + more) == (line + x + y + z) + more
  {
  }

  lemma MetadataShape(endpoint: string, products: seq<string>, a: string, b: string, c: string, d: string, e: string,
                      f: string)
    requires f == Key("version") + "1}"
    requires e == Key("type") + Quoted("metadata") + "," + f
    requires d == Key("source") + Quoted("coinbase-advanced-trade") + "," + e
    requires c == Key("product_ids") + "[" + Listed(products) + "]," + d
    requires b == Key("format") + Quoted("bengal-market-capture") + "," + c
    requires a == Key("endpoint") + Quoted(endpoint) + "," + b
    ensures Render(MetadataPiece(endpoint, products)) == "{" + a
  {
    hide Key, Quoted, Listed;
    var l1 := "{" + Key("endpoint") + Quoted(endpoint) + ",";
    var l2 := l1 + Key("format") + Quoted("bengal-market-capture") + ",";
    var l3 := l2 + Key("product_ids") + "[" + Listed(products) + "],";
    var l4 := l3 + Key("source") + Quoted("coinbase-advanced-trade") + ",";
    var l5 := l4 + Key("type") + Quoted("metadata") + ",";
    Reassociate("{", Key("endpoint"), Quoted(endpoint), ",", b);
    Reassociate(l1, Key("format"), Quoted("bengal-market-capture"), ",", c);
    Reassociate(l2, Key("product_ids") + "[", Listed(products), "],", d);
    assert l2 + (Key("product_ids") + "[") == l2 + Key("product_ids") + "[";
    Reassociate(l3, Key("source"), Quoted("coinbase-advanced-trade"), ",", e);
    Reassociate(l4, Key("type"), Quoted("metadata"), ",", f);
    assert l5 + f == l5 + Key("version") + "1}";
  }

  // ----- what is read is balanced

  lemma ScanHead(s: Scan, text: string)
    requires text != ""
    ensures Scanned(s, text) == Scanned(Next(s, text[0]), text[1..])
  {
    ScannedConcat(s, [text[0]], text[1..]);
    ScannedOne(s, text[0]);
    assert text == [text[0]] + text[1..];
  }

  lemma ScanTwo(s: Scan, text: string)
    requires |text| >= 2
    ensures Scanned(s, text) == Scanned(Next(Next(s, text[0]), text[1]), text[2..])
  {
    ScanHead(s, text);
    ScanHead(Next(s, text[0]), text[1..]);
    assert text[1..][1..] == text[2..];
  }

  lemma HexScan(text: string, depth: nat)
    requires |text| >= 6 && text[0] == '\\' && text[1] == 'u' && HexPoint(text[2..]).Some?
    ensures Scanned(Inside(depth), text) == Scanned(Inside(depth), text[6..])
  {
    hide Scanned;
    var digits := text[2..];
    forall i | 0 <= i < 4
      ensures Next(Inside(depth), digits[i]) == Inside(depth)
    {
      assert HexValue(digits[i]).Some?;
    }
    hide HexPoint, HexValue;
    ScanTwo(Inside(depth), text);
    ScanTwo(Inside(depth), digits);
    ScanTwo(Inside(depth), digits[2..]);
    assert digits[2..][2..] == text[6..];
  }

  lemma {:induction false} CharsScan(text: string, depth: nat)
    ensures Chars(text).Some? ==> Scanned(Inside(depth), text) == Scanned(AfterString(depth), Chars(text).value.1)
    decreases |text|
  {
    hide Scanned, HexPoint, Encode;
    if Chars(text).Some? {
      ScanHead(Inside(depth), text);
      if text[0] == '\\' {
        ScanTwo(Inside(depth), text);
        if text[1] == 'u' {
          assert |text| >= 6 by {
            PointNeedsFour(text[2..]);
          }
          HexScan(text, depth);
          CharsScan(text[6..], depth);
        } else {
          CharsScan(text[2..], depth);
        }
      } else if text[0] != '"' {
        CharsScan(text[1..], depth);
      }
    }
  }

  lemma PointNeedsFour(text: string)
    ensures HexPoint(text).Some? ==> |text| >= 4
  {
  }

  lemma NumberScan(text: string, depth: nat)
    ensures ReadNumber(text).Some? ==>
              Scanned(Outside(depth), text) == Scanned(Outside(depth), ReadNumber(text).value.1)
  {
    hide Scanned, DigitPrefix, Numerals.Value;
    var n := DigitPrefix(text);
    DigitsSteady(text[..n], depth);
    ScannedConcat(Outside(depth), text[..n], text[n..]);
    assert text == text[..n] + text[n..];
  }

  /** What a scan knows right after a value. */
  function AfterValue(value: Value, depth: nat): Scan {
    match value
    case Str(_) => AfterString(depth)
    case Num(_) => Outside(depth)
    case _ => Closed(depth)
  }

  function Closed(depth: nat): Scan {
    Scan(false, false, false, depth, depth == 0)
  }

  lemma {:induction false} ValueScans(text: string, depth: nat)
    ensures ReadValue(text).Some? ==>
              var (value, rest) := ReadValue(text).value;
              Scanned(Outside(depth), text) == Scanned(AfterValue(value, depth), rest)
    decreases |text|, 0
  {
    hide Scanned, Chars, ReadNumber, ReadItems, ReadMembers;
    if text != "" {
      ScanHead(Outside(depth), text);
      if text[0] == '"' {
        CharsScan(text[1..], depth);
      } else if text[0] == '[' || text[0] == '{' {
        if |text| > 1 {
          ScanTwo(Outside(depth), text);
        }
        ItemsScan(text[1..], depth + 1);
        MembersScan(text[1..], depth + 1);
      } else {
        NumberScan(text, depth);
        NumberReadsNumber(text);
      }
    }
  }

  lemma NumberReadsNumber(text: string)
    ensures ReadNumber(text).Some? ==> ReadNumber(text).value.0.Num?
  {
  }

  lemma {:induction false} ItemsScan(text: string, depth: nat)
    requires depth >= 1
    ensures ReadItems(text).Some? ==>
              Scanned(Outside(depth), text) == Scanned(Closed(depth - 1), ReadItems(text).value.1)
    decreases |text|, 1
  {
    hide Scanned, ReadValue;
    if ReadItems(text).Some? {
      var (value, more) := ReadValue(text).value;
      ValueScans(text, depth);
      ScanHead(AfterValue(value, depth), more);
      ItemsScan(more[1..], depth);
    }
  }

  lemma {:induction false} MembersScan(text: string, depth: nat)
    requires depth >= 1
    ensures ReadMembers(text).Some? ==>
              Scanned(Outside(depth), text) == Scanned(Closed(depth - 1), ReadMembers(text).value.1)
    decreases |text|, 1
  {
    hide Scanned, ReadValue, Chars;
    if ReadMembers(text).Some? {
      var after := Chars(text[1..]).value.1;
      var (value, more) := ReadValue(after[1..]).value;
      ScanHead(Outside(depth), text);
      CharsScan(text[1..], depth);
      ScanHead(AfterString(depth), after);
      ValueScans(after[1..], depth);
      ScanHead(AfterValue(value, depth), more);
      MembersScan(more[1..], depth);
    }
  }

  /** A text that is one object passes the scan. */
  lemma ObjectBalanced(text: string)
    ensures ReadObject(text).Some? ==> Balanced(text)
  {
    hide ReadValue;
    if ReadObject(text).Some? {
      ValueScans(text, 0);
    }
  }
}
