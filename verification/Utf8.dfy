/** Well-formed UTF-8 against the code points it encodes (RFC 3629). */
module Utf8 {
  import opened Words
  import opened Numerals
  import opened JsonText

  /** The code points there are: the surrogates are not among them. */
  predicate IsScalar(point: nat) {
    point <= 0x10_FFFF && !(0xD800 <= point <= 0xDFFF)
  }

  /** The bytes of a code point (RFC 3629 section 3): six bits go into each byte but the first. */
  function Encode(point: nat): (bytes: string)
    requires point <= 0x10_FFFF && IsScalar(point)
    ensures 1 <= |bytes| <= 4
  {
    if point < 0x80 then [point as char]
    else if point < 0x800 then [(0xC0 + point / 64) as char, (0x80 + point % 64) as char]
    else if point < 0x1_0000 then
      [(0xE0 + point / 4096) as char, (0x80 + point / 64 % 64) as char, (0x80 + point % 64) as char]
    else
      [(0xF0 + point / 262_144) as char, (0x80 + point / 4096 % 64) as char, (0x80 + point / 64 % 64) as char,
       (0x80 + point % 64) as char]
  }

  predicate AllScalar(points: seq<nat>) {
    forall i :: 0 <= i < |points| ==> IsScalar(points[i])
  }

  function EncodeAll(points: seq<nat>): string
    requires AllScalar(points)
  {
    if points == [] then "" else Encode(points[0]) + EncodeAll(points[1..])
  }

  /** What a well-formed sequence at `i` encodes. */
  function Decode(s: string, i: nat): nat
    requires i < |s| && SequenceLength(s, i) > 0
  {
    var n, a := SequenceLength(s, i), s[i] as int;
    if n == 1 then a
    else if n == 2 then (a - 0xC0) * 64 + (s[i + 1] as int - 0x80)
    else if n == 3 then (a - 0xE0) * 4096 + (s[i + 1] as int - 0x80) * 64 + (s[i + 2] as int - 0x80)
    else
      (a - 0xF0) * 262_144 + (s[i + 1] as int - 0x80) * 4096 + (s[i + 2] as int - 0x80) * 64 + (s[i + 3] as int - 0x80)
  }

  lemma SixBits(x: nat, y: nat)
    requires y < 64
    ensures (x * 64 + y) / 64 == x && (x * 64 + y) % 64 == y
  {
  }

  lemma TwelveBits(x: nat, y: nat, z: nat)
    requires y < 64 && z < 64
    ensures var n := x * 4096 + y * 64 + z; n / 4096 == x && n / 64 % 64 == y && n % 64 == z
  {
    SixBits(x * 64 + y, z);
    SixBits(x, y);
    assert x * 4096 + y * 64 + z == (x * 64 + y) * 64 + z;
  }

  lemma EighteenBits(w: nat, x: nat, y: nat, z: nat)
    requires x < 64 && y < 64 && z < 64
    ensures var n := w * 262_144 + x * 4096 + y * 64 + z;
            n / 262_144 == w && n / 4096 % 64 == x && n / 64 % 64 == y && n % 64 == z
  {
    var n := w * 262_144 + x * 4096 + y * 64 + z;
    TwelveBits(w * 64 + x, y, z);
    assert n == (w * 64 + x) * 4096 + y * 64 + z;
    SixBits(w, x);
    assert n / 262_144 == n / 4096 / 64;
  }

  lemma SequenceIsEncoded(s: string, i: nat)
    requires i < |s| && SequenceLength(s, i) > 0
    ensures IsScalar(Decode(s, i)) && Encode(Decode(s, i)) == s[i..i + SequenceLength(s, i)]
  {
    var n := SequenceLength(s, i);
    if n == 1 {
      OneByte(s, i);
    } else if n == 2 {
      TwoBytes(s, i);
    } else if n == 3 {
      ThreeBytes(s, i);
    } else {
      FourBytes(s, i);
    }
  }

  lemma OneByte(s: string, i: nat)
    requires i < |s| && SequenceLength(s, i) == 1
    ensures IsScalar(Decode(s, i)) && Encode(Decode(s, i)) == s[i..i + 1]
  {
  }

  lemma TwoBytes(s: string, i: nat)
    requires i < |s| && SequenceLength(s, i) == 2
    ensures IsScalar(Decode(s, i)) && Encode(Decode(s, i)) == s[i..i + 2]
  {
    var a, b := s[i] as int, s[i + 1] as int;
    assert 0xC2 <= a <= 0xDF && 0x80 <= b <= 0xBF;
    SixBits(a - 0xC0, b - 0x80);
    assert s[i..i + 2] == [a as char, b as char];
  }

  lemma ThreeBytes(s: string, i: nat)
    requires i < |s| && SequenceLength(s, i) == 3
    ensures IsScalar(Decode(s, i)) && Encode(Decode(s, i)) == s[i..i + 3]
  {
    var a, b, c := s[i] as int, s[i + 1] as int, s[i + 2] as int;
    assert 0xE0 <= a <= 0xEF && 0x80 <= b <= 0xBF && 0x80 <= c <= 0xBF;
    assert a == 0xE0 ==> b >= 0xA0;
    assert a == 0xED ==> b <= 0x9F;
    TwelveBits(a - 0xE0, b - 0x80, c - 0x80);
    assert s[i..i + 3] == [a as char, b as char, c as char];
    hide SequenceLength;
  }

  lemma FourBytes(s: string, i: nat)
    requires i < |s| && SequenceLength(s, i) == 4
    ensures IsScalar(Decode(s, i)) && Encode(Decode(s, i)) == s[i..i + 4]
  {
    var a, b, c, d := s[i] as int, s[i + 1] as int, s[i + 2] as int, s[i + 3] as int;
    assert 0xF0 <= a <= 0xF4 && 0x80 <= b <= 0xBF && 0x80 <= c <= 0xBF && 0x80 <= d <= 0xBF;
    assert a == 0xF0 ==> b >= 0x90;
    assert a == 0xF4 ==> b <= 0x8F;
    EighteenBits(a - 0xF0, b - 0x80, c - 0x80, d - 0x80);
    assert s[i..i + 4] == [a as char, b as char, c as char, d as char];
    hide SequenceLength;
  }

  /** The bytes of a code point are a well-formed sequence wherever they stand. */
  lemma EncodedIsSequence(before: string, point: nat, after: string)
    requires IsScalar(point)
    ensures SequenceLength(before + Encode(point) + after, |before|) == |Encode(point)|
  {
    hide SequenceLength;
    var s, e, i := before + Encode(point) + after, Encode(point), |before|;
    assert |s| >= i + |e| && forall k :: 0 <= k < |e| ==> s[i + k] == e[k];
    assert s[i] == e[0];
    if point < 0x80 {
      ShortSequence(s, i, point);
    } else if point < 0x800 {
      assert s[i + 1] == e[1];
      ShortSequence(s, i, point);
    } else if point < 0x1_0000 {
      assert s[i + 1] == e[1] && s[i + 2] == e[2];
      ThreeByteSequence(s, i, point);
    } else {
      assert s[i + 1] == e[1] && s[i + 2] == e[2] && s[i + 3] == e[3];
      FourByteSequence(s, i, point);
    }
  }

  lemma ShortSequence(s: string, i: nat, point: nat)
    requires point < 0x800 && i < |s| && s[i] == Encode(point)[0]
    requires point >= 0x80 ==> i + 1 < |s| && s[i + 1] == Encode(point)[1]
    ensures SequenceLength(s, i) == |Encode(point)|
  {
  }

  lemma ThreeByteSequence(s: string, i: nat, point: nat)
    requires 0x800 <= point < 0x1_0000 && IsScalar(point) && i + 2 < |s|
    requires s[i] == Encode(point)[0] && s[i + 1] == Encode(point)[1] && s[i + 2] == Encode(point)[2]
    ensures SequenceLength(s, i) == 3
  {
  }

  lemma FourByteSequence(s: string, i: nat, point: nat)
    requires 0x1_0000 <= point <= 0x10_FFFF && i + 3 < |s|
    requires s[i] == Encode(point)[0] && s[i + 1] == Encode(point)[1]
    requires s[i + 2] == Encode(point)[2] && s[i + 3] == Encode(point)[3]
    ensures SequenceLength(s, i) == 4
  {
  }

  lemma {:induction false} EncodedIsValid(before: string, points: seq<nat>)
    requires AllScalar(points)
    ensures ValidFrom(before + EncodeAll(points), |before|)
    decreases |points|
  {
    if points != [] {
      hide SequenceLength, Encode;
      var e, rest := Encode(points[0]), EncodeAll(points[1..]);
      assert before + EncodeAll(points) == before + e + rest;
      EncodedIsSequence(before, points[0], rest);
      EncodedIsValid(before + e, points[1..]);
    }
  }

  lemma {:induction false} ValidIsEncoded(s: string, i: nat) returns (points: seq<nat>)
    requires i <= |s| && ValidFrom(s, i)
    ensures AllScalar(points) && EncodeAll(points) == s[i..]
    decreases |s| - i
  {
    hide Decode, Encode, SequenceLength;
    if i == |s| {
      points := [];
    } else {
      var n := SequenceLength(s, i);
      var rest := ValidIsEncoded(s, i + n);
      SequenceIsEncoded(s, i);
      points := [Decode(s, i)] + rest;
      assert points[1..] == rest;
      assert s[i..] == s[i..i + n] + s[i + n..];
    }
  }

  ghost predicate Encodes(s: string, points: seq<nat>) {
    AllScalar(points) && EncodeAll(points) == s
  }

  /** A text is accepted as UTF-8 iff it is the encoding of some code points. */
  lemma ValidExactly(s: string)
    ensures ValidUtf8(s) <==> exists points :: Encodes(s, points)
  {
    hide ValidFrom, EncodeAll;
    if ValidUtf8(s) {
      var points := ValidIsEncoded(s, 0);
      assert s[0..] == s;
      assert Encodes(s, points);
    }
    if points :| Encodes(s, points) {
      EncodedIsValid("", points);
      assert "" + s == s;
    }
  }

  lemma {:induction false} PointsConcat(a: seq<nat>, b: seq<nat>)
    requires AllScalar(a) && AllScalar(b)
    ensures AllScalar(a + b) && EncodeAll(a + b) == EncodeAll(a) + EncodeAll(b)
  {
    if a == [] {
      assert a + b == b;
    } else {
      hide Encode;
      assert (a + b)[1..] == a[1..] + b;
      PointsConcat(a[1..], b);
    }
  }

  lemma ConcatIsValid(a: string, b: string)
    requires ValidUtf8(a) && ValidUtf8(b)
    ensures ValidUtf8(a + b)
  {
    hide ValidUtf8, EncodeAll, AllScalar;
    ValidExactly(a);
    ValidExactly(b);
    var p :| Encodes(a, p);
    var q :| Encodes(b, q);
    PointsConcat(p, q);
    assert Encodes(a + b, p + q);
    ValidExactly(a + b);
  }

  // ----- what is dumped is UTF-8 too

  predicate IsAscii(s: string) {
    forall i :: 0 <= i < |s| ==> s[i] as int < 0x80
  }

  lemma {:induction false} AsciiIsValid(s: string)
    requires IsAscii(s)
    ensures ValidUtf8(s)
  {
    AsciiFrom(s, 0);
  }

  lemma {:induction false} AsciiFrom(s: string, i: nat)
    requires IsAscii(s) && i <= |s|
    ensures ValidFrom(s, i)
    decreases |s| - i
  {
    if i < |s| {
      assert SequenceLength(s, i) == 1;
      AsciiFrom(s, i + 1);
    }
  }

  lemma {:induction false} EscapeConcat(a: string, b: string)
    ensures Escape(a + b) == Escape(a) + Escape(b)
  {
    if a == "" {
      assert a + b == b;
    } else {
      hide EscapeChar;
      assert (a + b)[1..] == a[1..] + b;
      EscapeConcat(a[1..], b);
    }
  }

  /** Bytes above the ASCII range stand for themselves. */
  lemma {:induction false} HighStays(s: string)
    requires forall i :: 0 <= i < |s| ==> s[i] as int >= 0x80
    ensures Escape(s) == s
  {
    if s != "" {
      HighStays(s[1..]);
      assert EscapeChar(s[0]) == [s[0]];
    }
  }

  lemma {:induction false} EscapeAscii(s: string)
    requires IsAscii(s)
    ensures IsAscii(Escape(s))
  {
    if s != "" {
      EscapeAscii(s[1..]);
      assert IsAscii(EscapeChar(s[0]));
    }
  }

  lemma EscapedPoint(point: nat)
    requires IsScalar(point)
    ensures ValidUtf8(Escape(Encode(point)))
  {
    hide Escape, ValidUtf8;
    var bytes := Encode(point);
    if point < 0x80 {
      EscapeAscii(bytes);
      AsciiIsValid(Escape(bytes));
    } else {
      HighStays(bytes);
      PointIsValid(point);
    }
  }

  lemma PointIsValid(point: nat)
    requires IsScalar(point)
    ensures ValidUtf8(Encode(point))
  {
    hide ValidUtf8, Encode;
    assert [point][1..] == [];
    assert EncodeAll([point]) == Encode(point) + EncodeAll([]);
    assert Encodes(Encode(point), [point]);
    ValidExactly(Encode(point));
  }

  lemma {:induction false} EscapedPoints(points: seq<nat>)
    requires AllScalar(points)
    ensures ValidUtf8(Escape(EncodeAll(points)))
  {
    hide Escape, Encode, ValidUtf8;
    if points == [] {
      NothingEscaped();
    } else {
      EscapedPoint(points[0]);
      EscapedPoints(points[1..]);
      EscapeConcat(Encode(points[0]), EncodeAll(points[1..]));
      ConcatIsValid(Escape(Encode(points[0])), Escape(EncodeAll(points[1..])));
    }
  }

  lemma NothingEscaped()
    ensures ValidUtf8(Escape(""))
  {
  }

  lemma QuotedIsValid(s: string)
    requires ValidUtf8(s)
    ensures ValidUtf8(Quoted(s))
  {
    hide ValidUtf8, Escape, EncodeAll, AllScalar;
    ValidExactly(s);
    var points :| Encodes(s, points);
    EscapedPoints(points);
    AsciiIsValid(['"']);
    ConcatIsValid(['"'], Escape(s));
    ConcatIsValid(['"'] + Escape(s), ['"']);
  }

  lemma MemberIsValid(line: string, name: string, value: string)
    requires ValidUtf8(line) && IsAscii(name) && ValidUtf8(value)
    ensures ValidUtf8(line + Key(name) + value + ",")
    ensures ValidUtf8(line + Key(name) + value)
  {
    hide ValidUtf8, Quoted;
    AsciiIsValid(name);
    QuotedIsValid(name);
    AsciiIsValid([':']);
    AsciiIsValid(",");
    ConcatIsValid(Quoted(name), [':']);
    ConcatIsValid(line, Key(name));
    ConcatIsValid(line + Key(name), value);
    ConcatIsValid(line + Key(name) + value, ",");
  }

  lemma DigitsAreValid(n: nat)
    ensures ValidUtf8(Digits(n))
  {
    hide ValidUtf8, Digits;
    DigitsCorrect(n);
    AsciiIsValid(Digits(n));
  }

  lemma {:induction false} ListedIsValid(products: seq<string>)
    requires forall p :: p in products ==> ValidUtf8(p)
    ensures ValidUtf8(Listed(products))
  {
    hide ValidUtf8, Quoted;
    AsciiIsValid("");
    if products != [] {
      QuotedIsValid(products[0]);
      if |products| > 1 {
        ListedIsValid(products[1..]);
        AsciiIsValid(",");
        ConcatIsValid(Quoted(products[0]), ",");
        ConcatIsValid(Quoted(products[0]) + ",", Listed(products[1..]));
      }
    }
  }

  lemma NamesAreAscii()
    ensures IsAscii("endpoint") && IsAscii("format") && IsAscii("product_ids") && IsAscii("source")
    ensures IsAscii("type") && IsAscii("version") && IsAscii("connection_id") && IsAscii("payload")
    ensures IsAscii("received_ns") && IsAscii("frame") && IsAscii("metadata") && IsAscii("coinbase-advanced-trade")
    ensures IsAscii("bengal-market-capture") && IsAscii("{") && IsAscii("}") && IsAscii("1") && IsAscii("[")
    ensures IsAscii("]")
  {
  }

  lemma FrameIsValid(p: Piece)
    requires p.FramePiece? && ValidUtf8(p.payload)
    ensures ValidUtf8(Render(p))
  {
    hide ValidUtf8, Quoted, Key, Digits, IsAscii;
    NamesAreAscii();
    AsciiIsValid("{");
    AsciiIsValid("}");
    AsciiIsValid("frame");
    DigitsAreValid(p.connection);
    QuotedIsValid(p.payload);
    DigitsAreValid(p.receivedNs);
    QuotedIsValid("frame");
    var a := "{" + Key("connection_id") + Digits(p.connection) + ",";
    MemberIsValid("{", "connection_id", Digits(p.connection));
    var b := a + Key("payload") + Quoted(p.payload) + ",";
    MemberIsValid(a, "payload", Quoted(p.payload));
    var c := b + Key("received_ns") + Digits(p.receivedNs) + ",";
    MemberIsValid(b, "received_ns", Digits(p.receivedNs));
    var d := c + Key("type") + Quoted("frame");
    MemberIsValid(c, "type", Quoted("frame"));
    ConcatIsValid(d, "}");
    FrameLine(p, a, b, c, d);
  }

  lemma FrameLine(p: Piece, a: string, b: string, c: string, d: string)
    requires p.FramePiece? && a == "{" + Key("connection_id") + Digits(p.connection) + ","
    requires b == a + Key("payload") + Quoted(p.payload) + ","
    requires c == b + Key("received_ns") + Digits(p.receivedNs) + ","
    requires d == c + Key("type") + Quoted("frame")
    ensures Render(p) == d + "}"
  {
    hide Key, Quoted, Digits;
    var m3 := Key("type") + Quoted("frame");
    var m2 := Key("received_ns") + Digits(p.receivedNs) + "," + m3;
    var m1 := Key("payload") + Quoted(p.payload) + "," + m2;
    assert d == c + m3;
    assert c + m3 == b + m2;
    assert b + m2 == a + m1;
  }

  /** What is dumped of texts in UTF-8 is UTF-8. */
  lemma RenderIsValid(p: Piece)
    requires match p
             case MetadataPiece(endpoint, products) => ValidUtf8(endpoint) && forall q :: q in products ==> ValidUtf8(q)
             case FramePiece(_, _, payload) => ValidUtf8(payload)
    ensures ValidUtf8(Render(p))
  {
    hide Render, ValidUtf8;
    match p
    case FramePiece(_, _, _) =>
      FrameIsValid(p);
    case MetadataPiece(endpoint, products) =>
      MetadataIsValid(endpoint, products);
  }

  lemma MetadataIsValid(endpoint: string, products: seq<string>)
    requires ValidUtf8(endpoint) && forall q :: q in products ==> ValidUtf8(q)
    ensures ValidUtf8(Render(MetadataPiece(endpoint, products)))
  {
    hide ValidUtf8, Quoted, Key, Listed, IsAscii;
    NamesAreAscii();
    AsciiIsValid("{");
    AsciiIsValid("bengal-market-capture");
    AsciiIsValid("coinbase-advanced-trade");
    AsciiIsValid("metadata");
    AsciiIsValid("1");
    AsciiIsValid("}");
    QuotedIsValid(endpoint);
    QuotedIsValid("bengal-market-capture");
    QuotedIsValid("coinbase-advanced-trade");
    QuotedIsValid("metadata");
    BracketsAreValid(products);
    var a := "{" + Key("endpoint") + Quoted(endpoint) + ",";
    MemberIsValid("{", "endpoint", Quoted(endpoint));
    var b := a + Key("format") + Quoted("bengal-market-capture") + ",";
    MemberIsValid(a, "format", Quoted("bengal-market-capture"));
    var list := "[" + Listed(products) + "]";
    var c := b + Key("product_ids") + list + ",";
    MemberIsValid(b, "product_ids", list);
    var d := c + Key("source") + Quoted("coinbase-advanced-trade") + ",";
    MemberIsValid(c, "source", Quoted("coinbase-advanced-trade"));
    var e := d + Key("type") + Quoted("metadata") + ",";
    MemberIsValid(d, "type", Quoted("metadata"));
    MemberIsValid(e, "version", "1");
    ConcatIsValid(e + Key("version") + "1", "}");
    assert e + Key("version") + "1" + "}" == e + Key("version") + "1}" by {
      assert "1" + "}" == "1}";
    }
    assert c == b + Key("product_ids") + "[" + Listed(products) + "]," by {
      assert "]" + "," == "],";
    }
  }

  lemma BracketsAreValid(products: seq<string>)
    requires forall q :: q in products ==> ValidUtf8(q)
    ensures ValidUtf8("[" + Listed(products) + "]")
  {
    hide ValidUtf8, Listed;
    ListedIsValid(products);
    AsciiIsValid("[");
    AsciiIsValid("]");
    ConcatIsValid("[", Listed(products));
    ConcatIsValid("[" + Listed(products), "]");
  }
}
