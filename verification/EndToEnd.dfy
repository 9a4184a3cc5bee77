/** The components joined: a published capture replays frame by frame, replays compare, a fixture is processed whole. */
module EndToEnd {
  import opened Words
  import opened Trades
  import opened Readers
  import opened Pipelines
  import opened Checksums
  import opened Fixtures
  import opened Reports
  import opened JsonReader
  import opened Utf8
  import CaptureRuns
  import JsonText
  import LiveCapture
  import Lines
  import Publication
  import Recordings

  /**
   * What JSON parsing makes of the lines of a file, of the payload texts inside them, and of integers that do not fit a
   * word.
   */
  datatype Setting = Setting(parse: string -> Option<Record>, payload: string -> Option<Payload>,
                             large: nat -> Field<u64>)

  function Products(products: seq<string>): seq<Field<string>> {
    seq(|products|, i requires 0 <= i < |products| => Present(products[i]))
  }

  predicate ValidProducts(products: seq<string>) {
    products != [] && forall p :: p in products ==> 1 <= |p| <= 20
  }

  // ----- a record, looked up by the names of its members

  function TextField(value: Option<Value>): Field<string> {
    match value
    case None => Missing
    case Some(Str(text)) => Present(text)
    case Some(_) => Mistyped
  }

  function IntegerField(value: Option<Value>): Field<int> {
    match value
    case None => Missing
    case Some(Num(n)) => Present(n)
    case Some(_) => Mistyped
  }

  function WordOf(setting: Setting, n: nat): Field<u64> {
    if n < TWO64 then Present(n) else setting.large(n)
  }

  function WordField(setting: Setting, value: Option<Value>): Field<u64> {
    match value
    case None => Missing
    case Some(Num(n)) => WordOf(setting, n)
    case Some(_) => Mistyped
  }

  function ListField(value: Option<Value>): Field<seq<Field<string>>> {
    match value
    case None => Missing
    case Some(Arr(items)) =>
      Present(seq(|items|, i requires 0 <= i < |items| => TextField(Some(items[i]))))
    case Some(_) => Mistyped
  }

  function PayloadField(setting: Setting, value: Option<Value>): Field<Option<Payload>> {
    match value
    case None => Missing
    case Some(Str(text)) => Present(setting.payload(text))
    case Some(_) => Mistyped
  }

  /** The record of these members, field by field under the name the format gives it. */
  function RecordFrom(setting: Setting, members: seq<Member>): Record {
    Record(TextField(Find(members, "type")), TextField(Find(members, "format")), IntegerField(Find(members, "version")),
           TextField(Find(members, "source")), ListField(Find(members, "product_ids")),
           WordField(setting, Find(members, "received_ns")), WordField(setting, Find(members, "connection_id")),
           PayloadField(setting, Find(members, "payload")))
  }

  predicate Distinct(members: seq<Member>) {
    forall i, j :: 0 <= i < j < |members| ==> members[i].name != members[j].name
  }

  /**
   * What is supposed of the parser, and only of it: a text in UTF-8 that is one JSON object with distinct names yields
   * the record of its members, and no text without control characters parses that leaves a brace or string open.
   */
  ghost predicate Understands(setting: Setting) {
    && (forall text :: JsonText.ValidUtf8(text) && ReadObject(text).Some? && Distinct(ReadObject(text).value) ==>
          setting.parse(text) == Some(RecordFrom(setting, ReadObject(text).value)))
    && (forall text :: JsonText.Printable(text) && setting.parse(text).Some? ==> JsonText.Balanced(text))
  }

  /** Such a parser exists, whatever it makes of payloads and of integers beyond a word. */
  lemma ParserExists(payload: string -> Option<Payload>, large: nat -> Field<u64>)
    ensures exists parse :: Understands(Setting(parse, payload, large))
  {
    hide ReadObject, RecordFrom, Distinct, JsonText.Balanced, JsonText.ValidUtf8;
    var other := Setting(_ => None, payload, large);
    var parse := text => if ReadObject(text).Some? then Some(RecordFrom(other, ReadObject(text).value)) else None;
    var setting := Setting(parse, payload, large);
    forall text | ReadObject(text).Some?
      ensures parse(text) == Some(RecordFrom(setting, ReadObject(text).value))
    {
      SameRecord(other, setting, ReadObject(text).value);
    }
    forall text
      ensures parse(text).Some? ==> JsonText.Balanced(text)
    {
      ObjectBalanced(text);
    }
    assert Understands(setting);
  }

  lemma SameRecord(a: Setting, b: Setting, members: seq<Member>)
    requires a.payload == b.payload && a.large == b.large
    ensures RecordFrom(a, members) == RecordFrom(b, members)
  {
  }

  /** The record that was written. */
  function RecordOf(setting: Setting, piece: JsonText.Piece): Record {
    match piece
    case MetadataPiece(_, products) =>
      Record(Present("metadata"), Present("bengal-market-capture"), Present(1), Present("coinbase-advanced-trade"),
             Present(Products(products)), Missing, Missing, Missing)
    case FramePiece(receivedNs, connection, payload) =>
      Record(Present("frame"), Missing, Missing, Missing, Missing, Present(receivedNs), WordOf(setting, connection),
             Present(setting.payload(payload)))
  }

  predicate Dumpable(piece: JsonText.Piece) {
    match piece
    case MetadataPiece(endpoint, products) =>
      JsonText.ValidUtf8(endpoint) && forall p :: p in products ==> JsonText.ValidUtf8(p)
    case FramePiece(_, _, payload) => JsonText.ValidUtf8(payload)
  }

  lemma {:induction false} FindExactly(members: seq<Member>, name: string)
    ensures Find(members, name).None? <==> forall i :: 0 <= i < |members| ==> members[i].name != name
    ensures Distinct(members) ==>
              forall i :: 0 <= i < |members| && members[i].name == name ==>
                Find(members, name) == Some(members[i].value)
  {
    if members != [] {
      FindExactly(members[1..], name);
      assert forall i :: 1 <= i < |members| ==> members[i] == members[1..][i - 1];
      assert Distinct(members) ==> Distinct(members[1..]);
    }
  }

  /** The names of the format, which differ in length or in their first letter. */
  lemma NamesDiffer()
    ensures |"connection_id"| == 13 && |"payload"| == 7 && |"received_ns"| == 11 && |"type"| == 4 && |"endpoint"| == 8
    ensures |"format"| == 6 && |"product_ids"| == 11 && |"source"| == 6 && |"version"| == 7
    ensures "payload" != "version" && "received_ns" != "product_ids" && "format" != "source"
  {
    assert "payload"[0] != "version"[0] && "received_ns"[0] != "product_ids"[0] && "format"[0] != "source"[0];
  }

  lemma FrameRecord(setting: Setting, receivedNs: u64, connection: nat, payload: string)
    ensures var members := FrameMembers(receivedNs, connection, payload);
            && Distinct(members)
            && RecordFrom(setting, members) == RecordOf(setting, JsonText.FramePiece(receivedNs, connection, payload))
  {
    hide Find;
    var members := FrameMembers(receivedNs, connection, payload);
    NamesDiffer();
    assert Distinct(members);
    FindExactly(members, "type");
    FindExactly(members, "format");
    FindExactly(members, "version");
    FindExactly(members, "source");
    FindExactly(members, "product_ids");
    FindExactly(members, "received_ns");
    FindExactly(members, "connection_id");
    FindExactly(members, "payload");
    assert members[0].name == "connection_id" && members[1].name == "payload" && members[2].name == "received_ns";
    assert members[3].name == "type";
  }

  lemma MetadataRecord(setting: Setting, endpoint: string, products: seq<string>)
    ensures var members := MetadataMembers(endpoint, products);
            && Distinct(members)
            && RecordFrom(setting, members) == RecordOf(setting, JsonText.MetadataPiece(endpoint, products))
  {
    hide Find;
    var members := MetadataMembers(endpoint, products);
    NamesDiffer();
    assert Distinct(members);
    FindExactly(members, "type");
    FindExactly(members, "format");
    FindExactly(members, "version");
    FindExactly(members, "source");
    FindExactly(members, "product_ids");
    FindExactly(members, "received_ns");
    FindExactly(members, "connection_id");
    FindExactly(members, "payload");
    assert members[1].name == "format" && members[2].name == "product_ids" && members[3].name == "source";
    assert members[4].name == "type" && members[5].name == "version";
    ProductList(products);
  }

  lemma ProductList(products: seq<string>)
    ensures ListField(Some(Arr(Texts(products)))) == Present(Products(products))
  {
    var list := ListField(Some(Arr(Texts(products)))).value;
    assert |list| == |products|;
    assert forall i :: 0 <= i < |products| ==> list[i] == TextField(Some(Texts(products)[i]));
    assert list == Products(products);
  }

  /** So a dumped record parses to what was written. */
  lemma DumpedParses(setting: Setting, piece: JsonText.Piece)
    requires Understands(setting) && Dumpable(piece)
    ensures setting.parse(JsonText.Render(piece)) == Some(RecordOf(setting, piece))
  {
    hide JsonText.Render, JsonText.ValidUtf8, ReadObject, RecordFrom, RecordOf, Distinct, FrameMembers, MetadataMembers;
    RenderIsValid(piece);
    match piece
    case FramePiece(receivedNs, connection, payload) =>
      FrameReads(piece);
      FrameRecord(setting, receivedNs, connection, payload);
    case MetadataPiece(endpoint, products) =>
      MetadataReads(endpoint, products);
      MetadataRecord(setting, endpoint, products);
  }

  function RecordLine(setting: Setting, record: Option<JsonText.Piece>): Line {
    if record.Some? then Json(RecordOf(setting, record.value)) else Malformed
  }

  function RecordLines(setting: Setting, records: seq<Option<JsonText.Piece>>): seq<Line> {
    seq(|records|, i requires 0 <= i < |records| => RecordLine(setting, records[i]))
  }

  /** A recording as a capture leaves it: the metadata line first, frames after it, any of them perhaps cut. */
  ghost predicate Recorded(segments: seq<Recordings.Segment>) {
    && Recordings.AllSegmentsValid(segments)
    && segments != [] && segments[0].Whole? && segments[0].piece.MetadataPiece?
    && ValidProducts(segments[0].piece.products) && Dumpable(segments[0].piece)
    && forall i :: 0 < i < |segments| ==> Recordings.Utf8Frame(segments[i].piece)
  }

  // ----- replaying a recording

  lemma LinesParse(setting: Setting, segments: seq<Recordings.Segment>)
    requires Recorded(segments) && Understands(setting)
    ensures LinesOf(setting.parse, Recordings.AllLines(segments)) ==
            RecordLines(setting, Recordings.AllRecords(segments))
  {
    hide JsonText.Render, JsonText.Balanced, JsonText.Printable, Recordings.AllLines, Recordings.AllRecords, RecordOf;
    Recordings.RecordsRead(segments);
    Recordings.LinesPrintable(segments);
    var texts, records := Recordings.AllLines(segments), Recordings.AllRecords(segments);
    forall i | 0 <= i < |records|
      ensures LineOf(setting.parse, texts[i]) == RecordLine(setting, records[i])
    {
      assert Recordings.LineIs(texts[i], records[i]);
      if records[i].Some? {
        Recordings.RenderNotEmpty(records[i].value);
        Recordings.RecordsAreWritten(segments, records[i].value);
        DumpedParses(setting, records[i].value);
      }
    }
  }

  /**
   * Every surviving record is read, every spoiled line is one rejected record, and only payloads add further errors.
   */
  lemma {:induction false} RecordsReplay(setting: Setting, records: seq<Option<JsonText.Piece>>)
    requires records != [] && records[0].Some? && records[0].value.MetadataPiece?
    requires ValidProducts(records[0].value.products)
    requires forall i :: 0 < i < |records| && records[i].Some? ==> records[i].value.FramePiece?
    ensures var lines := RecordLines(setting, records);
            && ReadLines(lines).metadataSeen
            && ReadLines(lines).frames + 1 == Recordings.CountSome(records)
            && Count(Verdicts(lines), BadRecord) + Recordings.CountSome(records) == |records|
  {
    hide ReadLines, Verdicts, Count, RecordLine, Recordings.CountSome;
    var k := |records| - 1;
    var init, line := records[..k], RecordLine(setting, records[k]);
    assert records == init + [records[k]];
    Recordings.CountSnoc(init, records[k]);
    if init == [] {
      NoneCounted();
      assert RecordLines(setting, records) == [line];
      MetadataFirst(setting, records[0].value);
    } else {
      RecordsReplay(setting, init);
      assert RecordLines(setting, records) == RecordLines(setting, init) + [line];
      RecordNext(setting, RecordLines(setting, init), records[k]);
    }
  }

  lemma NoneCounted()
    ensures Recordings.CountSome([]) == 0
  {
  }

  lemma MetadataFirst(setting: Setting, piece: JsonText.Piece)
    requires piece.MetadataPiece? && ValidProducts(piece.products)
    ensures var lines := [RecordLine(setting, Some(piece))];
            && ReadLines(lines) == EMPTY_TALLY.(metadataSeen := true)
            && Count(Verdicts(lines), BadRecord) == 0
  {
    var line := RecordLine(setting, Some(piece));
    assert [line][..0] == [];
    assert MetadataAccepted(EMPTY_TALLY, line.record);
    assert Judge(EMPTY_TALLY, line) == (EMPTY_TALLY.(metadataSeen := true), Metadata);
    assert Verdicts([line]) == [Metadata];
  }

  lemma RecordNext(setting: Setting, lines: seq<Line>, record: Option<JsonText.Piece>)
    requires ReadLines(lines).metadataSeen && (record.Some? ==> record.value.FramePiece?)
    ensures var more := lines + [RecordLine(setting, record)];
            && ReadLines(more).metadataSeen
            && ReadLines(more).frames == ReadLines(lines).frames + (if record.Some? then 1 else 0)
            && Count(Verdicts(more), BadRecord) ==
               Count(Verdicts(lines), BadRecord) + (if record.Some? then 0 else 1)
  {
    hide Frame;
    var line := RecordLine(setting, record);
    var more := lines + [line];
    assert more[..|lines|] == lines;
    JudgeCounts(ReadLines(lines), line);
    CountSnoc(Verdicts(lines), Judge(ReadLines(lines), line).1, BadRecord);
  }

  /** How many lines of a recording a cut cost, less the frame that may survive as its unterminated last line. */
  function LinesLost(segments: seq<Recordings.Segment>): int
    requires Recordings.AllSegmentsValid(segments)
  {
    Recordings.Glued(segments) - Recordings.CountSome(Recordings.LastRecord(segments))
  }

  lemma {:induction false} CountConcat(a: seq<Option<JsonText.Piece>>, b: seq<Option<JsonText.Piece>>)
    ensures Recordings.CountSome(a + b) == Recordings.CountSome(a) + Recordings.CountSome(b)
  {
    if b == [] {
      assert a + b == a;
    } else {
      CountConcat(a, b[..|b| - 1]);
      assert (a + b)[..|a + b| - 1] == a + b[..|b| - 1];
    }
  }

  lemma SurvivingRecords(segments: seq<Recordings.Segment>)
    requires Recordings.AllSegmentsValid(segments)
    ensures Recordings.CountSome(Recordings.AllRecords(segments)) + LinesLost(segments) == |Recordings.Wholes(segments)|
  {
    hide Recordings.Records, Recordings.LastRecord, Recordings.Glued, Recordings.CountSome, Recordings.Wholes;
    CountConcat(Recordings.Records(segments), Recordings.LastRecord(segments));
    Recordings.GluedLinesLost(segments);
  }

  /**
   * Reading a recording returns iff every physical line is within the reader's limit, and then it has seen the metadata
   * and one frame for every whole line that does not follow a cut; every spoiled line is one rejected record.
   */
  lemma RecordingReplays(setting: Setting, segments: seq<Recordings.Segment>)
    requires Recorded(segments) && Understands(setting)
    ensures var file := Recordings.Bytes(segments);
            var lines, records := FileLines(file, setting.parse), Recordings.AllRecords(segments);
            && (Outcome(file, setting.parse).Returned? <==> Lines.Fits(Recordings.AllLines(segments)))
            && (Outcome(file, setting.parse).Returned? ==>
                  && Outcome(file, setting.parse).metrics == Reported(ReadLines(lines))
                  && lines == RecordLines(setting, records)
                  && ReadLines(lines).frames + 1 + LinesLost(segments) == |Recordings.Wholes(segments)|
                  && Count(Verdicts(lines), BadRecord) + Recordings.CountSome(records) == |records|)
  {
    hide Recordings.Bytes, Recordings.AllLines, Recordings.AllRecords, Recordings.Wholes, Recordings.CountSome;
    hide Lines.ReadAll, Lines.Fits, ReadLines, Verdicts, Count, Understands, LinesLost, RecordLine;
    Recordings.RecordingReadsBack(segments);
    if Lines.Fits(Recordings.AllLines(segments)) {
      LinesParse(setting, segments);
      Recordings.FirstRecord(segments);
      RecordsReplay(setting, Recordings.AllRecords(segments));
      SurvivingRecords(segments);
    }
  }

  // ----- replaying a capture

  /** What a reader finds under the destination's name. */
  function FileAt(disk: Publication.Disk): string {
    if disk.dest.Some? && disk.dest.value in disk.files then disk.files[disk.dest.value].data else ""
  }

  lemma CaptureIsRecorded(setup: LiveCapture.Setup, actions: seq<LiveCapture.Action>)
    requires LiveCapture.Run(setup, actions).Some? && LiveCapture.Run(setup, actions).value.segments != []
    requires ValidProducts(setup.products)
    ensures var s := LiveCapture.Run(setup, actions).value;
            Recorded(s.segments) && |Recordings.Wholes(s.segments)| == s.session.frames + 1
  {
    hide LiveCapture.Run, LiveCapture.Expected, LiveCapture.LostOk, Recordings.Wholes, Recordings.Segment.Valid;
    LiveCapture.HistoryInEveryRun(setup, actions);
  }

  /** A capture whose line writes the kernel never tears. */
  lemma NothingLost(setup: LiveCapture.Setup, actions: seq<LiveCapture.Action>)
    requires LiveCapture.Run(setup, actions).Some? && LiveCapture.NoTear(setup, actions)
    ensures Recordings.AllSegmentsValid(LiveCapture.Run(setup, actions).value.segments)
    ensures var segments := LiveCapture.Run(setup, actions).value.segments;
            && LinesLost(segments) == 0
            && Recordings.AllLines(segments) == Recordings.Rendered(Recordings.Wholes(segments))
            && Recordings.CountSome(Recordings.AllRecords(segments)) == |Recordings.AllRecords(segments)|
  {
    hide LiveCapture.Run, LiveCapture.NoTear, LiveCapture.NoRefusal, LiveCapture.Expected;
    LiveCapture.HistoryInEveryRun(setup, actions);
    LiveCapture.LossExactly(setup, actions);
    var segments := LiveCapture.Run(setup, actions).value.segments;
    hide Recordings.Records, Recordings.PhysicalLines, Recordings.Carry, Recordings.Wholes, Recordings.HasCut;
    Recordings.NothingCut(segments);
    NoneCounted();
    assert Recordings.Records(segments) + [] == Recordings.Records(segments);
    SurvivingRecords(segments);
  }

  /**
   * The file a capture has published, read back whatever happened since: the replay returns iff every physical line is
   * at most 8 MiB long, and then it has counted the frames of the capture less the lines cuts have cost; without a
   * torn write it has counted exactly those frames and rejected no record.
   */
  lemma CommittedCaptureReplays(setup: LiveCapture.Setup, o: Publication.Origin, actions: seq<LiveCapture.Action>,
                                later: seq<Publication.Action>, setting: Setting)
    requires Publication.Initial(setup.system, o) && |setup.system.writers| >= 1 && ValidProducts(setup.products)
    requires LiveCapture.Run(setup, actions).Some? && LiveCapture.Run(setup, actions).value.phase.Returned?
    requires Publication.Run(LiveCapture.Run(setup, actions).value.system, later).Some?
    ensures Recordings.AllSegmentsValid(LiveCapture.Run(setup, actions).value.segments)
    ensures var s := LiveCapture.Run(setup, actions).value;
            var file := FileAt(Publication.Run(s.system, later).value.disk);
            var t := ReadLines(FileLines(file, setting.parse));
            var verdicts := Verdicts(FileLines(file, setting.parse));
            Understands(setting) ==>
              && (Outcome(file, setting.parse).Returned? <==> Lines.Fits(Recordings.AllLines(s.segments)))
              && (Outcome(file, setting.parse).Returned? ==>
                    && t.frames + LinesLost(s.segments) == s.session.frames
                    && (LiveCapture.NoTear(setup, actions) ==>
                          t.frames == s.session.frames && Count(verdicts, BadRecord) == 0))
  {
    hide LiveCapture.Run, Publication.Run, Publication.Initial, LiveCapture.NoTear, Recordings.Bytes;
    hide Recordings.AllLines;
    hide Recordings.AllRecords, Recordings.Wholes, Recordings.CountSome, Lines.Fits, ReadLines, Verdicts, Count;
    hide Understands;
    hide LinesLost, Recorded, Outcome;
    LiveCapture.ReturnedIsPublished(setup, o, actions, later);
    ReturnedHasBegun(setup, actions);
    CaptureIsRecorded(setup, actions);
    var segments := LiveCapture.Run(setup, actions).value.segments;
    if Understands(setting) {
      RecordingReplays(setting, segments);
      if LiveCapture.NoTear(setup, actions) {
        NothingLost(setup, actions);
      }
    }
  }

  lemma ReturnedHasBegun(setup: LiveCapture.Setup, actions: seq<LiveCapture.Action>)
    requires LiveCapture.Run(setup, actions).Some? && LiveCapture.Run(setup, actions).value.phase.Returned?
    ensures LiveCapture.Run(setup, actions).value.segments != []
  {
    hide LiveCapture.Run, LiveCapture.Expected, LiveCapture.LostOk, Recordings.Wholes, Recordings.Segment.Valid;
    LiveCapture.HistoryInEveryRun(setup, actions);
  }

  /**
   * The file of a capture that has not published it, because it still runs, has given up or has failed in its commit:
   * from the metadata line on it replays like a published one, frame by frame.
   */
  lemma UnpublishedCaptureReplays(setup: LiveCapture.Setup, o: Publication.Origin, actions: seq<LiveCapture.Action>,
                                  setting: Setting)
    requires Publication.Initial(setup.system, o) && |setup.system.writers| >= 1 && ValidProducts(setup.products)
    requires LiveCapture.Run(setup, actions).Some? && LiveCapture.Run(setup, actions).value.segments != []
    ensures Recordings.AllSegmentsValid(LiveCapture.Run(setup, actions).value.segments)
    ensures var s := LiveCapture.Run(setup, actions).value;
            var file := LiveCapture.OwnText(s.system);
            var t := ReadLines(FileLines(file, setting.parse));
            var verdicts := Verdicts(FileLines(file, setting.parse));
            Understands(setting) ==>
              && (Outcome(file, setting.parse).Returned? <==> Lines.Fits(Recordings.AllLines(s.segments)))
              && (Outcome(file, setting.parse).Returned? ==>
                    && t.frames + LinesLost(s.segments) == s.session.frames
                    && (LiveCapture.NoTear(setup, actions) ==>
                          t.frames == s.session.frames && Count(verdicts, BadRecord) == 0))
  {
    hide LiveCapture.Run, Publication.Initial, LiveCapture.NoTear, LiveCapture.OwnText, LiveCapture.OwnsFile;
    hide Recordings.Bytes, Recordings.AllLines, Recordings.AllRecords, Recordings.Wholes, Recordings.CountSome;
    hide Lines.Fits, ReadLines, Verdicts, Count, Understands, LinesLost, Recorded, Outcome;
    LiveCapture.FileIsKept(setup, o, actions);
    CaptureIsRecorded(setup, actions);
    var segments := LiveCapture.Run(setup, actions).value.segments;
    if Understands(setting) {
      RecordingReplays(setting, segments);
      if LiveCapture.NoTear(setup, actions) {
        NothingLost(setup, actions);
      }
    }
  }

  /** The two size limits disagree: this capture returns with one frame, and the file it published cannot be read. */
  lemma CaptureCannotBeReplayed(setup: LiveCapture.Setup, o: Publication.Origin, inode: Publication.Inode,
                                setting: Setting)
    requires Publication.Initial(setup.system, o)
    requires setup.Dumpable() && CaptureRuns.UntouchedDirectory(setup.system) && setup.system.disk.Fresh(inode)
    ensures var payload := JsonText.Quotes(JsonText.MAXIMUM_MESSAGE_SIZE);
            var run := LiveCapture.Run(setup, CaptureRuns.SingleActions(setup, inode, payload));
            && run.Some? && run.value.phase.Returned? && run.value.session.frames == 1
            && Outcome(FileAt(run.value.system.disk), setting.parse) == RecordTooLong
  {
    hide LiveCapture.Run, CaptureRuns.SingleActions, JsonText.Quotes, JsonText.Render, JsonText.ValidUtf8;
    hide Recordings.Bytes, Recordings.PhysicalLines, Recordings.Wholes, Lines.ReadAll, Publication.Initial;
    hide LiveCapture.Expected, LiveCapture.NoTear, LiveCapture.NoRefusal;
    var payload := JsonText.Quotes(JsonText.MAXIMUM_MESSAGE_SIZE);
    var actions := CaptureRuns.SingleActions(setup, inode, payload);
    JsonText.LimitsDisagree(1, 1);
    CaptureRuns.SingleMessageCommitted(setup, inode, payload);
    LiveCapture.ReturnedIsPublished(setup, o, actions, []);
    LiveCapture.RecordingIsExactlyTheMessages(setup, actions);
    var meta, frame := Recordings.Whole(setup.Metadata()), Recordings.Whole(JsonText.FramePiece(1, 1, payload));
    TwoLines(meta, frame);
    Recordings.RecordingReadsBack([meta, frame]);
    assert |Recordings.AllLines([meta, frame])[1]| > Lines.MAXIMUM_RECORD_SIZE;
  }

  lemma TwoLines(g: Recordings.Segment, h: Recordings.Segment)
    requires g.Whole? && h.Whole?
    ensures Recordings.AllLines([g, h]) == [JsonText.Render(g.piece), JsonText.Render(h.piece)]
    ensures |Recordings.Wholes([g, h])| == 2
  {
    hide JsonText.Render;
    Recordings.NothingCut([g, h]);
    Recordings.BytesSnoc([], g);
    Recordings.BytesSnoc([g], h);
    Recordings.NothingLeft();
    assert [] + [g] == [g] && [g] + [h] == [g, h];
    assert Recordings.Wholes([g, h]) == [g.piece, h.piece];
  }

  // ----- comparing two replays of one file

  lemma {:induction false} FewLines(file: string, pos: nat)
    requires pos <= |file|
    ensures |Lines.ReadAll(file, pos).1| <= |file| - pos
    decreases |file| - pos
  {
    hide Lines.NextLine;
    if Lines.NextLine(file, pos).Got? {
      Lines.NextLineAdvances(file, pos);
      FewLines(file, Lines.NextLine(file, pos).next);
    }
  }

  /** Errors are counted per line, so below 2^64 bytes the reported number is zero only when there are none. */
  lemma NoErrorsReported(file: string, parse: string -> Option<Record>)
    requires |file| < TWO64
    ensures var t := ReadLines(FileLines(file, parse)); Reported(t).parseErrors == 0 <==> t.parseErrors == 0
  {
    hide ReadLines, Verdicts, Count, CountBlank, Lines.ReadAll;
    FewLines(file, 0);
    var lines := FileLines(file, parse);
    LineAccounts(lines);
    assert ReadLines(lines).parseErrors <= |lines|;
  }

  /** The producer of these actions was handed what reading the file hands over, and has finished. */
  ghost predicate ReplaysFile(file: string, parse: string -> Option<Record>, actions: seq<Action>) {
    && Run(actions).Some? && Run(actions).value.producer.Finished?
    && SameTrades(ReadLines(FileLines(file, parse)).handed, Submitted(actions))
  }

  /** Such runs exist, and any number of trades up to a queue full may be what they leave behind. */
  lemma ReplaysOccur(file: string, parse: string -> Option<Record>, late: nat, at: u64)
    requires late <= QUEUE_CAPACITY
    ensures var handed := ReadLines(FileLines(file, parse)).handed;
            late <= |handed| ==>
              ReplaysFile(file, parse, Lossy(handed, late, at)) && LatePushes(Lossy(handed, late, at)) == late
  {
    hide Run, Submitted, LatePushes, SameTrades, ReadLines, FileLines, Lossy;
    var handed := ReadLines(FileLines(file, parse)).handed;
    if late <= |handed| {
      EveryLossOccurs(handed, late, at);
    }
  }

  /**
   * Two replays of one file, scheduled in any way, compare equal iff the recording is well formed and both have left
   * equally many trades behind.
   */
  lemma ReplaysComparableExactly(file: string, parse: string -> Option<Record>, a: seq<Action>, b: seq<Action>,
                                 r: ReplayReport, q: ReplayReport)
    requires ReplaysFile(file, parse, a) && ReplaysFile(file, parse, b)
    requires |file| < TWO64 && |Submitted(a)| < TWO64
    requires Outcome(file, parse).Returned?
    requires Describes(r, Run(a).value.work, Outcome(file, parse).metrics)
    requires Describes(q, Run(b).value.work, Outcome(file, parse).metrics)
    ensures ReportsComparable(r, q) <==>
            WellFormed(Verdicts(FileLines(file, parse))) && LatePushes(a) == LatePushes(b)
  {
    hide Run, Submitted, LatePushes, ReportsComparable, Describes, Checksum, SameTrades, ReadLines, FileLines, Verdicts;
    hide WellFormed;
    var handed := ReadLines(FileLines(file, parse)).handed;
    BothAsHanded(handed, Submitted(a), Submitted(b));
    FinishedMeansExited(a);
    FinishedMeansExited(b);
    LeftBehind(a);
    LeftBehind(b);
    ComparableExactlyWhen(a, b, Outcome(file, parse).metrics, r, q);
    NoErrorsReported(file, parse);
    CleanReplay(FileLines(file, parse));
  }

  lemma BothAsHanded(handed: seq<Trade>, s: seq<Trade>, t: seq<Trade>)
    requires SameTrades(handed, s) && SameTrades(handed, t)
    ensures SameTrades(s, t) && |s| == |t|
  {
    forall i | 0 <= i < |s|
      ensures s[i].Logical() == t[i].Logical()
    {
      assert handed[i].Logical() == s[i].Logical() && handed[i].Logical() == t[i].Logical();
    }
  }

  // ----- from the generator to the checksum

  /** The producer of these actions was handed the trades of the fixture and has finished. */
  ghost predicate ReplaysFixture(count: nat, product: string, actions: seq<Action>)
    requires count <= UINT64_MAX
  {
    && Run(actions).Some? && Run(actions).value.producer.Finished?
    && SameTrades(ReadLines(FixtureLines(count, product)).handed, Submitted(actions))
  }

  lemma FixtureReplaysOccur(count: nat, product: string, late: nat, at: u64)
    requires count <= UINT64_MAX && 1 <= |product| <= 20 && late <= count && late <= QUEUE_CAPACITY
    ensures ReplaysFixture(count, product, Lossy(FixtureTrades(count, product), late, at))
    ensures LatePushes(Lossy(FixtureTrades(count, product), late, at)) == late
  {
    hide Run, Submitted, LatePushes, ReadLines, FixtureLines, FixtureTrade, Lossy, SameTrades;
    FixtureReplays(count, product);
    EveryLossOccurs(FixtureTrades(count, product), late, at);
  }

  /**
   * A replay of the generated fixture processes every generated event, with the fixture's own checksum, iff it
   * drained.
   */
  lemma GeneratedEventsProcessed(count: nat, product: string, actions: seq<Action>)
    requires count <= UINT64_MAX && 1 <= |product| <= 20
    ensures ReplaysFixture(count, product, actions) ==>
              && (Run(actions).value.work.events == count <==> LatePushes(actions) == 0)
              && (LatePushes(actions) == 0 ==>
                    Run(actions).value.work.checksum == Checksum(FixtureTrades(count, product)))
  {
    hide Run, Submitted, LatePushes, Checksum, SameTrades, ReadLines, FixtureLines, FixtureTrade;
    if ReplaysFixture(count, product, actions) {
      FixtureReplays(count, product);
      var trades := FixtureTrades(count, product);
      SameLength(trades, Submitted(actions));
      FinishedMeansExited(actions);
      LeftBehind(actions);
      ConsumedIsPrefix(actions);
      var consumed := Run(actions).value.work.consumed;
      assert |trades| == count && |consumed| == count - LatePushes(actions);
      assert Wrap(|consumed|) == |consumed|;
      if LatePushes(actions) == 0 {
        PrefixesSame(trades, trades, consumed, Submitted(actions));
      }
    }
  }

  lemma FinishedMeansExited(actions: seq<Action>)
    requires Run(actions).Some? && Run(actions).value.producer.Finished?
    ensures Run(actions).value.consumer.Exited?
  {
    hide Run, Submitted;
    EveryInterleaving(actions);
  }
}
