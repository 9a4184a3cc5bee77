/** The bytes of a recording: whole lines, lines that were cut, and what a reader makes of them. */
module Recordings {
  import opened Words
  import opened JsonText
  import AtomicOutputs
  import Lines

  /** What one `write_line` left in the file: the line, or its first bytes. */
  datatype Segment = Whole(piece: Piece) | Cut(piece: Piece, written: nat) {
    predicate Valid() {
      Cut? ==> piece.FramePiece? && 0 < written <= |Render(piece)|
    }

    function Text(): string
      requires Valid()
    {
      if Whole? then Render(piece) + "\n" else Render(piece)[..written]
    }
  }

  /** A frame that can be dumped. */
  predicate Utf8Frame(p: Piece) {
    p.FramePiece? && ValidUtf8(p.payload)
  }

  predicate AllSegmentsValid(segments: seq<Segment>) {
    forall i :: 0 <= i < |segments| ==> segments[i].Valid()
  }

  function Bytes(segments: seq<Segment>): string
    requires AllSegmentsValid(segments)
  {
    if segments == [] then "" else Bytes(segments[..|segments| - 1]) + segments[|segments| - 1].Text()
  }

  /** The pieces whose lines were written completely. */
  function Wholes(segments: seq<Segment>): seq<Piece> {
    if segments == [] then []
    else
      Wholes(segments[..|segments| - 1]) +
      if segments[|segments| - 1].Whole? then [segments[|segments| - 1].piece] else []
  }

  function Rendered(pieces: seq<Piece>): seq<string> {
    seq(|pieces|, i requires 0 <= i < |pieces| => Render(pieces[i]))
  }

  /** The effect of writing the line of a piece, given the kernel's answers. */
  function LineEffect(p: Piece, script: seq<AtomicOutputs.WriteResult>): (e: AtomicOutputs.WriteEffect)
    ensures e.written <= |Render(p)| + 1
  {
    AtomicOutputs.LineEffect(|Render(p)| + 1, script)
  }

  /** The bytes the kernel takes of it. */
  function TakenText(p: Piece, script: seq<AtomicOutputs.WriteResult>): string {
    (Render(p) + "\n")[..LineEffect(p, script).written]
  }

  /** The segment it leaves, if any. */
  function Left(p: Piece, script: seq<AtomicOutputs.WriteResult>): seq<Segment> {
    var e := LineEffect(p, script);
    if e.outcome == AtomicOutputs.Returned then [Whole(p)]
    else if e.written == 0 then []
    else [Cut(p, e.written)]
  }

  /** It is exactly the bytes the kernel took. */
  lemma LeftIsWritten(p: Piece, script: seq<AtomicOutputs.WriteResult>)
    requires p.FramePiece? || LineEffect(p, script).outcome == AtomicOutputs.Returned
    ensures AllSegmentsValid(Left(p, script))
    ensures Bytes(Left(p, script)) == TakenText(p, script)
  {
    hide Render, AtomicOutputs.LineEffect;
    var e, segments := LineEffect(p, script), Left(p, script);
    NothingLeft();
    if segments != [] {
      BytesSnoc([], segments[0]);
      assert [] + [segments[0]] == segments;
      assert "" + segments[0].Text() == segments[0].Text();
    }
    assert (Render(p) + "\n")[..|Render(p)| + 1] == Render(p) + "\n";
  }

  lemma BytesSnoc(segments: seq<Segment>, g: Segment)
    requires AllSegmentsValid(segments) && g.Valid()
    ensures AllSegmentsValid(segments + [g])
    ensures Bytes(segments + [g]) == Bytes(segments) + g.Text()
    ensures Wholes(segments + [g]) == Wholes(segments) + if g.Whole? then [g.piece] else []
  {
    hide Render, Segment.Text;
    assert (segments + [g])[..|segments|] == segments;
  }

  lemma NothingLeft()
    ensures Bytes([]) == "" && Wholes([]) == []
  {
  }

  lemma BytesLeft(segments: seq<Segment>, more: seq<Segment>)
    requires AllSegmentsValid(segments) && AllSegmentsValid(more) && |more| <= 1
    ensures AllSegmentsValid(segments + more)
    ensures Bytes(segments + more) == Bytes(segments) + Bytes(more)
    ensures Wholes(segments + more) == Wholes(segments) + Wholes(more)
  {
    hide Segment.Text, Segment.Valid, Bytes, Wholes;
    NothingLeft();
    if more == [] {
      assert segments + more == segments;
      assert Bytes(segments) + "" == Bytes(segments) && Wholes(segments) + [] == Wholes(segments);
    } else {
      var g := more[0];
      assert more == [g] && [] + [g] == [g];
      BytesSnoc(segments, g);
      BytesSnoc([], g);
      assert "" + g.Text() == g.Text();
    }
  }

  // ----- cuts and bytes

  predicate HasCut(segments: seq<Segment>) {
    exists i :: 0 <= i < |segments| && segments[i].Cut?
  }

  lemma {:induction false} WrittenSnoc(lines: seq<string>, line: string)
    ensures Lines.Written(lines + [line]) == Lines.Written(lines) + line + "\n"
  {
    if lines == [] {
      assert [] + [line] == [line];
      assert Lines.Written([line]) == line + "\n" + Lines.Written([line][1..]);
    } else {
      assert (lines + [line])[1..] == lines[1..] + [line];
      WrittenSnoc(lines[1..], line);
    }
  }

  /** The file is longer than its whole lines by the bytes of its cuts. */
  lemma {:induction false} CutsAddBytes(segments: seq<Segment>)
    requires AllSegmentsValid(segments)
    ensures var lines := Lines.Written(Rendered(Wholes(segments)));
            if HasCut(segments) then |Bytes(segments)| > |lines| else Bytes(segments) == lines
  {
    hide Render;
    if segments != [] {
      var init, g := segments[..|segments| - 1], segments[|segments| - 1];
      assert segments == init + [g];
      CutsAddBytes(init);
      assert HasCut(segments) <==> HasCut(init) || g.Cut? by {
        if i :| 0 <= i < |init| && init[i].Cut? {
          assert segments[i].Cut?;
        }
        assert g == segments[|init|];
      }
      if g.Whole? {
        assert Rendered(Wholes(segments)) == Rendered(Wholes(init)) + [Render(g.piece)];
        WrittenSnoc(Rendered(Wholes(init)), Render(g.piece));
      } else {
        assert Wholes(segments) == Wholes(init);
      }
    }
  }

  // ----- the physical lines

  /** The bytes after the last newline. */
  function Carry(segments: seq<Segment>): string
    requires AllSegmentsValid(segments)
  {
    if segments == [] || segments[|segments| - 1].Whole? then ""
    else Carry(segments[..|segments| - 1]) + segments[|segments| - 1].Text()
  }

  /** The lines a reader finds: what was cut has no newline, so the next line is glued to it. */
  function PhysicalLines(segments: seq<Segment>): seq<string>
    requires AllSegmentsValid(segments)
  {
    if segments == [] then []
    else
      var init, g := segments[..|segments| - 1], segments[|segments| - 1];
      PhysicalLines(init) + if g.Whole? then [Carry(init) + Render(g.piece)] else []
  }

  /** Which of the physical lines are whole records, and which of them are spoiled. */
  function Records(segments: seq<Segment>): seq<Option<Piece>>
    requires AllSegmentsValid(segments)
  {
    if segments == [] then []
    else
      var init, g := segments[..|segments| - 1], segments[|segments| - 1];
      Records(init) +
      if g.Cut? then [] else if Carry(init) == "" then [Some(g.piece)] else [None]
  }

  lemma RecordsSnoc(segments: seq<Segment>, g: Segment)
    requires AllSegmentsValid(segments) && g.Valid()
    ensures AllSegmentsValid(segments + [g])
    ensures Records(segments + [g]) ==
            Records(segments) + if g.Cut? then [] else if Carry(segments) == "" then [Some(g.piece)] else [None]
    ensures Records([]) == []
  {
    hide Render, Carry;
    assert (segments + [g])[..|segments|] == segments;
  }

  /** The bytes after the last newline are a whole record only if they are a single cut of all its bytes. */
  function LastRecord(segments: seq<Segment>): seq<Option<Piece>>
    requires AllSegmentsValid(segments)
  {
    if Carry(segments) == "" then []
    else
      var init, g := segments[..|segments| - 1], segments[|segments| - 1];
      if Carry(init) == "" && g.written == |Render(g.piece)| then [Some(g.piece)] else [None]
  }

  function AllLines(segments: seq<Segment>): seq<string>
    requires AllSegmentsValid(segments)
  {
    Lines.Lasting(PhysicalLines(segments), Carry(segments))
  }

  function AllRecords(segments: seq<Segment>): seq<Option<Piece>>
    requires AllSegmentsValid(segments)
  {
    Records(segments) + LastRecord(segments)
  }

  lemma {:induction false} BytesAreLines(segments: seq<Segment>)
    requires AllSegmentsValid(segments)
    ensures Bytes(segments) == Lines.Written(PhysicalLines(segments)) + Carry(segments)
  {
    hide Render;
    if segments != [] {
      var init, g := segments[..|segments| - 1], segments[|segments| - 1];
      BytesAreLines(init);
      var w, c := Lines.Written(PhysicalLines(init)), Carry(init);
      hide Lines.Written;
      if g.Whole? {
        WrittenSnoc(PhysicalLines(init), c + Render(g.piece));
        assert (w + c) + (Render(g.piece) + "\n") == w + (c + Render(g.piece)) + "\n";
        assert w + (c + Render(g.piece)) + "\n" + "" == w + (c + Render(g.piece)) + "\n";
      } else {
        assert PhysicalLines(segments) == PhysicalLines(init);
        assert (w + c) + g.Text() == w + (c + g.Text());
      }
    } else {
      assert Lines.Written([]) + "" == "";
    }
  }

  lemma {:induction false} PhysicalPrintable(segments: seq<Segment>)
    requires AllSegmentsValid(segments)
    ensures Printable(Carry(segments))
    ensures forall i :: 0 <= i < |PhysicalLines(segments)| ==> Printable(PhysicalLines(segments)[i])
  {
    hide Render, Printable;
    NothingPrintable();
    if segments != [] {
      var init, g := segments[..|segments| - 1], segments[|segments| - 1];
      PhysicalPrintable(init);
      RenderPrintable(g.piece);
      if g.Whole? {
        PrintableParts(Carry(init), Render(g.piece), |Render(g.piece)|);
      } else {
        PrintableParts(Carry(init), Render(g.piece), g.written);
      }
    }
  }

  lemma NothingPrintable()
    ensures Printable("")
  {
  }

  lemma PrintableParts(a: string, b: string, k: nat)
    requires Printable(a) && Printable(b) && k <= |b|
    ensures Printable(a + b) && Printable(a + b[..k])
  {
  }

  /** No line of a recording holds a control character. */
  lemma LinesPrintable(segments: seq<Segment>)
    requires AllSegmentsValid(segments)
    ensures forall i :: 0 <= i < |AllLines(segments)| ==> Printable(AllLines(segments)[i])
  {
    hide PhysicalLines, Carry, Printable;
    PhysicalPrintable(segments);
  }

  /** Reading the bytes back yields the physical lines, iff each of them is within the reader's limit. */
  lemma RecordingReadsBack(segments: seq<Segment>)
    requires AllSegmentsValid(segments)
    ensures var (ok, read) := Lines.ReadAll(Bytes(segments), 0);
            && (ok <==> Lines.Fits(AllLines(segments)))
            && (ok ==> read == AllLines(segments))
  {
    hide Bytes, PhysicalLines, Carry, Lines.ReadAll;
    BytesAreLines(segments);
    PhysicalPrintable(segments);
    Lines.WrittenLinesReadBack("", PhysicalLines(segments), Carry(segments));
    assert "" + Lines.Written(PhysicalLines(segments)) == Lines.Written(PhysicalLines(segments));
  }

  // ----- what is JSON in it

  /** The bytes after the last newline are empty, one whole frame, or nothing that JSON allows. */
  lemma {:induction false} CarryScan(segments: seq<Segment>)
    requires AllSegmentsValid(segments)
    ensures Carry(segments) != "" ==>
              if LastRecord(segments)[0].Some?
              then
                && Carry(segments) == Render(LastRecord(segments)[0].value)
                && Scanned(START, Carry(segments)) == FINISHED
              else Spoiled(Carry(segments))
  {
    hide Render, Scanned, Spoiled;
    if segments != [] && segments[|segments| - 1].Cut? {
      var init, g := segments[..|segments| - 1], segments[|segments| - 1];
      CarryScan(init);
      CutIsCut(g);
      if Carry(init) == "" {
        assert "" + g.Text() == g.Text();
        CutSpoils(g.Text(), g.piece);
        assert g.written == |Render(g.piece)| <==> g.Text() == Render(g.piece);
      } else {
        GluedSpoils(Carry(init), g.Text(), g.piece);
      }
    }
  }

  lemma CutIsCut(g: Segment)
    requires g.Valid() && g.Cut?
    ensures IsCut(g.Text(), g.piece)
  {
    hide Render;
  }

  /** A line that is not a whole record is not JSON; a line that is one is exactly what was written for it. */
  ghost predicate LineIs(line: string, record: Option<Piece>) {
    match record
    case Some(p) => line == Render(p)
    case None => line != "" && !Balanced(line)
  }

  lemma {:induction false} LinesAreRecords(segments: seq<Segment>)
    requires AllSegmentsValid(segments)
    requires forall i :: 0 < i < |segments| ==> segments[i].piece.FramePiece?
    requires segments != [] ==> segments[0].Whole?
    ensures |PhysicalLines(segments)| == |Records(segments)|
    ensures forall i :: 0 <= i < |Records(segments)| ==> LineIs(PhysicalLines(segments)[i], Records(segments)[i])
  {
    hide Render, Balanced, Scanned, Spoiled;
    if segments != [] {
      var init, g := segments[..|segments| - 1], segments[|segments| - 1];
      LinesAreRecords(init);
      if g.Whole? {
        GluedLine(init, g);
      }
    }
  }

  lemma GluedLine(init: seq<Segment>, g: Segment)
    requires AllSegmentsValid(init) && g.Whole?
    requires init != [] ==> g.piece.FramePiece?
    ensures LineIs(Carry(init) + Render(g.piece), if Carry(init) == "" then Some(g.piece) else None)
  {
    hide Render, Balanced, Scanned, Spoiled;
    if Carry(init) == "" {
      assert "" + Render(g.piece) == Render(g.piece);
    } else {
      CarryScan(init);
      RenderNotEmpty(g.piece);
      assert Render(g.piece)[..|Render(g.piece)|] == Render(g.piece);
      GluedSpoils(Carry(init), Render(g.piece), g.piece);
      SpoiledNotBalanced(Carry(init) + Render(g.piece));
    }
  }

  lemma RenderNotEmpty(p: Piece)
    ensures |Render(p)| > 0
  {
    hide Escape, Key, Listed, Members;
  }

  /** Which records of a recording are still there for a reader, cuts or not. */
  lemma RecordsRead(segments: seq<Segment>)
    requires AllSegmentsValid(segments)
    requires forall i :: 0 < i < |segments| ==> segments[i].piece.FramePiece?
    requires segments != [] ==> segments[0].Whole?
    ensures |AllLines(segments)| == |AllRecords(segments)|
    ensures forall i :: 0 <= i < |AllRecords(segments)| ==> LineIs(AllLines(segments)[i], AllRecords(segments)[i])
  {
    hide Render, Balanced, Scanned, Spoiled;
    LinesAreRecords(segments);
    CarryScan(segments);
    if Carry(segments) != "" {
      if LastRecord(segments)[0].None? {
        SpoiledNotBalanced(Carry(segments));
      }
      assert LineIs(Carry(segments), LastRecord(segments)[0]);
    }
  }

  /** Without cuts, every record is there. */
  lemma {:induction false} NothingCut(segments: seq<Segment>)
    requires AllSegmentsValid(segments) && !HasCut(segments)
    ensures Carry(segments) == "" && Glued(segments) == 0
    ensures PhysicalLines(segments) == Rendered(Wholes(segments))
    ensures |Records(segments)| == |Wholes(segments)|
    ensures forall i :: 0 <= i < |Records(segments)| ==> Records(segments)[i] == Some(Wholes(segments)[i])
  {
    hide Render;
    if segments != [] {
      var init, g := segments[..|segments| - 1], segments[|segments| - 1];
      assert forall i :: 0 <= i < |init| ==> init[i] == segments[i];
      NothingCut(init);
      assert "" + Render(g.piece) == Render(g.piece);
    }
  }

  /** The first line is a record, and the records after it are frames. */
  lemma FirstRecord(segments: seq<Segment>)
    requires AllSegmentsValid(segments) && segments != [] && segments[0].Whole?
    requires forall i :: 0 < i < |segments| ==> segments[i].piece.FramePiece?
    ensures |AllRecords(segments)| > 0 && AllRecords(segments)[0] == Some(segments[0].piece)
    ensures forall i :: 0 < i < |AllRecords(segments)| && AllRecords(segments)[i].Some? ==>
              AllRecords(segments)[i].value.FramePiece?
  {
    hide Render, Carry, Records, LastRecord, Segment.Valid;
    FirstOfRecords(segments);
    LastIsFrame(segments);
  }

  /** A record that is read is one that was written. */
  lemma RecordsAreWritten(segments: seq<Segment>, p: Piece)
    requires AllSegmentsValid(segments) && Some(p) in AllRecords(segments)
    ensures exists j :: 0 <= j < |segments| && segments[j].piece == p
  {
    hide Render, Carry, Segment.Text, Records;
    if Some(p) in Records(segments) {
      WrittenRecords(segments, p);
    } else {
      CarryAfterCut(segments);
      assert segments[|segments| - 1].piece == p;
    }
  }

  lemma {:induction false} WrittenRecords(segments: seq<Segment>, p: Piece)
    requires AllSegmentsValid(segments) && Some(p) in Records(segments)
    ensures exists j :: 0 <= j < |segments| && segments[j].piece == p
  {
    hide Render, Carry, Segment.Text;
    var init, g := segments[..|segments| - 1], segments[|segments| - 1];
    if Some(p) in Records(init) {
      WrittenRecords(init, p);
      var j :| 0 <= j < |init| && init[j].piece == p;
      assert segments[j].piece == p;
    } else {
      assert segments[|init|].piece == p;
    }
  }

  lemma LastIsFrame(segments: seq<Segment>)
    requires AllSegmentsValid(segments)
    ensures |LastRecord(segments)| <= 1
    ensures LastRecord(segments) != [] && LastRecord(segments)[0].Some? ==> LastRecord(segments)[0].value.FramePiece?
  {
    hide Render, Carry;
    CarryAfterCut(segments);
  }

  lemma {:induction false} FirstOfRecords(segments: seq<Segment>)
    requires AllSegmentsValid(segments) && segments != [] && segments[0].Whole?
    requires forall i :: 0 < i < |segments| ==> segments[i].piece.FramePiece?
    ensures |Records(segments)| > 0 && Records(segments)[0] == Some(segments[0].piece)
    ensures forall i :: 0 < i < |Records(segments)| && Records(segments)[i].Some? ==>
              Records(segments)[i].value.FramePiece?
  {
    hide Render;
    var init, g := segments[..|segments| - 1], segments[|segments| - 1];
    if init != [] {
      FirstOfRecords(init);
    } else {
      assert Records(init) == [] && Carry(init) == "";
    }
  }

  // ----- what a cut costs

  /** A cut costs the line written after it. */
  predicate CutBefore(segments: seq<Segment>, i: nat)
    requires i < |segments|
  {
    i > 0 && segments[i - 1].Cut?
  }

  lemma CarryAfterCut(segments: seq<Segment>)
    requires AllSegmentsValid(segments)
    ensures Carry(segments) != "" <==> segments != [] && segments[|segments| - 1].Cut?
  {
    hide Render;
  }

  function CountSome(records: seq<Option<Piece>>): nat {
    if records == [] then 0
    else CountSome(records[..|records| - 1]) + if records[|records| - 1].Some? then 1 else 0
  }

  /** How many whole lines follow a cut directly. */
  function Glued(segments: seq<Segment>): nat {
    if segments == [] then 0
    else
      var k := |segments| - 1;
      Glued(segments[..k]) + if segments[k].Whole? && CutBefore(segments, k) then 1 else 0
  }

  lemma RecordsStep(segments: seq<Segment>)
    requires AllSegmentsValid(segments) && segments != []
    ensures var init, g := segments[..|segments| - 1], segments[|segments| - 1];
            && CountSome(Records(segments)) ==
               CountSome(Records(init)) + (if g.Whole? && Carry(init) == "" then 1 else 0)
            && |Wholes(segments)| == |Wholes(init)| + (if g.Whole? then 1 else 0)
  {
    hide Render, Carry, Segment.Text, CountSome;
    var init, g := segments[..|segments| - 1], segments[|segments| - 1];
    if g.Whole? {
      CountSnoc(Records(init), if Carry(init) == "" then Some(g.piece) else None);
    } else {
      assert Records(segments) == Records(init);
    }
  }

  lemma NoRecords()
    ensures CountSome(Records([])) == 0 && Glued([]) == 0 && Wholes([]) == []
  {
  }

  /** The lines lost to a reader are as many as were written directly after a cut. */
  lemma {:induction false} GluedLinesLost(segments: seq<Segment>)
    requires AllSegmentsValid(segments)
    ensures CountSome(Records(segments)) + Glued(segments) == |Wholes(segments)|
  {
    hide Render, Carry, Segment.Text, CountSome, Records, Wholes;
    NoRecords();
    if segments != [] {
      var init := segments[..|segments| - 1];
      GluedLinesLost(init);
      RecordsStep(segments);
      CarryAfterCut(init);
    }
  }

  /**
   * Which lines these are: of the whole line at `i` the reader gets the record exactly when no cut comes directly
   * before it. Its place among the physical lines is the number of whole lines before it.
   */
  lemma {:induction false} LineLostExactly(segments: seq<Segment>, i: nat)
    requires AllSegmentsValid(segments) && i < |segments| && segments[i].Whole?
    ensures |Records(segments)| == |Wholes(segments)|
    ensures |Wholes(segments[..i])| < |Records(segments)|
    ensures Records(segments)[|Wholes(segments[..i])|] ==
            if CutBefore(segments, i) then None else Some(segments[i].piece)
  {
    hide Render, Carry, Segment.Text, Segment.Valid, Records, Wholes;
    var init, g := segments[..|segments| - 1], segments[|segments| - 1];
    assert segments == init + [g];
    RecordPerWhole(init);
    RecordsSnoc(init, g);
    BytesSnoc(init, g);
    if i < |init| {
      LineLostExactly(init, i);
      assert init[..i] == segments[..i];
    } else {
      CarryAfterCut(init);
    }
  }

  lemma {:induction false} RecordPerWhole(segments: seq<Segment>)
    requires AllSegmentsValid(segments)
    ensures |Records(segments)| == |Wholes(segments)|
  {
    hide Render, Carry;
    if segments != [] {
      RecordPerWhole(segments[..|segments| - 1]);
    }
  }

  lemma CountSnoc(records: seq<Option<Piece>>, r: Option<Piece>)
    ensures CountSome(records + [r]) == CountSome(records) + if r.Some? then 1 else 0
  {
    assert (records + [r])[..|records|] == records;
  }
}
