/** Particular runs of the capture: one that publishes a torn line, and one for every single message. */
module CaptureRuns {
  import opened Words
  import opened JsonText
  import opened Recordings
  import opened LiveCapture
  import AtomicOutputs
  import Publication

  // ----- a capture that publishes a torn line

  const TORN_CHUNK := Chunk(Text, false, 0, "a", 1)
  const NEXT_CHUNK := Chunk(Text, false, 0, "b", 2)

  /** The kernel takes all of a line, or only its first byte. */
  function Taken(p: Piece): seq<AtomicOutputs.WriteResult> {
    [AtomicOutputs.Accepted(|Render(p)|), AtomicOutputs.Accepted(1)]
  }

  const CUT_SHORT := [AtomicOutputs.Accepted(1), AtomicOutputs.Error]

  lemma TakenWhole(p: Piece)
    ensures LineEffect(p, Taken(p)).outcome == AtomicOutputs.Returned && Left(p, Taken(p)) == [Whole(p)]
    ensures LineEffect(p, Taken(p)).written == |Render(p)| + 1
  {
    hide Render;
    RenderNotEmpty(p);
    AtomicOutputs.WriteAllStep(|Render(p)|, Taken(p));
    AtomicOutputs.WriteAllStep(0, Taken(p)[1..]);
    AtomicOutputs.WriteAllStep(1, Taken(p)[1..]);
    AtomicOutputs.WriteAllStep(0, Taken(p)[2..]);
    assert Taken(p)[1..][1..] == Taken(p)[2..];
  }

  lemma TakenInPart(p: Piece)
    requires |Render(p)| > 1
    ensures LineEffect(p, CUT_SHORT).outcome == AtomicOutputs.Threw && Left(p, CUT_SHORT) == [Cut(p, 1)]
  {
    hide Render;
    AtomicOutputs.WriteAllStep(|Render(p)|, CUT_SHORT);
    AtomicOutputs.WriteAllStep(|Render(p)| - 1, CUT_SHORT[1..]);
  }

  function Cycle(c: Chunk, script: seq<AtomicOutputs.WriteResult>): seq<Action> {
    [CheckOuter, Connected, CheckInner, Received(c, script)]
  }

  /** One more connection and one chunk on it. */
  function Reconnected(s: State): State {
    s.(phase := Polling, session := s.session.(connection := s.session.connection + 1, message := ""),
       received := s.received + [[]])
  }

  lemma Then(setup: Setup, before: seq<Action>, a: Action)
    requires Run(setup, before).Some? && Enabled(setup, Run(setup, before).value, a)
    ensures Run(setup, before + [a]) == Some(Apply(setup, Run(setup, before).value, a))
  {
    assert (before + [a])[..|before|] == before;
  }

  lemma CycleRuns(setup: Setup, before: seq<Action>, c: Chunk, script: seq<AtomicOutputs.WriteResult>)
    requires Run(setup, before).Some?
    requires Run(setup, before).value.phase.Outer? && !Over(Run(setup, before).value)
    requires Answered(Reconnected(Run(setup, before).value).session, c, script)
    ensures Run(setup, before + Cycle(c, script)) ==
            Some(AfterChunk(Reconnected(Run(setup, before).value), c, script))
  {
    hide Run, AfterChunk, Answered;
    Then(setup, before, CheckOuter);
    Then(setup, before + [CheckOuter], Connected);
    Then(setup, before + [CheckOuter] + [Connected], CheckInner);
    Then(setup, before + [CheckOuter] + [Connected] + [CheckInner], Received(c, script));
    assert before + [CheckOuter] + [Connected] + [CheckInner] + [Received(c, script)] == before + Cycle(c, script);
  }

  /** A writer that has the directory to itself. */
  predicate Alone(system: Publication.System, inode: Publication.Inode, phase: Publication.Phase) {
    && |system.writers| == 1 && system.writers[0].phase == phase && system.writers[0].inode == inode
    && system.disk.part == Some(inode) && system.disk.dest == None
  }

  lemma StillAlone(system: Publication.System, inode: Publication.Inode, text: string)
    requires Alone(system, inode, Publication.Writing)
    ensures Alone(WriteText(system, text), inode, Publication.Writing)
  {
  }

  function Opened(setup: Setup, inode: Publication.Inode): seq<Action> {
    [CheckOutput, CreateOutput(true, inode), WriteMetadata(Taken(setup.Metadata()))]
  }

  /** Before the first connection, nothing but the metadata written. */
  predicate AtStart(setup: Setup, run: Option<State>, inode: Publication.Inode) {
    && run.Some?
    && var s := run.value;
    && s.phase.Outer? && !Over(s) && s.session == Session("", 0, 0, 0, 0) && s.received == []
    && s.segments == [Whole(setup.Metadata())] && Alone(s.system, inode, Publication.Writing)
  }

  lemma OpenedRuns(setup: Setup, inode: Publication.Inode, all: seq<Action>)
    requires all == Opened(setup, inode)
    requires setup.Dumpable() && UntouchedDirectory(setup.system) && setup.system.disk.Fresh(inode)
    ensures AtStart(setup, Run(setup, all), inode)
  {
    hide Run, Render, LineEffect, Taken, ValidUtf8, WriteText, TakenText;
    var meta := WriteMetadata(Taken(setup.Metadata()));
    TakenWhole(setup.Metadata());
    RunOfNothing(setup);
    Then(setup, [], CheckOutput);
    Then(setup, [] + [CheckOutput], CreateOutput(true, inode));
    var s := Run(setup, [] + [CheckOutput] + [CreateOutput(true, inode)]).value;
    assert Alone(s.system, inode, Publication.Writing);
    Then(setup, [] + [CheckOutput] + [CreateOutput(true, inode)], meta);
    StillAlone(s.system, inode, TakenText(setup.Metadata(), Taken(setup.Metadata())));
    assert [] + [CheckOutput] + [CreateOutput(true, inode)] + [meta] == all;
  }

  lemma RunOfNothing(setup: Setup)
    ensures Run(setup, []) == Some(Initially(setup))
  {
  }

  predicate UntouchedDirectory(system: Publication.System) {
    && |system.writers| == 1 && system.writers[0].phase.NotStarted?
    && system.disk.part.None? && system.disk.dest.None?
  }

  function Commits(n: nat): seq<Action> {
    seq(n, _ => CommitCall(true))
  }

  function After(phase: Publication.Phase): Publication.Phase {
    match phase
    case Writing => Publication.FileSynced
    case FileSynced => Publication.FileClosed
    case FileClosed => Publication.Published
    case Published => Publication.Unlinked
    case Unlinked => Publication.DirectoryOpen
    case DirectoryOpen => Publication.DirectorySynced
    case _ => Publication.Committed
  }

  /** A commit of the only writer that has come as far as this. */
  predicate AloneIn(system: Publication.System, phase: Publication.Phase) {
    && |system.writers| == 1 && system.writers[0].phase == phase && CommitUnderWay(phase)
    && (phase.Writing? || phase.FileSynced? || phase.FileClosed? || phase.Published? ==> system.disk.part.Some?)
    && (phase.Writing? || phase.FileSynced? || phase.FileClosed? ==> system.disk.dest.None?)
  }

  lemma CommitPart(setup: Setup, before: seq<Action>, phase: Publication.Phase, s: State)
    requires Run(setup, before) == Some(s) && s.phase.Committing? && AloneIn(s.system, phase)
    ensures var t := AfterCommitCall(s, true);
            && Run(setup, before + [CommitCall(true)]) == Some(t) && t.segments == s.segments
            && if phase.DirectorySynced? then t.phase == Returned(s.phase.interrupted)
               else t.phase == s.phase && AloneIn(t.system, After(phase))
  {
    hide Run;
    Then(setup, before, CommitCall(true));
  }

  /** The seven calls of a commit nobody disturbs. */
  lemma CommitRuns(setup: Setup, before: seq<Action>)
    requires Run(setup, before).Some? && Run(setup, before).value.phase.Committing?
    requires AloneIn(Run(setup, before).value.system, Publication.Writing)
    ensures Run(setup, before + Commits(7)).Some?
    ensures var s, t := Run(setup, before).value, Run(setup, before + Commits(7)).value;
            t.phase == Returned(s.phase.interrupted) && t.segments == s.segments
  {
    hide Run, AloneIn, AfterCommitCall;
    var s, call := Run(setup, before).value, [CommitCall(true)];
    CommitPart(setup, before, Publication.Writing, s);
    CommitPart(setup, before + call, Publication.FileSynced, Run(setup, before + call).value);
    var b := before + call + call;
    CommitPart(setup, b, Publication.FileClosed, Run(setup, b).value);
    CommitPart(setup, b + call, Publication.Published, Run(setup, b + call).value);
    var c := b + call + call;
    CommitPart(setup, c, Publication.Unlinked, Run(setup, c).value);
    CommitPart(setup, c + call, Publication.DirectoryOpen, Run(setup, c + call).value);
    CommitPart(setup, c + call + call, Publication.DirectorySynced, Run(setup, c + call + call).value);
    assert c + call + call + call == before + Commits(7);
  }

  function TornActions(setup: Setup, inode: Publication.Inode): seq<Action> {
    Opened(setup, inode) + Cycle(TORN_CHUNK, CUT_SHORT) + [Handle] +
    Cycle(NEXT_CHUNK, Taken(FramePiece(2, 2, "b"))) +
    [StopRequested] + [CheckInner] + [CheckOuter] + [Finish] + Commits(7)
  }

  function TornSegments(setup: Setup): seq<Segment> {
    [Whole(setup.Metadata()), Cut(FramePiece(1, 1, "a"), 1), Whole(FramePiece(2, 2, "b"))]
  }

  lemma SmallMessages()
    ensures Recordable("a") && Recordable("b")
    ensures "" + "a" == "a" && "" + "b" == "b"
  {
  }

  lemma TornReaction(s: Session)
    requires s.message == "" && s.connection == 1
    ensures Answered(s, TORN_CHUNK, CUT_SHORT)
    ensures Receive(s, TORN_CHUNK, CUT_SHORT) == Reaction(s.(message := "a"), true, [Cut(FramePiece(1, 1, "a"), 1)])
  {
    hide Render, LineEffect, Left, ValidUtf8;
    SmallMessages();
    FrameStart(FramePiece(1, 1, "a"));
    TakenInPart(FramePiece(1, 1, "a"));
  }

  lemma NextReaction(s: Session)
    requires s.message == "" && s.connection == 2
    ensures Answered(s, NEXT_CHUNK, Taken(FramePiece(2, 2, "b")))
    ensures Receive(s, NEXT_CHUNK, Taken(FramePiece(2, 2, "b"))) ==
            Reaction(s.(frames := s.frames + 1, failures := 0), false, [Whole(FramePiece(2, 2, "b"))])
  {
    hide Render, LineEffect, Left, ValidUtf8, Taken;
    SmallMessages();
    TakenWhole(FramePiece(2, 2, "b"));
  }

  /** The state of the run between its steps, as far as the rest of it depends on that. */
  predicate Midway(s: State, inode: Publication.Inode, phase: Phase, connection: nat, segments: seq<Segment>) {
    && s.phase == phase && !Over(s) && s.session.connection == connection && s.session.failures <= 1
    && s.segments == segments && Alone(s.system, inode, Publication.Writing)
  }

  lemma TornHalf(setup: Setup, before: seq<Action>, inode: Publication.Inode)
    requires Run(setup, before).Some? && Run(setup, before).value.session.failures == 0
    requires Midway(Run(setup, before).value, inode, Outer, 0, TornSegments(setup)[..1])
    ensures Run(setup, before + Cycle(TORN_CHUNK, CUT_SHORT) + [Handle]).Some?
    ensures Midway(Run(setup, before + Cycle(TORN_CHUNK, CUT_SHORT) + [Handle]).value, inode, Outer, 1,
                   TornSegments(setup)[..2])
  {
    hide Run, Receive, Completes, WriteText, LeftText, Answered;
    var s := Run(setup, before).value;
    TornReaction(Reconnected(s).session);
    CycleRuns(setup, before, TORN_CHUNK, CUT_SHORT);
    StillAlone(s.system, inode, LeftText([Cut(FramePiece(1, 1, "a"), 1)]));
    Then(setup, before + Cycle(TORN_CHUNK, CUT_SHORT), Handle);
  }

  lemma NextHalf(setup: Setup, before: seq<Action>, inode: Publication.Inode)
    requires Run(setup, before).Some? && Midway(Run(setup, before).value, inode, Outer, 1, TornSegments(setup)[..2])
    ensures var all := before + Cycle(NEXT_CHUNK, Taken(FramePiece(2, 2, "b")));
            Run(setup, all).Some? && Midway(Run(setup, all).value, inode, Inner, 2, TornSegments(setup))
  {
    hide Run, Receive, Completes, WriteText, LeftText, Answered, Taken;
    var s := Run(setup, before).value;
    NextReaction(Reconnected(s).session);
    CycleRuns(setup, before, NEXT_CHUNK, Taken(FramePiece(2, 2, "b")));
    StillAlone(s.system, inode, LeftText([Whole(FramePiece(2, 2, "b"))]));
  }

  lemma StopAndFinish(setup: Setup, before: seq<Action>, inode: Publication.Inode, n: nat, segments: seq<Segment>)
    requires Run(setup, before).Some? && Midway(Run(setup, before).value, inode, Inner, n, segments)
    ensures var all := before + [StopRequested] + [CheckInner] + [CheckOuter] + [Finish];
            && Run(setup, all).Some? && Run(setup, all).value.phase == Committing(true)
            && Alone(Run(setup, all).value.system, inode, Publication.Writing)
            && Run(setup, all).value.segments == segments
  {
    hide Run;
    Then(setup, before, StopRequested);
    Then(setup, before + [StopRequested], CheckInner);
    Then(setup, before + [StopRequested] + [CheckInner], CheckOuter);
    Then(setup, before + [StopRequested] + [CheckInner] + [CheckOuter], Finish);
  }

  /**
   * The capture can return, and publish, with a line cut short after its first byte and the next message behind it on
   * the same line: for every directory and products, this run does.
   */
  lemma TornLineCommitted(setup: Setup, inode: Publication.Inode)
    requires setup.Dumpable() && UntouchedDirectory(setup.system) && setup.system.disk.Fresh(inode)
    ensures Run(setup, TornActions(setup, inode)).Some?
    ensures var s := Run(setup, TornActions(setup, inode)).value;
            s.phase == Returned(true) && s.segments == TornSegments(setup)
  {
    hide Run, Opened, Cycle, Taken, Commits;
    var a1 := Opened(setup, inode);
    OpenedRuns(setup, inode, a1);
    TornHalf(setup, a1, inode);
    var a2 := a1 + Cycle(TORN_CHUNK, CUT_SHORT) + [Handle];
    NextHalf(setup, a2, inode);
    var a3 := a2 + Cycle(NEXT_CHUNK, Taken(FramePiece(2, 2, "b")));
    StopAndFinish(setup, a3, inode, 2, TornSegments(setup));
    CommitRuns(setup, a3 + [StopRequested] + [CheckInner] + [CheckOuter] + [Finish]);
  }

  /** A reader of that recording finds the metadata and one line that is not JSON: both messages are lost. */
  lemma TornRecording(setup: Setup)
    ensures AllSegmentsValid(TornSegments(setup))
    ensures AllRecords(TornSegments(setup)) == [Some(setup.Metadata()), None]
  {
    hide Render, Carry, Records, Segment.Text;
    var meta, cut, next := Whole(setup.Metadata()), Cut(FramePiece(1, 1, "a"), 1), Whole(FramePiece(2, 2, "b"));
    FrameStart(cut.piece);
    RecordsSnoc([], meta);
    RecordsSnoc([meta], cut);
    RecordsSnoc([meta, cut], next);
    assert [] + [meta] == [meta] && [meta] + [cut] == [meta, cut] && [meta, cut] + [next] == TornSegments(setup);
    CarryAfterCut([]);
    CarryAfterCut([meta]);
    CarryAfterCut([meta, cut]);
    CarryAfterCut(TornSegments(setup));
  }

  // ----- a capture of a single message

  function SingleChunk(payload: string): Chunk {
    Chunk(Text, false, 0, payload, 1)
  }

  function SingleActions(setup: Setup, inode: Publication.Inode, payload: string): seq<Action> {
    Opened(setup, inode) + Cycle(SingleChunk(payload), Taken(FramePiece(1, 1, payload))) +
    [StopRequested] + [CheckInner] + [CheckOuter] + [Finish] + Commits(7)
  }

  lemma SingleReaction(s: Session, payload: string)
    requires s.message == "" && s.connection == 1 && Recordable(payload)
    ensures Answered(s, SingleChunk(payload), Taken(FramePiece(1, 1, payload)))
    ensures Receive(s, SingleChunk(payload), Taken(FramePiece(1, 1, payload))) ==
            Reaction(s.(frames := s.frames + 1, failures := 0), false, [Whole(FramePiece(1, 1, payload))])
  {
    hide Render, LineEffect, Left, ValidUtf8, Taken;
    assert "" + payload == payload;
    TakenWhole(FramePiece(1, 1, payload));
  }

  /** Every message within the capture's limits can be all there is in a recording that is published. */
  lemma SingleMessageCommitted(setup: Setup, inode: Publication.Inode, payload: string)
    requires setup.Dumpable() && UntouchedDirectory(setup.system) && setup.system.disk.Fresh(inode)
    requires Recordable(payload)
    ensures Run(setup, SingleActions(setup, inode, payload)).Some?
    ensures var s := Run(setup, SingleActions(setup, inode, payload)).value;
            s.phase == Returned(true) && s.segments == [Whole(setup.Metadata()), Whole(FramePiece(1, 1, payload))]
  {
    hide Run, Opened, Cycle, Taken, Commits, Receive, Completes, WriteText, LeftText, Answered, Recordable;
    var a1, c, script := Opened(setup, inode), SingleChunk(payload), Taken(FramePiece(1, 1, payload));
    OpenedRuns(setup, inode, a1);
    var s := Run(setup, a1).value;
    SingleReaction(Reconnected(s).session, payload);
    CycleRuns(setup, a1, c, script);
    StillAlone(s.system, inode, LeftText([Whole(FramePiece(1, 1, payload))]));
    var a2, segments := a1 + Cycle(c, script), [Whole(setup.Metadata()), Whole(FramePiece(1, 1, payload))];
    assert Midway(Run(setup, a2).value, inode, Inner, 1, segments);
    StopAndFinish(setup, a2, inode, 1, segments);
    CommitRuns(setup, a2 + [StopRequested] + [CheckInner] + [CheckOuter] + [Finish]);
  }
}
