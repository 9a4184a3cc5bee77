/** The live capture loop: reassembly, reconnects, and the bytes of the recording it publishes. */
module LiveCapture {
  import opened Words
  import opened JsonText
  import opened Recordings
  import AtomicOutputs
  import Publication
  import Lines

  const MAXIMUM_CONSECUTIVE_FAILURES: nat := 5

  // ----- what is received

  /**
   * One received chunk: its frame's kind, whether the message continues, how much of the frame is left, its bytes and
   * what the wall clock shows when it is handled.
   */
  datatype Kind = Text | Binary | Control | Close | Other

  datatype Chunk = Chunk(kind: Kind, continued: bool, bytesLeft: nat, data: string, at: u64)

  /** The flags are looked at in this order, so a chunk flagged twice counts as the first that applies. */
  function KindOf(close: bool, control: bool, binary: bool, text: bool): Kind {
    if close then Close else if control then Control else if binary then Binary else if text then Text else Other
  }

  predicate EndsMessage(c: Chunk) {
    c.kind.Text? && c.bytesLeft == 0 && !c.continued
  }

  // ----- the reference: messages of a connection

  /** A complete message and when it was completed. */
  datatype Entry = Entry(payload: string, at: u64)

  /** The unfinished message after these chunks. */
  function Pending(chunks: seq<Chunk>): string {
    if chunks == [] then ""
    else
      var c := chunks[|chunks| - 1];
      if c.kind.Binary? || EndsMessage(c) then ""
      else if c.kind.Text? then Pending(chunks[..|chunks| - 1]) + c.data
      else Pending(chunks[..|chunks| - 1])
  }

  /** The messages completed by these chunks, in order. */
  function Messages(chunks: seq<Chunk>): seq<Entry> {
    if chunks == [] then []
    else
      var init, c := chunks[..|chunks| - 1], chunks[|chunks| - 1];
      Messages(init) + if EndsMessage(c) then [Entry(Pending(init) + c.data, c.at)] else []
  }

  /** A message that is small enough for the buffer and can be dumped as JSON. */
  predicate Recordable(payload: string) {
    |payload| <= MAXIMUM_MESSAGE_SIZE && ValidUtf8(payload)
  }

  function Fitting(entries: seq<Entry>): seq<Entry> {
    if entries == [] then []
    else
      var e := entries[|entries| - 1];
      Fitting(entries[..|entries| - 1]) + if Recordable(e.payload) then [e] else []
  }

  /** The text of the chunks, control frames skipped. */
  function TextOf(chunks: seq<Chunk>): string {
    if chunks == [] then ""
    else TextOf(chunks[..|chunks| - 1]) + if chunks[|chunks| - 1].kind.Text? then chunks[|chunks| - 1].data else ""
  }

  /**
   * The ways RFC 6455 sections 5.4 and 5.5 allow one text message to arrive: any number of continuation fragments, each
   * in any number of chunks, with control frames anywhere in between; only the last text chunk ends the message.
   */
  ghost predicate Arrival(entry: Entry, chunks: seq<Chunk>) {
    && chunks != []
    && (forall i :: 0 <= i < |chunks| ==> chunks[i].kind.Text? || chunks[i].kind.Control?)
    && (forall i :: 0 <= i < |chunks| - 1 ==> !EndsMessage(chunks[i]))
    && EndsMessage(chunks[|chunks| - 1])
    && entry == Entry(TextOf(chunks), chunks[|chunks| - 1].at)
  }

  /** A stream of whole messages, each with its arrival. */
  ghost predicate Stream(entries: seq<Entry>, arrivals: seq<seq<Chunk>>) {
    |entries| == |arrivals| && forall i :: 0 <= i < |entries| ==> Arrival(entries[i], arrivals[i])
  }

  function Concat(arrivals: seq<seq<Chunk>>): seq<Chunk> {
    if arrivals == [] then [] else Concat(arrivals[..|arrivals| - 1]) + arrivals[|arrivals| - 1]
  }

  lemma {:induction false} UnfinishedGrows(before: seq<Chunk>, chunks: seq<Chunk>)
    requires forall i :: 0 <= i < |chunks| ==>
               (chunks[i].kind.Text? || chunks[i].kind.Control?) && !EndsMessage(chunks[i])
    ensures Pending(before + chunks) == Pending(before) + TextOf(chunks)
    ensures Messages(before + chunks) == Messages(before)
  {
    if chunks == [] {
      assert before + chunks == before;
    } else {
      var init, c := chunks[..|chunks| - 1], chunks[|chunks| - 1];
      UnfinishedGrows(before, init);
      assert (before + chunks)[..|before + chunks| - 1] == before + init;
      assert (before + chunks)[|before + chunks| - 1] == c;
    }
  }

  lemma ArrivalCompletes(before: seq<Chunk>, entry: Entry, chunks: seq<Chunk>)
    requires Pending(before) == "" && Arrival(entry, chunks)
    ensures Pending(before + chunks) == ""
    ensures Messages(before + chunks) == Messages(before) + [entry]
  {
    var init, c := chunks[..|chunks| - 1], chunks[|chunks| - 1];
    UnfinishedGrows(before, init);
    assert (before + chunks)[..|before + chunks| - 1] == before + init;
    assert (before + chunks)[|before + chunks| - 1] == c;
    assert "" + TextOf(init) == TextOf(init);
  }

  lemma EmptyStream()
    ensures Messages([]) == [] && Pending([]) == ""
  {
  }

  /**
   * Reassembly does not depend on how messages were split: every arrival of the same messages yields those messages.
   */
  lemma {:induction false} ChunkingIrrelevant(entries: seq<Entry>, arrivals: seq<seq<Chunk>>)
    requires Stream(entries, arrivals)
    ensures Messages(Concat(arrivals)) == entries && Pending(Concat(arrivals)) == ""
  {
    hide Messages, Pending, Arrival;
    if entries == [] {
      EmptyStream();
    } else {
      var k := |entries| - 1;
      ChunkingIrrelevant(entries[..k], arrivals[..k]);
      ArrivalCompletes(Concat(arrivals[..k]), entries[k], arrivals[k]);
      assert entries == entries[..k] + [entries[k]];
    }
  }

  /** A binary frame discards the message begun before it and nothing else: reassembly starts afresh behind it. */
  lemma {:induction false} BinaryRestarts(before: seq<Chunk>, c: Chunk, after: seq<Chunk>)
    requires c.kind == Binary
    ensures Messages(before + [c] + after) == Messages(before) + Messages(after)
    ensures Pending(before + [c] + after) == Pending(after)
  {
    if after == [] {
      assert before + [c] + after == before + [c];
      assert (before + [c])[..|before|] == before;
      EmptyStream();
    } else {
      var init, last := after[..|after| - 1], after[|after| - 1];
      BinaryRestarts(before, c, init);
      assert (before + [c] + after)[..|before| + |after|] == before + [c] + init;
    }
  }

  /** Control frames, and frames of no known kind, may be left out anywhere, even in the middle of a message. */
  lemma {:induction false} OthersIgnored(before: seq<Chunk>, c: Chunk, after: seq<Chunk>)
    requires c.kind == Control || c.kind == Other
    ensures Messages(before + [c] + after) == Messages(before + after)
    ensures Pending(before + [c] + after) == Pending(before + after)
  {
    if after == [] {
      assert before + [c] + after == before + [c] && before + after == before;
      assert (before + [c])[..|before|] == before;
    } else {
      var init, last := after[..|after| - 1], after[|after| - 1];
      OthersIgnored(before, c, init);
      assert (before + [c] + after)[..|before| + |after|] == before + [c] + init;
      assert (before + after)[..|before| + |after| - 1] == before + init;
    }
  }

  // ----- the session

  /** The local variables of the capture loop. */
  datatype Session = Session(message: string, connection: nat, failures: nat, frames: nat, reconnects: nat)

  /** What handling a chunk does: the session after it, whether it raised, and what it left in the file. */
  datatype Reaction = Reaction(session: Session, raised: bool, segments: seq<Segment>)

  function PieceOf(s: Session, c: Chunk): Piece {
    FramePiece(c.at, s.connection, s.message + c.data)
  }

  /** This chunk ends a message that is going to be written. */
  predicate Completes(s: Session, c: Chunk) {
    EndsMessage(c) && Recordable(s.message + c.data)
  }

  /** The kernel has answered the write calls this chunk leads to. */
  predicate Answered(s: Session, c: Chunk, script: seq<AtomicOutputs.WriteResult>) {
    Completes(s, c) ==> LineEffect(PieceOf(s, c), script).outcome != AtomicOutputs.Blocked
  }

  function Receive(s: Session, c: Chunk, script: seq<AtomicOutputs.WriteResult>): Reaction {
    if c.kind.Close? then Reaction(s, true, [])
    else if c.kind.Control? then Reaction(s, false, [])
    else if c.kind.Binary? then Reaction(s.(message := ""), false, [])
    else if c.kind.Other? then Reaction(s, false, [])
    else if |c.data| > MAXIMUM_MESSAGE_SIZE - |s.message| then Reaction(s, true, [])
    else
      var grown := s.(message := s.message + c.data);
      if !EndsMessage(c) then Reaction(grown, false, [])
      else if !ValidUtf8(grown.message) then Reaction(grown, true, [])
      else if LineEffect(PieceOf(s, c), script).outcome == AtomicOutputs.Returned then
        Reaction(grown.(message := "", frames := s.frames + 1, failures := 0), false, Left(PieceOf(s, c), script))
      else Reaction(grown, true, Left(PieceOf(s, c), script))
  }

  // ----- the protocol

  /** What is fixed for a capture; writer 0 of the system is the capture, the others race it for the destination. */
  datatype Setup = Setup(endpoint: string, products: seq<string>, system: Publication.System) {
    function Metadata(): Piece {
      MetadataPiece(endpoint, products)
    }

    predicate Dumpable() {
      ValidUtf8(endpoint) && forall p :: p in products ==> ValidUtf8(p)
    }
  }

  /**
   * Where the capture is: checking and creating its output, writing the metadata, at the head of either loop, inside an
   * attempt, in the handler, past the loops, committing, or ended by returning or throwing.
   */
  datatype Phase = Checking | Creating | Opening | Outer | Connecting | Inner | Polling | Caught | Finishing |
    Committing(interrupted: bool) | Returned(interrupted: bool) | Threw

  /**
   * `timeUp` and `stop` only ever become true; `segments` is what was written, `received` the chunks of each connection
   * and `lost` the connections that ended because the last line of theirs was refused.
   */
  datatype State = State(phase: Phase, timeUp: bool, stop: bool, session: Session, segments: seq<Segment>,
                         received: seq<seq<Chunk>>, lost: set<nat>, system: Publication.System)

  function Initially(setup: Setup): State {
    State(Checking, false, false, Session("", 0, 0, 0, 0), [], [], {}, setup.system)
  }

  datatype Action =
    | Elsewhere(step: Publication.Action)
    | CheckOutput
    | CreateOutput(ok: bool, inode: Publication.Inode)
    | WriteMetadata(script: seq<AtomicOutputs.WriteResult>)
    | DeadlinePasses
    | StopRequested
    | CheckOuter
    | Connected
    | ConnectFailed
    | StoppedWaiting
    | CheckInner
    | NothingYet
    | ReceiveFailed
    | Received(chunk: Chunk, script: seq<AtomicOutputs.WriteResult>)
    | Handle
    | Finish
    | CommitCall(ok: bool)

  predicate Over(s: State) {
    s.timeUp || s.stop
  }

  predicate Enabled(setup: Setup, s: State, a: Action) {
    match a
    case Elsewhere(step) => !step.PowerLoss? && step.w != 0 && Publication.Enabled(s.system, step)
    case CheckOutput => s.phase.Checking?
    case CreateOutput(_, inode) => s.phase.Creating? && s.system.disk.Fresh(inode)
    case WriteMetadata(script) =>
      s.phase.Opening? && LineEffect(setup.Metadata(), script).outcome != AtomicOutputs.Blocked
    case DeadlinePasses => true
    case StopRequested => true
    case CheckOuter => s.phase.Outer?
    case Connected => s.phase.Connecting?
    case ConnectFailed => s.phase.Connecting?
    case StoppedWaiting => (s.phase.Connecting? || s.phase.Polling?) && s.stop
    case CheckInner => s.phase.Inner?
    case NothingYet => s.phase.Polling?
    case ReceiveFailed => s.phase.Polling?
    case Received(c, script) => s.phase.Polling? && Answered(s.session, c, script)
    case Handle => s.phase.Caught?
    case Finish => s.phase.Finishing?
    case CommitCall(_) => s.phase.Committing?
  }

  /** A call of the capture's own writer. */
  function Call(system: Publication.System, step: Publication.Action): Publication.System {
    if Publication.Enabled(system, step) then Publication.Apply(system, step) else system
  }

  function WriteText(system: Publication.System, text: string): Publication.System {
    if text == "" then system else Call(system, Publication.Write(0, text))
  }

  function OwnPhase(system: Publication.System): Publication.Phase {
    if |system.writers| > 0 then system.writers[0].phase else Publication.Gone
  }

  /** The next call of `commit`. */
  function NextCall(phase: Publication.Phase): Publication.Action {
    match phase
    case Writing => Publication.SyncFile(0)
    case FileSynced => Publication.CloseFile(0)
    case FileClosed => Publication.Link(0)
    case Published => Publication.Unlink(0)
    case Unlinked => Publication.OpenDirectory(0)
    case DirectoryOpen => Publication.SyncDirectory(0)
    case DirectorySynced => Publication.CloseDirectory(0)
    case _ => Publication.Stop(0)
  }

  function Handled(s: State): State {
    if Over(s) then s.(phase := Finishing)
    else
      var session := s.session.(reconnects := s.session.reconnects + 1, failures := s.session.failures + 1);
      s.(session := session, phase := if session.failures >= MAXIMUM_CONSECUTIVE_FAILURES then Threw else Outer)
  }

  /** The text of what a step leaves behind. */
  function LeftText(segments: seq<Segment>): string {
    if AllSegmentsValid(segments) then Bytes(segments) else ""
  }

  /** One chunk: it is added to the history of its connection, and what it left is written. */
  function AfterChunk(s: State, c: Chunk, script: seq<AtomicOutputs.WriteResult>): State {
    var r := Receive(s.session, c, script);
    var k := |s.received|;
    s.(phase := if r.raised then Caught else Inner,
       session := r.session,
       segments := s.segments + r.segments,
       received := if k == 0 then [] else s.received[k - 1 := s.received[k - 1] + [c]],
       lost := if r.raised && Completes(s.session, c) then s.lost + {k} else s.lost,
       system := WriteText(s.system, LeftText(r.segments)))
  }

  function AfterMetadata(setup: Setup, s: State, script: seq<AtomicOutputs.WriteResult>): State {
    var e := LineEffect(setup.Metadata(), script);
    if !setup.Dumpable() then s.(phase := Threw)
    else
      s.(phase := if e.outcome == AtomicOutputs.Returned then Outer else Threw,
         segments := if e.outcome == AtomicOutputs.Returned then [Whole(setup.Metadata())] else [],
         system := WriteText(s.system, TakenText(setup.Metadata(), script)))
  }

  function AfterCommitCall(s: State, ok: bool): State
    requires s.phase.Committing?
  {
    var system := Call(s.system, if ok then NextCall(OwnPhase(s.system)) else Publication.Stop(0));
    s.(system := system,
       phase := if OwnPhase(system).Gone? then Threw
                else if OwnPhase(system).Committed? then Returned(s.phase.interrupted)
                else s.phase)
  }

  function Apply(setup: Setup, s: State, a: Action): State
    requires Enabled(setup, s, a)
  {
    match a
    case Elsewhere(step) => s.(system := Publication.Apply(s.system, step))
    case CheckOutput =>
      var system := Call(s.system, Publication.CheckDestination(0));
      s.(system := system, phase := if OwnPhase(system).Checked? then Creating else Threw)
    case CreateOutput(ok, inode) =>
      var system := Call(s.system, if ok then Publication.OpenPartial(0, inode) else Publication.Stop(0));
      s.(system := system, phase := if OwnPhase(system).Writing? then Opening else Threw)
    case WriteMetadata(script) => AfterMetadata(setup, s, script)
    case DeadlinePasses => s.(timeUp := true)
    case StopRequested => s.(stop := true)
    case CheckOuter =>
      if Over(s) then s.(phase := Finishing)
      else
        s.(phase := Connecting, session := s.session.(connection := s.session.connection + 1),
           received := s.received + [[]])
    case Connected => s.(phase := Inner, session := s.session.(message := ""))
    case ConnectFailed => s.(phase := Caught)
    case StoppedWaiting => s.(phase := Finishing)
    case CheckInner => s.(phase := if Over(s) then Outer else Polling)
    case NothingYet => s.(phase := Inner)
    case ReceiveFailed => s.(phase := Caught)
    case Received(c, script) => AfterChunk(s, c, script)
    case Handle => Handled(s)
    case Finish => s.(phase := if s.session.frames == 0 && !s.stop then Threw else Committing(s.stop))
    case CommitCall(ok) => AfterCommitCall(s, ok)
  }

  /** The state a sequence of actions leads to, if every one of them is possible where it stands. */
  function Run(setup: Setup, actions: seq<Action>): Option<State> {
    if actions == [] then Some(Initially(setup))
    else
      var before := Run(setup, actions[..|actions| - 1]);
      var a := actions[|actions| - 1];
      if before.Some? && Enabled(setup, before.value, a) then Some(Apply(setup, before.value, a)) else None
  }

  // ----- counters

  ghost predicate CountersOk(s: State) {
    var n := s.session;
    && n.reconnects <= 4 * n.frames + n.failures
    && n.failures <= MAXIMUM_CONSECUTIVE_FAILURES
    && (!s.phase.Threw? ==> n.failures < MAXIMUM_CONSECUTIVE_FAILURES)
    && (Early(s.phase) || s.phase.Outer? ==> n.connection <= n.reconnects + (if Over(s) then 1 else 0))
    && n.connection <= n.reconnects + 1
    && |s.received| == n.connection
    && (InAttempt(s.phase) ==> n.connection >= 1)
    && |n.message| <= MAXIMUM_MESSAGE_SIZE
    && (s.phase.Committing? || s.phase.Returned? ==> n.frames > 0 || s.phase.interrupted)
  }

  predicate Early(phase: Phase) {
    phase.Checking? || phase.Creating? || phase.Opening?
  }

  predicate InAttempt(phase: Phase) {
    phase.Connecting? || phase.Inner? || phase.Polling? || phase.Caught?
  }

  lemma CountersStep(setup: Setup, s: State, a: Action)
    requires CountersOk(s) && Enabled(setup, s, a)
    ensures CountersOk(Apply(setup, s, a))
  {
    hide Left, LineEffect, Render, LeftText, WriteText, Call, ValidUtf8;
  }

  lemma {:induction false} CountersInEveryRun(setup: Setup, actions: seq<Action>)
    requires Run(setup, actions).Some?
    ensures CountersOk(Run(setup, actions).value)
  {
    hide CountersOk, Apply, Enabled;
    if actions != [] {
      var init := actions[..|actions| - 1];
      CountersInEveryRun(setup, init);
      CountersStep(setup, Run(setup, init).value, actions[|actions| - 1]);
    } else {
      CountersInitially(setup);
    }
  }

  lemma CountersInitially(setup: Setup)
    ensures CountersOk(Initially(setup))
  {
  }

  /**
   * A capture that returns has reconnected at most four times for every frame and four times more, its last connection
   * id is at most one above the reconnects, it recorded something or was interrupted, and the size check of the
   * reassembly buffer never subtracted below zero.
   */
  lemma ReturnedCounters(setup: Setup, actions: seq<Action>)
    requires Run(setup, actions).Some? && Run(setup, actions).value.phase.Returned?
    ensures var s := Run(setup, actions).value;
            && s.session.reconnects <= 4 * (s.session.frames + 1)
            && s.session.connection <= s.session.reconnects + 1
            && |s.session.message| <= MAXIMUM_MESSAGE_SIZE
            && (s.session.frames > 0 || s.phase.interrupted)
  {
    hide Run;
    CountersInEveryRun(setup, actions);
  }

  /** Attempts that failed and were counted since the last recorded frame. */
  function FailuresInARow(setup: Setup, actions: seq<Action>): nat {
    if actions == [] || Run(setup, actions).None? || Run(setup, actions[..|actions| - 1]).None? then 0
    else
      var init := actions[..|actions| - 1];
      var s, t := Run(setup, init).value, Run(setup, actions).value;
      if t.session.frames > s.session.frames then 0
      else FailuresInARow(setup, init) + if actions[|actions| - 1].Handle? && !Over(s) then 1 else 0
  }

  /**
   * The capture gives up in its handler exactly when the fifth attempt in a row has failed without a recorded frame.
   */
  lemma {:induction false} GivesUpExactly(setup: Setup, actions: seq<Action>)
    requires Run(setup, actions).Some?
    ensures Run(setup, actions).value.session.failures == FailuresInARow(setup, actions)
    ensures actions != [] && actions[|actions| - 1].Handle? ==>
              (Run(setup, actions).value.phase.Threw? <==> FailuresInARow(setup, actions) == 5)
  {
    if actions != [] {
      var init, a := actions[..|actions| - 1], actions[|actions| - 1];
      GivesUpExactly(setup, init);
      CountersInEveryRun(setup, init);
      FailuresStep(setup, Run(setup, init).value, a);
      hide Apply, Enabled;
    }
  }

  lemma FailuresStep(setup: Setup, s: State, a: Action)
    requires Enabled(setup, s, a) && CountersOk(s)
    ensures var t := Apply(setup, s, a);
            && (t.session.frames > s.session.frames ==> t.session.failures == 0 && !a.Handle?)
            && (t.session.frames <= s.session.frames ==>
                  t.session.failures == s.session.failures + (if a.Handle? && !Over(s) then 1 else 0))
            && (a.Handle? ==> (t.phase.Threw? <==> t.session.failures == 5))
  {
    hide Left, LineEffect, Render, LeftText, WriteText, Call, ValidUtf8;
  }

  // ----- the contents of the recording

  /** The recordable messages whose line was written: the last of a connection may have been refused. */
  function Kept(entries: seq<Entry>, refused: bool): seq<Entry> {
    if refused && entries != [] then entries[..|entries| - 1] else entries
  }

  function Frames(connection: nat, entries: seq<Entry>): seq<Piece> {
    seq(|entries|, i requires 0 <= i < |entries| => FramePiece(entries[i].at, connection, entries[i].payload))
  }

  /**
   * The lines the chunks received call for: connection by connection, every complete message that is recordable, in
   * order, except the one whose refusal ended the connection.
   */
  function Expected(received: seq<seq<Chunk>>, lost: set<nat>): seq<Piece> {
    if received == [] then []
    else
      var k := |received| - 1;
      Expected(received[..k], lost) + Frames(k + 1, Kept(Fitting(Messages(received[k])), k + 1 in lost))
  }

  /** The metadata line has been written. */
  predicate Begun(s: State) {
    !Early(s.phase) && (s.phase.Threw? ==> s.segments != [])
  }

  /** The connections that lost a message had one to lose. */
  ghost predicate LostOk(received: seq<seq<Chunk>>, lost: set<nat>) {
    forall c :: c in lost ==> 1 <= c <= |received| && Fitting(Messages(received[c - 1])) != []
  }

  ghost predicate HistoryOk(setup: Setup, s: State) {
    var k := |s.received|;
    && AllSegmentsValid(s.segments)
    && LostOk(s.received, s.lost)
    && (Early(s.phase) ==> s.segments == [] && s.received == [] && s.session.frames == 0 && s.lost == {})
    && (Begun(s) ==>
          && Wholes(s.segments) == [setup.Metadata()] + Expected(s.received, s.lost)
          && |Expected(s.received, s.lost)| == s.session.frames
          && s.segments != [] && s.segments[0] == Whole(setup.Metadata()) && setup.Dumpable()
          && (forall i :: 0 < i < |s.segments| ==> Utf8Frame(s.segments[i].piece)))
    && (s.phase.Connecting? || s.phase.Inner? || s.phase.Polling? ==> k > 0 && k !in s.lost)
    && (s.phase.Connecting? ==> s.received[k - 1] == [])
    && (s.phase.Inner? || s.phase.Polling? ==> s.session.message == Pending(s.received[k - 1]))
  }

  lemma MessagesGrow(chunks: seq<Chunk>, c: Chunk)
    ensures Messages(chunks + [c]) ==
            if EndsMessage(c) then Messages(chunks) + [Entry(Pending(chunks) + c.data, c.at)] else Messages(chunks)
    ensures Pending(chunks + [c]) ==
            if c.kind.Binary? || EndsMessage(c) then ""
            else if c.kind.Text? then Pending(chunks) + c.data
            else Pending(chunks)
  {
    assert (chunks + [c])[..|chunks|] == chunks;
    assert Messages(chunks) + [] == Messages(chunks);
  }

  lemma FittingGrows(entries: seq<Entry>, e: Entry)
    ensures Fitting(entries + [e]) == if Recordable(e.payload) then Fitting(entries) + [e] else Fitting(entries)
  {
    assert (entries + [e])[..|entries|] == entries;
    assert Fitting(entries) + [] == Fitting(entries);
  }

  lemma {:induction false} ExpectedLost(received: seq<seq<Chunk>>, lost: set<nat>, c: nat)
    requires c > |received|
    ensures Expected(received, lost + {c}) == Expected(received, lost)
  {
    if received != [] {
      ExpectedLost(received[..|received| - 1], lost, c);
    }
  }

  /** One more chunk adds the message it completes, unless that is not recordable or its line was refused. */
  lemma ConnectionGrows(n: nat, chunks: seq<Chunk>, c: Chunk, refused: bool)
    ensures var m := Pending(chunks) + c.data;
            var completes := EndsMessage(c) && Recordable(m);
            (refused ==> completes) ==>
              Frames(n, Kept(Fitting(Messages(chunks + [c])), refused)) ==
              Frames(n, Fitting(Messages(chunks))) + (if completes && !refused then [FramePiece(c.at, n, m)] else [])
  {
    MessagesGrow(chunks, c);
    var before, e := Fitting(Messages(chunks)), Entry(Pending(chunks) + c.data, c.at);
    FittingGrows(Messages(chunks), e);
    hide Messages, Pending, Fitting, EndsMessage, Recordable;
    assert (before + [e])[..|before|] == before;
    assert Frames(n, before) + [] == Frames(n, before);
    FramesSnoc(n, before, e);
  }

  lemma FramesSnoc(n: nat, entries: seq<Entry>, e: Entry)
    ensures Frames(n, entries + [e]) == Frames(n, entries) + [FramePiece(e.at, n, e.payload)]
  {
  }

  lemma ExpectedGrows(received: seq<seq<Chunk>>, lost: set<nat>, c: Chunk, refused: bool)
    requires received != [] && |received| !in lost
    ensures var k := |received| - 1;
            var m := Pending(received[k]) + c.data;
            var completes := EndsMessage(c) && Recordable(m);
            (refused ==> completes) ==>
              Expected(received[k := received[k] + [c]], if refused then lost + {k + 1} else lost) ==
              Expected(received, lost) + (if completes && !refused then [FramePiece(c.at, k + 1, m)] else [])
  {
    var k := |received| - 1;
    assert received[k := received[k] + [c]][..k] == received[..k];
    ConnectionGrows(k + 1, received[k], c, refused);
    ExpectedLost(received[..k], lost, k + 1);
    hide Messages, Pending, Fitting, EndsMessage, Recordable, Frames;
  }

  lemma ExpectedNewConnection(received: seq<seq<Chunk>>, lost: set<nat>)
    ensures Expected(received + [[]], lost) == Expected(received, lost)
    ensures Pending([]) == "" && Expected([], lost) == []
  {
    assert (received + [[]])[..|received|] == received;
    assert Messages([]) == [] && Fitting([]) == [];
    assert Frames(|received| + 1, []) == [];
  }

  lemma ChunkKeepsHistory(setup: Setup, s: State, c: Chunk, script: seq<AtomicOutputs.WriteResult>)
    requires HistoryOk(setup, s) && CountersOk(s) && s.phase.Polling? && Answered(s.session, c, script)
    ensures HistoryOk(setup, AfterChunk(s, c, script))
  {
    hide Expected, Pending, Receive, Completes, Answered, Recordable, EndsMessage, Wholes, Segment.Valid, WriteText,
      LeftText, LostOk;
    ReactionMessage(s.session, s.received[|s.received| - 1], c, script);
    ChunkSegments(s, c, script);
    ChunkLoses(s, c, script);
    ChunkLines(setup, s, c, script);
  }

  lemma ChunkLoses(s: State, c: Chunk, script: seq<AtomicOutputs.WriteResult>)
    requires LostOk(s.received, s.lost) && s.received != [] && |s.received| !in s.lost
    requires s.session.message == Pending(s.received[|s.received| - 1]) && |s.session.message| <= MAXIMUM_MESSAGE_SIZE
    ensures LostOk(AfterChunk(s, c, script).received, AfterChunk(s, c, script).lost)
  {
    hide Pending, Receive, Completes, Recordable, EndsMessage, WriteText, LeftText, Messages, Fitting;
    var chunks := s.received[|s.received| - 1];
    ReactionMessage(s.session, chunks, c, script);
    MessagesGrow(chunks, c);
    FittingGrows(Messages(chunks), Entry(Pending(chunks) + c.data, c.at));
  }

  lemma ChunkSegments(s: State, c: Chunk, script: seq<AtomicOutputs.WriteResult>)
    requires Answered(s.session, c, script) && AllSegmentsValid(s.segments) && s.segments != []
    requires forall i :: 0 < i < |s.segments| ==> Utf8Frame(s.segments[i].piece)
    ensures var t := AfterChunk(s, c, script);
            && AllSegmentsValid(t.segments)
            && t.segments != [] && t.segments[0] == s.segments[0]
            && (forall i :: 0 < i < |t.segments| ==> Utf8Frame(t.segments[i].piece))
  {
    hide Receive, Completes, Answered, Wholes, Segment.Valid, WriteText, LeftText;
    ReactionLeaves(s.session, c, script);
  }

  lemma ChunkLines(setup: Setup, s: State, c: Chunk, script: seq<AtomicOutputs.WriteResult>)
    requires Answered(s.session, c, script) && AllSegmentsValid(s.segments)
    requires s.received != [] && |s.received| !in s.lost && s.session.connection == |s.received|
    requires s.session.message == Pending(s.received[|s.received| - 1]) && |s.session.message| <= MAXIMUM_MESSAGE_SIZE
    requires Wholes(s.segments) == [setup.Metadata()] + Expected(s.received, s.lost)
    requires |Expected(s.received, s.lost)| == s.session.frames
    ensures var t := AfterChunk(s, c, script);
            && Wholes(t.segments) == [setup.Metadata()] + Expected(t.received, t.lost)
            && |Expected(t.received, t.lost)| == t.session.frames
  {
    hide Expected, Pending, Receive, Completes, Answered, Recordable, EndsMessage, Wholes, Segment.Valid, WriteText,
      LeftText;
    var r, t, k := Receive(s.session, c, script), AfterChunk(s, c, script), |s.received| - 1;
    ReactionLeaves(s.session, c, script);
    assert Expected(t.received, t.lost) == Expected(s.received, s.lost) + Wholes(r.segments) by {
      ReactionMessage(s.session, s.received[k], c, script);
      ExpectedGrows(s.received, s.lost, c, r.raised && Completes(s.session, c));
      assert t.received == s.received[k := s.received[k] + [c]];
    }
    BytesLeft(s.segments, r.segments);
    hide AfterChunk;
    ThreeParts(setup.Metadata(), Expected(s.received, s.lost), Wholes(r.segments));
  }

  lemma ThreeParts(first: Piece, a: seq<Piece>, b: seq<Piece>)
    ensures [first] + a + b == [first] + (a + b)
  {
  }

  /** The buffer holds the unfinished message as long as the attempt lasts. */
  lemma ReactionMessage(s: Session, chunks: seq<Chunk>, c: Chunk, script: seq<AtomicOutputs.WriteResult>)
    requires s.message == Pending(chunks) && |s.message| <= MAXIMUM_MESSAGE_SIZE
    ensures !Receive(s, c, script).raised ==> Receive(s, c, script).session.message == Pending(chunks + [c])
    ensures Completes(s, c) <==> EndsMessage(c) && Recordable(Pending(chunks) + c.data)
  {
    hide Pending, Left, LineEffect, ValidUtf8;
    MessagesGrow(chunks, c);
  }

  /** What a reaction leaves: a whole line exactly when a frame is counted, otherwise at most a cut of one. */
  lemma ReactionLeaves(s: Session, c: Chunk, script: seq<AtomicOutputs.WriteResult>)
    requires Answered(s, c, script)
    ensures var r := Receive(s, c, script);
            && AllSegmentsValid(r.segments) && |r.segments| <= 1
            && (forall i :: 0 <= i < |r.segments| ==> Utf8Frame(r.segments[i].piece))
            && Wholes(r.segments) == (if Completes(s, c) && !r.raised then [PieceOf(s, c)] else [])
            && r.session.frames == s.frames + (if Completes(s, c) && !r.raised then 1 else 0)
            && r.session.connection == s.connection
  {
    hide Render, AtomicOutputs.LineEffect, ValidUtf8, Bytes, Wholes, Segment.Valid;
    LeftIsWritten(PieceOf(s, c), script);
    NothingLeft();
    var g := Left(PieceOf(s, c), script);
    if g != [] {
      BytesSnoc([], g[0]);
      assert [] + [g[0]] == g;
    }
  }

  lemma HistoryStep(setup: Setup, s: State, a: Action)
    requires HistoryOk(setup, s) && CountersOk(s) && Enabled(setup, s, a)
    ensures HistoryOk(setup, Apply(setup, s, a))
  {
    hide Expected, Pending, Receive, Wholes, WriteText, Call, Render, LineEffect, Segment.Valid, AfterChunk, ValidUtf8;
    hide Messages, Fitting, TakenText, OwnPhase, CountersOk;
    match a
    case Received(c, script) =>
      ChunkKeepsHistory(setup, s, c, script);
    case WriteMetadata(script) =>
      MetadataAlone(setup);
      ExpectedNewConnection([], {});
    case CheckOuter =>
      ExpectedNewConnection(s.received, s.lost);
    case Connected =>
      ExpectedNewConnection(s.received, s.lost);
    case _ =>
  }

  lemma MetadataAlone(setup: Setup)
    ensures AllSegmentsValid([Whole(setup.Metadata())])
    ensures Wholes([Whole(setup.Metadata())]) == [setup.Metadata()] + []
  {
  }

  lemma {:induction false} HistoryInEveryRun(setup: Setup, actions: seq<Action>)
    requires Run(setup, actions).Some?
    ensures HistoryOk(setup, Run(setup, actions).value)
  {
    hide HistoryOk, Apply, Enabled;
    if actions != [] {
      var init := actions[..|actions| - 1];
      HistoryInEveryRun(setup, init);
      CountersInEveryRun(setup, init);
      HistoryStep(setup, Run(setup, init).value, actions[|actions| - 1]);
    } else {
      HistoryInitially(setup);
    }
  }

  lemma HistoryInitially(setup: Setup)
    ensures HistoryOk(setup, Initially(setup))
  {
  }

  // ----- what each event does, in terms of the run alone

  lemma KindOfExactly(close: bool, control: bool, binary: bool, text: bool)
    ensures var kind := KindOf(close, control, binary, text);
            && (kind.Close? <==> close)
            && (kind.Control? <==> control && !close)
            && (kind.Binary? <==> binary && !control && !close)
            && (kind.Text? <==> text && !binary && !control && !close)
            && (kind.Other? <==> !text && !binary && !control && !close)
  {
  }

  predicate NoClose(chunks: seq<Chunk>) {
    forall j :: 0 <= j < |chunks| ==> !chunks[j].kind.Close?
  }

  /** A close frame ends its connection: no chunk is received after it. */
  predicate CloseIsLast(received: seq<seq<Chunk>>) {
    forall k, j :: 0 <= k < |received| && 0 <= j < |received[k]| - 1 ==> !received[k][j].kind.Close?
  }

  ghost predicate ClosesOk(s: State) {
    && CloseIsLast(s.received)
    && (s.phase.Connecting? || s.phase.Inner? || s.phase.Polling? ==>
          s.received != [] && NoClose(s.received[|s.received| - 1]))
  }

  lemma ClosesStep(setup: Setup, s: State, a: Action)
    requires ClosesOk(s) && Enabled(setup, s, a)
    ensures ClosesOk(Apply(setup, s, a))
  {
    hide Left, LineEffect, Render, LeftText, WriteText, Call, ValidUtf8, Completes, Answered, TakenText;
  }

  lemma {:induction false} CloseEndsConnection(setup: Setup, actions: seq<Action>)
    requires Run(setup, actions).Some?
    ensures CloseIsLast(Run(setup, actions).value.received)
    ensures ClosesOk(Run(setup, actions).value)
  {
    hide ClosesOk, Apply, Enabled;
    if actions != [] {
      CloseEndsConnection(setup, actions[..|actions| - 1]);
      ClosesStep(setup, Run(setup, actions[..|actions| - 1]).value, actions[|actions| - 1]);
    } else {
      NothingReceived(setup);
    }
    ClosesLast(Run(setup, actions).value);
  }

  lemma NothingReceived(setup: Setup)
    ensures ClosesOk(Initially(setup))
  {
  }

  lemma ClosesLast(s: State)
    ensures ClosesOk(s) ==> CloseIsLast(s.received)
  {
  }

  /**
   * When a chunk ends the attempt: it is a close frame, or text that takes the message of its connection above 4 MiB,
   * or text that completes a message which is not UTF-8 or whose line the kernel refuses before its last byte.
   */
  ghost predicate Fails(received: seq<seq<Chunk>>, c: Chunk, script: seq<AtomicOutputs.WriteResult>)
    requires received != []
  {
    var message := Pending(received[|received| - 1]) + c.data;
    || c.kind == Close
    || (c.kind == Text &&
        (|| |message| > 4_194_304
         || (c.bytesLeft == 0 && !c.continued &&
             (|| !ValidUtf8(message)
              || AtomicOutputs.RefusesLine(|Render(FramePiece(c.at, |received|, message))| + 1, script)))))
  }

  lemma FailsExactly(setup: Setup, s: State, c: Chunk, script: seq<AtomicOutputs.WriteResult>)
    requires HistoryOk(setup, s) && CountersOk(s) && s.phase.Polling? && Answered(s.session, c, script)
    ensures s.received != [] && Receive(s.session, c, script).raised == Fails(s.received, c, script)
    ensures Receive(s.session, c, script).session.frames ==
            s.session.frames +
            if c.kind == Text && c.bytesLeft == 0 && !c.continued && !Fails(s.received, c, script) then 1 else 0
  {
    hide Expected, Pending, Wholes, LostOk, Left, LineEffect, Render, ValidUtf8, AtomicOutputs.LineEffect;
    hide AtomicOutputs.RefusesLine;
    AtomicOutputs.TornExactly(|Render(PieceOf(s.session, c))| + 1, script);
    OutcomeOf(PieceOf(s.session, c), script);
  }

  lemma OutcomeOf(p: Piece, script: seq<AtomicOutputs.WriteResult>)
    ensures LineEffect(p, script) == AtomicOutputs.LineEffect(|Render(p)| + 1, script)
  {
  }

  /** A received chunk is added to its connection, ends the attempt exactly in these cases, and else goes round. */
  lemma ReceivedExactly(setup: Setup, actions: seq<Action>)
    requires actions != [] && Run(setup, actions).Some? && actions[|actions| - 1].Received?
    ensures Run(setup, actions[..|actions| - 1]).Some?
    ensures var s, t := Run(setup, actions[..|actions| - 1]).value, Run(setup, actions).value;
            var c, script := actions[|actions| - 1].chunk, actions[|actions| - 1].script;
            && s.received != []
            && t.received == s.received[..|s.received| - 1] + [s.received[|s.received| - 1] + [c]]
            && t.phase == (if Fails(s.received, c, script) then Caught else Inner)
            && t.session.frames == s.session.frames +
               if c.kind == Text && c.bytesLeft == 0 && !c.continued && !Fails(s.received, c, script) then 1 else 0
  {
    hide Run, HistoryOk, CountersOk, Receive, Fails, Completes, LeftText, WriteText, Answered;
    var init, a := actions[..|actions| - 1], actions[|actions| - 1];
    LastReceived(setup, actions);
    HistoryInEveryRun(setup, init);
    CountersInEveryRun(setup, init);
    FailsExactly(setup, Run(setup, init).value, a.chunk, a.script);
  }

  lemma LastReceived(setup: Setup, actions: seq<Action>)
    requires actions != [] && Run(setup, actions).Some? && actions[|actions| - 1].Received?
    ensures var init, a := actions[..|actions| - 1], actions[|actions| - 1];
            && Run(setup, init).Some? && Run(setup, init).value.phase.Polling?
            && Answered(Run(setup, init).value.session, a.chunk, a.script)
            && Run(setup, actions).value == AfterChunk(Run(setup, init).value, a.chunk, a.script)
  {
    hide Answered, AfterChunk;
  }

  /** The deadline has passed or a stop was requested. */
  predicate Ended(actions: seq<Action>) {
    DeadlinePasses in actions || StopRequested in actions
  }

  /** How many attempts failed, and how many were begun, before that. */
  function Failed(actions: seq<Action>): nat {
    if actions == [] then 0
    else
      var init := actions[..|actions| - 1];
      Failed(init) + if actions[|actions| - 1].Handle? && !Ended(init) then 1 else 0
  }

  function Attempts(actions: seq<Action>): nat {
    if actions == [] then 0
    else
      var init := actions[..|actions| - 1];
      Attempts(init) + if actions[|actions| - 1].CheckOuter? && !Ended(init) then 1 else 0
  }

  lemma {:induction false} AttemptsExactly(setup: Setup, actions: seq<Action>)
    requires Run(setup, actions).Some?
    ensures var s := Run(setup, actions).value;
            && s.session.reconnects == Failed(actions) && s.session.connection == Attempts(actions)
            && (s.timeUp <==> DeadlinePasses in actions) && (s.stop <==> StopRequested in actions)
  {
    hide Apply, Enabled;
    if actions != [] {
      var init, a := actions[..|actions| - 1], actions[|actions| - 1];
      AttemptsExactly(setup, init);
      AttemptStep(setup, Run(setup, init).value, a);
      hide Run;
      assert forall x :: x in actions <==> x in init || x == a by {
        assert actions == init + [a];
      }
    }
  }

  lemma AttemptStep(setup: Setup, s: State, a: Action)
    requires Enabled(setup, s, a)
    ensures var t, over := Apply(setup, s, a), s.timeUp || s.stop;
            && t.session.reconnects == s.session.reconnects + (if a.Handle? && !over then 1 else 0)
            && t.session.connection == s.session.connection + (if a.CheckOuter? && !over then 1 else 0)
            && t.timeUp == (s.timeUp || a.DeadlinePasses?) && t.stop == (s.stop || a.StopRequested?)
  {
    hide Left, LineEffect, Render, LeftText, WriteText, Call, ValidUtf8, Completes, Answered, TakenText;
  }

  lemma LastStep(setup: Setup, actions: seq<Action>)
    requires actions != [] && Run(setup, actions).Some?
    ensures var init, a := actions[..|actions| - 1], actions[|actions| - 1];
            && Run(setup, init).Some? && Enabled(setup, Run(setup, init).value, a)
            && Run(setup, actions).value == Apply(setup, Run(setup, init).value, a)
  {
  }

  /** Where the loops go: attempts begin and go on only until the end, and a failed connect or receive ends one. */
  lemma PhasesExactly(setup: Setup, actions: seq<Action>)
    requires actions != [] && Run(setup, actions).Some?
    ensures var t, ended := Run(setup, actions).value, Ended(actions);
            match actions[|actions| - 1]
            case CheckOuter => t.phase == if ended then Finishing else Connecting
            case CheckInner => t.phase == if ended then Outer else Polling
            case Connected => t.phase == Inner && t.session.message == ""
            case ConnectFailed => t.phase == Caught
            case ReceiveFailed => t.phase == Caught
            case NothingYet => t.phase == Inner
            case StoppedWaiting => t.phase == Finishing
            case _ => true
  {
    hide Run, Ended, AfterChunk, AfterMetadata, AfterCommitCall, Handled, Call, Answered, LineEffect;
    LastStep(setup, actions);
    OverExactly(setup, actions);
  }

  /** How output calls end: the first look, the open call, and every call of the commit. */
  lemma OutputCallsExactly(setup: Setup, o: Publication.Origin, actions: seq<Action>)
    requires Publication.Initial(setup.system, o) && |setup.system.writers| >= 1
    requires actions != [] && Run(setup, actions).Some?
    ensures Run(setup, actions[..|actions| - 1]).Some?
    ensures var s, t := Run(setup, actions[..|actions| - 1]).value, Run(setup, actions).value;
            match actions[|actions| - 1]
            case CheckOutput => t.phase == if s.system.disk.dest.None? then Creating else Threw
            case CreateOutput(ok, _) => t.phase == if ok && s.system.disk.part.None? then Opening else Threw
            case CommitCall(ok) =>
              && |s.system.writers| >= 1 && s.phase.Committing?
              && var mine := s.system.writers[0].phase;
              t.phase == if !ok || (mine.FileClosed? && s.system.disk.dest.Some?) then Threw
                         else if mine.DirectorySynced? then Returned(s.phase.interrupted)
                         else s.phase
            case _ => true
  {
    hide Run, Publication.Initial;
    LastStep(setup, actions);
    OutputInEveryRun(setup, o, actions[..|actions| - 1]);
    OutputCall(setup, Run(setup, actions[..|actions| - 1]).value, o, actions[|actions| - 1]);
  }

  lemma OutputCall(setup: Setup, s: State, o: Publication.Origin, a: Action)
    requires OutputOk(s, o) && Enabled(setup, s, a)
    ensures var t := Apply(setup, s, a);
            match a
            case CheckOutput => t.phase == if s.system.disk.dest.None? then Creating else Threw
            case CreateOutput(ok, _) => t.phase == if ok && s.system.disk.part.None? then Opening else Threw
            case CommitCall(ok) =>
              && |s.system.writers| >= 1
              && var mine := s.system.writers[0].phase;
              t.phase == if !ok || (mine.FileClosed? && s.system.disk.dest.Some?) then Threw
                         else if mine.DirectorySynced? then Returned(s.phase.interrupted)
                         else s.phase
            case _ => true
  {
    hide AfterChunk, AfterMetadata, AfterCommitCall, Handled, Answered, LineEffect, Bytes, Render;
    hide Publication.Invariant;
    if a.CommitCall? {
      CommitCallEnds(s, o, a.ok);
    }
  }

  lemma CommitCallEnds(s: State, o: Publication.Origin, ok: bool)
    requires OutputOk(s, o) && s.phase.Committing?
    ensures |s.system.writers| >= 1
    ensures var mine := s.system.writers[0].phase;
            AfterCommitCall(s, ok).phase ==
            if !ok || (mine.FileClosed? && s.system.disk.dest.Some?) then Threw
            else if mine.DirectorySynced? then Returned(s.phase.interrupted)
            else s.phase
  {
    hide Publication.Invariant, Bytes;
    if Publication.OwnsPartial(s.system.writers[0]) {
      PartialIsOwn(s.system, o, 0);
    }
  }

  /** What the handler does: it ends the capture quietly, gives up after the fifth failure in a row, or goes round. */
  lemma HandleExactly(setup: Setup, actions: seq<Action>)
    requires actions != [] && Run(setup, actions).Some? && actions[|actions| - 1].Handle?
    ensures var t := Run(setup, actions).value;
            t.phase == if Ended(actions[..|actions| - 1]) then Finishing
                       else if FailuresInARow(setup, actions) == 5 then Threw
                       else Outer
  {
    hide CountersOk, FailuresInARow, Ended;
    var init := actions[..|actions| - 1];
    OverExactly(setup, init);
    GivesUpExactly(setup, actions);
    FailuresBelowSix(setup, actions);
  }

  lemma OverExactly(setup: Setup, actions: seq<Action>)
    requires Run(setup, actions).Some?
    ensures Over(Run(setup, actions).value) == Ended(actions)
  {
    hide Run;
    AttemptsExactly(setup, actions);
  }

  lemma FailuresBelowSix(setup: Setup, actions: seq<Action>)
    requires actions != [] && Run(setup, actions).Some?
    ensures Run(setup, actions).value.session.failures <= 5
    ensures Run(setup, actions[..|actions| - 1]).Some?
  {
    CountersInEveryRun(setup, actions);
    hide Apply, Enabled;
  }

  /** What the end of the loops does: without a frame and without a stop request it throws, and else it commits. */
  lemma FinishExactly(setup: Setup, actions: seq<Action>)
    requires actions != [] && Run(setup, actions).Some? && actions[|actions| - 1].Finish?
    ensures var t, stop := Run(setup, actions).value, StopRequested in actions[..|actions| - 1];
            t.phase == if t.session.frames == 0 && !stop then Threw else Committing(stop)
  {
    hide Run, AfterChunk, AfterMetadata, AfterCommitCall, Handled, Call, Answered, LineEffect;
    LastStep(setup, actions);
    AttemptsExactly(setup, actions[..|actions| - 1]);
  }

  predicate PastLoops(phase: Phase) {
    phase.Finishing? || phase.Committing? || phase.Returned?
  }

  lemma PastLoopsStep(setup: Setup, s: State, a: Action)
    requires Enabled(setup, s, a) && (PastLoops(s.phase) ==> Over(s))
    ensures PastLoops(Apply(setup, s, a).phase) ==> Over(Apply(setup, s, a))
    ensures Over(s) ==> MoreFrames(Apply(setup, s, a)) <= MoreFrames(s)
  {
    hide Left, LineEffect, Render, LeftText, WriteText, Call, ValidUtf8, Completes, Answered, TakenText;
  }

  /** The frames recorded, and the one that may still come. */
  function MoreFrames(s: State): nat {
    s.session.frames + if s.phase.Polling? then 1 else 0
  }

  /** The loops are left only when the time is up or a stop was requested. */
  lemma {:induction false} EndsOnlyWhenOver(setup: Setup, actions: seq<Action>)
    requires Run(setup, actions).Some?
    ensures PastLoops(Run(setup, actions).value.phase) ==> Ended(actions)
  {
    AttemptsExactly(setup, actions);
    OverWhenPast(setup, actions);
  }

  lemma {:induction false} OverWhenPast(setup: Setup, actions: seq<Action>)
    requires Run(setup, actions).Some?
    ensures var s := Run(setup, actions).value; PastLoops(s.phase) ==> Over(s)
  {
    hide Apply, Enabled, Over, PastLoops;
    if actions != [] {
      OverWhenPast(setup, actions[..|actions| - 1]);
      PastLoopsStep(setup, Run(setup, actions[..|actions| - 1]).value, actions[|actions| - 1]);
    } else {
      NotPastInitially(setup);
    }
  }

  lemma NotPastInitially(setup: Setup)
    ensures !PastLoops(Initially(setup).phase)
  {
  }

  /**
   * Once the time is up or a stop was requested no attempt is begun or counted any more, and at most one frame comes.
   */
  lemma {:induction false} EndIsFinal(setup: Setup, actions: seq<Action>, k: nat)
    requires k <= |actions| && Run(setup, actions).Some? && Ended(actions[..k])
    ensures Run(setup, actions[..k]).Some?
    ensures var s, t := Run(setup, actions[..k]).value, Run(setup, actions).value;
            && t.session.connection == s.session.connection && t.session.reconnects == s.session.reconnects
            && t.session.frames <= s.session.frames + 1 && MoreFrames(t) <= MoreFrames(s) && Over(t)
  {
    if k < |actions| {
      var init := actions[..|actions| - 1];
      assert init[..k] == actions[..k];
      EndIsFinal(setup, init, k);
      OverWhenPast(setup, init);
      PastLoopsStep(setup, Run(setup, init).value, actions[|actions| - 1]);
      AttemptStep(setup, Run(setup, init).value, actions[|actions| - 1]);
      hide Apply, Enabled;
    } else {
      assert actions[..k] == actions;
      AttemptsExactly(setup, actions);
    }
  }

  /** Endpoint and products are UTF-8, and the kernel takes all of the line they make. */
  predicate MetadataTaken(setup: Setup, script: seq<AtomicOutputs.WriteResult>) {
    && ValidUtf8(setup.endpoint) && (forall p :: p in setup.products ==> ValidUtf8(p))
    && !AtomicOutputs.RefusesLine(|Render(MetadataPiece(setup.endpoint, setup.products))| + 1, script)
  }

  /** The metadata line is written iff it can be dumped and is taken, and otherwise the capture throws. */
  lemma MetadataExactly(setup: Setup, actions: seq<Action>)
    requires actions != [] && Run(setup, actions).Some? && actions[|actions| - 1].WriteMetadata?
    ensures Run(setup, actions).value.phase ==
            if MetadataTaken(setup, actions[|actions| - 1].script) then Outer else Threw
  {
    hide Run, Render, AfterMetadata, MetadataTaken, LineEffect;
    LastMetadata(setup, actions);
    MetadataOutcome(setup, Run(setup, actions[..|actions| - 1]).value, actions[|actions| - 1].script);
  }

  lemma MetadataOutcome(setup: Setup, s: State, script: seq<AtomicOutputs.WriteResult>)
    requires LineEffect(setup.Metadata(), script).outcome != AtomicOutputs.Blocked
    ensures AfterMetadata(setup, s, script).phase == if MetadataTaken(setup, script) then Outer else Threw
  {
    hide Render, ValidUtf8, AtomicOutputs.LineEffect, AtomicOutputs.RefusesLine, WriteText, TakenText, LineEffect;
    var p := setup.Metadata();
    OutcomeOf(p, script);
    AtomicOutputs.TornExactly(|Render(p)| + 1, script);
  }

  lemma LastMetadata(setup: Setup, actions: seq<Action>)
    requires actions != [] && Run(setup, actions).Some? && actions[|actions| - 1].WriteMetadata?
    ensures var init, script := actions[..|actions| - 1], actions[|actions| - 1].script;
            && Run(setup, init).Some?
            && LineEffect(setup.Metadata(), script).outcome != AtomicOutputs.Blocked
            && Run(setup, actions).value == AfterMetadata(setup, Run(setup, init).value, script)
  {
    hide AfterMetadata, LineEffect, Render;
  }

  // ----- the capture as a writer of the publication protocol

  predicate CommitUnderWay(phase: Publication.Phase) {
    || phase.Writing? || phase.FileSynced? || phase.FileClosed? || phase.Published? || phase.Unlinked?
    || phase.DirectoryOpen? || phase.DirectorySynced?
  }

  /** The publication invariant holds, and the capture's writer has written exactly the bytes of the segments. */
  ghost predicate OutputOk(s: State, o: Publication.Origin) {
    && Publication.Invariant(s.system, o)
    && |s.system.writers| >= 1
    && AllSegmentsValid(s.segments)
    && var me := s.system.writers[0];
    match s.phase
    case Checking => me.phase.NotStarted?
    case Creating => me.phase.Checked?
    case Committing(_) => CommitUnderWay(me.phase) && me.log == Bytes(s.segments)
    case Returned(_) => me.phase.Committed? && me.log == Bytes(s.segments)
    case Threw =>
      && (s.segments != [] ==> me.log == Bytes(s.segments))
      && (s.session.failures == MAXIMUM_CONSECUTIVE_FAILURES ==> s.segments != [] && me.phase.Writing?)
    case _ => me.phase.Writing? && me.log == Bytes(s.segments)
  }

  /** A call keeps the publication invariant and, when it is the capture's own write, extends its log. */
  lemma CallKeeps(system: Publication.System, o: Publication.Origin, step: Publication.Action)
    requires Publication.Invariant(system, o)
    ensures Publication.Invariant(Call(system, step), o)
    ensures |Call(system, step).writers| == |system.writers|
  {
    hide Publication.Invariant;
    if Publication.Enabled(system, step) {
      Publication.StepKeepsInvariant(system, o, step);
    }
  }

  lemma WriteExtends(system: Publication.System, o: Publication.Origin, text: string)
    requires Publication.Invariant(system, o) && |system.writers| >= 1 && system.writers[0].phase.Writing?
    ensures var t := WriteText(system, text);
            && Publication.Invariant(t, o) && |t.writers| == |system.writers|
            && t.writers[0].phase.Writing? && t.writers[0].log == system.writers[0].log + text
  {
    CallKeeps(system, o, Publication.Write(0, text));
    hide Publication.Invariant;
    assert system.writers[0].log + "" == system.writers[0].log;
  }

  lemma OutputStep(setup: Setup, s: State, o: Publication.Origin, a: Action)
    requires OutputOk(s, o) && HistoryOk(setup, s) && CountersOk(s) && Enabled(setup, s, a)
    ensures OutputOk(Apply(setup, s, a), o)
  {
    hide Publication.Invariant, Bytes, Receive, Render, LineEffect, Segment.Valid, WriteText, HistoryOk, CountersOk;
    hide AfterChunk, AfterMetadata, AfterCommitCall, ValidUtf8;
    WhereItStands(setup, s);
    match a
    case Elsewhere(step) =>
      Publication.StepKeepsInvariant(s.system, o, step);
    case CheckOutput =>
      CallKeeps(s.system, o, Publication.CheckDestination(0));
    case CreateOutput(ok, inode) =>
      CreateKeepsOutput(setup, s, o, ok, inode);
    case WriteMetadata(script) =>
      MetadataKeepsOutput(setup, s, o, script);
    case Received(c, script) =>
      ChunkKeepsOutput(s, o, c, script);
    case CommitCall(ok) =>
      CommitKeepsOutput(s, o, ok);
    case _ =>
  }

  lemma WhereItStands(setup: Setup, s: State)
    requires HistoryOk(setup, s) && CountersOk(s)
    ensures Early(s.phase) ==> s.segments == []
    ensures !Early(s.phase) && !s.phase.Threw? ==> s.segments != []
    ensures !s.phase.Threw? ==> s.session.failures < MAXIMUM_CONSECUTIVE_FAILURES
  {
    hide Expected, Wholes, Pending, LostOk;
  }

  lemma CreateKeepsOutput(setup: Setup, s: State, o: Publication.Origin, ok: bool, inode: Publication.Inode)
    requires OutputOk(s, o) && HistoryOk(setup, s) && CountersOk(s) && Enabled(setup, s, CreateOutput(ok, inode))
    ensures OutputOk(Apply(setup, s, CreateOutput(ok, inode)), o)
  {
    hide Publication.Invariant, HistoryOk, CountersOk;
    WhereItStands(setup, s);
    CallKeeps(s.system, o, if ok then Publication.OpenPartial(0, inode) else Publication.Stop(0));
  }

  lemma MetadataKeepsOutput(setup: Setup, s: State, o: Publication.Origin, script: seq<AtomicOutputs.WriteResult>)
    requires OutputOk(s, o) && HistoryOk(setup, s) && CountersOk(s) && s.phase.Opening?
    ensures OutputOk(AfterMetadata(setup, s, script), o)
  {
    hide HistoryOk, CountersOk, Setup.Metadata;
    hide Publication.Invariant, Render, LineEffect, TakenText, WriteText, Bytes, ValidUtf8, Segment.Valid;
    WhereItStands(setup, s);
    var p := setup.Metadata();
    WriteExtends(s.system, o, TakenText(p, script));
    NothingLeft();
    assert "" + TakenText(p, script) == TakenText(p, script);
    if LineEffect(p, script).outcome == AtomicOutputs.Returned {
      LeftIsWritten(p, script);
      assert Left(p, script) == [Whole(p)];
    }
  }

  lemma ChunkKeepsOutput(s: State, o: Publication.Origin, c: Chunk, script: seq<AtomicOutputs.WriteResult>)
    requires OutputOk(s, o) && s.phase.Polling? && Answered(s.session, c, script)
    ensures OutputOk(AfterChunk(s, c, script), o)
  {
    hide Publication.Invariant, Bytes, Receive, Completes, Answered, Wholes, Segment.Valid, WriteText;
    var r := Receive(s.session, c, script);
    ReactionLeaves(s.session, c, script);
    BytesLeft(s.segments, r.segments);
    WriteExtends(s.system, o, LeftText(r.segments));
  }

  lemma CommitKeepsOutput(s: State, o: Publication.Origin, ok: bool)
    requires OutputOk(s, o) && s.phase.Committing? && s.session.failures < MAXIMUM_CONSECUTIVE_FAILURES
    ensures OutputOk(AfterCommitCall(s, ok), o)
  {
    hide Publication.Invariant, Bytes;
    CallKeeps(s.system, o, if ok then NextCall(OwnPhase(s.system)) else Publication.Stop(0));
  }

  lemma {:induction false} OutputInEveryRun(setup: Setup, o: Publication.Origin, actions: seq<Action>)
    requires Publication.Initial(setup.system, o) && |setup.system.writers| >= 1
    requires Run(setup, actions).Some?
    ensures OutputOk(Run(setup, actions).value, o)
  {
    hide OutputOk, HistoryOk, CountersOk, Apply, Enabled, Publication.Initial;
    if actions != [] {
      var init := actions[..|actions| - 1];
      OutputInEveryRun(setup, o, init);
      HistoryInEveryRun(setup, init);
      CountersInEveryRun(setup, init);
      OutputStep(setup, Run(setup, init).value, o, actions[|actions| - 1]);
    } else {
      OutputInitially(setup, o);
    }
  }

  lemma OutputInitially(setup: Setup, o: Publication.Origin)
    requires Publication.Initial(setup.system, o) && |setup.system.writers| >= 1
    ensures OutputOk(Initially(setup), o)
  {
    Publication.InitialInvariant(setup.system, o);
  }

  // ----- the file under one of the two names

  /** The capture's file has one of the two names, holds what its writer wrote, and nobody else writes to it. */
  ghost predicate OwnsFile(system: Publication.System) {
    && |system.writers| >= 1
    && var me := system.writers[0];
    && me.inode in system.disk.files && system.disk.files[me.inode].data == me.log
    && (system.disk.part == Some(me.inode) || system.disk.dest == Some(me.inode))
    && forall w :: 0 < w < |system.writers| && Publication.HasFile(system.writers[w]) ==>
         system.writers[w].inode != me.inode
  }

  lemma PartialIsOwn(system: Publication.System, o: Publication.Origin, w: nat)
    requires Publication.Invariant(system, o) && w < |system.writers| && Publication.OwnsPartial(system.writers[w])
    ensures system.disk.part == Some(system.writers[w].inode)
  {
    assert Publication.WriterOk(system, o, system.writers[w]);
  }

  /** The other writers leave it alone. */
  lemma ElsewhereKeepsFile(system: Publication.System, o: Publication.Origin, step: Publication.Action)
    requires Publication.Invariant(system, o) && OwnsFile(system)
    requires Publication.Enabled(system, step) && !step.PowerLoss? && step.w != 0
    ensures OwnsFile(Publication.Apply(system, step))
  {
    if Publication.OwnsPartial(system.writers[step.w]) {
      PartialIsOwn(system, o, step.w);
    }
    hide Publication.Invariant;
  }

  /** So do the capture's own calls once it has the file open. */
  lemma CallKeepsFile(system: Publication.System, o: Publication.Origin, step: Publication.Action)
    requires Publication.Invariant(system, o) && OwnsFile(system) && CommitUnderWay(system.writers[0].phase)
    requires !step.PowerLoss? && step.w == 0
    ensures OwnsFile(Call(system, step))
  {
    if Publication.OwnsPartial(system.writers[0]) {
      PartialIsOwn(system, o, 0);
    }
    assert Publication.WriterOk(system, o, system.writers[0]);
    hide Publication.Invariant;
  }

  lemma OpenOwnsFile(system: Publication.System, o: Publication.Origin, inode: Publication.Inode)
    requires Publication.Invariant(system, o) && |system.writers| >= 1
    requires system.writers[0].phase.Checked? && system.disk.Fresh(inode)
    ensures var t := Call(system, Publication.OpenPartial(0, inode)); t.writers[0].phase.Writing? ==> OwnsFile(t)
  {
    forall w | 0 < w < |system.writers| && Publication.HasFile(system.writers[w])
      ensures system.writers[w].inode != inode
    {
      assert Publication.WriterOk(system, o, system.writers[w]);
    }
    hide Publication.Invariant;
  }

  predicate HasOutput(s: State) {
    s.phase.Opening? || s.segments != []
  }

  lemma FileStep(setup: Setup, s: State, o: Publication.Origin, a: Action)
    requires OutputOk(s, o) && (HasOutput(s) ==> OwnsFile(s.system)) && Enabled(setup, s, a)
    requires Early(s.phase) ==> s.segments == []
    requires !Early(s.phase) && !s.phase.Threw? ==> s.segments != []
    ensures HasOutput(Apply(setup, s, a)) ==> OwnsFile(Apply(setup, s, a).system)
  {
    hide Publication.Invariant, Bytes, Receive, Render, LineEffect, Segment.Valid, TakenText, LeftText, ValidUtf8;
    hide OwnsFile;
    match a
    case Elsewhere(step) =>
      if HasOutput(s) {
        ElsewhereKeepsFile(s.system, o, step);
      }
    case CreateOutput(ok, inode) =>
      OpenOwnsFile(s.system, o, inode);
    case WriteMetadata(script) =>
      CallKeepsFile(s.system, o, Publication.Write(0, TakenText(setup.Metadata(), script)));
    case Received(c, script) =>
      CallKeepsFile(s.system, o, Publication.Write(0, LeftText(Receive(s.session, c, script).segments)));
    case CommitCall(ok) =>
      CallKeepsFile(s.system, o, if ok then NextCall(OwnPhase(s.system)) else Publication.Stop(0));
    case _ =>
  }

  lemma {:induction false} FileInEveryRun(setup: Setup, o: Publication.Origin, actions: seq<Action>)
    requires Publication.Initial(setup.system, o) && |setup.system.writers| >= 1
    requires Run(setup, actions).Some?
    ensures var s := Run(setup, actions).value; HasOutput(s) ==> OwnsFile(s.system)
  {
    hide OutputOk, HistoryOk, CountersOk, OwnsFile, Apply, Enabled, Publication.Initial;
    if actions != [] {
      var init := actions[..|actions| - 1];
      FileInEveryRun(setup, o, init);
      OutputInEveryRun(setup, o, init);
      HistoryInEveryRun(setup, init);
      CountersInEveryRun(setup, init);
      WhereItStands(setup, Run(setup, init).value);
      FileStep(setup, Run(setup, init).value, o, actions[|actions| - 1]);
    }
  }

  /** What is in the capture's file, under whichever name. */
  function OwnText(system: Publication.System): string {
    if |system.writers| > 0 && system.writers[0].inode in system.disk.files
    then system.disk.files[system.writers[0].inode].data
    else ""
  }

  /**
   * From the metadata line on, while the capture runs and however it ends, exceptions included, the file under the
   * partial name or the destination holds exactly the bytes its line writes left.
   */
  lemma FileIsKept(setup: Setup, o: Publication.Origin, actions: seq<Action>)
    requires Publication.Initial(setup.system, o) && |setup.system.writers| >= 1
    requires Run(setup, actions).Some? && Run(setup, actions).value.segments != []
    ensures AllSegmentsValid(Run(setup, actions).value.segments)
    ensures var s := Run(setup, actions).value;
            && OwnsFile(s.system)
            && OwnText(s.system) == Bytes(s.segments)
  {
    hide Run, Bytes, Publication.Invariant, Publication.Initial, HistoryOk, CountersOk;
    FileInEveryRun(setup, o, actions);
    OutputInEveryRun(setup, o, actions);
    HistoryInEveryRun(setup, actions);
    CountersInEveryRun(setup, actions);
    WhereItStands(setup, Run(setup, actions).value);
  }

  /**
   * A capture that has given up after five failures in a row leaves its own file under the partial name, with exactly
   * what it wrote, whatever other writers do afterwards.
   */
  lemma GivenUpKeepsPartial(setup: Setup, o: Publication.Origin, actions: seq<Action>)
    requires Publication.Initial(setup.system, o) && |setup.system.writers| >= 1
    requires Run(setup, actions).Some? && FailuresInARow(setup, actions) == MAXIMUM_CONSECUTIVE_FAILURES
    ensures AllSegmentsValid(Run(setup, actions).value.segments)
    ensures var s := Run(setup, actions).value;
            && s.phase.Threw? && s.segments != []
            && |s.system.writers| >= 1 && s.system.disk.part == Some(s.system.writers[0].inode)
            && OwnText(s.system) == Bytes(s.segments)
            && Wholes(s.segments) == [setup.Metadata()] + Expected(s.received, s.lost)
  {
    hide Run, Bytes, Publication.Invariant, Publication.Initial, FailuresInARow, Expected, Wholes, AllSegmentsValid;
    hide OutputOk, OwnsFile, HistoryOk, OwnText;
    GivesUpExactly(setup, actions);
    GivenUpThrew(setup, actions);
    OutputInEveryRun(setup, o, actions);
    var s := Run(setup, actions).value;
    WriterOfGivenUp(s, o);
    FileIsKept(setup, o, actions);
    PartialIsOwn(s.system, o, 0);
    HistoryInEveryRun(setup, actions);
    LinesOfHistory(setup, s);
  }

  lemma GivenUpThrew(setup: Setup, actions: seq<Action>)
    requires Run(setup, actions).Some?
    requires Run(setup, actions).value.session.failures == MAXIMUM_CONSECUTIVE_FAILURES
    ensures Run(setup, actions).value.phase.Threw?
  {
    hide Run;
    CountersInEveryRun(setup, actions);
  }

  lemma WriterOfGivenUp(s: State, o: Publication.Origin)
    requires OutputOk(s, o) && s.phase.Threw? && s.session.failures == MAXIMUM_CONSECUTIVE_FAILURES
    ensures Publication.Invariant(s.system, o) && |s.system.writers| >= 1 && s.segments != []
    ensures s.system.writers[0].phase.Writing?
  {
    hide Publication.Invariant, Bytes;
  }

  lemma LinesOfHistory(setup: Setup, s: State)
    requires HistoryOk(setup, s)
    ensures Begun(s) ==> Wholes(s.segments) == [setup.Metadata()] + Expected(s.received, s.lost)
    ensures Early(s.phase) ==> s.segments == []
  {
    hide Expected, Wholes, Pending, LostOk;
  }

  // ----- the published file

  /** The file a returning capture leaves: durable, and holding exactly what its writes left. */
  ghost predicate PublishedAs(system: Publication.System, text: string) {
    && |system.writers| >= 1
    && var i := system.writers[0].inode;
    && system.disk.dest == Some(i) && i in system.disk.files
    && system.disk.files[i] == Publication.File(text, true)
  }

  /**
   * Whatever other writers do, a capture that returns has published every byte its write calls left, synced, and there
   * it stays whatever happens afterwards, crashes and power losses included.
   */
  lemma ReturnedIsPublished(setup: Setup, o: Publication.Origin, actions: seq<Action>, later: seq<Publication.Action>)
    requires Publication.Initial(setup.system, o) && |setup.system.writers| >= 1
    requires Run(setup, actions).Some? && Run(setup, actions).value.phase.Returned?
    ensures AllSegmentsValid(Run(setup, actions).value.segments)
    ensures var s := Run(setup, actions).value;
            Publication.Run(s.system, later).Some? ==>
              PublishedAs(Publication.Run(s.system, later).value, Bytes(s.segments))
  {
    hide Run, Bytes, Publication.Run, Publication.Invariant, Publication.Initial;
    OutputInEveryRun(setup, o, actions);
    var s := Run(setup, actions).value;
    if Publication.Run(s.system, later).Some? {
      Publication.CommittedSurvives(s.system, o, 0, later);
    }
  }

  /** The chunk at position `k` completes a message whose line the kernel refuses to take to the end. */
  ghost predicate RefusedAt(setup: Setup, actions: seq<Action>, k: nat)
    requires k < |actions|
  {
    && actions[k].Received? && Run(setup, actions[..k]).Some?
    && Refused(Run(setup, actions[..k]).value.session, actions[k].chunk, actions[k].script)
  }

  predicate Refused(s: Session, c: Chunk, script: seq<AtomicOutputs.WriteResult>) {
    Completes(s, c) && AtomicOutputs.RefusesLine(|Render(PieceOf(s, c))| + 1, script)
  }

  /** The same after the kernel has taken the first byte. */
  ghost predicate TornAt(setup: Setup, actions: seq<Action>, k: nat)
    requires k < |actions|
  {
    && actions[k].Received? && Run(setup, actions[..k]).Some?
    && Tears(Run(setup, actions[..k]).value.session, actions[k].chunk, actions[k].script)
  }

  predicate Tears(s: Session, c: Chunk, script: seq<AtomicOutputs.WriteResult>) {
    Completes(s, c) && AtomicOutputs.TearsLine(|Render(PieceOf(s, c))| + 1, script)
  }

  ghost predicate NoRefusal(setup: Setup, actions: seq<Action>) {
    forall k :: 0 <= k < |actions| ==> !RefusedAt(setup, actions, k)
  }

  ghost predicate NoTear(setup: Setup, actions: seq<Action>) {
    forall k :: 0 <= k < |actions| ==> !TornAt(setup, actions, k)
  }

  /**
   * In terms of the kernel's answers alone: what a chunk leaves is cut, or nothing, exactly when the kernel refuses.
   */
  lemma ReactionRefused(s: Session, c: Chunk, script: seq<AtomicOutputs.WriteResult>)
    requires Answered(s, c, script) && |s.message| <= MAXIMUM_MESSAGE_SIZE
    ensures var r := Receive(s, c, script);
            && (r.raised && Completes(s, c) <==> Refused(s, c, script))
            && (HasCut(r.segments) <==> Tears(s, c, script))
  {
    hide Render, ValidUtf8, AtomicOutputs.LineEffect, AtomicOutputs.RefusesLine, AtomicOutputs.TearsLine;
    var p := PieceOf(s, c);
    AtomicOutputs.TornExactly(|Render(p)| + 1, script);
    var r := Receive(s, c, script);
    if r.segments != [] && r.segments[0].Cut? {
      assert HasCut(r.segments);
    }
  }

  lemma HasCutConcat(a: seq<Segment>, b: seq<Segment>)
    ensures HasCut(a + b) <==> HasCut(a) || HasCut(b)
  {
    if i :| 0 <= i < |a| && a[i].Cut? {
      assert (a + b)[i].Cut?;
    }
    if i :| 0 <= i < |b| && b[i].Cut? {
      assert (a + b)[|a| + i].Cut?;
    }
  }

  lemma LossStep(setup: Setup, s: State, a: Action)
    requires CountersOk(s) && Enabled(setup, s, a) && (Early(s.phase) ==> s.segments == [])
    ensures var t := Apply(setup, s, a);
            && (t.lost == {} <==> s.lost == {} && !(a.Received? && Refused(s.session, a.chunk, a.script)))
            && (HasCut(t.segments) <==> HasCut(s.segments) || (a.Received? && Tears(s.session, a.chunk, a.script)))
            && (Early(t.phase) ==> t.segments == [])
  {
    hide Receive, Render, LineEffect, Refused, Tears, WriteText, Call, Completes, ValidUtf8;
    if a.Received? {
      ReactionRefused(s.session, a.chunk, a.script);
      HasCutConcat(s.segments, Receive(s.session, a.chunk, a.script).segments);
    }
  }

  /** A line is missing from the recording, or cut in it, exactly when the kernel refused a line, or tore one. */
  lemma {:induction false} LossExactly(setup: Setup, actions: seq<Action>)
    requires Run(setup, actions).Some?
    ensures var s := Run(setup, actions).value;
            && (s.lost == {} <==> NoRefusal(setup, actions))
            && (!HasCut(s.segments) <==> NoTear(setup, actions))
            && (Early(s.phase) ==> s.segments == [])
  {
    hide Apply, Enabled, HasCut, CountersOk, RefusedAt, TornAt, NoRefusal, NoTear, Refused, Tears;
    if actions != [] {
      var init, k := actions[..|actions| - 1], |actions| - 1;
      LossExactly(setup, init);
      CountersInEveryRun(setup, init);
      LossStep(setup, Run(setup, init).value, actions[k]);
      AtLast(setup, actions);
      AtPrefix(setup, actions);
    } else {
      NothingYetLost(setup);
    }
  }

  lemma NothingYetLost(setup: Setup)
    ensures !HasCut([]) && NoRefusal(setup, []) && NoTear(setup, [])
  {
  }

  lemma AtLast(setup: Setup, actions: seq<Action>)
    requires actions != [] && Run(setup, actions[..|actions| - 1]).Some?
    ensures var s, a := Run(setup, actions[..|actions| - 1]).value, actions[|actions| - 1];
            && (RefusedAt(setup, actions, |actions| - 1) <==> a.Received? && Refused(s.session, a.chunk, a.script))
            && (TornAt(setup, actions, |actions| - 1) <==> a.Received? && Tears(s.session, a.chunk, a.script))
  {
    hide Run, Refused, Tears;
  }

  lemma AtPrefix(setup: Setup, actions: seq<Action>)
    requires actions != []
    ensures var init, k := actions[..|actions| - 1], |actions| - 1;
            && (NoRefusal(setup, actions) <==> NoRefusal(setup, init) && !RefusedAt(setup, actions, k))
            && (NoTear(setup, actions) <==> NoTear(setup, init) && !TornAt(setup, actions, k))
  {
    hide Run, Refused, Tears;
    var init := actions[..|actions| - 1];
    forall j | 0 <= j < |init|
      ensures RefusedAt(setup, actions, j) == RefusedAt(setup, init, j)
      ensures TornAt(setup, actions, j) == TornAt(setup, init, j)
    {
      assert actions[..j] == init[..j] && actions[j] == init[j];
    }
    hide RefusedAt, TornAt;
  }

  /** The lines a recording ought to hold. */
  function Ideal(setup: Setup, s: State): string {
    Lines.Written(Rendered([setup.Metadata()] + Expected(s.received, s.lost)))
  }

  /**
   * The bytes of a returning capture are the metadata line and one line per frame, in order and none joined across
   * connections, exactly when the kernel never refuses a line after its first byte and before its last.
   */
  lemma RecordingIsExactlyTheMessages(setup: Setup, actions: seq<Action>)
    requires Run(setup, actions).Some? && Run(setup, actions).value.phase.Returned?
    ensures var s := Run(setup, actions).value;
            && AllSegmentsValid(s.segments)
            && Wholes(s.segments) == [setup.Metadata()] + Expected(s.received, s.lost)
            && |Expected(s.received, s.lost)| == s.session.frames
            && (Bytes(s.segments) == Ideal(setup, s) <==> NoTear(setup, actions))
            && (s.lost == {} <==> NoRefusal(setup, actions))
  {
    hide Run, Bytes, Expected, Wholes, NoTear, NoRefusal, Render, Lines.Written;
    HistoryInEveryRun(setup, actions);
    LossExactly(setup, actions);
    CutsAddBytes(Run(setup, actions).value.segments);
  }

  // ----- which messages are lost

  /** The frames of one connection. */
  function OfConnection(pieces: seq<Piece>, c: nat): seq<Piece> {
    if pieces == [] then []
    else
      var p := pieces[|pieces| - 1];
      OfConnection(pieces[..|pieces| - 1], c) + if p.FramePiece? && p.connection == c then [p] else []
  }

  lemma {:induction false} OfConnectionConcat(a: seq<Piece>, b: seq<Piece>, c: nat)
    ensures OfConnection(a + b, c) == OfConnection(a, c) + OfConnection(b, c)
  {
    if b == [] {
      assert a + b == a;
    } else {
      OfConnectionConcat(a, b[..|b| - 1], c);
      assert (a + b)[..|a + b| - 1] == a + b[..|b| - 1];
    }
  }

  lemma {:induction false} OfConnectionFrames(n: nat, entries: seq<Entry>, c: nat)
    ensures OfConnection(Frames(n, entries), c) == if n == c then Frames(n, entries) else []
  {
    if entries != [] {
      var init, e := entries[..|entries| - 1], entries[|entries| - 1];
      assert entries == init + [e];
      FramesSnoc(n, init, e);
      OfConnectionFrames(n, init, c);
    }
  }

  /** The messages of connection `c` that are recordable. */
  function MessagesOf(received: seq<seq<Chunk>>, c: nat): seq<Entry>
    requires 1 <= c <= |received|
  {
    Fitting(Messages(received[c - 1]))
  }

  /** Connection by connection the recording holds every recordable message, or all but the last where one was lost. */
  ghost predicate LosesLast(received: seq<seq<Chunk>>, lost: set<nat>, c: nat)
    requires 1 <= c <= |received|
  {
    var all := MessagesOf(received, c);
    && (c in lost ==> all != [])
    && OfConnection(Expected(received, lost), c) == Frames(c, if c in lost && all != [] then all[..|all| - 1] else all)
  }

  lemma {:induction false} OfExpected(received: seq<seq<Chunk>>, lost: set<nat>, c: nat)
    requires LostOk(received, lost)
    ensures c > |received| ==> OfConnection(Expected(received, lost), c) == []
    ensures 1 <= c <= |received| ==>
              OfConnection(Expected(received, lost), c) == Frames(c, Kept(MessagesOf(received, c), c in lost))
  {
    hide Messages, Fitting, OfConnection, Kept, LostOk;
    if received == [] {
      NoFramesOf(c);
    } else {
      var k := |received| - 1;
      var own := Frames(k + 1, Kept(Fitting(Messages(received[k])), k + 1 in lost));
      ExpectedWithin(received[..k], lost, k + 1);
      LostWithin(received, lost);
      OfExpected(received[..k], lost - {k + 1}, c);
      OfConnectionConcat(Expected(received[..k], lost), own, c);
      OfConnectionFrames(k + 1, Kept(Fitting(Messages(received[k])), k + 1 in lost), c);
    }
  }

  lemma NoFramesOf(c: nat)
    ensures OfConnection([], c) == []
  {
  }

  lemma ExpectedWithin(received: seq<seq<Chunk>>, lost: set<nat>, c: nat)
    requires c > |received|
    ensures Expected(received, lost - {c}) == Expected(received, lost)
  {
    hide Expected;
    if c in lost {
      ExpectedLost(received, lost - {c}, c);
      assert lost - {c} + {c} == lost;
    } else {
      assert lost - {c} == lost;
    }
  }

  lemma LostWithin(received: seq<seq<Chunk>>, lost: set<nat>)
    requires received != [] && LostOk(received, lost)
    ensures LostOk(received[..|received| - 1], lost - {|received|})
  {
    hide Messages, Fitting;
  }

  /** Each lost connection costs one line. */
  lemma {:induction false} OneLineEach(received: seq<seq<Chunk>>, lost: set<nat>)
    requires LostOk(received, lost)
    ensures |Expected(received, lost)| + |lost| == |Expected(received, {})|
  {
    hide Messages, Fitting;
    if received == [] {
      assert lost == {};
    } else {
      var k := |received| - 1;
      ExpectedWithin(received[..k], lost, k + 1);
      LostWithin(received, lost);
      OneLineEach(received[..k], lost - {k + 1});
      if k + 1 in lost {
        assert lost == (lost - {k + 1}) + {k + 1};
        assert Fitting(Messages(received[k + 1 - 1])) != [];
      } else {
        assert lost - {k + 1} == lost;
      }
    }
  }

  /**
   * What a recording misses: nothing iff the kernel refused no line, and otherwise exactly the last recordable message
   * of each connection that lost one.
   */
  lemma MissesExactly(setup: Setup, actions: seq<Action>)
    requires Run(setup, actions).Some?
    ensures var s := Run(setup, actions).value;
            && (Expected(s.received, s.lost) == Expected(s.received, {}) <==> NoRefusal(setup, actions))
            && |Expected(s.received, s.lost)| + |s.lost| == |Expected(s.received, {})|
            && forall c :: 1 <= c <= |s.received| ==> LosesLast(s.received, s.lost, c)
  {
    hide Run, Expected, NoRefusal, NoTear, HasCut;
    HistoryInEveryRun(setup, actions);
    LossExactly(setup, actions);
    var s := Run(setup, actions).value;
    LossesOf(setup, s);
    OneLineEach(s.received, s.lost);
    hide LostOk, LosesLast, HistoryOk;
    forall c | 1 <= c <= |s.received|
      ensures LosesLast(s.received, s.lost, c)
    {
      LosesLastOf(s.received, s.lost, c);
    }
  }

  lemma LossesOf(setup: Setup, s: State)
    requires HistoryOk(setup, s)
    ensures LostOk(s.received, s.lost)
  {
  }

  lemma LosesLastOf(received: seq<seq<Chunk>>, lost: set<nat>, c: nat)
    requires LostOk(received, lost) && 1 <= c <= |received|
    ensures LosesLast(received, lost, c)
  {
    hide Expected, Messages, Fitting, OfConnection, Frames;
    OfExpected(received, lost, c);
  }

  /**
   * The published file of a capture whose line writes the kernel never tears: one metadata line and, connection by
   * connection, the complete messages of at most 4 MiB of valid UTF-8, durable whatever happens later. They are all of
   * them iff no line was refused, and otherwise each connection that lost a message misses exactly its last.
   */
  lemma PublishedRecording(setup: Setup, o: Publication.Origin, actions: seq<Action>, later: seq<Publication.Action>)
    requires Publication.Initial(setup.system, o) && |setup.system.writers| >= 1
    requires Run(setup, actions).Some? && Run(setup, actions).value.phase.Returned?
    ensures var s := Run(setup, actions).value;
            Publication.Run(s.system, later).Some? && NoTear(setup, actions) ==>
              && PublishedAs(Publication.Run(s.system, later).value, Ideal(setup, s))
              && |Expected(s.received, s.lost)| == s.session.frames
              && (NoRefusal(setup, actions) <==> s.lost == {})
              && (NoRefusal(setup, actions) <==> Expected(s.received, s.lost) == Expected(s.received, {}))
              && forall c :: 1 <= c <= |s.received| ==> LosesLast(s.received, s.lost, c)
  {
    hide Run, Bytes, Expected, NoTear, NoRefusal, Publication.Run, Publication.Initial, PublishedAs, Ideal, LosesLast;
    ReturnedIsPublished(setup, o, actions, later);
    RecordingIsExactlyTheMessages(setup, actions);
    MissesExactly(setup, actions);
  }

  /** Recorded frames of connections one to `n`, in ascending order. */
  ghost predicate Ascending(pieces: seq<Piece>, n: nat) {
    && (forall i :: 0 <= i < |pieces| ==> pieces[i].FramePiece? && 1 <= pieces[i].connection <= n)
    && (forall i, j :: 0 <= i < j < |pieces| ==> pieces[i].connection <= pieces[j].connection)
  }

  /** The connection ids of the recorded frames start at one or more and never decrease. */
  lemma {:induction false} ConnectionIdsAscend(received: seq<seq<Chunk>>, lost: set<nat>)
    ensures Ascending(Expected(received, lost), |received|)
  {
    hide Ascending;
    if received != [] {
      var k := |received| - 1;
      ConnectionIdsAscend(received[..k], lost);
      AscendingGrows(Expected(received[..k], lost), k, Kept(Fitting(Messages(received[k])), k + 1 in lost));
    } else {
      AscendingGrows([], 0, []);
    }
  }

  lemma AscendingGrows(pieces: seq<Piece>, n: nat, entries: seq<Entry>)
    requires Ascending(pieces, n) || pieces == []
    ensures Ascending(pieces + Frames(n + 1, entries), n + 1)
    ensures Ascending([], n)
  {
  }

  /** What one connection contributes when its chunks are an arrival of whole messages and then an unfinished one. */
  lemma ConnectionRecordsItsMessages(entries: seq<Entry>, arrivals: seq<seq<Chunk>>, tail: seq<Chunk>)
    requires Stream(entries, arrivals)
    requires forall i :: 0 <= i < |tail| ==> (tail[i].kind.Text? || tail[i].kind.Control?) && !EndsMessage(tail[i])
    ensures Messages(Concat(arrivals) + tail) == entries
    ensures (forall e :: e in entries ==> Recordable(e.payload)) ==>
              Fitting(Messages(Concat(arrivals) + tail)) == entries
  {
    hide Messages, Pending, Concat, Arrival, Recordable;
    ChunkingIrrelevant(entries, arrivals);
    UnfinishedGrows(Concat(arrivals), tail);
    if forall e :: e in entries ==> Recordable(e.payload) {
      AllFit(entries);
    }
  }

  lemma {:induction false} AllFit(entries: seq<Entry>)
    requires forall e :: e in entries ==> Recordable(e.payload)
    ensures Fitting(entries) == entries
  {
    hide Recordable;
    if entries != [] {
      AllFit(entries[..|entries| - 1]);
      assert entries == entries[..|entries| - 1] + [entries[|entries| - 1]];
    }
  }

  // ----- the bodies of the loop, field by field

  /** What the write calls of a step leave on the disk is what the writer object leaves there. */
  lemma DiskGrows(system: Publication.System, text: string)
    requires |system.writers| >= 1 && system.writers[0].phase.Writing? && system.writers[0].inode in system.disk.files
    ensures WriteText(system, text).disk == AtomicOutputs.Grown(system.disk, system.writers[0].inode, text)
  {
  }

  /** What a step of the protocol does, in the terms of the session and its disk. */
  ghost predicate Follows(s: State, c: Chunk, script: seq<AtomicOutputs.WriteResult>)
    requires |s.system.writers| >= 1
  {
    var r, t, me := Receive(s.session, c, script), AfterChunk(s, c, script), s.system.writers[0];
    && t.session == r.session && t.phase == (if r.raised then Caught else Inner)
    && t.system.disk == AtomicOutputs.Grown(s.system.disk, me.inode, LeftText(r.segments))
    && |t.system.writers| == |s.system.writers|
    && t.system.writers[0].phase.Writing? && t.system.writers[0].inode == me.inode
  }

  lemma ChunkOnDisk(s: State, c: Chunk, script: seq<AtomicOutputs.WriteResult>)
    requires |s.system.writers| >= 1 && s.system.writers[0].phase.Writing?
    requires s.system.writers[0].inode in s.system.disk.files
    ensures Follows(s, c, script)
  {
    hide Receive, LeftText, Completes;
    DiskGrows(s.system, LeftText(Receive(s.session, c, script).segments));
  }

  class CaptureSession {
    const output: AtomicOutputs.AtomicOutput
    var message: string
    var connectionId: nat
    var consecutiveFailures: nat
    var frames: nat
    var reconnects: nat

    ghost predicate Valid()
      reads this, output, output.fs
    {
      |message| <= MAXIMUM_MESSAGE_SIZE && output.Valid() && output.fd >= 0
    }

    function View(): Session
      reads this
    {
      Session(message, connectionId, consecutiveFailures, frames, reconnects)
    }

    /** The fields and the disk are those of a state of the protocol inside its receive loop, or just out of it. */
    ghost predicate Mirrors(s: State)
      reads this, output, output.fs
    {
      && s.session == View() && s.system.disk == output.fs.disk
      && |s.system.writers| >= 1
      && s.system.writers[0].phase.Writing? && s.system.writers[0].inode == output.inode
    }

    constructor (output: AtomicOutputs.AtomicOutput)
      requires output.Valid() && output.fd >= 0
      ensures Valid() && this.output == output && View() == Session("", 0, 0, 0, 0)
    {
      this.output := output;
      message, connectionId, consecutiveFailures, frames, reconnects := "", 0, 0, 0, 0;
    }

    /**
     * One received chunk; `raised` stands for an exception. The room left in the buffer is never negative, and the file
     * grows by what the reaction leaves.
     */
    method Take(close: bool, control: bool, binary: bool, text: bool, continued: bool, bytesLeft: nat, data: string,
                now: u64, script: seq<AtomicOutputs.WriteResult>)
      returns (raised: bool)
      requires Valid()
      requires Answered(View(), Chunk(KindOf(close, control, binary, text), continued, bytesLeft, data, now), script)
      modifies this, output.fs
      ensures Valid()
      ensures var chunk := Chunk(KindOf(close, control, binary, text), continued, bytesLeft, data, now);
              var r := Receive(old(View()), chunk, script);
              && (View(), raised) == (r.session, r.raised)
              && output.fs.disk == AtomicOutputs.Grown(old(output.fs.disk), output.inode, LeftText(r.segments))
    {
      hide Render, ValidUtf8, AtomicOutputs.LineEffect, Segment.Valid, Bytes, AtomicOutputs.Grown;
      NothingLeft();
      GrownByNothing(output.fs.disk, output.inode);
      if close {
        return true;
      }
      if control {
        return false;
      }
      if binary {
        message := "";
        return false;
      }
      if !text {
        return false;
      }
      var room: nat := MAXIMUM_MESSAGE_SIZE - |message|;
      if |data| > room {
        return true;
      }
      message := message + data;
      if bytesLeft != 0 {
        return false;
      }
      if continued {
        return false;
      }
      if !ValidUtf8(message) {
        return true;
      }
      var piece := FramePiece(now, connectionId, message);
      LeftIsWritten(piece, script);
      var outcome, _ := output.WriteLine(Render(piece), script);
      if outcome != AtomicOutputs.Returned {
        return true;
      }
      frames := frames + 1;
      consecutiveFailures := 0;
      message := "";
      return false;
    }

    /** The same, seen from the protocol: session and disk mirror its step if they mirrored the state before. */
    method OnChunk(close: bool, control: bool, binary: bool, text: bool, continued: bool, bytesLeft: nat, data: string,
                   now: u64, script: seq<AtomicOutputs.WriteResult>)
      returns (raised: bool)
      requires Valid()
      requires Answered(View(), Chunk(KindOf(close, control, binary, text), continued, bytesLeft, data, now), script)
      modifies this, output.fs
      ensures Valid()
      ensures var chunk := Chunk(KindOf(close, control, binary, text), continued, bytesLeft, data, now);
              var r := Receive(old(View()), chunk, script);
              && (View(), raised) == (r.session, r.raised)
              && output.fs.disk == AtomicOutputs.Grown(old(output.fs.disk), output.inode, LeftText(r.segments))
      ensures var chunk := Chunk(KindOf(close, control, binary, text), continued, bytesLeft, data, now);
              forall s: State :: old(Mirrors(s)) ==>
                Mirrors(AfterChunk(s, chunk, script)) &&
                AfterChunk(s, chunk, script).phase == if raised then Caught else Inner
    {
      hide Receive, Answered, LeftText, AfterChunk, AtomicOutputs.Grown;
      ghost var chunk := Chunk(KindOf(close, control, binary, text), continued, bytesLeft, data, now);
      forall s: State | Mirrors(s)
        ensures Follows(s, chunk, script)
      {
        ChunkOnDisk(s, chunk, script);
      }
      raised := Take(close, control, binary, text, continued, bytesLeft, data, now, script);
    }

    /** The handler of a failed attempt: stop quietly, give up after the fifth failure in a row, or go round again. */
    method OnFailure(timeUp: bool, stop: bool) returns (next: Phase)
      modifies this`reconnects, this`consecutiveFailures
      ensures forall s: State :: s.session == old(View()) && s.timeUp == timeUp && s.stop == stop ==>
                Handled(s) == s.(phase := next, session := View())
    {
      if timeUp || stop {
        return Finishing;
      }
      reconnects := reconnects + 1;
      consecutiveFailures := consecutiveFailures + 1;
      if consecutiveFailures >= MAXIMUM_CONSECUTIVE_FAILURES {
        return Threw;
      }
      return Outer;
    }
  }

  lemma GrownByNothing(disk: Publication.Disk, inode: Publication.Inode)
    ensures AtomicOutputs.Grown(disk, inode, "") == disk
  {
  }

  // ----- sending a subscription

  /**
   * The answer to one send call and, when it asks to be repeated, to the wait after it; a stop request is an error
   * too.
   */
  datatype SendResult = Sent(count: nat) | Again(count: nat, ready: bool) | SendError

  /** What makes a send throw: an error, no progress, or a socket that is not ready while there is more to send. */
  predicate Stops(r: SendResult, more: bool) {
    match r
    case SendError => true
    case Sent(count) => count == 0
    case Again(_, ready) => !ready && more
  }

  /** How many bytes these answers take together. */
  function Offered(script: seq<SendResult>): nat {
    if script == [] then 0
    else
      Offered(script[..|script| - 1]) +
      match script[|script| - 1]
      case Sent(count) => count
      case Again(count, _) => count
      case SendError => 0
  }

  /**
   * Every byte of the payload goes out once and in order, and all of them exactly when the call returns. It returns as
   * soon as the answers cover the payload, and throws at the first that stops it, or waits when there is none.
   */
  method SendAll(payload: string, script: seq<SendResult>) returns (returned: bool, wire: string, ghost used: nat)
    ensures used <= |script|
    ensures wire == payload[..if Offered(script[..used]) < |payload| then Offered(script[..used]) else |payload|]
    ensures returned <==> Offered(script[..used]) >= |payload|
    ensures returned ==> wire == payload
    ensures !returned ==> wire != payload
    ensures forall j :: 0 <= j < used && (returned || j < used - 1) ==>
              !Stops(script[j], Offered(script[..j + 1]) < |payload|)
    ensures !returned ==> used == |script| || (used > 0 && Stops(script[used - 1], true))
  {
    hide Offered;
    var offset := 0;
    var next := 0;
    used, wire := 0, "";
    NothingOffered();
    assert script[..0] == [] && payload[..0] == "";
    while offset < |payload|
      invariant 0 <= offset <= |payload| && next == used <= |script|
      invariant wire == payload[..offset]
      invariant offset == if Offered(script[..used]) < |payload| then Offered(script[..used]) else |payload|
      invariant forall j :: 0 <= j < used ==> !Stops(script[j], Offered(script[..j + 1]) < |payload|)
      decreases |script| - next
    {
      if next == |script| {
        return false, wire, used;
      }
      OfferedSnoc(script, next);
      var result := script[next];
      next, used := next + 1, used + 1;
      if result == SendError {
        return false, wire, used;
      }
      var count := if result.count < |payload| - offset then result.count else |payload| - offset;
      if result.Sent? && count == 0 {
        return false, wire, used;
      }
      wire := wire + payload[offset..offset + count];
      offset := offset + count;
      if result.Again? && offset < |payload| && !result.ready {
        return false, wire, used;
      }
    }
    return true, wire, used;
  }

  lemma NothingOffered()
    ensures Offered([]) == 0
  {
  }

  lemma OfferedSnoc(script: seq<SendResult>, k: nat)
    requires k < |script|
    ensures Offered(script[..k + 1]) ==
            Offered(script[..k]) +
            match script[k]
            case Sent(count) => count
            case Again(count, _) => count
            case SendError => 0
  {
    assert script[..k + 1][..k] == script[..k];
  }
}
