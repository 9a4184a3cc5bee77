/** Atomic publication by any number of racing writers, any step of which may fail, with crashes and power loss. */
module Publication {
  import opened Words

  type Inode = nat

  /** Contents and whether they have reached stable storage. */
  datatype File = File(data: string, synced: bool)

  /**
   * The two names of one destination and the files. The directory itself is only durable when synced: each name may
   * after a power loss be anything it has been since the last directory sync.
   */
  datatype Disk = Disk(part: Option<Inode>, dest: Option<Inode>, files: map<Inode, File>,
                       partDurable: set<Option<Inode>>, destDurable: set<Option<Inode>>)
  {
    predicate Fresh(inode: Inode) {
      && inode !in files
      && Some(inode) !in partDurable && Some(inode) !in destDurable
    }

    /** open with O_CREAT | O_EXCL on a free name. */
    function Created(inode: Inode): Disk {
      this.(part := Some(inode), partDurable := partDurable + {Some(inode)}, files := files[inode := File("", false)])
    }

    function Appended(inode: Inode, chunk: string): Disk {
      if inode in files then this.(files := files[inode := File(files[inode].data + chunk, false)]) else this
    }

    function Synced(inode: Inode): Disk {
      if inode in files then this.(files := files[inode := files[inode].(synced := true)]) else this
    }

    /** link from the partial name to a free destination. */
    function Linked(): Disk {
      this.(dest := part, destDurable := destDurable + {part})
    }

    function Unlinked(): Disk {
      this.(part := None, partDurable := partDurable + {None})
    }

    function DirectorySynced(): Disk {
      this.(partDurable := {part}, destDurable := {dest})
    }

    /** What may be found after a power loss: unsynced files hold anything. */
    function Recovered(newPart: Option<Inode>, newDest: Option<Inode>, found: map<Inode, string>): Disk {
      Disk(newPart, newDest,
           map i | i in files :: if !files[i].synced && i in found then File(found[i], false) else files[i],
           {newPart}, {newDest})
    }
  }

  /** How far a writer has come; `Gone` is every way of stopping early, by exception or by crash. */
  datatype Phase = NotStarted | Checked | Writing | FileSynced | FileClosed | Published | Unlinked | DirectoryOpen |
    DirectorySynced | Committed | Gone

  /** `log` is everything the kernel accepted from this writer, `linked` that its link call succeeded. */
  datatype Writer = Writer(phase: Phase, inode: Inode, log: string, linked: bool)

  datatype System = System(disk: Disk, writers: seq<Writer>)

  datatype Action =
    | CheckDestination(w: nat)
    | OpenPartial(w: nat, inode: Inode)
    | Write(w: nat, chunk: string)
    | SyncFile(w: nat)
    | CloseFile(w: nat)
    | Link(w: nat)
    | Unlink(w: nat)
    | OpenDirectory(w: nat)
    | SyncDirectory(w: nat)
    | CloseDirectory(w: nat)
    | Stop(w: nat)
    | PowerLoss(part: Option<Inode>, dest: Option<Inode>, found: map<Inode, string>)

  predicate Enabled(s: System, a: Action) {
    if a.PowerLoss? then a.part in s.disk.partDurable && a.dest in s.disk.destDurable
    else
      && a.w < |s.writers|
      && var phase := s.writers[a.w].phase;
      match a
      case CheckDestination(_) => phase.NotStarted?
      case OpenPartial(_, inode) => phase.Checked? && s.disk.Fresh(inode)
      case Write(_, chunk) => phase.Writing? && chunk != ""
      case SyncFile(_) => phase.Writing?
      case CloseFile(_) => phase.FileSynced?
      case Link(_) => phase.FileClosed?
      case Unlink(_) => phase.Published?
      case OpenDirectory(_) => phase.Unlinked?
      case SyncDirectory(_) => phase.DirectoryOpen?
      case CloseDirectory(_) => phase.DirectorySynced?
      case Stop(_) => !phase.NotStarted? && !phase.Committed?
  }

  predicate HasFile(writer: Writer) {
    !writer.phase.NotStarted? && !writer.phase.Checked? && !writer.phase.Gone?
  }

  function Move(s: System, w: nat, writer: Writer): System
    requires w < |s.writers|
  {
    s.(writers := s.writers[w := writer])
  }

  /** One step. A call that the state of the names dooms throws; any other failure of a call is `Stop`. */
  function Apply(s: System, a: Action): System
    requires Enabled(s, a)
  {
    if a.PowerLoss? then
      System(s.disk.Recovered(a.part, a.dest, a.found),
             seq(|s.writers|, w requires 0 <= w < |s.writers| => AfterPowerLoss(s.writers[w])))
    else
      var writer := s.writers[a.w];
      var gone := writer.(phase := Gone);
      match a
      case CheckDestination(w) => Move(s, w, if s.disk.dest.Some? then gone else writer.(phase := Checked))
      case OpenPartial(w, inode) =>
        if s.disk.part.Some? then Move(s, w, gone)
        else Move(s, w, writer.(phase := Writing, inode := inode, log := "")).(disk := s.disk.Created(inode))
      case Write(w, chunk) =>
        Move(s, w, writer.(log := writer.log + chunk)).(disk := s.disk.Appended(writer.inode, chunk))
      case SyncFile(w) => Move(s, w, writer.(phase := FileSynced)).(disk := s.disk.Synced(writer.inode))
      case CloseFile(w) => Move(s, w, writer.(phase := FileClosed))
      case Link(w) =>
        if s.disk.part.None? || s.disk.dest.Some? then Move(s, w, gone)
        else Move(s, w, writer.(phase := Published, linked := true)).(disk := s.disk.Linked())
      case Unlink(w) =>
        if s.disk.part.None? then Move(s, w, gone)
        else Move(s, w, writer.(phase := Unlinked)).(disk := s.disk.Unlinked())
      case OpenDirectory(w) => Move(s, w, writer.(phase := DirectoryOpen))
      case SyncDirectory(w) => Move(s, w, writer.(phase := DirectorySynced)).(disk := s.disk.DirectorySynced())
      case CloseDirectory(w) => Move(s, w, writer.(phase := Committed))
      case Stop(w) => Move(s, w, gone)
  }

  function AfterPowerLoss(writer: Writer): Writer {
    if writer.phase.NotStarted? || writer.phase.Committed? then writer else writer.(phase := Gone)
  }

  // ----- the invariant

  /** Before the unlink: `.part` is this writer's. */
  predicate OwnsPartial(writer: Writer) {
    writer.phase.Writing? || writer.phase.FileSynced? || writer.phase.FileClosed? || writer.phase.Published?
  }

  /** From the successful link on, while the writer has not stopped. */
  predicate HasPublished(writer: Writer) {
    || writer.phase.Published? || writer.phase.Unlinked? || writer.phase.DirectoryOpen? || writer.phase.DirectorySynced?
    || writer.phase.Committed?
  }

  /** The destination was already there when the first writer started. */
  datatype Origin = Origin(dest: Option<Inode>, data: string)

  /** A file some writer published: all that writer ever wrote, and synced. */
  ghost predicate CompleteFile(s: System, inode: Inode) {
    && inode in s.disk.files && s.disk.files[inode].synced
    && exists w :: 0 <= w < |s.writers| && s.writers[w].linked && s.writers[w].inode == inode
                   && s.writers[w].log == s.disk.files[inode].data
  }

  ghost predicate OriginKept(s: System, o: Origin) {
    o.dest.Some? ==>
      && s.disk.dest == o.dest && s.disk.destDurable == {o.dest}
      && o.dest.value in s.disk.files && s.disk.files[o.dest.value] == File(o.data, true)
  }

  ghost predicate WriterOk(s: System, o: Origin, writer: Writer) {
    && (HasFile(writer) || writer.linked ==>
          && writer.inode in s.disk.files
          && s.disk.files[writer.inode].data == writer.log
          && o.dest != Some(writer.inode))
    && (OwnsPartial(writer) ==> s.disk.part == Some(writer.inode))
    && ((HasFile(writer) && !writer.phase.Writing?) || writer.linked ==> s.disk.files[writer.inode].synced)
    && (HasPublished(writer) ==> writer.linked && s.disk.dest == Some(writer.inode))
    && (writer.phase.DirectorySynced? || writer.phase.Committed? ==> s.disk.destDurable == {s.disk.dest})
    && (writer.phase.NotStarted? || writer.phase.Checked? ==> !writer.linked)
    && (OwnsPartial(writer) && !writer.phase.Published? ==> !writer.linked)
  }

  ghost predicate NamesOk(s: System, o: Origin) {
    && s.disk.part in s.disk.partDurable && s.disk.dest in s.disk.destDurable
    && (forall i :: Some(i) in s.disk.partDurable ==> i in s.disk.files)
    && (forall i :: Some(i) in s.disk.destDurable ==>
          s.disk.dest == Some(i) && (o.dest == Some(i) || CompleteFile(s, i)))
  }

  ghost predicate Invariant(s: System, o: Origin) {
    && OriginKept(s, o)
    && NamesOk(s, o)
    && (forall w :: 0 <= w < |s.writers| ==> WriterOk(s, o, s.writers[w]))
    && (forall v, w :: 0 <= v < w < |s.writers| && Filed(s.writers[v]) && Filed(s.writers[w]) ==>
          s.writers[v].inode != s.writers[w].inode)
  }

  predicate Filed(writer: Writer) {
    HasFile(writer) || writer.linked
  }

  /** A step of one writer that leaves the disk alone. */
  lemma QuietStep(s: System, o: Origin, w: nat, writer: Writer)
    requires Invariant(s, o) && w < |s.writers|
    requires writer.inode == s.writers[w].inode && writer.log == s.writers[w].log
    requires writer.linked == s.writers[w].linked
    requires HasFile(writer) ==> HasFile(s.writers[w])
    requires WriterOk(s, o, writer)
    ensures Invariant(Move(s, w, writer), o)
  {
    var t := Move(s, w, writer);
    assert WriterOk(s, o, s.writers[w]);
    forall i | CompleteFile(s, i)
      ensures CompleteFile(t, i)
    {
      var v :| 0 <= v < |s.writers| && s.writers[v].linked && s.writers[v].inode == i
               && s.writers[v].log == s.disk.files[i].data;
      assert t.writers[v].linked && t.writers[v].inode == i;
    }
    forall v | 0 <= v < |t.writers|
      ensures WriterOk(t, o, t.writers[v])
    {
      assert WriterOk(s, o, s.writers[v]);
    }
  }

  lemma OpenStep(s: System, o: Origin, w: nat, inode: Inode)
    requires Invariant(s, o) && Enabled(s, OpenPartial(w, inode)) && s.disk.part.None?
    ensures Invariant(Apply(s, OpenPartial(w, inode)), o)
  {
    var t := Apply(s, OpenPartial(w, inode));
    assert WriterOk(s, o, s.writers[w]);
    CompleteKept(s, t);
    forall v | 0 <= v < |t.writers|
      ensures WriterOk(t, o, t.writers[v])
      ensures v != w && Filed(t.writers[v]) ==> t.writers[v].inode != inode
    {
      assert WriterOk(s, o, s.writers[v]);
    }
  }

  /** Published files stay published when no linked writer and no synced file changes. */
  lemma CompleteKept(s: System, t: System)
    requires |t.writers| == |s.writers|
    requires forall w :: 0 <= w < |s.writers| && s.writers[w].linked ==>
               t.writers[w].linked && t.writers[w].inode == s.writers[w].inode && t.writers[w].log == s.writers[w].log
    requires forall i :: i in s.disk.files && s.disk.files[i].synced && CompleteFile(s, i) ==>
               i in t.disk.files && t.disk.files[i] == s.disk.files[i]
    ensures forall i :: CompleteFile(s, i) ==> CompleteFile(t, i)
  {
    forall i | CompleteFile(s, i)
      ensures CompleteFile(t, i)
    {
      var v :| 0 <= v < |s.writers| && s.writers[v].linked && s.writers[v].inode == i
               && s.writers[v].log == s.disk.files[i].data;
      assert t.writers[v].linked && t.writers[v].inode == i && t.writers[v].log == t.disk.files[i].data;
    }
  }

  lemma FileStep(s: System, o: Origin, a: Action)
    requires Invariant(s, o) && Enabled(s, a)
    requires a.Write? || a.SyncFile?
    ensures Invariant(Apply(s, a), o)
  {
    var t, w := Apply(s, a), a.w;
    assert WriterOk(s, o, s.writers[w]);
    forall i | CompleteFile(s, i)
      ensures i != s.writers[w].inode
    {
      var v :| 0 <= v < |s.writers| && s.writers[v].linked && s.writers[v].inode == i
               && s.writers[v].log == s.disk.files[i].data;
      assert v != w;
    }
    CompleteKept(s, t);
    forall v | 0 <= v < |t.writers|
      ensures WriterOk(t, o, t.writers[v])
    {
      assert WriterOk(s, o, s.writers[v]);
      assert v != w && Filed(s.writers[v]) ==> s.writers[v].inode != s.writers[w].inode;
    }
  }

  lemma LinkStep(s: System, o: Origin, w: nat)
    requires Invariant(s, o) && Enabled(s, Link(w)) && s.disk.part.Some? && s.disk.dest.None?
    ensures Invariant(Apply(s, Link(w)), o)
  {
    var t := Apply(s, Link(w));
    assert WriterOk(s, o, s.writers[w]);
    CompleteKept(s, t);
    assert CompleteFile(t, s.writers[w].inode) by {
      assert t.writers[w].linked && t.writers[w].log == t.disk.files[s.writers[w].inode].data;
    }
    forall v | 0 <= v < |t.writers|
      ensures WriterOk(t, o, t.writers[v])
    {
      assert WriterOk(s, o, s.writers[v]);
    }
  }

  lemma UnlinkStep(s: System, o: Origin, w: nat)
    requires Invariant(s, o) && Enabled(s, Unlink(w)) && s.disk.part.Some?
    ensures Invariant(Apply(s, Unlink(w)), o)
  {
    var t := Apply(s, Unlink(w));
    assert WriterOk(s, o, s.writers[w]);
    CompleteKept(s, t);
    forall v | 0 <= v < |t.writers|
      ensures WriterOk(t, o, t.writers[v])
    {
      assert WriterOk(s, o, s.writers[v]);
      assert v != w && Filed(s.writers[v]) ==> s.writers[v].inode != s.writers[w].inode;
    }
  }

  lemma DirectoryStep(s: System, o: Origin, w: nat)
    requires Invariant(s, o) && Enabled(s, SyncDirectory(w))
    ensures Invariant(Apply(s, SyncDirectory(w)), o)
  {
    var t := Apply(s, SyncDirectory(w));
    assert WriterOk(s, o, s.writers[w]);
    CompleteKept(s, t);
    forall v | 0 <= v < |t.writers|
      ensures WriterOk(t, o, t.writers[v])
    {
      assert WriterOk(s, o, s.writers[v]);
    }
  }

  lemma PowerLossStep(s: System, o: Origin, a: Action)
    requires Invariant(s, o) && Enabled(s, a) && a.PowerLoss?
    ensures Invariant(Apply(s, a), o)
  {
    var t := Apply(s, a);
    CompleteKept(s, t);
    forall v | 0 <= v < |t.writers|
      ensures WriterOk(t, o, t.writers[v])
    {
      assert WriterOk(s, o, s.writers[v]);
    }
  }

  lemma StepKeepsInvariant(s: System, o: Origin, a: Action)
    requires Invariant(s, o) && Enabled(s, a)
    ensures Invariant(Apply(s, a), o)
  {
    if !a.PowerLoss? {
      assert WriterOk(s, o, s.writers[a.w]);
    }
    hide Invariant, CompleteFile;
    match a
    case PowerLoss(_, _, _) =>
      PowerLossStep(s, o, a);
    case OpenPartial(w, inode) =>
      if s.disk.part.None? {
        OpenStep(s, o, w, inode);
      } else {
        QuietStep(s, o, w, s.writers[w].(phase := Gone));
      }
    case Write(_, _) =>
      FileStep(s, o, a);
    case SyncFile(_) =>
      FileStep(s, o, a);
    case Link(w) =>
      if s.disk.part.Some? && s.disk.dest.None? {
        LinkStep(s, o, w);
      } else {
        QuietStep(s, o, w, s.writers[w].(phase := Gone));
      }
    case Unlink(w) =>
      UnlinkStep(s, o, w);
    case SyncDirectory(w) =>
      DirectoryStep(s, o, w);
    case _ =>
      QuietStep(s, o, a.w, Apply(s, a).writers[a.w]);
  }

  // ----- runs

  /** Nobody has started; a destination that is already there is durable, and the partial name may be stale. */
  ghost predicate Initial(s: System, o: Origin) {
    && (forall w :: 0 <= w < |s.writers| ==> s.writers[w].phase.NotStarted? && !s.writers[w].linked)
    && s.disk.dest == o.dest && s.disk.destDurable == {o.dest}
    && (o.dest.Some? ==> o.dest.value in s.disk.files && s.disk.files[o.dest.value] == File(o.data, true))
    && s.disk.part in s.disk.partDurable
    && forall i :: Some(i) in s.disk.partDurable ==> i in s.disk.files
  }

  function Run(s: System, actions: seq<Action>): Option<System> {
    if actions == [] then Some(s)
    else
      var before := Run(s, actions[..|actions| - 1]);
      var a := actions[|actions| - 1];
      if before.Some? && Enabled(before.value, a) then Some(Apply(before.value, a)) else None
  }

  predicate NoPowerLoss(actions: seq<Action>) {
    forall i :: 0 <= i < |actions| ==> !actions[i].PowerLoss?
  }

  lemma {:induction false} RunKeepsInvariant(s: System, o: Origin, actions: seq<Action>)
    requires Invariant(s, o) && Run(s, actions).Some?
    ensures Invariant(Run(s, actions).value, o)
  {
    hide Invariant, Apply, Enabled;
    if actions != [] {
      var init := actions[..|actions| - 1];
      RunKeepsInvariant(s, o, init);
      StepKeepsInvariant(Run(s, init).value, o, actions[|actions| - 1]);
    }
  }

  lemma InitialInvariant(s: System, o: Origin)
    requires Initial(s, o)
    ensures Invariant(s, o)
  {
  }

  /**
   * However the writers interleave, fail and crash, and whatever a power loss leaves: a visible destination is the one
   * that was there before or everything its one writer ever wrote, already synced; and from its creation to its unlink
   * the partial name is its writer's own file.
   */
  lemma VisibleMeansComplete(s: System, o: Origin, actions: seq<Action>)
    requires Initial(s, o) && Run(s, actions).Some?
    ensures var t := Run(s, actions).value;
            && (o.dest.Some? ==> t.disk.dest == o.dest && o.dest.value in t.disk.files
                                 && t.disk.files[o.dest.value] == File(o.data, true))
            && (o.dest.None? && t.disk.dest.Some? ==> CompleteFile(t, t.disk.dest.value))
            && (forall w :: 0 <= w < |t.writers| && OwnsPartial(t.writers[w]) ==>
                  t.disk.part == Some(t.writers[w].inode) && t.writers[w].inode in t.disk.files
                  && t.disk.files[t.writers[w].inode].data == t.writers[w].log)
  {
    hide Run, CompleteFile;
    InitialInvariant(s, o);
    RunKeepsInvariant(s, o, actions);
    var t := Run(s, actions).value;
    if t.disk.dest.Some? {
      assert t.disk.dest in t.disk.destDurable;
      assert Some(t.disk.dest.value) in t.disk.destDurable;
    }
    forall w | 0 <= w < |t.writers| && OwnsPartial(t.writers[w])
      ensures t.disk.part == Some(t.writers[w].inode) && t.writers[w].inode in t.disk.files
      ensures t.disk.files[t.writers[w].inode].data == t.writers[w].log
    {
      assert WriterOk(t, o, t.writers[w]);
    }
  }

  /** Without a power loss the destination, once there, never changes: neither the name nor the contents behind it. */
  lemma {:induction false} NeverReplaced(s: System, o: Origin, actions: seq<Action>)
    requires Invariant(s, o) && s.disk.dest.Some? && Run(s, actions).Some? && NoPowerLoss(actions)
    ensures var t := Run(s, actions).value;
            && t.disk.dest == s.disk.dest
            && s.disk.dest.value in s.disk.files && s.disk.dest.value in t.disk.files
            && t.disk.files[s.disk.dest.value] == s.disk.files[s.disk.dest.value]
  {
    if actions == [] {
      DestinationStep(s, o);
    } else {
      hide Invariant, Apply, Enabled;
      var init, a := actions[..|actions| - 1], actions[|actions| - 1];
      NeverReplaced(s, o, init);
      RunKeepsInvariant(s, o, init);
      var u := Run(s, init).value;
      DestinationStep(u, o);
      DestinationKept(u, o, a);
    }
  }

  lemma DestinationStep(s: System, o: Origin)
    requires Invariant(s, o) && s.disk.dest.Some?
    ensures s.disk.dest.value in s.disk.files && s.disk.files[s.disk.dest.value].synced
    ensures o.dest == s.disk.dest || CompleteFile(s, s.disk.dest.value)
  {
    assert Some(s.disk.dest.value) in s.disk.destDurable;
  }

  lemma DestinationKept(s: System, o: Origin, a: Action)
    requires Invariant(s, o) && s.disk.dest.Some? && Enabled(s, a) && !a.PowerLoss?
    ensures var t := Apply(s, a);
            && t.disk.dest == s.disk.dest
            && s.disk.dest.value in s.disk.files && s.disk.dest.value in t.disk.files
            && t.disk.files[s.disk.dest.value] == s.disk.files[s.disk.dest.value]
  {
    DestinationStep(s, o);
    var i := s.disk.dest.value;
    assert WriterOk(s, o, s.writers[a.w]);
    if a.Write? && o.dest != s.disk.dest {
      var v :| 0 <= v < |s.writers| && s.writers[v].linked && s.writers[v].inode == i
               && s.writers[v].log == s.disk.files[i].data;
      assert v != a.w;
    }
  }

  lemma {:induction false} WritersKept(s: System, actions: seq<Action>)
    requires Run(s, actions).Some?
    ensures |Run(s, actions).value.writers| == |s.writers|
  {
    if actions != [] {
      WritersKept(s, actions[..|actions| - 1]);
    }
  }

  /** Some power loss takes a visible destination away. */
  ghost predicate LinkLost(s: System, actions: seq<Action>) {
    exists k :: 0 <= k < |actions| && LostAt(s, actions, k)
  }

  ghost predicate LostAt(s: System, actions: seq<Action>, k: nat)
    requires k < |actions|
  {
    && actions[k].PowerLoss? && actions[k].dest.None?
    && Run(s, actions[..k]).Some? && Run(s, actions[..k]).value.disk.dest.Some?
  }

  lemma LinkLostPrefix(s: System, actions: seq<Action>)
    requires actions != []
    ensures LinkLost(s, actions) <==>
            LinkLost(s, actions[..|actions| - 1]) || LostAt(s, actions, |actions| - 1)
  {
    var init := actions[..|actions| - 1];
    forall k | 0 <= k < |init|
      ensures LostAt(s, actions, k) == LostAt(s, init, k)
    {
      assert actions[..k] == init[..k] && actions[k] == init[k];
    }
    hide LostAt;
    if k :| 0 <= k < |init| && LostAt(s, init, k) {
      assert LostAt(s, actions, k);
    }
  }

  /** Unless a power loss takes the destination away, every writer that linked is the one at the destination. */
  lemma {:induction false} LinkedIsVisible(s: System, o: Origin, actions: seq<Action>)
    requires Initial(s, o) && Run(s, actions).Some? && !LinkLost(s, actions)
    ensures var t := Run(s, actions).value;
            forall w :: 0 <= w < |t.writers| && t.writers[w].linked ==> t.disk.dest == Some(t.writers[w].inode)
  {
    if actions != [] {
      var init, a := actions[..|actions| - 1], actions[|actions| - 1];
      LinkLostPrefix(s, actions);
      hide LinkLost;
      LinkedIsVisible(s, o, init);
      InitialInvariant(s, o);
      RunKeepsInvariant(s, o, init);
      LinkedStep(Run(s, init).value, o, a);
    }
  }

  lemma LinkedStep(s: System, o: Origin, a: Action)
    requires Invariant(s, o) && Enabled(s, a)
    requires forall w :: 0 <= w < |s.writers| && s.writers[w].linked ==> s.disk.dest == Some(s.writers[w].inode)
    requires a.PowerLoss? && a.dest.None? ==> s.disk.dest.None?
    ensures var t := Apply(s, a);
            forall w :: 0 <= w < |t.writers| && t.writers[w].linked ==> t.disk.dest == Some(t.writers[w].inode)
  {
    if !a.PowerLoss? {
      assert WriterOk(s, o, s.writers[a.w]);
      if s.disk.dest.Some? {
        hide Invariant;
        DestinationKept(s, o, a);
      }
    } else if a.dest.Some? {
      assert a.dest == s.disk.dest;
    }
  }

  /**
   * At most one link call ever succeeds, and none when the destination was there before, unless a power loss takes a
   * visible destination away.
   */
  lemma AtMostOneLink(s: System, o: Origin, actions: seq<Action>, v: nat, w: nat)
    requires Initial(s, o) && Run(s, actions).Some? && v < |s.writers| && w < |s.writers|
    ensures |Run(s, actions).value.writers| == |s.writers|
    ensures var t := Run(s, actions).value;
            !LinkLost(s, actions) ==>
              && (t.writers[v].linked && t.writers[w].linked ==> v == w)
              && (o.dest.Some? ==> !t.writers[v].linked)
  {
    hide Run, LinkLost;
    WritersKept(s, actions);
    if !LinkLost(s, actions) {
      LinkedIsVisible(s, o, actions);
      InitialInvariant(s, o);
      RunKeepsInvariant(s, o, actions);
      var t := Run(s, actions).value;
      assert WriterOk(t, o, t.writers[v]);
    }
  }

  /** A destination that is durable, as it is from the first directory sync on, is never taken away or changed again. */
  lemma {:induction false} DurableDestination(s: System, o: Origin, actions: seq<Action>)
    requires Invariant(s, o) && s.disk.dest.Some? && s.disk.destDurable == {s.disk.dest} && Run(s, actions).Some?
    ensures var t := Run(s, actions).value;
            && t.disk.dest == s.disk.dest && t.disk.destDurable == {s.disk.dest}
            && s.disk.dest.value in s.disk.files && s.disk.dest.value in t.disk.files
            && t.disk.files[s.disk.dest.value] == s.disk.files[s.disk.dest.value]
  {
    if actions == [] {
      DestinationStep(s, o);
    } else {
      hide Invariant, Apply, Enabled;
      var init, a := actions[..|actions| - 1], actions[|actions| - 1];
      DurableDestination(s, o, init);
      RunKeepsInvariant(s, o, init);
      DurableStep(Run(s, init).value, o, a);
    }
  }

  lemma DurableStep(s: System, o: Origin, a: Action)
    requires Invariant(s, o) && s.disk.dest.Some? && s.disk.destDurable == {s.disk.dest} && Enabled(s, a)
    ensures var t := Apply(s, a);
            && t.disk.dest == s.disk.dest && t.disk.destDurable == {s.disk.dest}
            && s.disk.dest.value in s.disk.files && s.disk.dest.value in t.disk.files
            && t.disk.files[s.disk.dest.value] == s.disk.files[s.disk.dest.value]
  {
    DestinationStep(s, o);
    if !a.PowerLoss? {
      assert WriterOk(s, o, s.writers[a.w]);
      hide Invariant;
      DestinationKept(s, o, a);
    }
  }

  /** The window: a power loss can take the destination away iff it could since the last directory sync be missing. */
  lemma LossWindow(s: System, o: Origin, a: Action)
    requires Invariant(s, o) && s.disk.dest.Some? && a.PowerLoss? && a.part in s.disk.partDurable
    ensures Enabled(s, a) <==> a.dest == s.disk.dest || (a.dest.None? && s.disk.destDurable != {s.disk.dest})
  {
    forall x | x in s.disk.destDurable
      ensures x.None? || x == s.disk.dest
    {
      if x.Some? {
        assert Some(x.value) in s.disk.destDurable;
      }
    }
  }

  /** What has not been synced can be anything after a power loss, and what has been is as it was. */
  lemma UnsyncedIsLost(s: System, o: Origin, inode: Inode, text: string)
    requires Invariant(s, o) && inode in s.disk.files
    ensures var a := PowerLoss(s.disk.part, s.disk.dest, map[inode := text]);
            && Enabled(s, a)
            && Apply(s, a).disk.files[inode] == (if s.disk.files[inode].synced then s.disk.files[inode]
                                                 else File(text, false))
            && Apply(s, a).disk.files.Keys == s.disk.files.Keys
            && forall i :: i in s.disk.files && s.disk.files[i].synced ==> Apply(s, a).disk.files[i] == s.disk.files[i]
  {
  }

  /**
   * When the destination was there before, no writer ever creates anything: each stops at its first look, and the disk
   * stays as it is until a power loss.
   */
  lemma {:induction false} OriginStopsEveryone(s: System, o: Origin, actions: seq<Action>)
    requires Initial(s, o) && o.dest.Some? && Run(s, actions).Some?
    ensures var t := Run(s, actions).value;
            && (forall w :: 0 <= w < |t.writers| ==> t.writers[w].phase.NotStarted? || t.writers[w].phase.Gone?)
            && t.disk.dest == o.dest && t.disk.destDurable == {o.dest} && t.disk.files.Keys == s.disk.files.Keys
            && ((forall a :: a in actions ==> !a.PowerLoss?) ==> t.disk == s.disk)
  {
    if actions != [] {
      var init, a := actions[..|actions| - 1], actions[|actions| - 1];
      OriginStopsEveryone(s, o, init);
      OriginStops(Run(s, init).value, o, a);
      hide Apply, Enabled;
      assert actions == init + [a];
    }
  }

  lemma OriginStops(s: System, o: Origin, a: Action)
    requires Enabled(s, a) && s.disk.dest.Some? && s.disk.dest == o.dest && s.disk.destDurable == {o.dest}
    requires forall w :: 0 <= w < |s.writers| ==> s.writers[w].phase.NotStarted? || s.writers[w].phase.Gone?
    ensures var t := Apply(s, a);
            && (forall w :: 0 <= w < |t.writers| ==> t.writers[w].phase.NotStarted? || t.writers[w].phase.Gone?)
            && t.disk.dest == o.dest && t.disk.destDurable == {o.dest} && t.disk.files.Keys == s.disk.files.Keys
            && (!a.PowerLoss? ==> t.disk == s.disk)
  {
  }

  /** A committed recording survives everything that can follow, power losses included, and is the only one. */
  lemma {:induction false} CommittedSurvives(s: System, o: Origin, w: nat, actions: seq<Action>)
    requires Invariant(s, o) && w < |s.writers| && s.writers[w].phase.Committed? && Run(s, actions).Some?
    ensures var t := Run(s, actions).value;
            && w < |t.writers| && t.writers[w] == s.writers[w]
            && t.disk.dest == Some(s.writers[w].inode)
            && s.writers[w].inode in t.disk.files && t.disk.files[s.writers[w].inode] == File(s.writers[w].log, true)
            && forall v :: 0 <= v < |t.writers| && t.writers[v].phase.Committed? ==> v == w
  {
    CommittedStays(s, w, actions);
    RunKeepsInvariant(s, o, actions);
    hide Run;
    var t := Run(s, actions).value;
    assert WriterOk(t, o, t.writers[w]);
    forall v | 0 <= v < |t.writers| && t.writers[v].phase.Committed?
      ensures v == w
    {
      assert WriterOk(t, o, t.writers[v]);
    }
  }

  lemma {:induction false} CommittedStays(s: System, w: nat, actions: seq<Action>)
    requires w < |s.writers| && s.writers[w].phase.Committed? && Run(s, actions).Some?
    ensures w < |Run(s, actions).value.writers| && Run(s, actions).value.writers[w] == s.writers[w]
  {
    if actions != [] {
      CommittedStays(s, w, actions[..|actions| - 1]);
    }
  }

  /** The calls of a writer that nothing disturbs. */
  function Undisturbed(inode: Inode, data: string): seq<Action> {
    [CheckDestination(0), OpenPartial(0, inode), Write(0, data), SyncFile(0), CloseFile(0), Link(0), Unlink(0),
     OpenDirectory(0), SyncDirectory(0), CloseDirectory(0)]
  }

  /** One more call of a fixed list of calls. */
  lemma NextCall(s: System, all: seq<Action>, k: nat, t: System, u: System)
    requires k < |all| && Run(s, all[..k]) == Some(t) && Enabled(t, all[k]) && Apply(t, all[k]) == u
    ensures Run(s, all[..k + 1]) == Some(u)
  {
    assert all[..k + 1][..k] == all[..k];
  }

  /** A writer writes a chunk, syncs and closes its file. */
  lemma WriteSyncClose(s: System, all: seq<Action>, k: nat, t: System, w: nat, chunk: string)
    requires k + 3 <= |all| && Run(s, all[..k]) == Some(t)
    requires w < |t.writers| && t.writers[w].phase.Writing? && chunk != ""
    requires all[k] == Write(w, chunk) && all[k + 1] == SyncFile(w) && all[k + 2] == CloseFile(w)
    ensures var me := t.writers[w];
            Run(s, all[..k + 3]) ==
            Some(System(t.disk.Appended(me.inode, chunk).Synced(me.inode),
                        t.writers[w := me.(phase := FileClosed, log := me.log + chunk)]))
  {
    hide Run, Disk.Appended, Disk.Synced;
    var me := t.writers[w];
    var d1 := t.disk.Appended(me.inode, chunk);
    var d2 := d1.Synced(me.inode);
    var t1 := System(d1, t.writers[w := me.(log := me.log + chunk)]);
    var t2 := System(d2, t.writers[w := me.(phase := FileSynced, log := me.log + chunk)]);
    NextCall(s, all, k, t, t1);
    NextCall(s, all, k + 1, t1, t2);
    NextCall(s, all, k + 2, t2, System(d2, t.writers[w := me.(phase := FileClosed, log := me.log + chunk)]));
  }

  /** When neither name is taken and nothing fails, a writer on its own commits exactly its data. */
  lemma UndisturbedCommits(s: System, o: Origin, inode: Inode, data: string)
    requires Initial(s, o) && |s.writers| == 1 && o.dest.None? && s.disk.part.None? && s.disk.Fresh(inode) && data != ""
    ensures Run(s, Undisturbed(inode, data)).Some?
    ensures var t := Run(s, Undisturbed(inode, data)).value;
            && |t.writers| == 1 && t.writers[0].phase.Committed?
            && t.disk.part.None? && t.disk.dest == Some(inode)
            && inode in t.disk.files && t.disk.files[inode] == File(data, true)
  {
    hide Run;
    var all := Undisturbed(inode, data);
    var d1 := s.disk.Created(inode);
    var d3 := d1.Appended(inode, data).Synced(inode);
    var s1 := System(d1, [Writer(Writing, inode, "", false)]);
    var s4 := System(d3, [Writer(FileClosed, inode, data, false)]);
    OpensUndisturbed(s, all, inode, data);
    assert "" + data == data;
    WriteSyncClose(s, all, 2, s1, 0, data);
    assert s1.writers[0 := Writer(FileClosed, inode, data, false)] == s4.writers;
    FinishCommit(s, all, s4, inode, data);
    assert all[..10] == all;
  }

  lemma OpensUndisturbed(s: System, all: seq<Action>, inode: Inode, data: string)
    requires all == Undisturbed(inode, data)
    requires |s.writers| == 1 && s.writers[0].phase.NotStarted? && !s.writers[0].linked
    requires s.disk.dest.None? && s.disk.part.None? && s.disk.Fresh(inode)
    ensures Run(s, all[..2]) == Some(System(s.disk.Created(inode), [Writer(Writing, inode, "", false)]))
  {
    hide Run;
    var s0 := System(s.disk, [s.writers[0].(phase := Checked)]);
    EmptyRun(s, all);
    NextCall(s, all, 0, s, s0);
    NextCall(s, all, 1, s0, System(s.disk.Created(inode), [Writer(Writing, inode, "", false)]));
  }

  lemma EmptyRun(s: System, all: seq<Action>)
    ensures Run(s, all[..0]) == Some(s)
  {
  }

  lemma FinishCommit(s: System, all: seq<Action>, s4: System, inode: Inode, data: string)
    requires all == Undisturbed(inode, data) && Run(s, all[..5]) == Some(s4)
    requires s4.writers == [Writer(FileClosed, inode, data, false)]
    requires s4.disk.part == Some(inode) && s4.disk.dest.None?
    requires inode in s4.disk.files && s4.disk.files[inode] == File(data, true)
    ensures Run(s, all[..10]) ==
            Some(System(s4.disk.Linked().Unlinked().DirectorySynced(), [Writer(Committed, inode, data, true)]))
  {
    hide Run;
    var d5 := s4.disk.Linked();
    var d6 := d5.Unlinked();
    var s5 := System(d5, [Writer(Published, inode, data, true)]);
    var s6 := System(d6, [Writer(Unlinked, inode, data, true)]);
    NextCall(s, all, 5, s4, s5);
    NextCall(s, all, 6, s5, s6);
    FinishDirectory(s, all, s6, inode, data);
  }

  lemma FinishDirectory(s: System, all: seq<Action>, s6: System, inode: Inode, data: string)
    requires all == Undisturbed(inode, data) && Run(s, all[..7]) == Some(s6)
    requires s6.writers == [Writer(Unlinked, inode, data, true)]
    ensures Run(s, all[..10]) == Some(System(s6.disk.DirectorySynced(), [Writer(Committed, inode, data, true)]))
  {
    hide Run, Disk.DirectorySynced;
    var d8 := s6.disk.DirectorySynced();
    var s7 := System(s6.disk, [Writer(DirectoryOpen, inode, data, true)]);
    var s8 := System(d8, [Writer(DirectorySynced, inode, data, true)]);
    NextCall(s, all, 7, s6, s7);
    NextCall(s, all, 8, s7, s8);
    NextCall(s, all, 9, s8, System(d8, [Writer(Committed, inode, data, true)]));
  }

  /** Two writers, the first stopped by a power loss between its link and its directory sync, the second after it. */
  function LinkedTwice(i: Inode, j: Inode, a: string, b: string): seq<Action> {
    [CheckDestination(0), OpenPartial(0, i), Write(0, a), SyncFile(0), CloseFile(0), Link(0),
     PowerLoss(None, None, map[]),
     CheckDestination(1), OpenPartial(1, j), Write(1, b), SyncFile(1), CloseFile(1), Link(1)]
  }

  /** So a second link is possible after a power loss in the window. */
  lemma SecondLinkAfterPowerLoss(s: System, o: Origin, i: Inode, j: Inode, a: string, b: string)
    requires Initial(s, o) && |s.writers| == 2 && o.dest.None? && s.disk.part.None?
    requires s.disk.Fresh(i) && s.disk.Fresh(j) && i != j && a != "" && b != ""
    ensures Run(s, LinkedTwice(i, j, a, b)).Some?
    ensures var t := Run(s, LinkedTwice(i, j, a, b)).value;
            |t.writers| == 2 && t.writers[0].linked && t.writers[1].linked
  {
    hide Run;
    var all, y := LinkedTwice(i, j, a, b), s.writers[1];
    var d1 := s.disk.Created(i);
    var d3 := d1.Appended(i, a).Synced(i);
    FirstOpened(s, all, i, j, a, b);
    assert "" + a == a;
    var t := System(d1, [Writer(Writing, i, "", false), y]);
    WriteSyncClose(s, all, 2, t, 0, a);
    assert t.writers[0 := Writer(FileClosed, i, a, false)] == [Writer(FileClosed, i, a, false), y];
    FirstLinked(s, all, System(d3, [Writer(FileClosed, i, a, false), y]), i, j, a, b);
    SecondLinked(s, all, System(d3, [Writer(FileClosed, i, a, false), y]), i, j, a, b);
    assert all[..13] == all;
  }

  lemma FirstOpened(s: System, all: seq<Action>, i: Inode, j: Inode, a: string, b: string)
    requires all == LinkedTwice(i, j, a, b) && |s.writers| == 2
    requires s.writers[0].phase.NotStarted? && !s.writers[0].linked
    requires s.disk.dest.None? && s.disk.part.None? && s.disk.Fresh(i)
    ensures Run(s, all[..2]) == Some(System(s.disk.Created(i), [Writer(Writing, i, "", false), s.writers[1]]))
  {
    hide Run;
    var x0, y := s.writers[0].(phase := Checked), s.writers[1];
    EmptyRun(s, all);
    NextCall(s, all, 0, s, System(s.disk, [x0, y]));
    NextCall(s, all, 1, System(s.disk, [x0, y]), System(s.disk.Created(i), [Writer(Writing, i, "", false), y]));
  }

  lemma FirstLinked(s: System, all: seq<Action>, s4: System, i: Inode, j: Inode, a: string, b: string)
    requires all == LinkedTwice(i, j, a, b) && Run(s, all[..5]) == Some(s4)
    requires |s4.writers| == 2 && s4.writers[0] == Writer(FileClosed, i, a, false) && s4.writers[1].phase.NotStarted?
    requires s4.disk.part == Some(i) && s4.disk.dest.None?
    requires None in s4.disk.partDurable && None in s4.disk.destDurable
    ensures Run(s, all[..7]) ==
            Some(System(s4.disk.Linked().Recovered(None, None, map[]), [Writer(Gone, i, a, true), s4.writers[1]]))
  {
    hide Run;
    var y := s4.writers[1];
    var d5 := s4.disk.Linked();
    assert s4.writers == [Writer(FileClosed, i, a, false), y];
    NextCall(s, all, 5, s4, System(d5, [Writer(Published, i, a, true), y]));
    var t := Apply(System(d5, [Writer(Published, i, a, true), y]), PowerLoss(None, None, map[]));
    assert t.writers == [Writer(Gone, i, a, true), y];
    NextCall(s, all, 6, System(d5, [Writer(Published, i, a, true), y]), t);
  }

  lemma SecondLinked(s: System, all: seq<Action>, s4: System, i: Inode, j: Inode, a: string, b: string)
    requires all == LinkedTwice(i, j, a, b) && |s4.writers| == 2 && s4.writers[1].phase.NotStarted? && b != ""
    requires j !in s4.disk.files
    requires Run(s, all[..7]) ==
             Some(System(s4.disk.Linked().Recovered(None, None, map[]), [Writer(Gone, i, a, true), s4.writers[1]]))
    ensures Run(s, all[..13]).Some?
    ensures var t := Run(s, all[..13]).value;
            |t.writers| == 2 && t.writers[0].linked && t.writers[1].linked
  {
    hide Run;
    var x, y := Writer(Gone, i, a, true), s4.writers[1];
    var d7 := s4.disk.Linked().Recovered(None, None, map[]);
    var d9 := d7.Created(j);
    var d11 := d9.Appended(j, b).Synced(j);
    assert "" + b == b;
    NextCall(s, all, 7, System(d7, [x, y]), System(d7, [x, y.(phase := Checked)]));
    var t := System(d9, [x, Writer(Writing, j, "", y.linked)]);
    NextCall(s, all, 8, System(d7, [x, y.(phase := Checked)]), t);
    WriteSyncClose(s, all, 9, t, 1, b);
    assert t.writers[1 := Writer(FileClosed, j, b, y.linked)] == [x, Writer(FileClosed, j, b, y.linked)];
    NextCall(s, all, 12, System(d11, [x, Writer(FileClosed, j, b, y.linked)]),
             System(d11.Linked(), [x, Writer(Published, j, b, true)]));
  }
}
