/** The writer object itself: partial writes, interrupted calls and the ordered steps of its commit. */
module AtomicOutputs {
  import opened Words
  import opened Publication

  /** What the kernel answers to one write call; it never accepts more than it was offered. */
  datatype WriteResult = Interrupted | Error | Accepted(count: nat)

  /** How a call ended: normally, by an exception, or not yet because the kernel has not answered. */
  datatype Outcome = Returned | Threw | Blocked

  /** Whether each call of a commit succeeds, apart from what the state of the names decides. */
  datatype CommitScript = CommitScript(sync: bool, close: bool, link: bool, unlink: bool, openDirectory: bool,
                                       syncDirectory: bool, closeDirectory: bool)

  datatype CommitOutcome = CommitReturned | AlreadyCommitted | SyncFailed | CloseFailed | LinkFailed | UnlinkFailed |
    DirectoryFailed

  /** A refusal makes the write throw: an error, or a count of zero. */
  predicate Refuses(r: WriteResult) {
    r == Error || r == Accepted(0)
  }

  function Smaller(a: nat, b: nat): nat {
    if a < b then a else b
  }

  /** How a write call ends, how many answers it used and how many bytes the kernel took. */
  datatype WriteEffect = WriteEffect(outcome: Outcome, used: nat, written: nat)

  /** The offset loop on `size` bytes. */
  function WriteAll(size: nat, script: seq<WriteResult>): (e: WriteEffect)
    ensures e.used <= |script| && e.written <= size
    ensures e.outcome == Returned <==> e.written == size
    decreases |script|
  {
    if size == 0 then WriteEffect(Returned, 0, 0)
    else if script == [] then WriteEffect(Blocked, 0, 0)
    else if Refuses(script[0]) then WriteEffect(Threw, 1, 0)
    else
      var count := if script[0].Accepted? then Smaller(script[0].count, size) else 0;
      var rest := WriteAll(size - count, script[1..]);
      WriteEffect(rest.outcome, rest.used + 1, rest.written + count)
  }

  /** The two calls that write a line of `size` bytes, its newline included. */
  function LineEffect(size: nat, script: seq<WriteResult>): (e: WriteEffect)
    requires size >= 1
    ensures e.written <= size
    ensures e.outcome == Returned <==> e.written == size
  {
    var first := WriteAll(size - 1, script);
    if first.outcome != Returned then first
    else
      var second := WriteAll(1, script[first.used..]);
      WriteEffect(second.outcome, first.used + second.used, first.written + second.written)
  }

  // ----- the loop in terms of the counts

  /** How many bytes these answers accept together. */
  function AcceptedBytes(script: seq<WriteResult>): nat {
    if script == [] then 0
    else (if script[0].Accepted? then script[0].count else 0) + AcceptedBytes(script[1..])
  }

  /** `j` is where the first error or zero count stands, or the number of answers. */
  ghost predicate StopsAt(script: seq<WriteResult>, j: nat) {
    && j <= |script|
    && (forall i :: 0 <= i < j ==> script[i] != Error && script[i] != Accepted(0))
    && (j < |script| ==> script[j] == Error || script[j] == Accepted(0))
  }

  /**
   * The call takes what is accepted before the first error or zero count, returns iff that is all, and else throws
   * there.
   */
  lemma {:induction false} WriteAllExactly(size: nat, script: seq<WriteResult>, j: nat)
    requires StopsAt(script, j)
    ensures var e, accepted := WriteAll(size, script), AcceptedBytes(script[..j]);
            && e.written == Smaller(accepted, size)
            && e.outcome == if accepted >= size then Returned else if j == |script| then Blocked else Threw
    decreases |script|
  {
    if size > 0 && script != [] && j > 0 {
      var count := if script[0].Accepted? then Smaller(script[0].count, size) else 0;
      assert script[..j][1..] == script[1..][..j - 1];
      assert StopsAt(script[1..], j - 1) by {
        assert forall i :: 0 <= i < j - 1 ==> script[1..][i] == script[i + 1];
      }
      WriteAllExactly(size - count, script[1..], j - 1);
    } else {
      assert script[..0] == [];
    }
  }

  function WithoutInterruptions(script: seq<WriteResult>): seq<WriteResult> {
    if script == [] then []
    else (if script[0] == Interrupted then [] else [script[0]]) + WithoutInterruptions(script[1..])
  }

  /** An interrupted call is repeated and has no other effect. */
  lemma {:induction false} InterruptionsIrrelevant(size: nat, script: seq<WriteResult>)
    ensures var e, f := WriteAll(size, script), WriteAll(size, WithoutInterruptions(script));
            e.outcome == f.outcome && e.written == f.written
    decreases |script|
  {
    if size > 0 && script != [] {
      var rest := WithoutInterruptions(script);
      if script[0] == Interrupted {
        assert rest == WithoutInterruptions(script[1..]);
        InterruptionsIrrelevant(size, script[1..]);
      } else {
        assert rest[0] == script[0] && rest[1..] == WithoutInterruptions(script[1..]);
        if !Refuses(script[0]) {
          InterruptionsIrrelevant(size - Smaller(script[0].count, size), script[1..]);
        }
      }
    }
  }

  // ----- when a line is torn, in terms of the kernel's answers alone

  /** The position of the first refusal, or the number of answers. */
  function FirstRefusal(script: seq<WriteResult>): (j: nat)
    ensures j <= |script|
  {
    if script == [] || Refuses(script[0]) then 0 else 1 + FirstRefusal(script[1..])
  }

  /** What is on offer after `done` of `size` bytes: the rest of the text, and then the newline in a call of its own. */
  function Offered(size: nat, done: nat): nat {
    if done >= size then 0 else if done < size - 1 then size - 1 - done else 1
  }

  function Advance(size: nat, done: nat, r: WriteResult): nat {
    if r.Accepted? then done + Smaller(r.count, Offered(size, done)) else done
  }

  /** How many of `size` bytes are taken after these answers. */
  function Progress(size: nat, done: nat, answers: seq<WriteResult>): nat
    decreases |answers|
  {
    if answers == [] then done else Progress(size, Advance(size, done, answers[0]), answers[1..])
  }

  /** The kernel refuses after it has taken the first byte and before it has taken the last. */
  predicate TearsLine(size: nat, script: seq<WriteResult>) {
    var j := FirstRefusal(script);
    j < |script| && 0 < Progress(size, 0, script[..j]) < size
  }

  /** The kernel refuses before it has taken the last byte. */
  predicate RefusesLine(size: nat, script: seq<WriteResult>) {
    var j := FirstRefusal(script);
    j < |script| && Progress(size, 0, script[..j]) < size
  }

  /** Both calls of a line as one loop. */
  function LineFrom(size: nat, done: nat, script: seq<WriteResult>): (Outcome, nat)
    decreases |script|
  {
    if done >= size then (Returned, done)
    else if script == [] then (Blocked, done)
    else if Refuses(script[0]) then (Threw, done)
    else LineFrom(size, Advance(size, done, script[0]), script[1..])
  }

  lemma {:induction false} FirstCallOfLine(size: nat, done: nat, script: seq<WriteResult>)
    requires done < size
    ensures var e := WriteAll(size - 1 - done, script);
            if e.outcome == Returned then LineFrom(size, done, script) == LineFrom(size, size - 1, script[e.used..])
            else LineFrom(size, done, script) == (e.outcome, done + e.written)
    decreases |script|
  {
    if done < size - 1 && script != [] && !Refuses(script[0]) {
      var next := Advance(size, done, script[0]);
      var e := WriteAll(size - 1 - next, script[1..]);
      FirstCallOfLine(size, next, script[1..]);
      assert script[1..][e.used..] == script[e.used + 1..];
    } else {
      assert script[0..] == script;
    }
  }

  lemma {:induction false} SecondCallOfLine(size: nat, script: seq<WriteResult>)
    requires size >= 1
    ensures var e := WriteAll(1, script);
            LineFrom(size, size - 1, script) == (e.outcome, size - 1 + e.written)
    decreases |script|
  {
    if script != [] && !Refuses(script[0]) && !script[0].Accepted? {
      SecondCallOfLine(size, script[1..]);
    }
  }

  lemma {:induction false} ThrowsExactly(size: nat, done: nat, script: seq<WriteResult>)
    requires done <= size
    ensures var (outcome, written), j := LineFrom(size, done, script), FirstRefusal(script);
            && (outcome == Threw <==> j < |script| && Progress(size, done, script[..j]) < size)
            && (outcome == Threw ==> written == Progress(size, done, script[..j]))
    decreases |script|
  {
    if done == size {
      NoProgress(size, script[..FirstRefusal(script)]);
    } else if script != [] && !Refuses(script[0]) {
      ThrowsExactly(size, Advance(size, done, script[0]), script[1..]);
      var j := FirstRefusal(script[1..]);
      assert script[..j + 1][1..] == script[1..][..j];
    }
  }

  lemma {:induction false} NoProgress(size: nat, answers: seq<WriteResult>)
    ensures Progress(size, size, answers) == size
  {
    if answers != [] {
      NoProgress(size, answers[1..]);
    }
  }

  /** A line write throws iff the kernel refuses before the last byte, and leaves a torn line iff after the first. */
  lemma TornExactly(size: nat, script: seq<WriteResult>)
    requires size >= 1
    ensures LineEffect(size, script).outcome == Threw <==> RefusesLine(size, script)
    ensures LineEffect(size, script).outcome == Threw && LineEffect(size, script).written > 0 <==>
            TearsLine(size, script)
  {
    FirstCallOfLine(size, 0, script);
    var first := WriteAll(size - 1, script);
    if first.outcome == Returned {
      SecondCallOfLine(size, script[first.used..]);
    }
    ThrowsExactly(size, 0, script);
  }

  class FileSystem {
    var disk: Disk
    constructor (disk: Disk)
      ensures this.disk == disk
    {
      this.disk := disk;
    }
  }

  class AtomicOutput {
    const fs: FileSystem
    const inode: Inode
    var fd: int
    var committed: bool

    ghost predicate Valid()
      reads this, fs
    {
      && inode in fs.disk.files
      && (fd >= 0 ==> fs.disk.part == Some(inode))
    }

    /** The state right after a successful exclusive open. */
    constructor (fs: FileSystem, inode: Inode, descriptor: nat)
      requires fs.disk.dest.None? && fs.disk.part.None? && fs.disk.Fresh(inode)
      modifies fs
      ensures Valid() && this.fs == fs && this.inode == inode && fd == descriptor && !committed
      ensures fs.disk == old(fs.disk).Created(inode)
    {
      this.fs, this.inode, fd, committed := fs, inode, descriptor, false;
      new;
      fs.disk := fs.disk.Created(inode);
    }

    /**
     * The original constructor: it throws, shown here as null, when the path does not name a file, either name is taken
     * or the open call fails.
     */
    static method Open(fs: FileSystem, named: bool, inode: Inode, descriptor: nat, openable: bool)
      returns (output: AtomicOutput?)
      requires fs.disk.Fresh(inode)
      modifies fs
      ensures output != null <==> old(fs.disk.dest).None? && old(fs.disk.part).None? && named && openable
      ensures output == null ==> fs.disk == old(fs.disk)
      ensures output != null ==>
                && fresh(output) && output.Valid() && output.fs == fs && output.inode == inode
                && output.fd == descriptor && !output.committed
                && fs.disk == old(fs.disk).Created(inode)
    {
      if !named {
        return null;
      }
      if fs.disk.dest.Some? {
        return null;
      }
      if fs.disk.part.Some? || !openable {
        return null;
      }
      output := new AtomicOutput(fs, inode, descriptor);
    }

    /**
     * The offset loop: whatever short counts and interruptions the kernel answers with, the file grows by a prefix of
     * the data, every byte once and in order, and by all of it exactly when the call returns.
     */
    method Write(data: string, script: seq<WriteResult>) returns (outcome: Outcome, used: nat, ghost written: nat)
      requires Valid()
      modifies fs
      ensures Valid() && used <= |script| && written <= |data|
      ensures fs.disk == Grown(old(fs.disk), inode, data[..written])
      ensures outcome == Returned <==> written == |data|
      ensures outcome == Blocked ==> used == |script|
      ensures outcome == Threw ==> fd < 0 || (used > 0 && Refuses(script[used - 1]))
      ensures fd >= 0 ==> WriteEffect(outcome, used, written) == WriteAll(|data|, script)
    {
      hide Disk.Appended, Grown, WriteAll;
      GrownTwice(fs.disk, inode, "", "");
      assert data[..0] == "" && script[0..] == script;
      var offset := 0;
      used := 0;
      while offset < |data|
        invariant 0 <= offset <= |data| && used <= |script|
        invariant Valid() && (offset > 0 ==> fd >= 0)
        invariant fd >= 0 ==>
                    var rest := WriteAll(|data| - offset, script[used..]);
                    WriteAll(|data|, script) == WriteEffect(rest.outcome, rest.used + used, rest.written + offset)
        invariant fs.disk == Grown(old(fs.disk), inode, data[..offset])
        decreases |script| - used
      {
        if fd < 0 {
          return Threw, used, offset;
        }
        if used == |script| {
          WriteAllStep(|data| - offset, script[used..]);
          return Blocked, used, offset;
        }
        WriteAllStep(|data| - offset, script[used..]);
        var result := script[used];
        used := used + 1;
        if result == Interrupted {
          continue;
        }
        if result == Error || result.count == 0 {
          return Threw, used, offset;
        }
        var count := if result.count < |data| - offset then result.count else |data| - offset;
        ghost var base := old(fs.disk);
        fs.disk := fs.disk.Appended(inode, data[offset..offset + count]);
        assert data[..offset] + data[offset..offset + count] == data[..offset + count];
        GrownTwice(base, inode, data[..offset], data[offset..offset + count]);
        offset := offset + count;
      }
      WriteAllStep(0, script[used..]);
      assert data[..|data|] == data;
      return Returned, used, offset;
    }

    /** A line is recorded with its newline, or cut short somewhere by an exception. */
    method WriteLine(line: string, script: seq<WriteResult>) returns (outcome: Outcome, ghost written: nat)
      requires Valid()
      modifies fs
      ensures Valid() && written <= |line| + 1
      ensures fs.disk == Grown(old(fs.disk), inode, (line + "\n")[..written])
      ensures outcome == Returned <==> written == |line| + 1
      ensures fd >= 0 ==> outcome == LineEffect(|line| + 1, script).outcome
      ensures fd >= 0 ==> written == LineEffect(|line| + 1, script).written
    {
      hide Disk.Appended, Grown, WriteAll;
      var used;
      ghost var first, second;
      ghost var base := fs.disk;
      outcome, used, first := Write(line, script);
      written := first;
      assert (line + "\n")[..first] == line[..first];
      if outcome != Returned {
        return;
      }
      outcome, used, second := Write("\n", script[used..]);
      written := first + second;
      GrownTwice(base, inode, line[..first], "\n"[..second]);
      assert (line + "\n")[..written] == line[..first] + "\n"[..second];
    }

    /**
     * Everything a commit can end in. The destination changes only from nothing to this writer's synced file, the
     * contents never change, and the call returns only when the destination is durable and the partial name is gone.
     */
    method Commit(script: CommitScript) returns (outcome: CommitOutcome, ghost calls: nat)
      requires Valid()
      modifies this, fs
      ensures inode in fs.disk.files
      ensures calls <= 7 && fs.disk == AfterCalls(old(fs.disk), inode, calls)
      ensures calls >= 3 ==> old(fs.disk.dest).None?
      ensures outcome == Ending(old(committed), calls)
      ensures calls == Accomplished(old(fs.disk), old(fd) >= 0 && !old(committed), script)
      ensures outcome == AlreadyCommitted <==> old(committed)
      ensures committed == (old(committed) || outcome == CommitReturned)
      ensures outcome == CommitReturned <==>
              && !old(committed) && old(fd) >= 0 && old(fs.disk.dest).None?
              && script == CommitScript(true, true, true, true, true, true, true)
      ensures fd == if outcome == AlreadyCommitted || outcome == SyncFailed then old(fd) else -1
      ensures outcome == UnlinkFailed || outcome == DirectoryFailed || outcome == CommitReturned ==>
                old(fs.disk.dest).None? && fs.disk.dest == Some(inode) && fs.disk.files[inode].synced
      ensures outcome == DirectoryFailed || outcome == CommitReturned ==> fs.disk.part.None?
      ensures outcome == CommitReturned ==> fs.disk.destDurable == {Some(inode)}
      ensures old(fs.disk.dest).Some? ==> fs.disk.dest == old(fs.disk.dest)
      ensures fs.disk.files[inode].data == old(fs.disk.files[inode].data)
      ensures fs.disk.files - {inode} == old(fs.disk.files) - {inode}
    {
      calls := 0;
      if committed {
        return AlreadyCommitted, calls;
      }
      if fd < 0 || !script.sync {
        return SyncFailed, calls;
      }
      fs.disk := fs.disk.Synced(inode);
      calls := 1;
      if !script.close {
        fd := -1;
        return CloseFailed, calls;
      }
      fd := -1;
      calls := 2;
      if fs.disk.part.None? || fs.disk.dest.Some? || !script.link {
        return LinkFailed, calls;
      }
      fs.disk := fs.disk.Linked();
      calls := 3;
      if fs.disk.part.None? || !script.unlink {
        return UnlinkFailed, calls;
      }
      fs.disk := fs.disk.Unlinked();
      calls := 4;
      if !script.openDirectory {
        return DirectoryFailed, calls;
      }
      calls := 5;
      if !script.syncDirectory {
        return DirectoryFailed, calls;
      }
      fs.disk := fs.disk.DirectorySynced();
      calls := 6;
      if !script.closeDirectory {
        return DirectoryFailed, calls;
      }
      calls := 7;
      committed := true;
      return CommitReturned, calls;
    }
  }

  /** How a commit ends when its first `calls` calls succeed and the next, if any, does not. */
  function Ending(committed: bool, calls: nat): CommitOutcome {
    if committed then AlreadyCommitted
    else if calls == 0 then SyncFailed
    else if calls == 1 then CloseFailed
    else if calls == 2 then LinkFailed
    else if calls == 3 then UnlinkFailed
    else if calls < 7 then DirectoryFailed
    else CommitReturned
  }

  /** How many calls succeed; the link also fails when the destination is there. */
  function Accomplished(disk: Disk, usable: bool, script: CommitScript): nat {
    if !usable || !script.sync then 0
    else if !script.close then 1
    else if disk.dest.Some? || !script.link then 2
    else if !script.unlink then 3
    else if !script.openDirectory then 4
    else if !script.syncDirectory then 5
    else if !script.closeDirectory then 6
    else 7
  }

  /** The disk after so many calls. */
  function AfterCalls(disk: Disk, inode: Inode, calls: nat): Disk {
    if calls == 0 then disk
    else if calls < 3 then disk.Synced(inode)
    else if calls == 3 then disk.Synced(inode).Linked()
    else if calls < 6 then disk.Synced(inode).Linked().Unlinked()
    else disk.Synced(inode).Linked().Unlinked().DirectorySynced()
  }

  // ----- the same calls in the publication protocol

  function CommitCalls(w: nat): seq<Action> {
    [SyncFile(w), CloseFile(w), Link(w), Unlink(w), OpenDirectory(w), SyncDirectory(w), CloseDirectory(w)]
  }

  function PhaseAfter(calls: nat): Phase {
    if calls == 0 then Writing
    else if calls == 1 then FileSynced
    else if calls == 2 then FileClosed
    else if calls == 3 then Published
    else if calls == 4 then Unlinked
    else if calls == 5 then DirectoryOpen
    else if calls == 6 then DirectorySynced
    else Committed
  }

  /** The system after so many calls of one of its writers. */
  function SystemAfter(s: System, w: nat, calls: nat): System
    requires w < |s.writers|
  {
    var me := s.writers[w];
    System(AfterCalls(s.disk, me.inode, calls),
           s.writers[w := me.(phase := PhaseAfter(calls), linked := me.linked || calls >= 3)])
  }

  /**
   * The disk a commit leaves, however it ends, is the one the protocol reaches with as many steps of the writer, and
   * where the link is refused because the destination is there, the protocol refuses it too.
   */
  lemma {:induction false} CommitFollowsProtocol(s: System, w: nat, calls: nat)
    requires w < |s.writers| && s.writers[w].phase.Writing? && s.disk.part == Some(s.writers[w].inode)
    requires calls <= 7 && (calls >= 3 ==> s.disk.dest.None?)
    ensures Run(s, CommitCalls(w)[..calls]) == Some(SystemAfter(s, w, calls))
    ensures calls == 2 && s.disk.dest.Some? ==>
              var t := SystemAfter(s, w, calls);
              Enabled(t, Link(w)) && Apply(t, Link(w)).disk == t.disk && Apply(t, Link(w)).writers[w].phase.Gone?
  {
    hide Run;
    if calls == 0 {
      EmptyRun(s, CommitCalls(w));
      assert s.writers[w := s.writers[w]] == s.writers;
    } else {
      CommitFollowsProtocol(s, w, calls - 1);
      NextCall(s, CommitCalls(w), calls - 1, SystemAfter(s, w, calls - 1), SystemAfter(s, w, calls));
    }
  }

  lemma WriteAllStep(size: nat, script: seq<WriteResult>)
    ensures size == 0 ==> WriteAll(size, script) == WriteEffect(Returned, 0, 0)
    ensures size > 0 && script == [] ==> WriteAll(size, script) == WriteEffect(Blocked, 0, 0)
    ensures size > 0 && script != [] && Refuses(script[0]) ==> WriteAll(size, script) == WriteEffect(Threw, 1, 0)
    ensures size > 0 && script != [] && !Refuses(script[0]) ==>
              var count := if script[0].Accepted? then Smaller(script[0].count, size) else 0;
              var rest := WriteAll(size - count, script[1..]);
              WriteAll(size, script) == WriteEffect(rest.outcome, rest.used + 1, rest.written + count)
  {
  }

  /** A disk on which a file has grown by some bytes, if there are any. */
  function Grown(disk: Disk, inode: Inode, text: string): Disk {
    if text == "" then disk else disk.Appended(inode, text)
  }

  lemma GrownTwice(disk: Disk, inode: Inode, a: string, b: string)
    requires inode in disk.files
    ensures Grown(Grown(disk, inode, a), inode, b) == Grown(disk, inode, a + b)
    ensures Grown(disk, inode, "") == disk
    ensures b != "" ==> Grown(disk, inode, a).Appended(inode, b) == Grown(disk, inode, a + b)
    ensures inode in Grown(disk, inode, a).files && Grown(disk, inode, a).part == disk.part
    ensures inode in Grown(disk, inode, a + b).files && Grown(disk, inode, a + b).part == disk.part
  {
    assert disk.files[inode].data + a + b == disk.files[inode].data + (a + b);
    assert "" + b == b && a + "" == a;
  }
}
