/** Splitting a recording into lines of bounded length, and the round trip with the writer of lines. */
module Lines {
  const MAXIMUM_RECORD_SIZE: nat := 8 * 1024 * 1024

  /** The outcome of one attempt to read a line: the line and where the next begins, the end, or an exception. */
  datatype ReadResult = Got(line: string, next: nat) | End | TooLong

  function EndOfLine(file: string, pos: nat): (end: nat)
    requires pos <= |file|
    ensures pos <= end <= |file|
    ensures forall k :: pos <= k < end ==> file[k] != '\n'
    ensures end < |file| ==> file[end] == '\n'
    decreases |file| - pos
  {
    if pos == |file| || file[pos] == '\n' then pos else EndOfLine(file, pos + 1)
  }

  function NextLine(file: string, pos: nat): ReadResult
    requires pos <= |file|
  {
    var end := EndOfLine(file, pos);
    if end - pos > MAXIMUM_RECORD_SIZE then TooLong
    else if end < |file| then Got(file[pos..end], end + 1)
    else if end > pos then Got(file[pos..end], end)
    else End
  }

  lemma EndOfLineIs(file: string, pos: nat, end: nat)
    requires pos <= end <= |file|
    requires forall k :: pos <= k < end ==> file[k] != '\n'
    requires end < |file| ==> file[end] == '\n'
    ensures EndOfLine(file, pos) == end
  {
  }

  method ReadBoundedLine(file: string, pos: nat) returns (r: ReadResult)
    requires pos <= |file|
    ensures r == NextLine(file, pos)
  {
    var line := "";
    var cursor := pos;
    while cursor < |file|
      invariant pos <= cursor <= |file|
      invariant line == file[pos..cursor] && |line| <= MAXIMUM_RECORD_SIZE
      invariant forall k :: pos <= k < cursor ==> file[k] != '\n'
    {
      var character := file[cursor];
      if character == '\n' {
        EndOfLineIs(file, pos, cursor);
        return Got(line, cursor + 1);
      }
      if |line| == MAXIMUM_RECORD_SIZE {
        return TooLong;
      }
      line := line + [character];
      cursor := cursor + 1;
    }
    EndOfLineIs(file, pos, cursor);
    return if line != "" then Got(line, cursor) else End;
  }

  /** All the lines from `pos` on, or nothing when one of them is too long and the reader throws. */
  function ReadAll(file: string, pos: nat): (bool, seq<string>)
    requires pos <= |file|
    decreases |file| - pos
  {
    match NextLine(file, pos)
    case End => (true, [])
    case TooLong => (false, [])
    case Got(line, next) =>
      var (ok, rest) := ReadAll(file, next);
      (ok, [line] + rest)
  }

  /** The limit in bytes: a line of 8388608 is the longest that is read. */
  lemma LongestLine(line: string)
    requires '\n' !in line
    ensures NextLine(line + "\n", 0) == if |line| <= 8_388_608 then Got(line, |line| + 1) else TooLong
  {
    FirstLine("", line, "");
    assert "" + line + "\n" + "" == line + "\n";
  }

  lemma NextLineAdvances(file: string, pos: nat)
    requires pos <= |file| && NextLine(file, pos).Got?
    ensures pos < NextLine(file, pos).next <= |file|
  {
  }

  /** What a writer of lines leaves in the file: every line followed by a newline. */
  function Written(lines: seq<string>): string {
    if lines == [] then "" else lines[0] + "\n" + Written(lines[1..])
  }

  predicate Fits(lines: seq<string>) {
    forall i :: 0 <= i < |lines| ==> |lines[i]| <= MAXIMUM_RECORD_SIZE
  }

  /** A last line without a newline is read as a line, unless it is empty. */
  function Lasting(lines: seq<string>, tail: string): seq<string> {
    if tail == "" then lines else lines + [tail]
  }

  /** Lines written one after the other, the last one perhaps cut, are read back as they were iff each one fits. */
  lemma {:induction false} WrittenLinesReadBack(before: string, lines: seq<string>, tail: string)
    requires '\n' !in tail && forall i :: 0 <= i < |lines| ==> '\n' !in lines[i]
    ensures var (ok, read) := ReadAll(before + Written(lines) + tail, |before|);
            && (ok <==> Fits(Lasting(lines, tail)))
            && (ok ==> read == Lasting(lines, tail))
    decreases |lines|
  {
    hide EndOfLine, NextLine, ReadAll, Written, Fits;
    var file, pos := before + Written(lines) + tail, |before|;
    if lines == [] {
      NothingWritten();
      assert file == before + tail && file[pos..] == tail;
      forall k | pos <= k < |file|
        ensures file[k] != '\n'
      {
        assert file[k] == tail[k - pos];
      }
      EndOfLineIs(file, pos, |file|);
      LastLine(file, pos, tail);
    } else {
      var line, head, rest := lines[0], before + lines[0] + "\n", Written(lines[1..]);
      WrittenLinesReadBack(head, lines[1..], tail);
      WrittenStep(lines);
      Reassociate(before, line, rest, tail);
      FirstLine(before, line, rest + tail);
      ReadStep(file, pos);
      FitsSplit(lines, tail);
      assert Lasting(lines, tail) == [line] + Lasting(lines[1..], tail);
    }
  }

  lemma NothingWritten()
    ensures Written([]) == ""
  {
  }

  lemma WrittenStep(lines: seq<string>)
    requires lines != []
    ensures Written(lines) == lines[0] + "\n" + Written(lines[1..])
  {
  }

  lemma ReadStep(file: string, pos: nat)
    requires pos <= |file|
    ensures ReadAll(file, pos) ==
            match NextLine(file, pos)
            case End => (true, [])
            case TooLong => (false, [])
            case Got(line, next) => (ReadAll(file, next).0, [line] + ReadAll(file, next).1)
  {
  }

  lemma Reassociate(before: string, line: string, rest: string, tail: string)
    ensures before + (line + "\n" + rest) + tail == (before + line + "\n") + rest + tail
    ensures before + (line + "\n" + rest) + tail == before + line + "\n" + (rest + tail)
  {
  }

  lemma FitsSplit(lines: seq<string>, tail: string)
    requires lines != []
    ensures Fits(Lasting(lines, tail)) <==> |lines[0]| <= MAXIMUM_RECORD_SIZE && Fits(Lasting(lines[1..], tail))
  {
    var all := Lasting(lines, tail);
    assert all[1..] == Lasting(lines[1..], tail);
    assert Fits(all) <==> |all[0]| <= MAXIMUM_RECORD_SIZE && Fits(all[1..]);
  }

  lemma LastLine(file: string, pos: nat, tail: string)
    requires pos <= |file| && file[pos..] == tail && EndOfLine(file, pos) == |file|
    ensures var (ok, read) := ReadAll(file, pos);
            && (ok <==> Fits(Lasting([], tail)))
            && (ok ==> read == Lasting([], tail))
  {
    assert EndOfLine(file, |file|) == |file|;
    hide EndOfLine;
    assert file[pos..|file|] == tail;
    assert ReadAll(file, |file|) == (true, []);
    assert |Lasting([], tail)| <= 1;
    assert tail != "" ==> Lasting([], tail)[0] == tail;
  }

  lemma FirstLine(before: string, line: string, rest: string)
    requires '\n' !in line
    ensures NextLine(before + line + "\n" + rest, |before|) ==
            if |line| <= MAXIMUM_RECORD_SIZE then Got(line, |before| + |line| + 1) else TooLong
  {
    var file, pos := before + line + "\n" + rest, |before|;
    var end := pos + |line|;
    assert file[pos..end] == line;
    forall k | pos <= k < end
      ensures file[k] != '\n'
    {
      assert file[k] == line[k - pos];
    }
    EndOfLineIs(file, pos, end);
  }
}
