/** The line filter, updated in place (app/console/test/line_filter.go). */
module LineFilters {
  import opened Lines

  /** Where output goes. A write either takes all its bytes or fails and takes none. */
  class Sink {
    var written: seq<byte>
    var failsAfter: int

    constructor (failsAfter: int)
      ensures written == [] && this.failsAfter == failsAfter
    {
      this.written := [];
      this.failsAfter := failsAfter;
    }

    /** A negative count never runs out. */
    predicate Fails()
      reads this
    {
      failsAfter == 0
    }

    method Write(bytes: seq<byte>) returns (ok: bool)
      modifies this
      ensures ok == !old(Fails())
      ensures written == if ok then old(written) + bytes else old(written)
      ensures old(failsAfter) < 0 ==> failsAfter < 0
    {
      ok := failsAfter != 0;
      if ok {
        written := written + bytes;
        failsAfter := failsAfter - 1;
      }
    }
  }

  class LineFilter {
    const out: Sink
    const drop: Drop
    var dropped: nat
    var pending: seq<byte>

    constructor (out: Sink, drop: Drop)
      ensures this.out == out && this.drop == drop && dropped == 0 && pending == []
    {
      this.out := out;
      this.drop := drop;
      this.dropped := 0;
      this.pending := [];
    }

    function State(): Filter
      reads this, out
    {
      Filter(out.written, dropped, pending)
    }

    /** Buffers the bytes and forwards every complete line that is not dropped. When the sink fails at
        a line, the lines before it are done with and the line itself has left the buffer. */
    method Write(p: seq<byte>) returns (count: nat, ok: bool)
      modifies this, out
      ensures ok ==> count == |p| && State() == Written(old(State()), p, drop)
      ensures !ok ==> count == 0 && (exists at :: StoppedAt(old(State()), p, drop, at, State()))
      ensures old(out.failsAfter) < 0 ==> ok && out.failsAfter < 0
    {
      hide Complete, Rest, Kept, CountDropped, Concat, IndexOfNewline, Drops;
      ghost var lines := Complete(pending + p);
      ghost var done := 0;
      pending := pending + p;
      NoLines(lines, drop);
      while true
        invariant old(out.failsAfter) < 0 ==> out.failsAfter < 0
        invariant done <= |lines| && lines[done..] == Complete(pending) && Rest(pending) == Rest(old(pending) + p)
        invariant out.written == old(out.written) + Kept(lines[..done], drop)
        invariant dropped == old(dropped) + CountDropped(lines[..done], drop)
        decreases |pending|
      {
        var index := IndexOfNewline(pending);
        NextLine(pending);
        if index < 0 {
          break;
        }
        var line := pending[..index + 1];
        pending := pending[index + 1..];
        assert lines[done..][0] == line && lines[done..][1..] == lines[done + 1..];
        OneMoreLine(lines, done, line, drop);
        if drop.When? && drop.matches(line) {
          DropsWhen(drop, line);
          dropped := dropped + 1;
          done := done + 1;
          continue;
        }
        DropsWhen(drop, line);
        ok := out.Write(line);
        if !ok {
          count := 0;
          LinesCoverTheInput(pending);
          assert StoppedAt(old(State()), p, drop, done, State());
          return;
        }
        done := done + 1;
      }
      assert lines[..done] == lines;
      ok := true;
      count := |p|;
    }

    /** Forwards a trailing line that never ended in a newline. */
    method Flush() returns (ok: bool)
      modifies this, out
      ensures ok ==> State() == Flushed(old(State()), drop)
      ensures !ok ==> State() == old(State()).(pending := [])
      ensures old(out.failsAfter) < 0 ==> ok
    {
      if |pending| == 0 {
        return true;
      }
      var line := pending;
      pending := [];
      if drop.When? && drop.matches(line) {
        dropped := dropped + 1;
        return true;
      }
      ok := out.Write(line);
    }
  }

  /** A write stopped at its `at`-th complete line: the lines before it were filtered, it is gone. */
  predicate StoppedAt(before: Filter, p: seq<byte>, drop: Drop, at: nat, after: Filter) {
    var lines := Complete(before.pending + p);
    && at < |lines| && !Drops(drop, lines[at])
    && after.out == before.out + Kept(lines[..at], drop)
    && after.dropped == before.dropped + CountDropped(lines[..at], drop)
    && after.pending == Concat(lines[at + 1..]) + Rest(before.pending + p)
  }

  lemma NoLines(lines: seq<seq<byte>>, drop: Drop)
    ensures Kept(lines[..0], drop) == [] && CountDropped(lines[..0], drop) == 0
  {}

  lemma DropsWhen(drop: Drop, line: seq<byte>)
    ensures Drops(drop, line) <==> drop.When? && drop.matches(line)
  {}

  lemma OneMoreLine(lines: seq<seq<byte>>, done: nat, line: seq<byte>, drop: Drop)
    requires done < |lines| && lines[done] == line
    ensures Kept(lines[..done + 1], drop) == Kept(lines[..done], drop) + if Drops(drop, line) then [] else line
    ensures CountDropped(lines[..done + 1], drop)
         == CountDropped(lines[..done], drop) + if Drops(drop, line) then 1 else 0
  {
    assert lines[..done + 1] == lines[..done] + [line];
    KeptJoins(lines[..done], [line], drop);
    KeptOne(line, drop);
  }

  // ---------- the notice the test command drops

  const MARKER: seq<byte> := [91, 110, 111, 32, 116, 101, 115, 116, 32, 102, 105, 108, 101, 115, 93]

  predicate MarkerAt(line: seq<byte>, at: int) {
    0 <= at <= |line| - |MARKER| && line[at..at + |MARKER|] == MARKER
  }

  predicate IsNoTestFilesLine(line: seq<byte>) {
    exists at :: 0 <= at <= |line| && MarkerAt(line, at)
  }

  lemma MarkerReads()
    ensures |MARKER| == |"[no test files]"|
    ensures forall i :: 0 <= i < |MARKER| ==> MARKER[i] as int == "[no test files]"[i] as int
  {}

  /** The marker stands somewhere in the line, as `strings.Contains`. */
  ghost predicate HasMarker(line: seq<byte>) {
    exists before, after :: line == before + MARKER + after
  }

  lemma NoticeExactly(line: seq<byte>)
    ensures IsNoTestFilesLine(line) <==> HasMarker(line)
  {
    if at :| 0 <= at <= |line| && MarkerAt(line, at) {
      assert line == line[..at] + MARKER + line[at + |MARKER|..];
    }
    if before, after :| line == before + MARKER + after {
      assert line[|before|..|before| + |MARKER|] == MARKER;
      assert MarkerAt(line, |before|);
    }
  }

  /** The lines without the marker. */
  ghost function Informative(lines: seq<seq<byte>>): (rest: seq<seq<byte>>)
    ensures |rest| <= |lines|
  {
    if lines == [] then []
    else (if HasMarker(lines[0]) then [] else [lines[0]]) + Informative(lines[1..])
  }

  lemma {:induction false} NoticesDropped(lines: seq<seq<byte>>)
    ensures Kept(lines, When(IsNoTestFilesLine)) == Concat(Informative(lines))
    ensures CountDropped(lines, When(IsNoTestFilesLine)) == |lines| - |Informative(lines)|
    decreases |lines|
  {
    hide IsNoTestFilesLine, HasMarker, Concat;
    ConcatNothing();
    if lines != [] {
      NoticeExactly(lines[0]);
      NoticesDropped(lines[1..]);
      ConcatFirst(lines[0], Informative(lines[1..]));
      assert Drops(When(IsNoTestFilesLine), lines[0]) <==> HasMarker(lines[0]);
      assert HasMarker(lines[0]) ==> Informative(lines) == Informative(lines[1..]);
    }
  }

  /** The test command's filter drops the lines that contain the marker and no others: however the
      output is cut into writes, what comes out is its lines without the marker, in order, and
      `Dropped` counts the rest. */
  lemma ExactlyTheNoticesAreDropped(chunks: seq<seq<byte>>)
    ensures var f, lines :=
      Flushed(WrittenAll(START, chunks, When(IsNoTestFilesLine)), When(IsNoTestFilesLine)), AllLines(Concat(chunks));
      f == Filter(Concat(Informative(lines)), |lines| - |Informative(lines)|, [])
  {
    hide IsNoTestFilesLine, AllLines, Concat, Informative, WrittenAll, Flushed, Kept, CountDropped;
    ChunksDoNotMatter(chunks, When(IsNoTestFilesLine));
    NoticesDropped(AllLines(Concat(chunks)));
  }

  /** Output without the marker comes out unchanged. */
  lemma OtherOutputIsUntouched(chunks: seq<seq<byte>>)
    requires forall line :: line in AllLines(Concat(chunks)) ==> !HasMarker(line)
    ensures Flushed(WrittenAll(START, chunks, When(IsNoTestFilesLine)), When(IsNoTestFilesLine))
         == Filter(Concat(chunks), 0, [])
  {
    hide IsNoTestFilesLine, AllLines, Concat, HasMarker, WrittenAll, Flushed;
    forall line | line in AllLines(Concat(chunks))
      ensures !IsNoTestFilesLine(line)
    {
      NoticeExactly(line);
    }
    WhatIsNotDroppedIsUntouched(chunks, When(IsNoTestFilesLine));
  }

  lemma NoticeIsALine(before: seq<byte>, after: seq<byte>)
    requires NEWLINE !in before && NEWLINE !in after
    ensures IsLine(before + MARKER + after + [NEWLINE]) && IsNoTestFilesLine(before + MARKER + after + [NEWLINE])
  {
    var line := before + MARKER + after + [NEWLINE];
    assert line[|before|..|before| + |MARKER|] == MARKER;
    assert MarkerAt(line, |before|);
    assert line[..|line| - 1] == before + MARKER + after;
  }

  /** The notice is recognised wherever it stands in a line, and however the line was cut into writes. */
  lemma NoticeIsDroppedHoweverCut(before: seq<byte>, after: seq<byte>, chunks: seq<seq<byte>>)
    requires NEWLINE !in before && NEWLINE !in after
    requires Concat(chunks) == before + MARKER + after + [NEWLINE]
    ensures Flushed(WrittenAll(START, chunks, When(IsNoTestFilesLine)), When(IsNoTestFilesLine)) == Filter([], 1, [])
  {
    NoticeIsALine(before, after);
    hide IsNoTestFilesLine, IsLine, Complete, Rest, Kept, CountDropped, WrittenAll;
    var line, drop := before + MARKER + after + [NEWLINE], When(IsNoTestFilesLine);
    ChunksDoNotMatter(chunks, drop);
    LinesAreUnique([line], []);
    assert Concat([line]) + [] == line by { assert [line][1..] == []; }
    assert [line] + [] == [line];
    KeptOne(line, drop);
  }
}
