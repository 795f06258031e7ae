/** Splitting a byte stream into lines, and what a line filter owes its input however the input
    is cut into writes (app/console/test/line_filter.go). */
module Lines {
  newtype byte = x: int | 0 <= x < 256

  const NEWLINE: byte := 10

  /** Where the first newline is, as `bytes.IndexByte`; -1 if there is none. */
  function IndexOfNewline(bytes: seq<byte>): (index: int)
    ensures -1 <= index < |bytes|
    ensures index >= 0 ==> bytes[index] == NEWLINE && NEWLINE !in bytes[..index]
    ensures index < 0 ==> NEWLINE !in bytes
  {
    if bytes == [] then -1
    else if bytes[0] == NEWLINE then 0
    else
      var index := IndexOfNewline(bytes[1..]);
      assert bytes == [bytes[0]] + bytes[1..];
      assert index >= 0 ==> bytes[..index + 1] == [bytes[0]] + bytes[1..][..index];
      if index < 0 then -1 else index + 1
  }

  /** The complete lines of an input, each with its newline. */
  function Complete(input: seq<byte>): seq<seq<byte>>
    decreases |input|
  {
    var index := IndexOfNewline(input);
    if index < 0 then [] else [input[..index + 1]] + Complete(input[index + 1..])
  }

  /** What follows the last newline. */
  function Rest(input: seq<byte>): seq<byte>
    decreases |input|
  {
    var index := IndexOfNewline(input);
    if index < 0 then input else Rest(input[index + 1..])
  }

  function Concat(lines: seq<seq<byte>>): seq<byte> {
    if lines == [] then [] else lines[0] + Concat(lines[1..])
  }

  predicate IsLine(line: seq<byte>) {
    line != [] && line[|line| - 1] == NEWLINE && NEWLINE !in line[..|line| - 1]
  }

  // ---------- a decision on lines; none passes everything through

  datatype Drop = Nothing | When(matches: seq<byte> -> bool)

  predicate Drops(drop: Drop, line: seq<byte>) {
    drop.When? && drop.matches(line)
  }

  /** The lines that are not dropped, joined. */
  function Kept(lines: seq<seq<byte>>, drop: Drop): seq<byte> {
    if lines == [] then [] else (if Drops(drop, lines[0]) then [] else lines[0]) + Kept(lines[1..], drop)
  }

  function CountDropped(lines: seq<seq<byte>>, drop: Drop): nat {
    if lines == [] then 0 else (if Drops(drop, lines[0]) then 1 else 0) + CountDropped(lines[1..], drop)
  }

  // ---------- lines are what they should be

  lemma NextLine(input: seq<byte>)
    ensures var index := IndexOfNewline(input);
      if index < 0 then Complete(input) == [] && Rest(input) == input
      else
        && Complete(input) == [input[..index + 1]] + Complete(input[index + 1..])
        && Rest(input) == Rest(input[index + 1..])
  {
    hide IndexOfNewline;
  }

  lemma FirstLine(input: seq<byte>)
    requires IndexOfNewline(input) >= 0
    ensures IsLine(input[..IndexOfNewline(input) + 1])
  {
    var index := IndexOfNewline(input);
    assert input[..index + 1][..index] == input[..index];
  }

  lemma Associate(a: seq<byte>, b: seq<byte>, c: seq<byte>)
    ensures a + b + c == a + (b + c)
  {}

  lemma ConcatFirst(line: seq<byte>, lines: seq<seq<byte>>)
    ensures Concat([line] + lines) == line + Concat(lines)
  {
    assert ([line] + lines)[1..] == lines;
  }

  /** The complete lines and the rest are the input, cut after every newline and nowhere else. A
      newline is the byte '\n'. */
  lemma {:induction false} LinesCoverTheInput(input: seq<byte>)
    ensures Concat(Complete(input)) + Rest(input) == input
    ensures forall i :: 0 <= i < |Complete(input)| ==> IsLine(Complete(input)[i])
    ensures NEWLINE !in Rest(input) && NEWLINE as int == '\n' as int
    decreases |input|
  {
    hide IndexOfNewline, IsLine, Complete, Rest, Concat;
    var index := IndexOfNewline(input);
    NextLine(input);
    if index < 0 {
      ConcatNothing();
    } else {
      var line, tail := input[..index + 1], input[index + 1..];
      FirstLine(input);
      LinesCoverTheInput(tail);
      ConcatFirst(line, Complete(tail));
      Associate(line, Concat(Complete(tail)), Rest(tail));
    }
  }

  lemma ConcatNothing()
    ensures Concat([]) == [] && forall rest: seq<byte> :: [] + rest == rest
  {}

  lemma FirstNewline(line: seq<byte>, tail: seq<byte>)
    requires IsLine(line)
    ensures IndexOfNewline(line + tail) == |line| - 1
  {
    hide IndexOfNewline;
    var input, index := line + tail, IndexOfNewline(line + tail);
    assert input[|line| - 1] == NEWLINE;
    assert index >= 0;
    assert forall k :: 0 <= k < |line| - 1 ==> input[k] == line[..|line| - 1][k];
    assert forall k :: 0 <= k < index ==> input[k] == input[..index][k];
  }

  /** A line in front of anything is cut off first. */
  lemma CutFirst(line: seq<byte>, tail: seq<byte>)
    requires IsLine(line)
    ensures Complete(line + tail) == [line] + Complete(tail) && Rest(line + tail) == Rest(tail)
  {
    FirstNewline(line, tail);
    NextLine(line + tail);
    hide Complete, Rest, IndexOfNewline, IsLine;
    assert (line + tail)[..|line|] == line && (line + tail)[|line|..] == tail;
  }

  /** There is only one way to cut an input into lines and a rest without newlines. */
  lemma {:induction false} LinesAreUnique(lines: seq<seq<byte>>, rest: seq<byte>)
    requires forall i :: 0 <= i < |lines| ==> IsLine(lines[i])
    requires NEWLINE !in rest
    ensures Complete(Concat(lines) + rest) == lines && Rest(Concat(lines) + rest) == rest
    decreases |lines|
  {
    hide IsLine, Complete, Rest, IndexOfNewline;
    if lines == [] {
      assert Concat(lines) + rest == rest;
      NextLine(rest);
    } else {
      var tail := Concat(lines[1..]) + rest;
      Associate(lines[0], Concat(lines[1..]), rest);
      CutFirst(lines[0], tail);
      LinesAreUnique(lines[1..], rest);
    }
  }

  /** Appending to a stream extends its lines by those of the pending rest and the new bytes. */
  lemma {:induction false} LinesOfConcatenation(first: seq<byte>, second: seq<byte>)
    ensures Complete(first + second) == Complete(first) + Complete(Rest(first) + second)
    ensures Rest(first + second) == Rest(Rest(first) + second)
    decreases |first|
  {
    hide IsLine, Complete, Rest, IndexOfNewline;
    var index := IndexOfNewline(first);
    NextLine(first);
    if index >= 0 {
      var line, tail := first[..index + 1], first[index + 1..];
      FirstLine(first);
      assert first == line + tail;
      Associate(line, tail, second);
      CutFirst(line, tail + second);
      LinesOfConcatenation(tail, second);
    }
  }

  lemma KeptFirst(line: seq<byte>, lines: seq<seq<byte>>, drop: Drop)
    ensures Kept([line] + lines, drop) == (if Drops(drop, line) then [] else line) + Kept(lines, drop)
    ensures CountDropped([line] + lines, drop) == (if Drops(drop, line) then 1 else 0) + CountDropped(lines, drop)
  {
    assert ([line] + lines)[1..] == lines;
  }

  lemma KeptNothing(drop: Drop)
    ensures Kept([], drop) == [] && CountDropped([], drop) == 0
    ensures forall rest: seq<byte> :: [] + rest == rest
  {}

  lemma {:induction false} KeptJoins(first: seq<seq<byte>>, second: seq<seq<byte>>, drop: Drop)
    ensures Kept(first + second, drop) == Kept(first, drop) + Kept(second, drop)
    ensures CountDropped(first + second, drop) == CountDropped(first, drop) + CountDropped(second, drop)
    decreases |first|
  {
    hide Kept, CountDropped, Drops;
    if first == [] {
      assert first + second == second;
      KeptNothing(drop);
    } else {
      var line, rest := first[0], first[1..];
      assert first == [line] + rest && first + second == [line] + (rest + second);
      KeptFirst(line, rest, drop);
      KeptFirst(line, rest + second, drop);
      KeptJoins(rest, second, drop);
      Associate(if Drops(drop, line) then [] else line, Kept(rest, drop), Kept(second, drop));
    }
  }

  // ---------- a filter on a sink that does not fail

  datatype Filter = Filter(out: seq<byte>, dropped: nat, pending: seq<byte>)

  const START := Filter([], 0, [])

  function Written(f: Filter, p: seq<byte>, drop: Drop): Filter {
    var lines := Complete(f.pending + p);
    Filter(f.out + Kept(lines, drop), f.dropped + CountDropped(lines, drop), Rest(f.pending + p))
  }

  function Flushed(f: Filter, drop: Drop): Filter {
    if f.pending == [] then f
    else if Drops(drop, f.pending) then Filter(f.out, f.dropped + 1, [])
    else Filter(f.out + f.pending, f.dropped, [])
  }

  function WrittenAll(f: Filter, chunks: seq<seq<byte>>, drop: Drop): Filter
    decreases |chunks|
  {
    if chunks == [] then f else WrittenAll(Written(f, chunks[0], drop), chunks[1..], drop)
  }

  /** All lines of an input, the unterminated one included. */
  function AllLines(input: seq<byte>): seq<seq<byte>> {
    Complete(input) + if Rest(input) == [] then [] else [Rest(input)]
  }

  lemma OneMoreChunk(sofar: seq<byte>, chunk: seq<byte>, drop: Drop)
    ensures Written(Written(START, sofar, drop), chunk, drop) == Written(START, sofar + chunk, drop)
  {
    hide Complete, Rest, Kept, CountDropped;
    assert [] + sofar == sofar && [] + (sofar + chunk) == sofar + chunk;
    LinesOfConcatenation(sofar, chunk);
    var first, second := Complete(sofar), Complete(Rest(sofar) + chunk);
    KeptJoins(first, second, drop);
    assert [] + Kept(first, drop) + Kept(second, drop) == [] + (Kept(first, drop) + Kept(second, drop));
  }

  /** Between calls, the filter stands where one write of everything so far would have put it. */
  lemma {:induction false} ChunksJoin(sofar: seq<byte>, chunks: seq<seq<byte>>, drop: Drop)
    ensures WrittenAll(Written(START, sofar, drop), chunks, drop) == Written(START, sofar + Concat(chunks), drop)
    decreases |chunks|
  {
    hide Written;
    if chunks == [] {
      assert sofar + Concat(chunks) == sofar;
    } else {
      OneMoreChunk(sofar, chunks[0], drop);
      ChunksJoin(sofar + chunks[0], chunks[1..], drop);
      assert sofar + chunks[0] + Concat(chunks[1..]) == sofar + Concat(chunks);
    }
  }

  lemma WrittenOnce(chunks: seq<seq<byte>>, drop: Drop)
    ensures var input := Concat(chunks);
      WrittenAll(START, chunks, drop)
      == Filter(Kept(Complete(input), drop), CountDropped(Complete(input), drop), Rest(input))
  {
    assert START == Written(START, [], drop);
    ChunksJoin([], chunks, drop);
    assert [] + Concat(chunks) == Concat(chunks);
  }

  lemma KeptOne(line: seq<byte>, drop: Drop)
    ensures Kept([line], drop) == if Drops(drop, line) then [] else line
    ensures CountDropped([line], drop) == if Drops(drop, line) then 1 else 0
  {
    assert [line][1..] == [];
  }

  /** Chunk invariance: however an input is cut into writes, after the flush the output is the lines of
      the whole input that are not dropped, and `Dropped` counts those that are. */
  lemma ChunksDoNotMatter(chunks: seq<seq<byte>>, drop: Drop)
    ensures var f, lines := Flushed(WrittenAll(START, chunks, drop), drop), AllLines(Concat(chunks));
      f.out == Kept(lines, drop) && f.dropped == CountDropped(lines, drop) && f.pending == []
  {
    hide Complete, Rest, Kept, CountDropped, Drops, Concat, WrittenAll;
    var input := Concat(chunks);
    WrittenOnce(chunks, drop);
    KeptJoins(Complete(input), [Rest(input)], drop);
    KeptOne(Rest(input), drop);
    assert Complete(input) + [] == Complete(input);
    assert Kept(Complete(input), drop) + [] == Kept(Complete(input), drop);
  }

  lemma {:induction false} NothingDropped(lines: seq<seq<byte>>, drop: Drop)
    requires forall line :: line in lines ==> !Drops(drop, line)
    ensures Kept(lines, drop) == Concat(lines) && CountDropped(lines, drop) == 0
    decreases |lines|
  {
    hide Drops;
    if lines != [] {
      NothingDropped(lines[1..], drop);
    }
  }

  lemma AllLinesCover(input: seq<byte>)
    ensures Concat(AllLines(input)) == input
  {
    hide Complete, Rest, IsLine, Concat;
    LinesCoverTheInput(input);
    ConcatJoins(Complete(input), [Rest(input)]);
    ConcatFirst(Rest(input), []);
    ConcatNothing();
    assert [Rest(input)] + [] == [Rest(input)] && Rest(input) + [] == Rest(input);
    assert Complete(input) + [] == Complete(input) && input + [] == input;
  }

  lemma {:induction false} ConcatJoins(first: seq<seq<byte>>, second: seq<seq<byte>>)
    ensures Concat(first + second) == Concat(first) + Concat(second)
    decreases |first|
  {
    if first == [] {
      assert first + second == second;
    } else {
      assert (first + second)[1..] == first[1..] + second;
      ConcatJoins(first[1..], second);
    }
  }

  /** An input none of whose lines is to be dropped comes out as it went in, and so does any input
      when there is no condition. */
  lemma WhatIsNotDroppedIsUntouched(chunks: seq<seq<byte>>, drop: Drop)
    requires drop == Nothing || forall line :: line in AllLines(Concat(chunks)) ==> !drop.matches(line)
    ensures Flushed(WrittenAll(START, chunks, drop), drop) == Filter(Concat(chunks), 0, [])
  {
    hide Concat, AllLines, WrittenAll, Flushed, Kept, CountDropped;
    ChunksDoNotMatter(chunks, drop);
    NothingDropped(AllLines(Concat(chunks)), drop);
    AllLinesCover(Concat(chunks));
  }

  function DroppedLines(lines: seq<seq<byte>>, drop: Drop): seq<seq<byte>> {
    if lines == [] then []
    else (if Drops(drop, lines[0]) then [lines[0]] else []) + DroppedLines(lines[1..], drop)
  }

  lemma DroppedFirst(line: seq<byte>, lines: seq<seq<byte>>, drop: Drop)
    ensures DroppedLines([line] + lines, drop) == (if Drops(drop, line) then [line] else []) + DroppedLines(lines, drop)
  {
    assert ([line] + lines)[1..] == lines;
  }

  lemma DroppedNothing(drop: Drop)
    ensures DroppedLines([], drop) == [] && forall rest: seq<seq<byte>> :: [] + rest == rest
  {}

  lemma {:induction false} NothingIsLost(lines: seq<seq<byte>>, drop: Drop)
    ensures |DroppedLines(lines, drop)| == CountDropped(lines, drop)
    ensures multiset(Concat(lines)) == multiset(Kept(lines, drop)) + multiset(Concat(DroppedLines(lines, drop)))
    decreases |lines|
  {
    hide Kept, CountDropped, Drops, Concat, DroppedLines;
    KeptNothing(drop);
    DroppedNothing(drop);
    ConcatNothing();
    if lines != [] {
      var line, rest := lines[0], lines[1..];
      assert lines == [line] + rest;
      NothingIsLost(rest, drop);
      KeptFirst(line, rest, drop);
      DroppedFirst(line, rest, drop);
      ConcatFirst(line, rest);
      ConcatFirst(line, DroppedLines(rest, drop));
    }
  }

  /** Conservation: between calls every byte written was forwarded, belongs to a dropped line, or is
      pending, and no newline is ever pending. */
  lemma EveryByteIsAccountedFor(chunks: seq<seq<byte>>, drop: Drop)
    ensures var f, input := WrittenAll(START, chunks, drop), Concat(chunks);
      var gone := DroppedLines(Complete(input), drop);
      && multiset(input) == multiset(f.out) + multiset(Concat(gone)) + multiset(f.pending)
      && |gone| == f.dropped
      && NEWLINE !in f.pending
  {
    hide Complete, Rest, Kept, CountDropped, Drops, Concat, WrittenAll, DroppedLines;
    var input := Concat(chunks);
    WrittenOnce(chunks, drop);
    LinesCoverTheInput(input);
    NothingIsLost(Complete(input), drop);
    assert multiset(input) == multiset(Concat(Complete(input)) + Rest(input));
  }
}
