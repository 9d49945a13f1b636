/** The line reader, a buffer of one unfinished line fed by reads of any size. */
module LineReader {
  import opened Wrappers
  import opened Unicode

  const MAX_LINE_BYTES: nat := 8 * 1024 * 1024
  const NEWLINE: CodeUnit := 10

  datatype Line = Line(text: Text, number: nat)

  datatype Failure = LineTooLong(number: nat) | FileGrew

  /** What a reader hands on: the lines, and why it stopped when it did not reach the end. */
  datatype Reading = Reading(lines: seq<Line>, failure: Option<Failure>)

  /** The limit test, which counts bytes only where the number of units leaves it open. */
  predicate TooLong(line: Text) {
    |line| * 3 > MAX_LINE_BYTES && ByteLength(line) > MAX_LINE_BYTES
  }

  /** The shortcut never changes the answer. */
  lemma TooLongIsByteCount(line: Text)
    ensures TooLong(line) <==> ByteLength(line) > 8388608
  {
    ByteLengthAtMostThreePerUnit(line);
  }

  lemma TooLongMonotone(s: Text, t: Text)
    requires TooLong(s)
    ensures TooLong(s + t)
  {
    TooLongIsByteCount(s);
    TooLongIsByteCount(s + t);
    ByteLengthMonotone(s, t);
  }

  // ---------------------------------------------------------------- what a file's lines are

  /** The position of the first newline, or the length of the text. */
  function LineEnd(s: Text): (n: nat)
    ensures n <= |s|
    ensures n < |s| ==> s[n] == NEWLINE
    ensures NEWLINE !in s[..n]
  {
    if s == [] || s[0] == NEWLINE then 0
    else
      var n := 1 + LineEnd(s[1..]);
      assert s[..n] == [s[0]] + s[1..][..n - 1];
      n
  }

  /** The text split on newlines, without an empty last line. */
  function SplitLines(s: Text): seq<Text>
    decreases |s|
  {
    if s == [] then []
    else if LineEnd(s) == |s| then [s]
    else [s[..LineEnd(s)]] + SplitLines(s[LineEnd(s) + 1..])
  }

  /** The lines numbered on from `number`, up to the first that is too long. */
  function Numbered(lines: seq<Text>, number: nat): Reading {
    if lines == [] then Reading([], None)
    else if TooLong(lines[0]) then Reading([], Some(LineTooLong(number + 1)))
    else Prepend([Line(lines[0], number + 1)], Numbered(lines[1..], number + 1))
  }

  function Prepend(lines: seq<Line>, r: Reading): Reading {
    Reading(lines + r.lines, r.failure)
  }

  /** What reading a whole text should hand on. */
  function WholeText(s: Text, number: nat): Reading {
    Numbered(SplitLines(s), number)
  }

  function Terminated(lines: seq<Text>): Text {
    if lines == [] then [] else lines[0] + [10] + Terminated(lines[1..])
  }

  lemma TerminatedCons(line: Text, lines: seq<Text>)
    ensures Terminated([line] + lines) == line + [NEWLINE] + Terminated(lines)
  {
    assert ([line] + lines)[1..] == lines;
  }

  /** The text itself, with a newline put at its end when it lacks one. */
  function Ended(s: Text): Text {
    if s == [] || s[|s| - 1] == 10 then s else s + [10]
  }

  lemma EndedAfter(line: Text, rest: Text)
    ensures Ended(line + [NEWLINE] + rest) == line + [NEWLINE] + Ended(rest)
  {
  }

  /** Splitting loses nothing but a missing last newline, and no line holds one. */
  lemma {:induction false} SplitRestores(s: Text)
    ensures Terminated(SplitLines(s)) == Ended(s)
    ensures forall l | l in SplitLines(s) :: 10 !in l
    decreases |s|
  {
    if s == [] {
    } else if LineEnd(s) == |s| {
      assert s[..|s|] == s;
      TerminatedCons(s, []);
      assert s[|s| - 1] in s;
    } else {
      var line, rest := s[..LineEnd(s)], s[LineEnd(s) + 1..];
      SplitRestores(rest);
      TerminatedCons(line, SplitLines(rest));
      EndedAfter(line, rest);
      assert s == line + [NEWLINE] + rest;
    }
  }

  /** A line handed on as it stands in the text, under its number, within eight mebibytes. */
  predicate HandedOn(line: Line, text: Text, number: nat) {
    line == Line(text, number) && ByteLength(text) <= 8388608
  }

  /** The lines of a reading are the first of these, and its failure is the next. */
  ghost predicate ReadsLines(r: Reading, lines: seq<Text>, number: nat) {
    && |r.lines| <= |lines|
    && (forall i | 0 <= i < |r.lines| :: HandedOn(r.lines[i], lines[i], number + i + 1))
    && (r.failure.None? <==> |r.lines| == |lines|)
    && (r.failure.Some? ==>
          && r.failure.value == LineTooLong(number + |r.lines| + 1)
          && ByteLength(lines[|r.lines|]) > 8388608)
  }

  lemma {:induction false} NumberedAre(lines: seq<Text>, number: nat)
    ensures ReadsLines(Numbered(lines, number), lines, number)
  {
    if lines != [] {
      TooLongIsByteCount(lines[0]);
      if !TooLong(lines[0]) {
        NumberedAre(lines[1..], number + 1);
        var r, more := Numbered(lines, number), Numbered(lines[1..], number + 1);
        assert r.lines == [Line(lines[0], number + 1)] + more.lines;
      }
    }
  }

  /**
   * What reading a text hands on: its lines, numbered from one, up to the first of more than
   * eight mebibytes, whose number the failure names.
   */
  lemma ReadingOfText(s: Text)
    ensures ReadsLines(WholeText(s, 0), SplitLines(s), 0)
  {
    NumberedAre(SplitLines(s), 0);
  }

  // ---------------------------------------------------------------- reading on

  lemma {:induction false} LineEndIs(s: Text, n: nat)
    requires n <= |s| && NEWLINE !in s[..n] && (n < |s| ==> s[n] == NEWLINE)
    ensures LineEnd(s) == n
  {
    if n > 0 {
      assert s[0] in s[..n];
      assert s[1..][..n - 1] == s[..n][1..];
      LineEndIs(s[1..], n - 1);
    }
  }

  lemma SplitFirst(line: Text, rest: Text)
    requires NEWLINE !in line
    ensures SplitLines(line + [NEWLINE] + rest) == [line] + SplitLines(rest)
  {
    var s := line + [NEWLINE] + rest;
    assert s[..|line|] == line && s[|line|] == NEWLINE;
    LineEndIs(s, |line|);
    assert s[|line| + 1..] == rest;
  }

  /** The other way round: lines without newlines, each ended by one, split back into themselves. */
  lemma {:induction false} SplitOfTerminated(lines: seq<Text>)
    requires forall l | l in lines :: NEWLINE !in l
    ensures SplitLines(Terminated(lines)) == lines
  {
    if lines != [] {
      SplitFirst(lines[0], Terminated(lines[1..]));
      SplitOfTerminated(lines[1..]);
    }
  }

  /** A text that starts with a finished line. */
  lemma LineThenRest(line: Text, rest: Text, number: nat)
    requires NEWLINE !in line
    ensures WholeText(line + [NEWLINE] + rest, number) ==
      if TooLong(line) then Reading([], Some(LineTooLong(number + 1)))
      else Prepend([Line(line, number + 1)], WholeText(rest, number + 1))
  {
    SplitFirst(line, rest);
    assert ([line] + SplitLines(rest))[1..] == SplitLines(rest);
  }

  /** A line that is already too long stays so, however it goes on. */
  lemma GrowingLineTooLong(pending: Text, z: Text, number: nat)
    requires NEWLINE !in pending && TooLong(pending)
    ensures WholeText(pending + z, number) == Reading([], Some(LineTooLong(number + 1)))
  {
    var n := LineEnd(z);
    assert z == z[..n] + z[n..];
    var line := pending + z[..n];
    assert pending + z == line + z[n..];
    assert NEWLINE !in line;
    TooLongMonotone(pending, z[..n]);
    if n == |z| {
      assert pending + z == line && line[..|line|] == line;
      LineEndIs(line, |line|);
    } else {
      assert z[n..] == [NEWLINE] + z[n + 1..];
      assert pending + z == line + [NEWLINE] + z[n + 1..];
      LineThenRest(line, z[n + 1..], number);
    }
  }

  /** What is left of a text at its end: one unfinished line, or nothing. */
  lemma LastLine(pending: Text, number: nat)
    requires NEWLINE !in pending
    ensures WholeText(pending, number) ==
      if pending == [] then Reading([], None)
      else if TooLong(pending) then Reading([], Some(LineTooLong(number + 1)))
      else Reading([Line(pending, number + 1)], None)
  {
    if pending != [] {
      assert pending[..|pending|] == pending;
      LineEndIs(pending, |pending|);
      assert SplitLines(pending) == [pending] && [pending][1..] == [];
      assert Numbered([], number + 1) == Reading([], None);
    }
  }

  /** Reading a whole file that goes on with `z` hands on `lines`, and then what follows from `rest`. */
  ghost predicate ReadsAs(consumed: Text, lines: seq<Line>, rest: Text, number: nat, z: Text) {
    WholeText(consumed + z, 0) == Prepend(lines, WholeText(rest + z, number))
  }

  /** Having read `consumed`, the lines are out and `rest` is what the next line starts with. */
  ghost predicate FollowsOn(consumed: Text, lines: seq<Line>, rest: Text, number: nat) {
    forall z :: ReadsAs(consumed, lines, rest, number, z)
  }

  ghost predicate FailsWith(consumed: Text, lines: seq<Line>, failure: Failure, z: Text) {
    WholeText(consumed + z, 0) == Reading(lines, Some(failure))
  }

  /** However the file goes on, reading it fails here, after these lines. */
  ghost predicate FailsAt(consumed: Text, lines: seq<Line>, failure: Failure) {
    forall z :: FailsWith(consumed, lines, failure, z)
  }

  lemma Regroup(a: Text, b: Text, c: Text)
    ensures a + b + c == a + (b + c)
  {
  }

  lemma FollowsOnChunk(consumed: Text, lines: seq<Line>, pending: Text, number: nat, chunk: Text)
    requires FollowsOn(consumed, lines, pending, number)
    ensures FollowsOn(consumed + chunk, lines, pending + chunk, number)
  {
    forall z
      ensures ReadsAs(consumed + chunk, lines, pending + chunk, number, z)
    {
      assert ReadsAs(consumed, lines, pending, number, chunk + z);
      Regroup(consumed, chunk, z);
      Regroup(pending, chunk, z);
    }
  }

  lemma LineAt(consumed: Text, lines: seq<Line>, line: Text, rest: Text, number: nat, z: Text)
    requires NEWLINE !in line
    requires ReadsAs(consumed, lines, line + [NEWLINE] + rest, number, z)
    ensures TooLong(line) ==> FailsWith(consumed, lines, LineTooLong(number + 1), z)
    ensures !TooLong(line) ==> ReadsAs(consumed, lines + [Line(line, number + 1)], rest, number + 1, z)
  {
    Regroup(line + [NEWLINE], rest, z);
    LineThenRest(line, rest + z, number);
    var r := WholeText(rest + z, number + 1);
    assert lines + ([Line(line, number + 1)] + r.lines) == lines + [Line(line, number + 1)] + r.lines;
    assert lines + [] == lines;
  }

  lemma FollowsOnLine(consumed: Text, lines: seq<Line>, line: Text, rest: Text, number: nat)
    requires NEWLINE !in line
    requires FollowsOn(consumed, lines, line + [NEWLINE] + rest, number)
    ensures TooLong(line) ==> FailsAt(consumed, lines, LineTooLong(number + 1))
    ensures !TooLong(line) ==> FollowsOn(consumed, lines + [Line(line, number + 1)], rest, number + 1)
  {
    var next, failure, lines' := number + 1, LineTooLong(number + 1), lines + [Line(line, number + 1)];
    forall z
      ensures TooLong(line) ==> FailsWith(consumed, lines, failure, z)
    {
      assert ReadsAs(consumed, lines, line + [NEWLINE] + rest, number, z);
      LineAt(consumed, lines, line, rest, number, z);
    }
    forall z
      ensures !TooLong(line) ==> ReadsAs(consumed, lines', rest, next, z)
    {
      assert ReadsAs(consumed, lines, line + [NEWLINE] + rest, number, z);
      LineAt(consumed, lines, line, rest, number, z);
    }
  }

  lemma FollowsOnTooLong(consumed: Text, lines: seq<Line>, pending: Text, number: nat)
    requires NEWLINE !in pending && TooLong(pending)
    requires FollowsOn(consumed, lines, pending, number)
    ensures FailsAt(consumed, lines, LineTooLong(number + 1))
  {
    var failure := LineTooLong(number + 1);
    forall z
      ensures FailsWith(consumed, lines, failure, z)
    {
      assert ReadsAs(consumed, lines, pending, number, z);
      GrowingLineTooLong(pending, z, number);
      assert lines + [] == lines;
    }
  }

  // ---------------------------------------------------------------- the reader

  /** One read of the file: how many bytes it took and the text they decoded to. */
  datatype Chunk = Chunk(bytes: nat, text: Text)

  lemma NextLine(buffer: Text, start: nat, newline: nat)
    requires start <= |buffer| && newline == start + LineEnd(buffer[start..])
    ensures start <= newline <= |buffer| && NEWLINE !in buffer[start..newline]
    ensures newline == |buffer| ==> buffer[start..newline] == buffer[start..]
    ensures newline < |buffer| ==> buffer[start..] == buffer[start..newline] + [NEWLINE] + buffer[newline + 1..]
  {
    assert buffer[start..newline] == buffer[start..][..newline - start];
  }

  /** Taking a finished line out of a buffer: reading fails at it, or goes on behind it. */
  lemma LineTaken(
    consumed: Text, lines: seq<Line>, emitted: seq<Line>, buffer: Text, start: nat, newline: nat, line: Line)
    requires start <= |buffer| && newline == start + LineEnd(buffer[start..]) && newline < |buffer|
    requires line.text == buffer[start..newline] && line.number > 0
    requires FollowsOn(consumed, lines + emitted, buffer[start..], line.number - 1)
    ensures TooLong(line.text) ==> FailsAt(consumed, lines + emitted, LineTooLong(line.number))
    ensures !TooLong(line.text) ==> FollowsOn(consumed, lines + (emitted + [line]), buffer[newline + 1..], line.number)
  {
    NextLine(buffer, start, newline);
    FollowsOnLine(consumed, lines + emitted, line.text, buffer[newline + 1..], line.number - 1);
    assert lines + emitted + [line] == lines + (emitted + [line]);
  }

  /**
   * Hands on every line finished in a buffer, and leaves the unfinished one, unless a
   * finished line is too long or the unfinished one already is.
   */
  method TakeLines(buffer: Text, number: nat, ghost consumed: Text, ghost lines: seq<Line>)
    returns (emitted: seq<Line>, rest: Text, failure: Option<Failure>)
    requires FollowsOn(consumed, lines, buffer, number)
    ensures failure.None? ==>
      NEWLINE !in rest && ByteLength(rest) <= MAX_LINE_BYTES
        && FollowsOn(consumed, lines + emitted, rest, number + |emitted|)
    ensures failure.Some? ==> failure.value.LineTooLong? && FailsAt(consumed, lines + emitted, failure.value)
  {
    emitted, failure := [], None;
    var start := 0;
    assert buffer[start..] == buffer && lines + emitted == lines;
    while true
      invariant 0 <= start <= |buffer|
      invariant FollowsOn(consumed, lines + emitted, buffer[start..], number + |emitted|)
      decreases |buffer| - start
    {
      var newline := start + LineEnd(buffer[start..]);
      rest := buffer[start..newline];
      NextLine(buffer, start, newline);
      if newline == |buffer| {
        break;
      }
      var line := Line(rest, number + |emitted| + 1);
      LineTaken(consumed, lines, emitted, buffer, start, newline, line);
      if TooLong(rest) {
        failure := Some(LineTooLong(line.number));
        return;
      }
      emitted := emitted + [line];
      start := newline + 1;
    }
    TooLongIsByteCount(rest);
    if TooLong(rest) {
      FollowsOnTooLong(consumed, lines + emitted, rest, number + |emitted|);
      failure := Some(LineTooLong(number + |emitted| + 1));
    }
  }

  /** The reader between two reads. */
  class Reader {
    const maxTotalBytes: Option<nat>
    var pending: Text
    var number: nat
    var total: nat
    ghost var consumed: Text
    ghost var lines: seq<Line>

    /** The partial line holds no newline and is never over the limit. */
    ghost predicate Valid()
      reads this
    {
      && NEWLINE !in pending
      && ByteLength(pending) <= MAX_LINE_BYTES
      && number == |lines|
      && FollowsOn(consumed, lines, pending, number)
    }

    constructor (maxTotalBytes: Option<nat>)
      ensures Valid() && this.maxTotalBytes == maxTotalBytes && consumed == [] && lines == [] && total == 0
    {
      this.maxTotalBytes := maxTotalBytes;
      pending, number, total, consumed, lines := [], 0, 0, [], [];
    }

    /** Takes one read: hands on the lines it completes, keeps the rest, or refuses the file. */
    method Feed(chunk: Chunk) returns (emitted: seq<Line>, failure: Option<Failure>)
      requires Valid()
      modifies this
      ensures total == old(total) + chunk.bytes
      ensures failure == Some(FileGrew) <==> maxTotalBytes.Some? && total > maxTotalBytes.value
      ensures failure == Some(FileGrew) ==> emitted == [] && pending == old(pending) && number == old(number)
      ensures failure.None? ==> Valid() && consumed == old(consumed) + chunk.text && lines == old(lines) + emitted
      ensures failure.Some? && failure.value.LineTooLong? ==>
        FailsAt(old(consumed) + chunk.text, old(lines) + emitted, failure.value)
    {
      emitted := [];
      total := total + chunk.bytes;
      if maxTotalBytes.Some? && total > maxTotalBytes.value {
        return [], Some(FileGrew);
      }
      FollowsOnChunk(consumed, lines, pending, number, chunk.text);
      consumed := consumed + chunk.text;
      var rest;
      emitted, rest, failure := TakeLines(pending + chunk.text, number, consumed, lines);
      lines := lines + emitted;
      number := number + |emitted|;
      pending := rest;
    }

    /** The end of the file: what the decoder still held, and the last line if it did not end. */
    method Finish(tail: Text) returns (emitted: seq<Line>, failure: Option<Failure>)
      requires Valid() && NEWLINE !in tail
      modifies this
      ensures WholeText(old(consumed) + tail, 0) == Reading(old(lines) + emitted, failure)
    {
      FollowsOnChunk(consumed, lines, pending, number, tail);
      pending := pending + tail;
      assert ReadsAs(consumed + tail, lines, pending, number, []);
      assert consumed + tail + [] == consumed + tail && pending + [] == pending;
      LastLine(pending, number);
      emitted, failure := [], None;
      if pending != [] {
        number := number + 1;
        if TooLong(pending) {
          return [], Some(LineTooLong(number));
        }
        emitted := [Line(pending, number)];
      }
    }
  }

  /** What is held while a chunk is taken in: one line's worth, and the chunk. */
  lemma HeldIsBounded(pending: Text, chunk: Text)
    requires ByteLength(pending) <= MAX_LINE_BYTES
    ensures |pending + chunk| <= MAX_LINE_BYTES + |chunk|
    ensures ByteLength(pending + chunk) <= MAX_LINE_BYTES + ByteLength(chunk)
  {
    ByteLengthAtMostThreePerUnit(pending);
    ByteLengthConcat(pending, chunk);
  }

  /** What was handed on begins what the whole text would hand on. */
  lemma LinesSoFar(consumed: Text, lines: seq<Line>, pending: Text, number: nat, rest: Text)
    requires FollowsOn(consumed, lines, pending, number)
    ensures lines + [] <= WholeText(consumed + rest, 0).lines
  {
    assert ReadsAs(consumed, lines, pending, number, rest);
    assert lines + [] == lines;
  }

  function TextOfChunks(chunks: seq<Chunk>): Text {
    if chunks == [] then [] else TextOfChunks(chunks[..|chunks| - 1]) + chunks[|chunks| - 1].text
  }

  function BytesOfChunks(chunks: seq<Chunk>): nat {
    if chunks == [] then 0 else BytesOfChunks(chunks[..|chunks| - 1]) + chunks[|chunks| - 1].bytes
  }

  /**
   * Reads a file from its successive reads and what the decoder held at the end. Without
   * a limit on the whole file, where the reads split it makes no difference.
   */
  method ReadLines(chunks: seq<Chunk>, tail: Text, maxTotalBytes: Option<nat>) returns (reading: Reading)
    requires NEWLINE !in tail
    ensures maxTotalBytes.None? || BytesOfChunks(chunks) <= maxTotalBytes.value ==>
      reading == WholeText(TextOfChunks(chunks) + tail, 0)
    ensures maxTotalBytes.Some? && BytesOfChunks(chunks) > maxTotalBytes.value ==> reading.failure.Some?
    ensures reading.failure != Some(FileGrew) ==> reading == WholeText(TextOfChunks(chunks) + tail, 0)
    ensures reading.lines <= WholeText(TextOfChunks(chunks) + tail, 0).lines
  {
    var reader := new Reader(maxTotalBytes);
    var lines: seq<Line> := [];
    for i := 0 to |chunks|
      invariant reader.Valid() && fresh(reader) && reader.maxTotalBytes == maxTotalBytes
      invariant reader.lines == lines && reader.consumed == TextOfChunks(chunks[..i])
      invariant reader.total == BytesOfChunks(chunks[..i])
      invariant maxTotalBytes.Some? ==> reader.total <= maxTotalBytes.value
    {
      assert chunks[..i + 1][..i] == chunks[..i];
      ghost var before := reader.consumed;
      RestOfFile(chunks, tail, i);
      var emitted, failure := reader.Feed(chunks[i]);
      if failure.Some? {
        reading := Reading(lines + emitted, failure);
        BytesGrow(chunks, i + 1);
        if failure == Some(FileGrew) {
          LinesSoFar(before, lines, reader.pending, reader.number, RestFrom(chunks, tail, i));
        } else {
          FailureStands(chunks, tail, i + 1, lines + emitted, failure.value);
        }
        return;
      }
      lines := lines + emitted;
    }
    assert chunks[..|chunks|] == chunks;
    var emitted, failure := reader.Finish(tail);
    reading := Reading(lines + emitted, failure);
  }

  /** A failure after some of the reads is the failure of the whole. */
  lemma FailureStands(chunks: seq<Chunk>, tail: Text, i: nat, lines: seq<Line>, failure: Failure)
    requires i <= |chunks| && FailsAt(TextOfChunks(chunks[..i]), lines, failure)
    ensures WholeText(TextOfChunks(chunks) + tail, 0) == Reading(lines, Some(failure))
  {
    assert FailsWith(TextOfChunks(chunks[..i]), lines, failure, RestFrom(chunks, tail, i));
    RestOfFile(chunks, tail, i);
  }

  /** What is still to come after some of the reads. */
  function RestFrom(chunks: seq<Chunk>, tail: Text, i: nat): Text
    requires i <= |chunks|
    decreases |chunks| - i
  {
    if i == |chunks| then tail else chunks[i].text + RestFrom(chunks, tail, i + 1)
  }

  lemma {:induction false} RestOfFile(chunks: seq<Chunk>, tail: Text, i: nat)
    requires i <= |chunks|
    ensures TextOfChunks(chunks[..i]) + RestFrom(chunks, tail, i) == TextOfChunks(chunks) + tail
    decreases |chunks| - i
  {
    if i == |chunks| {
      assert chunks[..i] == chunks;
    } else {
      RestOfFile(chunks, tail, i + 1);
      assert chunks[..i + 1][..i] == chunks[..i];
    }
  }

  lemma {:induction false} BytesGrow(chunks: seq<Chunk>, i: nat)
    requires i <= |chunks|
    ensures BytesOfChunks(chunks[..i]) <= BytesOfChunks(chunks)
    decreases |chunks| - i
  {
    if i == |chunks| {
      assert chunks[..i] == chunks;
    } else {
      BytesGrow(chunks, i + 1);
      assert chunks[..i + 1][..i] == chunks[..i];
    }
  }
}
