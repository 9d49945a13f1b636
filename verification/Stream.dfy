/** Events out of a JSON Lines file: what is handed on, and where one bad line stops the file. */
module Stream {
  import opened Wrappers
  import opened Unicode
  import opened Json
  import opened Canonical
  import opened Digest
  import opened LineReader

  /** One item: an event with the number of its line, or the reason reading stopped. */
  datatype Item = Event(index: nat, event: JsValue) | Failed(reason: Reason)

  datatype Reason = NotJsonText(line: nat) | TooDeep(line: nat) | Unreadable(failure: Failure)

  /** The parser of the platform, as far as it matters here: what it returns some JSON text parses to. */
  type JsonParser = p: Text -> Option<JsValue> | forall t :: p(t).Some? ==> Parsed(p(t).value)
    witness (t: Text) => None

  /** What one line contributes; `None` for a blank one. */
  function ItemOf(parse: JsonParser, trim: Text -> Text, line: Line): Option<Item> {
    var trimmed := trim(line.text);
    if trimmed == [] then None
    else
      match parse(trimmed)
      case None => Some(Failed(NotJsonText(line.number)))
      case Some(event) =>
        if NestedTooDeep(event, 0) then Some(Failed(TooDeep(line.number))) else Some(Event(line.number, event))
  }

  predicate AllEvents(items: seq<Item>) {
    forall i | 0 <= i < |items| :: items[i].Event?
  }

  /** The items of these lines, up to and including the first failure. */
  function LineItems(parse: JsonParser, trim: Text -> Text, lines: seq<Line>): seq<Item> {
    if lines == [] then []
    else
      match ItemOf(parse, trim, lines[0])
      case None => LineItems(parse, trim, lines[1..])
      case Some(Failed(reason)) => [Failed(reason)]
      case Some(Event(index, event)) => [Event(index, event)] + LineItems(parse, trim, lines[1..])
  }

  /** The items of a file: those of its lines, and the reader's own failure when no line failed before it. */
  function FileItems(parse: JsonParser, trim: Text -> Text, reading: Reading): seq<Item> {
    var items := LineItems(parse, trim, reading.lines);
    if AllEvents(items) && reading.failure.Some? then items + [Failed(Unreadable(reading.failure.value))] else items
  }

  /** Hands on the items of the lines one read has completed, up to the first that fails. */
  method TakeItems(parse: JsonParser, trim: Text -> Text, lines: seq<Line>) returns (items: seq<Item>)
    ensures items == LineItems(parse, trim, lines)
  {
    items := [];
    for i := 0 to |lines|
      invariant AllEvents(items)
      invariant LineItems(parse, trim, lines) == items + LineItems(parse, trim, lines[i..])
    {
      assert lines[i..][0] == lines[i] && lines[i..][1..] == lines[i + 1..];
      var item := ItemOf(parse, trim, lines[i]);
      if item.Some? {
        var before := items;
        items := items + [item.value];
        if item.value.Failed? {
          return;
        }
        Regrouped(before, [item.value], LineItems(parse, trim, lines[i + 1..]));
      }
    }
  }

  ghost predicate ItemsAre(parse: JsonParser, trim: Text -> Text, text: Text, items: seq<Item>) {
    FileItems(parse, trim, WholeText(text, 0)) == items
  }

  /** However a file goes on after this text, these are its items. */
  ghost predicate Settled(parse: JsonParser, trim: Text -> Text, text: Text, items: seq<Item>) {
    forall rest: Text :: ItemsAre(parse, trim, text + rest, items)
  }

  /** Whether something failed, so that nothing more is read. */
  predicate Stopped(items: seq<Item>) {
    exists i | 0 <= i < |items| :: items[i].Failed?
  }

  /** Takes one read: hands on the items of the lines it completes, and says whether reading ends here. */
  method TakeRead(reader: Reader, parse: JsonParser, trim: Text -> Text, chunk: Chunk)
    returns (items: seq<Item>, done: bool, grew: bool)
    requires reader.Valid() && AllEvents(LineItems(parse, trim, reader.lines))
    modifies reader
    ensures reader.total == old(reader.total) + chunk.bytes
    ensures grew <==> reader.maxTotalBytes.Some? && reader.total > reader.maxTotalBytes.value
    ensures grew ==> done && items == [Failed(Unreadable(FileGrew))]
    ensures done && !grew ==>
      Settled(parse, trim, old(reader.consumed) + chunk.text, LineItems(parse, trim, old(reader.lines)) + items)
    ensures !done ==>
      && reader.Valid() && reader.consumed == old(reader.consumed) + chunk.text
      && AllEvents(LineItems(parse, trim, reader.lines))
      && LineItems(parse, trim, reader.lines) == LineItems(parse, trim, old(reader.lines)) + items
  {
    var emitted, failure := reader.Feed(chunk);
    if failure == Some(FileGrew) {
      return [Failed(Unreadable(FileGrew))], true, true;
    }
    LineItemsConcat(parse, trim, old(reader.lines), emitted);
    items := TakeItems(parse, trim, emitted);
    StoppedTogether(LineItems(parse, trim, old(reader.lines)), items);
    done, grew := Stopped(items) || failure.Some?, false;
    if failure.Some? {
      SettledByFailure(parse, trim, old(reader.consumed) + chunk.text, old(reader.lines) + emitted, failure.value);
      if !Stopped(items) {
        Regrouped(LineItems(parse, trim, old(reader.lines)), items, [Failed(Unreadable(failure.value))]);
        items := items + [Failed(Unreadable(failure.value))];
      }
    } else if done {
      SettledByLine(parse, trim, reader.consumed, reader.lines, reader.pending, reader.number);
    }
  }

  lemma StoppedTogether(before: seq<Item>, items: seq<Item>)
    requires AllEvents(before)
    ensures AllEvents(before + items) <==> !Stopped(items)
  {
    assert forall i | 0 <= i < |items| :: (before + items)[|before| + i] == items[i];
  }

  /** The end of the file: the items of the line it may leave. */
  method TakeRest(reader: Reader, parse: JsonParser, trim: Text -> Text, tail: Text) returns (items: seq<Item>)
    requires reader.Valid() && AllEvents(LineItems(parse, trim, reader.lines)) && NEWLINE !in tail
    modifies reader
    ensures ItemsAre(parse, trim, old(reader.consumed) + tail, LineItems(parse, trim, old(reader.lines)) + items)
  {
    var emitted, failure := reader.Finish(tail);
    LineItemsConcat(parse, trim, old(reader.lines), emitted);
    items := TakeItems(parse, trim, emitted);
    StoppedTogether(LineItems(parse, trim, old(reader.lines)), items);
    if failure.Some? && !Stopped(items) {
      Regrouped(LineItems(parse, trim, old(reader.lines)), items, [Failed(Unreadable(failure.value))]);
      items := items + [Failed(Unreadable(failure.value))];
    }
  }

  /**
   * Streams a file: a read is taken only after the items of those before it were handed
   * on, and none after a failure. `grew` says that the file was refused for its size,
   * whatever it holds.
   */
  method StreamFile(parse: JsonParser, trim: Text -> Text, chunks: seq<Chunk>, tail: Text, maxTotalBytes: Option<nat>)
    returns (items: seq<Item>, taken: nat, grew: bool)
    requires NEWLINE !in tail
    ensures taken <= |chunks|
    ensures !grew ==> ItemsAre(parse, trim, TextOfChunks(chunks) + tail, items)
    ensures !grew && taken < |chunks| ==> Settled(parse, trim, TextOfChunks(chunks[..taken]), items)
    ensures grew ==> GrewAfter(parse, trim, TextOfChunks(chunks) + tail, items)
    ensures grew <==> maxTotalBytes.Some? && BytesOfChunks(chunks[..taken]) > maxTotalBytes.value
  {
    var reader := new Reader(maxTotalBytes);
    items, taken, grew := [], 0, false;
    while taken < |chunks|
      invariant taken <= |chunks| && !grew
      invariant reader.Valid() && fresh(reader) && reader.maxTotalBytes == maxTotalBytes
      invariant reader.consumed == TextOfChunks(chunks[..taken]) && reader.total == BytesOfChunks(chunks[..taken])
      invariant AllEvents(items) && items == LineItems(parse, trim, reader.lines)
      invariant maxTotalBytes.Some? ==> reader.total <= maxTotalBytes.value
    {
      assert chunks[..taken + 1][..taken] == chunks[..taken];
      RestOfFile(chunks, tail, taken);
      RestOfFile(chunks, tail, taken + 1);
      EventsSoFar(parse, trim, reader.consumed, reader.lines, reader.pending, reader.number,
        RestFrom(chunks, tail, taken));
      ghost var rest := RestFrom(chunks, tail, taken + 1);
      var more, done;
      more, done, grew := TakeRead(reader, parse, trim, chunks[taken]);
      items, taken := items + more, taken + 1;
      if done {
        assert !grew ==> ItemsAre(parse, trim, TextOfChunks(chunks[..taken]) + rest, items);
        return;
      }
    }
    assert chunks[..|chunks|] == chunks;
    var more := TakeRest(reader, parse, trim, tail);
    items := items + more;
  }

  /** A file refused for its size: the events handed on so far, and the refusal. */
  ghost predicate GrewAfter(parse: JsonParser, trim: Text -> Text, text: Text, items: seq<Item>) {
    && items != [] && items[|items| - 1] == Failed(Unreadable(FileGrew))
    && AllEvents(items[..|items| - 1])
    && items[..|items| - 1] <= FileItems(parse, trim, WholeText(text, 0))
  }

  lemma LineItemsCons(parse: JsonParser, trim: Text -> Text, line: Line, rest: seq<Line>)
    ensures var item := ItemOf(parse, trim, line);
      LineItems(parse, trim, [line] + rest) ==
        if item.None? then LineItems(parse, trim, rest)
        else if item.value.Failed? then [item.value]
        else [item.value] + LineItems(parse, trim, rest)
  {
    assert ([line] + rest)[1..] == rest;
  }

  lemma {:induction false} LineItemsConcat(parse: JsonParser, trim: Text -> Text, a: seq<Line>, b: seq<Line>)
    ensures AllEvents(LineItems(parse, trim, a)) ==>
      LineItems(parse, trim, a + b) == LineItems(parse, trim, a) + LineItems(parse, trim, b)
    ensures !AllEvents(LineItems(parse, trim, a)) ==> LineItems(parse, trim, a + b) == LineItems(parse, trim, a)
  {
    if a == [] {
      assert a + b == b;
    } else {
      var line, rest := a[0], a[1..];
      assert a == [line] + rest && a + b == [line] + (rest + b);
      LineItemsConcat(parse, trim, rest, b);
      LineItemsCons(parse, trim, line, rest);
      LineItemsCons(parse, trim, line, rest + b);
      var item, items := ItemOf(parse, trim, line), LineItems(parse, trim, rest);
      if item.Some? && item.value.Event? {
        EventsThenMore(item.value, items);
        Regrouped([item.value], items, LineItems(parse, trim, b));
        assert LineItems(parse, trim, a) == [item.value] + items;
      } else if item.Some? {
        assert LineItems(parse, trim, a)[0].Failed?;
      }
    }
  }

  lemma SettledByLine(
    parse: JsonParser, trim: Text -> Text, consumed: Text, lines: seq<Line>, pending: Text, number: nat)
    requires FollowsOn(consumed, lines, pending, number)
    requires !AllEvents(LineItems(parse, trim, lines))
    ensures Settled(parse, trim, consumed, LineItems(parse, trim, lines))
  {
    forall rest: Text
      ensures ItemsAre(parse, trim, consumed + rest, LineItems(parse, trim, lines))
    {
      assert ReadsAs(consumed, lines, pending, number, rest);
      LineItemsConcat(parse, trim, lines, WholeText(pending + rest, number).lines);
    }
  }

  lemma SettledByFailure(parse: JsonParser, trim: Text -> Text, consumed: Text, lines: seq<Line>, failure: Failure)
    requires FailsAt(consumed, lines, failure)
    ensures Settled(parse, trim, consumed, FileItems(parse, trim, Reading(lines, Some(failure))))
  {
    forall rest: Text
      ensures ItemsAre(parse, trim, consumed + rest, FileItems(parse, trim, Reading(lines, Some(failure))))
    {
      assert FailsWith(consumed, lines, failure, rest);
    }
  }

  lemma EventsSoFar(
    parse: JsonParser, trim: Text -> Text, consumed: Text, lines: seq<Line>, pending: Text, number: nat, rest: Text)
    requires FollowsOn(consumed, lines, pending, number) && AllEvents(LineItems(parse, trim, lines))
    ensures LineItems(parse, trim, lines) <= FileItems(parse, trim, WholeText(consumed + rest, 0))
  {
    assert ReadsAs(consumed, lines, pending, number, rest);
    LineItemsConcat(parse, trim, lines, WholeText(pending + rest, number).lines);
  }

  lemma Regrouped(before: seq<Item>, items: seq<Item>, after: seq<Item>)
    ensures before + (items + after) == before + items + after
  {
  }

  /** The line cannot be handed on: it does not parse, or nests too deep. */
  predicate BadLine(parse: JsonParser, trim: Text -> Text, line: Line) {
    var item := ItemOf(parse, trim, line);
    item.Some? && item.value.Failed?
  }

  lemma EventsThenMore(item: Item, rest: seq<Item>)
    requires item.Event?
    ensures AllEvents([item] + rest) <==> AllEvents(rest)
    ensures rest == [] || AllEvents(rest[..|rest| - 1]) ==> AllEvents(([item] + rest)[..|rest|])
  {
    var items := [item] + rest;
    assert forall i | 0 <= i < |rest| :: items[i + 1] == rest[i];
    assert forall i | 0 < i < |items| :: items[i] == rest[i - 1];
  }

  lemma {:induction false} LineItemsEndAtFailure(parse: JsonParser, trim: Text -> Text, lines: seq<Line>)
    ensures var items := LineItems(parse, trim, lines);
      && (items == [] || AllEvents(items[..|items| - 1]))
      && (AllEvents(items) <==> forall l | l in lines :: !BadLine(parse, trim, l))
  {
    if lines != [] {
      LineItemsEndAtFailure(parse, trim, lines[1..]);
      assert forall l :: l in lines <==> l == lines[0] || l in lines[1..];
      match ItemOf(parse, trim, lines[0])
      case None =>
      case Some(Failed(reason)) =>
        assert !LineItems(parse, trim, lines)[0].Event?;
        assert BadLine(parse, trim, lines[0]);
      case Some(Event(index, event)) =>
        EventsThenMore(Event(index, event), LineItems(parse, trim, lines[1..]));
    }
  }

  /** One failure ends the file: every item before the last is an event, and nothing is dropped in silence. */
  lemma OneFailureEndsTheFile(parse: JsonParser, trim: Text -> Text, reading: Reading)
    ensures var items := FileItems(parse, trim, reading);
      && (items == [] || AllEvents(items[..|items| - 1]))
      && (AllEvents(items) <==>
          && reading.failure.None?
          && forall l | l in reading.lines :: !BadLine(parse, trim, l))
  {
    LineItemsEndAtFailure(parse, trim, reading.lines);
    var items := LineItems(parse, trim, reading.lines);
    if AllEvents(items) && reading.failure.Some? {
      var all := FileItems(parse, trim, reading);
      assert all[..|all| - 1] == items && !all[|all| - 1].Event?;
    }
  }

  lemma {:induction false} EventOfLine(parse: JsonParser, trim: Text -> Text, lines: seq<Line>, i: nat)
    returns (line: Line)
    requires i < |LineItems(parse, trim, lines)|
    ensures line in lines && ItemOf(parse, trim, line) == Some(LineItems(parse, trim, lines)[i])
  {
    match ItemOf(parse, trim, lines[0])
    case None => line := EventOfLine(parse, trim, lines[1..], i);
    case Some(item) =>
      if i == 0 {
        line := lines[0];
      } else {
        line := EventOfLine(parse, trim, lines[1..], i - 1);
      }
  }

  /** Of the events handed on, exactly those can be hashed whose hashed numbers are all finite. */
  lemma StreamedEventsHashable(parse: JsonParser, trim: Text -> Text, reading: Reading, i: nat)
    requires i < |FileItems(parse, trim, reading)| && FileItems(parse, trim, reading)[i].Event?
    ensures var event := FileItems(parse, trim, reading)[i].event;
      && (AssertJsonValue(event, 0) <==> Finite(event))
      && (CanonicalBytes(DigestInput(event)).Some? <==> HashedFinite(event))
  {
    var line := EventOfLine(parse, trim, reading.lines, i);
    ReadableIsHashable(FileItems(parse, trim, reading)[i].event);
  }

  /** A line that writes a number beyond the double range is handed on as an event, which cannot be hashed. */
  lemma InfinityIsHandedOn(parse: JsonParser, trim: Text -> Text, line: Line)
    requires trim(line.text) != []
    requires parse(trim(line.text)) == Some(Object([Field(Ascii("n"), NonFinite(false))]))
    ensures ItemOf(parse, trim, line).Some? && ItemOf(parse, trim, line).value.Event?
    ensures CanonicalBytes(DigestInput(ItemOf(parse, trim, line).value.event)).None?
  {
    InfinityIsNotHashable();
  }

  /** Lines are in the order of their numbers. */
  predicate InOrder(lines: seq<Line>) {
    forall i, j | 0 <= i < j < |lines| :: lines[i].number < lines[j].number
  }

  predicate IndexesRise(items: seq<Item>) {
    forall i, j | 0 <= i < j < |items| && items[i].Event? && items[j].Event? :: items[i].index < items[j].index
  }

  /** Lines in order give events in order. */
  lemma {:induction false} IndexesIncrease(parse: JsonParser, trim: Text -> Text, lines: seq<Line>)
    requires InOrder(lines)
    ensures IndexesRise(LineItems(parse, trim, lines))
  {
    if lines != [] {
      var rest := LineItems(parse, trim, lines[1..]);
      IndexesIncrease(parse, trim, lines[1..]);
      match ItemOf(parse, trim, lines[0])
      case None =>
      case Some(Failed(_)) =>
      case Some(Event(index, event)) =>
        forall j | 0 <= j < |rest| && rest[j].Event?
          ensures index < rest[j].index
        {
          var line := EventOfLine(parse, trim, lines[1..], j);
          var k :| 0 <= k < |lines[1..]| && lines[1..][k] == line;
        }
        RisesFrom(Event(index, event), rest);
    }
  }

  lemma RisesFrom(first: Item, rest: seq<Item>)
    requires first.Event? && IndexesRise(rest)
    requires forall j | 0 <= j < |rest| && rest[j].Event? :: first.index < rest[j].index
    ensures IndexesRise([first] + rest)
  {
    var items := [first] + rest;
    assert forall i | 0 < i < |items| :: items[i] == rest[i - 1];
  }

  /** The lines a reader numbers are in order. */
  lemma {:induction false} NumberedInOrder(texts: seq<Text>, number: nat)
    ensures InOrder(Numbered(texts, number).lines)
    ensures forall l | l in Numbered(texts, number).lines :: l.number > number
  {
    if texts != [] && !TooLong(texts[0]) {
      NumberedInOrder(texts[1..], number + 1);
      var rest := Numbered(texts[1..], number + 1).lines;
      assert forall j | 0 <= j < |rest| :: rest[j] in rest;
    }
  }

  /** The events of a file carry rising line numbers: no two of them share one. */
  lemma FileIndexesRise(parse: JsonParser, trim: Text -> Text, text: Text)
    ensures IndexesRise(FileItems(parse, trim, WholeText(text, 0)))
  {
    NumberedInOrder(SplitLines(text), 0);
    IndexesIncrease(parse, trim, WholeText(text, 0).lines);
  }

  // ---------------------------------------------------------------- line by line

  /** What a line comes to: nothing when it is blank, else an event, or the reason it is none. */
  lemma ItemExactly(parse: JsonParser, trim: Text -> Text, line: Line)
    ensures var item, parsed := ItemOf(parse, trim, line), parse(trim(line.text));
      && (item.None? <==> trim(line.text) == [])
      && (item == Some(Failed(NotJsonText(line.number))) <==> trim(line.text) != [] && parsed.None?)
      && (item == Some(Failed(TooDeep(line.number))) <==>
            trim(line.text) != [] && parsed.Some? && NestedTooDeep(parsed.value, 0))
      && (forall n: nat, e: JsValue :: item == Some(Event(n, e)) <==>
            && trim(line.text) != [] && parsed == Some(e) && !NestedTooDeep(e, 0)
            && n == line.number)
  {
  }

  /** A line reading goes on after: blank, or an event within the depth limit. */
  predicate GoodLine(parse: JsonParser, trim: Text -> Text, line: Line) {
    || trim(line.text) == []
    || (parse(trim(line.text)).Some? && !NestedTooDeep(parse(trim(line.text)).value, 0))
  }

  /** The lines before a position are all good. */
  ghost predicate GoodUpTo(parse: JsonParser, trim: Text -> Text, lines: seq<Line>, i: nat) {
    i <= |lines| && forall j | 0 <= j < i :: GoodLine(parse, trim, lines[j])
  }

  lemma GoodTail(parse: JsonParser, trim: Text -> Text, lines: seq<Line>, i: nat)
    requires lines != [] && i > 0
    ensures GoodUpTo(parse, trim, lines, i) <==>
      GoodLine(parse, trim, lines[0]) && GoodUpTo(parse, trim, lines[1..], i - 1)
  {
    if GoodUpTo(parse, trim, lines[1..], i - 1) && GoodLine(parse, trim, lines[0]) {
      forall j | 0 <= j < i
        ensures GoodLine(parse, trim, lines[j])
      {
        assert j > 0 ==> lines[1..][j - 1] == lines[j];
      }
    }
  }

  /** No line is skipped: every line up to the first bad one that is not blank is among the items, in its own right. */
  lemma {:induction false} EveryLineHandedOn(parse: JsonParser, trim: Text -> Text, lines: seq<Line>, i: nat)
    requires i < |lines| && GoodUpTo(parse, trim, lines, i) && trim(lines[i].text) != []
    ensures ItemOf(parse, trim, lines[i]).Some? && ItemOf(parse, trim, lines[i]).value in LineItems(parse, trim, lines)
  {
    if i > 0 {
      GoodTail(parse, trim, lines, i);
      EveryLineHandedOn(parse, trim, lines[1..], i - 1);
    }
  }

  /** Nothing else is handed on: an item is that of a line with only good lines before it. */
  lemma {:induction false} ItemHasLine(
    parse: JsonParser, trim: Text -> Text, lines: seq<Line>, item: Item)
    returns (i: nat)
    requires item in LineItems(parse, trim, lines)
    ensures i < |lines| && GoodUpTo(parse, trim, lines, i) && ItemOf(parse, trim, lines[i]) == Some(item)
  {
    if ItemOf(parse, trim, lines[0]) == Some(item) {
      i := 0;
    } else {
      i := ItemHasLine(parse, trim, lines[1..], item);
      i := i + 1;
      GoodTail(parse, trim, lines, i);
    }
  }

  /** The items of a text, each from its line, and the reader's failure when every line before it is good. */
  lemma FileItemsExactly(parse: JsonParser, trim: Text -> Text, text: Text, item: Item)
    ensures var r := WholeText(text, 0);
      item in FileItems(parse, trim, r) <==>
        || (exists i: nat ::
          i < |r.lines| && GoodUpTo(parse, trim, r.lines, i) && ItemOf(parse, trim, r.lines[i]) == Some(item))
        || (&& r.failure.Some? && item == Failed(Unreadable(r.failure.value))
            && GoodUpTo(parse, trim, r.lines, |r.lines|))
  {
    var r := WholeText(text, 0);
    var items := LineItems(parse, trim, r.lines);
    AllGood(parse, trim, r.lines);
    if item in items {
      var i := ItemHasLine(parse, trim, r.lines, item);
    }
    if i: nat :| i < |r.lines| && GoodUpTo(parse, trim, r.lines, i) && ItemOf(parse, trim, r.lines[i]) == Some(item) {
      EveryLineHandedOn(parse, trim, r.lines, i);
    }
  }

  lemma AllGood(parse: JsonParser, trim: Text -> Text, lines: seq<Line>)
    ensures AllEvents(LineItems(parse, trim, lines)) <==> GoodUpTo(parse, trim, lines, |lines|)
  {
    LineItemsEndAtFailure(parse, trim, lines);
    forall l | l in lines
      ensures BadLine(parse, trim, l) <==> !GoodLine(parse, trim, l)
    {
      ItemExactly(parse, trim, l);
    }
    if GoodUpTo(parse, trim, lines, |lines|) {
      forall l | l in lines
        ensures GoodLine(parse, trim, l)
      {
        var i :| 0 <= i < |lines| && lines[i] == l;
      }
    }
  }
}
