/** From the reads of an archive's files to the report on its chains, with the labels events get on the way. */
module Pipeline {
  import opened Wrappers
  import opened Unicode
  import opened EventVerification
  import opened Chain
  import opened Checkpoint
  import opened CheckpointProperties
  import opened LineReader
  import opened Stream
  import ChainIntake

  /** A JSON Lines file as it is read: its displayed name, the reads, and what the decoder held at the end. */
  datatype File = File(name: Text, chunks: seq<Chunk>, tail: Text)

  /** What a decoder holds back is never a whole character, so never a newline. */
  type SourceFile = f: File | NEWLINE !in f.tail witness File([], [], [])

  function FileText(file: File): Text {
    TextOfChunks(file.chunks) + file.tail
  }

  // ---------------------------------------------------------------- labels

  const NUMBER_SIGN: CodeUnit := 35

  function Decimal(n: nat): (digits: Text)
    ensures digits != [] && forall d | d in digits :: 48 <= d <= 57
  {
    if n < 10 then [48 + n] else Decimal(n / 10) + [48 + n % 10]
  }

  /** The number a text of decimal digits stands for. */
  function NumberOf(digits: Text): int {
    if digits == [] then 0
    else
      var last: int := digits[|digits| - 1];
      NumberOf(digits[..|digits| - 1]) * 10 + (last - 48)
  }

  /** Decimal notation, without a leading zero. */
  lemma {:induction false} DecimalIsNumber(n: nat)
    ensures NumberOf(Decimal(n)) == n
    ensures |Decimal(n)| > 1 ==> Decimal(n)[0] != 48
  {
    if n < 10 {
      assert Decimal(n)[..0] == [];
    } else {
      var digits := Decimal(n);
      DecimalIsNumber(n / 10);
      assert digits[..|digits| - 1] == Decimal(n / 10);
      if |Decimal(n / 10)| == 1 {
        assert n / 10 < 10;
      }
    }
  }

  /** The label of an event: its file and its line. */
  function LabelOf(name: Text, line: nat): Text {
    name + [NUMBER_SIGN] + Decimal(line)
  }

  lemma {:induction false} DecimalInjective(m: nat, n: nat)
    requires Decimal(m) == Decimal(n)
    ensures m == n
  {
    var u, v := Decimal(m), Decimal(n);
    assert u[|u| - 1] == 48 + m % 10 && v[|v| - 1] == 48 + n % 10;
    if m >= 10 && n >= 10 {
      assert u[..|u| - 1] == Decimal(m / 10) && v[..|v| - 1] == Decimal(n / 10);
      DecimalInjective(m / 10, n / 10);
    } else {
      assert |u| == 1 && |v| == 1;
    }
  }

  /** How many units follow the last number sign. */
  function AfterSign(t: Text): nat {
    if t == [] || t[|t| - 1] == NUMBER_SIGN then 0 else 1 + AfterSign(t[..|t| - 1])
  }

  lemma {:induction false} AfterSignIsDigits(name: Text, digits: Text)
    requires NUMBER_SIGN !in digits
    ensures AfterSign(name + [NUMBER_SIGN] + digits) == |digits|
  {
    var t := name + [NUMBER_SIGN] + digits;
    if digits != [] {
      assert t[..|t| - 1] == name + [NUMBER_SIGN] + digits[..|digits| - 1];
      AfterSignIsDigits(name, digits[..|digits| - 1]);
    }
  }

  lemma NumberSignIsLast(name: Text, digits: Text, other: Text, digits': Text)
    requires NUMBER_SIGN !in digits && NUMBER_SIGN !in digits'
    requires name + [NUMBER_SIGN] + digits == other + [NUMBER_SIGN] + digits'
    ensures name == other && digits == digits'
  {
    var t := name + [NUMBER_SIGN] + digits;
    var u := other + [NUMBER_SIGN] + digits';
    AfterSignIsDigits(name, digits);
    AfterSignIsDigits(other, digits');
    assert name == t[..|name|] == u[..|other|] == other;
    assert digits == t[|name| + 1..] == u[|other| + 1..] == digits';
  }

  /** A label names one line of one file, even when the file's name looks like a label. */
  lemma LabelNamesLine(name: Text, line: nat, other: Text, line': nat)
    requires LabelOf(name, line) == LabelOf(other, line')
    ensures name == other && line == line'
  {
    NumberSignIsLast(name, Decimal(line), other, Decimal(line'));
    DecimalInjective(line, line');
  }

  // ---------------------------------------------------------------- the archive

  /** The items of a file, however it is split into reads. */
  function ItemsIn(parse: JsonParser, trim: Text -> Text, text: Text): seq<Item> {
    FileItems(parse, trim, WholeText(text, 0))
  }

  /** The events among the items of a file, under their labels. */
  function EventsOf(name: Text, items: seq<Item>): seq<ChainInput> {
    if items == [] then [] else EventsOf(name, items[..|items| - 1]) + EventIn(name, items[|items| - 1])
  }

  function EventIn(name: Text, item: Item): seq<ChainInput> {
    match item
    case Event(line, event) => [ChainInput(LabelOf(name, line), event)]
    case Failed(_) => []
  }

  function FailuresIn(items: seq<Item>): seq<Reason> {
    if items == [] then []
    else
      FailuresIn(items[..|items| - 1]) +
      match items[|items| - 1]
      case Event(_, _) => []
      case Failed(reason) => [reason]
  }

  /** All events of all files, in the order they are read. */
  function ArchiveOf(parse: JsonParser, trim: Text -> Text, files: seq<SourceFile>): seq<ChainInput> {
    if files == [] then []
    else
      var last := files[|files| - 1];
      ArchiveOf(parse, trim, files[..|files| - 1]) + EventsOf(last.name, ItemsIn(parse, trim, FileText(last)))
  }

  function FailuresOf(parse: JsonParser, trim: Text -> Text, files: seq<SourceFile>): seq<Reason> {
    if files == [] then []
    else
      FailuresOf(parse, trim, files[..|files| - 1]) + FailuresIn(ItemsIn(parse, trim, FileText(files[|files| - 1])))
  }

  /** Streams file after file into one intake, and collects what could not be read. */
  method VerifyFiles(ctx: Context, parse: JsonParser, trim: Text -> Text, files: seq<SourceFile>)
    returns (report: ChainReport, failures: seq<Reason>)
    ensures report == Report(ctx, ArchiveOf(parse, trim, files))
    ensures failures == FailuresOf(parse, trim, files)
  {
    var intake := new ChainIntake.Intake(ctx);
    failures := [];
    for i := 0 to |files|
      invariant intake.Valid() && fresh(intake) && intake.ctx == ctx
      invariant intake.seen == ArchiveOf(parse, trim, files[..i])
      invariant failures == FailuresOf(parse, trim, files[..i])
    {
      assert files[..i + 1][..i] == files[..i];
      var items, _, _ := StreamFile(parse, trim, files[i].chunks, files[i].tail, None);
      var more := HandOver(intake, files[i].name, items);
      failures := failures + more;
    }
    assert files[..|files|] == files;
    report := intake.FinishChains();
  }

  /** Hands the events of one file to the intake, and collects what failed. */
  method HandOver(intake: ChainIntake.Intake, name: Text, items: seq<Item>) returns (failures: seq<Reason>)
    requires intake.Valid()
    modifies intake
    ensures intake.Valid() && intake.seen == old(intake.seen) + EventsOf(name, items)
    ensures failures == FailuresIn(items)
  {
    failures := [];
    for i := 0 to |items|
      invariant intake.Valid() && intake.seen == old(intake.seen) + EventsOf(name, items[..i])
      invariant failures == FailuresIn(items[..i])
    {
      OneMoreItem(name, items, i);
      match items[i] {
        case Event(line, event) =>
          intake.AddChainEvent(ChainInput(LabelOf(name, line), event));
        case Failed(reason) =>
          failures := failures + [reason];
      }
    }
    assert items[..|items|] == items;
  }

  lemma OneMoreItem(name: Text, items: seq<Item>, i: nat)
    requires i < |items|
    ensures EventsOf(name, items[..i + 1]) == EventsOf(name, items[..i]) + EventIn(name, items[i])
    ensures FailuresIn(items[..i + 1])
      == FailuresIn(items[..i]) + if items[i].Failed? then [items[i].reason] else []
  {
    assert items[..i + 1][..i] == items[..i];
  }

  // ---------------------------------------------------------------- what the splits and the labels come to

  /** The same files, split into reads in two ways. */
  predicate SameFiles(files: seq<SourceFile>, others: seq<SourceFile>) {
    && |files| == |others|
    && forall i | 0 <= i < |files| :: files[i].name == others[i].name && FileText(files[i]) == FileText(others[i])
  }

  lemma {:induction false} SameArchive(
    parse: JsonParser, trim: Text -> Text, files: seq<SourceFile>, others: seq<SourceFile>)
    requires SameFiles(files, others)
    ensures ArchiveOf(parse, trim, files) == ArchiveOf(parse, trim, others)
    ensures FailuresOf(parse, trim, files) == FailuresOf(parse, trim, others)
  {
    if files != [] {
      SameArchive(parse, trim, files[..|files| - 1], others[..|others| - 1]);
    }
  }

  /** Where the reads split the files changes neither the verdict on any chain nor what is reported as unreadable. */
  lemma SplitsDoNotMatter(
    ctx: Context, parse: JsonParser, trim: Text -> Text, files: seq<SourceFile>, others: seq<SourceFile>)
    requires SameFiles(files, others)
    ensures Report(ctx, ArchiveOf(parse, trim, files)) == Report(ctx, ArchiveOf(parse, trim, others))
    ensures FailuresOf(parse, trim, files) == FailuresOf(parse, trim, others)
  {
    SameArchive(parse, trim, files, others);
  }

  lemma {:induction false} EventsOfHas(name: Text, items: seq<Item>, x: ChainInput) returns (i: nat)
    requires x in EventsOf(name, items)
    ensures i < |items| && items[i].Event? && x.tag == LabelOf(name, items[i].index)
  {
    i := |items| - 1;
    if x !in EventIn(name, items[i]) {
      i := EventsOfHas(name, items[..i], x);
    }
  }

  lemma DistinctConcat(a: seq<ChainInput>, b: seq<ChainInput>)
    requires DistinctTags(a) && DistinctTags(b)
    requires forall x, y | x in a && y in b :: x.tag != y.tag
    ensures DistinctTags(a + b)
  {
    var all := a + b;
    forall i, j | 0 <= i < j < |all|
      ensures all[i].tag != all[j].tag
    {
      if i < |a| <= j {
        assert all[i] in a && all[j] in b;
      }
    }
  }

  lemma {:induction false} FileLabelsDistinct(name: Text, items: seq<Item>)
    requires IndexesRise(items)
    ensures DistinctTags(EventsOf(name, items))
  {
    if items != [] {
      var front, last := items[..|items| - 1], items[|items| - 1];
      FileLabelsDistinct(name, front);
      forall x, y | x in EventsOf(name, front) && y in EventIn(name, last)
        ensures x.tag != y.tag
      {
        var i := EventsOfHas(name, front, x);
        if x.tag == y.tag {
          LabelNamesLine(name, items[i].index, name, last.index);
        }
      }
      DistinctConcat(EventsOf(name, front), EventIn(name, last));
    }
  }

  predicate DistinctNames(files: seq<SourceFile>) {
    forall i, j | 0 <= i < j < |files| :: files[i].name != files[j].name
  }

  lemma {:induction false} ArchiveHas(parse: JsonParser, trim: Text -> Text, files: seq<SourceFile>, x: ChainInput)
    returns (i: nat, line: nat)
    requires x in ArchiveOf(parse, trim, files)
    ensures i < |files| && x.tag == LabelOf(files[i].name, line)
  {
    i := |files| - 1;
    var items := ItemsIn(parse, trim, FileText(files[i]));
    if x in EventsOf(files[i].name, items) {
      var j := EventsOfHas(files[i].name, items, x);
      line := items[j].index;
    } else {
      i, line := ArchiveHas(parse, trim, files[..i], x);
    }
  }

  /** Events read from files of distinct names have distinct labels. */
  lemma {:induction false} ArchiveLabelsDistinct(parse: JsonParser, trim: Text -> Text, files: seq<SourceFile>)
    requires DistinctNames(files)
    ensures DistinctTags(ArchiveOf(parse, trim, files))
  {
    if files != [] {
      var front, last := files[..|files| - 1], files[|files| - 1];
      var items := ItemsIn(parse, trim, FileText(last));
      ArchiveLabelsDistinct(parse, trim, front);
      FileIndexesRise(parse, trim, FileText(last));
      FileLabelsDistinct(last.name, items);
      forall x, y | x in ArchiveOf(parse, trim, front) && y in EventsOf(last.name, items)
        ensures x.tag != y.tag
      {
        var i, line := ArchiveHas(parse, trim, front, x);
        var j := EventsOfHas(last.name, items, y);
        if x.tag == y.tag {
          LabelNamesLine(files[i].name, line, last.name, items[j].index);
        }
      }
      DistinctConcat(ArchiveOf(parse, trim, front), EventsOf(last.name, items));
    }
  }

  /** So the checkpoint's index of what was read is the grouping of the chain verifier. */
  lemma ReadArchiveIsIndexed(ctx: Context, parse: JsonParser, trim: Text -> Text, files: seq<SourceFile>, c: Text)
    requires DistinctNames(files)
    ensures var archive := ArchiveOf(parse, trim, files);
      IndexOf(ctx, archive, UnassignedTags(UnassignedOf(ctx, archive)), c)
        == Entries(Linkable(MembersOf(ctx, archive, c)))
  {
    ArchiveLabelsDistinct(parse, trim, files);
    IndexAgreesWithGrouping(ctx, ArchiveOf(parse, trim, files), c);
  }

  // ---------------------------------------------------------------- what is in the archive

  lemma {:induction false} EventsOfAre(name: Text, items: seq<Item>, x: ChainInput)
    ensures x in EventsOf(name, items) <==>
      exists line :: Event(line, x.event) in items && x.tag == name + [35] + Decimal(line)
  {
    if items != [] {
      var front, last := items[..|items| - 1], items[|items| - 1];
      EventsOfAre(name, front, x);
      assert items == front + [last];
    }
  }

  ghost predicate ReadFromFile(parse: JsonParser, trim: Text -> Text, file: SourceFile, x: ChainInput) {
    exists line ::
      && Event(line, x.event) in FileItems(parse, trim, WholeText(TextOfChunks(file.chunks) + file.tail, 0))
      && x.tag == file.name + [35] + Decimal(line)
  }

  lemma FileEventsAre(parse: JsonParser, trim: Text -> Text, file: SourceFile, x: ChainInput)
    ensures x in EventsOf(file.name, ItemsIn(parse, trim, FileText(file))) <==> ReadFromFile(parse, trim, file, x)
  {
    EventsOfAre(file.name, ItemsIn(parse, trim, FileText(file)), x);
  }

  lemma SomeFile(files: seq<SourceFile>, p: SourceFile -> bool)
    requires files != []
    ensures (exists f :: f in files && p(f)) <==>
      (exists f :: f in files[..|files| - 1] && p(f)) || p(files[|files| - 1])
  {
    assert files == files[..|files| - 1] + [files[|files| - 1]];
  }

  lemma ArchiveSnoc(parse: JsonParser, trim: Text -> Text, files: seq<SourceFile>, x: ChainInput)
    requires files != []
    ensures var last := files[|files| - 1];
      x in ArchiveOf(parse, trim, files) <==>
        || x in ArchiveOf(parse, trim, files[..|files| - 1])
        || x in EventsOf(last.name, ItemsIn(parse, trim, FileText(last)))
  {
  }

  /** The files that hand on this event, and by them whether it is in the archive. */
  lemma {:induction false} ArchiveBy(
    parse: JsonParser, trim: Text -> Text, files: seq<SourceFile>, x: ChainInput, hands: SourceFile -> bool)
    requires forall f: SourceFile :: hands(f) <==> x in EventsOf(f.name, ItemsIn(parse, trim, FileText(f)))
    ensures x in ArchiveOf(parse, trim, files) <==> exists f :: f in files && hands(f)
  {
    if files != [] {
      ArchiveBy(parse, trim, files[..|files| - 1], x, hands);
      ArchiveSnoc(parse, trim, files, x);
      SomeFile(files, hands);
    }
  }

  /** The archive is exactly what the files hand on, labelled by file and line. */
  lemma ArchiveExactly(parse: JsonParser, trim: Text -> Text, files: seq<SourceFile>, x: ChainInput)
    ensures x in ArchiveOf(parse, trim, files) <==> exists f :: f in files && ReadFromFile(parse, trim, f, x)
  {
    var hands := (f: SourceFile) => ReadFromFile(parse, trim, f, x);
    forall f: SourceFile
      ensures hands(f) <==> x in EventsOf(f.name, ItemsIn(parse, trim, FileText(f)))
    {
      FileEventsAre(parse, trim, f, x);
    }
    ArchiveBy(parse, trim, files, x, hands);
    assert forall f: SourceFile :: hands(f) <==> ReadFromFile(parse, trim, f, x);
  }

  lemma {:induction false} FailuresInAre(items: seq<Item>, reason: Reason)
    ensures reason in FailuresIn(items) <==> Item.Failed(reason) in items
  {
    if items != [] {
      FailuresInAre(items[..|items| - 1], reason);
      assert items == items[..|items| - 1] + [items[|items| - 1]];
    }
  }

  ghost predicate FailedFile(parse: JsonParser, trim: Text -> Text, file: SourceFile, reason: Reason) {
    Item.Failed(reason) in FileItems(parse, trim, WholeText(TextOfChunks(file.chunks) + file.tail, 0))
  }

  lemma FileFailuresAre(parse: JsonParser, trim: Text -> Text, file: SourceFile, reason: Reason)
    ensures reason in FailuresIn(ItemsIn(parse, trim, FileText(file))) <==> FailedFile(parse, trim, file, reason)
  {
    FailuresInAre(ItemsIn(parse, trim, FileText(file)), reason);
  }

  lemma {:induction false} FailuresBy(
    parse: JsonParser, trim: Text -> Text, files: seq<SourceFile>, reason: Reason, fails: SourceFile -> bool)
    requires forall f: SourceFile :: fails(f) <==> reason in FailuresIn(ItemsIn(parse, trim, FileText(f)))
    ensures reason in FailuresOf(parse, trim, files) <==> exists f :: f in files && fails(f)
  {
    if files != [] {
      FailuresBy(parse, trim, files[..|files| - 1], reason, fails);
      SomeFile(files, fails);
    }
  }

  /** Every reason a file could not be read to its end is reported, and no other. */
  lemma FailuresExactly(parse: JsonParser, trim: Text -> Text, files: seq<SourceFile>, reason: Reason)
    ensures reason in FailuresOf(parse, trim, files) <==> exists f :: f in files && FailedFile(parse, trim, f, reason)
  {
    var fails := (f: SourceFile) => FailedFile(parse, trim, f, reason);
    forall f: SourceFile
      ensures fails(f) <==> reason in FailuresIn(ItemsIn(parse, trim, FileText(f)))
    {
      FileFailuresAre(parse, trim, f, reason);
    }
    FailuresBy(parse, trim, files, reason, fails);
    assert forall f: SourceFile :: fails(f) <==> FailedFile(parse, trim, f, reason);
  }
}
