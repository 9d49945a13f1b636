/** Producing a chain, one sealed event after another, and verifying it. */
module Sealing {
  import opened Wrappers
  import opened Unicode
  import opened Json
  import opened Hashing
  import opened Digest
  import opened EventVerification
  import opened Chain
  import opened ChainOrder
  import opened ChainProperties

  /** What a producer prepares before sealing: everything but the link and the hash. */
  predicate Draft(ctx: Context, draft: Value, c: Text, algorithm: Text) {
    && ReadIntegrity(draft).Some?
    && AsText(IntegrityMember(draft, CANONICALIZATION)) == Some(RFC8785)
    && AsText(IntegrityMember(draft, HASH_ALGORITHM)) == Some(algorithm)
    && AsText(IntegrityMember(draft, CHAIN_ID)) == Some(c)
    && SequenceOf(ctx, draft).Some?
  }

  predicate AllDrafts(ctx: Context, drafts: seq<JsValue>, c: Text, algorithm: Text) {
    forall d | d in drafts :: Draft(ctx, d, c, algorithm)
  }

  /** Every draft passes the guard of canonicalization. */
  predicate AllHashable(drafts: seq<JsValue>) {
    forall d | d in drafts :: AssertJsonValue(d, 0)
  }

  /** The validator accepts every event, and no signature fails. */
  predicate AllAccepted(ctx: Context, events: seq<JsValue>) {
    forall e | e in events :: ctx.schemaValid(e) && SignatureFailure(ctx, e).None?
  }

  function LinkTo(draft: JsValue, previous: Option<Text>): JsValue
    requires ReadIntegrity(draft).Some?
  {
    match previous
    case None => draft
    case Some(hash) =>
      WithIntegrityRepresentable(draft, PREVIOUS_HASH, String(hash));
      WithIntegrity(draft, PREVIOUS_HASH, String(hash))
  }

  /** Sets the link, then seals; `None` where sealing throws. */
  function SealNext(h: HashFunction, draft: JsValue, previous: Option<Text>): Option<JsValue> {
    if ReadIntegrity(draft).None? then None
    else
      var linked := LinkTo(draft, previous);
      match SealEvent(h, linked)
      case Failure(_) => None
      case Success(sealed) =>
        SealedRepresentable(h, linked);
        Some(sealed)
  }

  lemma SealedRepresentable(h: HashFunction, event: JsValue)
    requires SealEvent(h, event).Success?
    ensures Representable(SealEvent(h, event).value)
  {
    SealIsFixedPoint(h, event, AsText(IntegrityMember(event, HASH_ALGORITHM)).value);
  }

  function HashOf(event: Value): Option<Text> {
    AsText(IntegrityMember(event, HASH))
  }

  /** Seals the drafts in turn, each linked to the hash of the one before. */
  function SealAll(h: HashFunction, drafts: seq<JsValue>, previous: Option<Text>): Option<seq<JsValue>> {
    if drafts == [] then Some([])
    else
      match SealNext(h, drafts[0], previous)
      case None => None
      case Some(event) =>
        match SealAll(h, drafts[1..], HashOf(event))
        case None => None
        case Some(rest) => Some([event] + rest)
  }

  /** What sealing one draft gives. */
  ghost predicate SealedFrom(ctx: Context, event: Value, draft: Value, c: Text, algorithm: Text) {
    && Draft(ctx, event, c, algorithm)
    && SequenceOf(ctx, event) == SequenceOf(ctx, draft)
    && HashOf(event).Some?
    && AlgorithmNamed(algorithm).Some?
    && Seals(ctx.hash, event, AlgorithmNamed(algorithm).value, HashOf(event).value)
  }

  lemma LinkToReads(ctx: Context, draft: JsValue, previous: Option<Text>, c: Text, algorithm: Text)
    requires Draft(ctx, draft, c, algorithm)
    ensures Draft(ctx, LinkTo(draft, previous), c, algorithm)
    ensures SequenceOf(ctx, LinkTo(draft, previous)) == SequenceOf(ctx, draft)
    ensures previous.Some? ==> AsText(IntegrityMember(LinkTo(draft, previous), PREVIOUS_HASH)) == previous
  {
    if previous.Some? {
      var value := String(previous.value);
      WithIntegrityReads(draft, PREVIOUS_HASH, value, PREVIOUS_HASH);
      WithIntegrityReads(draft, PREVIOUS_HASH, value, CANONICALIZATION);
      WithIntegrityReads(draft, PREVIOUS_HASH, value, HASH_ALGORITHM);
      WithIntegrityReads(draft, PREVIOUS_HASH, value, CHAIN_ID);
      WithIntegrityReads(draft, PREVIOUS_HASH, value, SEQUENCE);
    }
  }

  lemma SealedReads(ctx: Context, linked: JsValue, c: Text, algorithm: Text)
    requires Draft(ctx, linked, c, algorithm) && SealEvent(ctx.hash, linked).Success?
    ensures var event := SealEvent(ctx.hash, linked).value;
      && SealedFrom(ctx, event, linked, c, algorithm)
      && IntegrityMember(event, PREVIOUS_HASH) == IntegrityMember(linked, PREVIOUS_HASH)
  {
    SealIsFixedPoint(ctx.hash, linked, algorithm);
    var hash := String(CalculateDigest(ctx.hash, linked, algorithm).value);
    WithIntegrityReads(linked, HASH, hash, PREVIOUS_HASH);
    WithIntegrityReads(linked, HASH, hash, CANONICALIZATION);
    WithIntegrityReads(linked, HASH, hash, HASH_ALGORITHM);
    WithIntegrityReads(linked, HASH, hash, CHAIN_ID);
    WithIntegrityReads(linked, HASH, hash, SEQUENCE);
    WithIntegrityReads(linked, HASH, hash, HASH);
  }

  lemma SealNextReads(ctx: Context, draft: JsValue, previous: Option<Text>, c: Text, algorithm: Text)
    requires Draft(ctx, draft, c, algorithm) && SealNext(ctx.hash, draft, previous).Some?
    ensures var event := SealNext(ctx.hash, draft, previous).value;
      && SealedFrom(ctx, event, draft, c, algorithm)
      && (previous.Some? ==> AsText(IntegrityMember(event, PREVIOUS_HASH)) == previous)
  {
    LinkToReads(ctx, draft, previous, c, algorithm);
    SealedReads(ctx, LinkTo(draft, previous), c, algorithm);
  }

  ghost predicate LinkedEvents(events: seq<JsValue>) {
    forall i, j | 0 <= i < j < |events| && j == i + 1 ::
      AsText(IntegrityMember(events[j], PREVIOUS_HASH)) == HashOf(events[i])
  }

  ghost predicate AllSealedFrom(ctx: Context, events: seq<JsValue>, drafts: seq<JsValue>, c: Text, algorithm: Text) {
    |events| == |drafts| && forall i | 0 <= i < |events| :: SealedFrom(ctx, events[i], drafts[i], c, algorithm)
  }

  /** The first event links to this hash, when there is one to link to. */
  predicate StartsAfter(events: seq<JsValue>, previous: Option<Text>) {
    events != [] && previous.Some? ==> AsText(IntegrityMember(events[0], PREVIOUS_HASH)) == previous
  }

  lemma LinkedCons(event: JsValue, rest: seq<JsValue>)
    requires LinkedEvents(rest) && StartsAfter(rest, HashOf(event)) && HashOf(event).Some?
    ensures LinkedEvents([event] + rest)
  {
    var events := [event] + rest;
    forall i, j | 0 <= i < j < |events| && j == i + 1
      ensures AsText(IntegrityMember(events[j], PREVIOUS_HASH)) == HashOf(events[i])
    {
      if i > 0 {
        assert events[i] == rest[i - 1] && events[j] == rest[j - 1];
      }
    }
  }

  lemma SealedCons(ctx: Context, event: JsValue, rest: seq<JsValue>, drafts: seq<JsValue>, c: Text, algorithm: Text)
    requires drafts != [] && SealedFrom(ctx, event, drafts[0], c, algorithm)
    requires AllSealedFrom(ctx, rest, drafts[1..], c, algorithm)
    ensures AllSealedFrom(ctx, [event] + rest, drafts, c, algorithm)
  {
  }

  lemma {:induction false} SealAllReads(
    ctx: Context, drafts: seq<JsValue>, previous: Option<Text>, c: Text, algorithm: Text)
    requires AllDrafts(ctx, drafts, c, algorithm)
    requires SealAll(ctx.hash, drafts, previous).Some?
    ensures var events := SealAll(ctx.hash, drafts, previous).value;
      AllSealedFrom(ctx, events, drafts, c, algorithm) && LinkedEvents(events) && StartsAfter(events, previous)
  {
    if drafts != [] {
      var event := SealNext(ctx.hash, drafts[0], previous).value;
      var rest := SealAll(ctx.hash, drafts[1..], HashOf(event)).value;
      SealNextReads(ctx, drafts[0], previous, c, algorithm);
      SealAllReads(ctx, drafts[1..], HashOf(event), c, algorithm);
      SealedCons(ctx, event, rest, drafts, c, algorithm);
      LinkedCons(event, rest);
    }
  }

  // ---------------------------------------------------------------- sealing succeeds

  /** A text in the integrity object stands two levels deep, well within the limit. */
  lemma WithTextHashable(event: JsValue, key: Text, text: Text)
    requires AssertJsonValue(event, 0) && ReadIntegrity(event).Some?
    ensures AssertJsonValue(WithIntegrity(event, key, String(text)), 0)
  {
    GetHas(event.fields, INTEGRITY);
    var fields := ReadIntegrity(event).value.fields;
    assert AssertJsonValue(Object(fields), 1);
    var integrity := Object(Put(fields, key, String(text)));
    forall f | f in integrity.fields
      ensures AssertJsonValue(f.value, 2)
    {
      PutHas(fields, key, String(text), f);
    }
    forall f | f in Put(event.fields, INTEGRITY, integrity)
      ensures AssertJsonValue(f.value, 1)
    {
      PutHas(event.fields, INTEGRITY, integrity, f);
    }
  }

  lemma LinkToHashable(draft: JsValue, previous: Option<Text>)
    requires AssertJsonValue(draft, 0) && ReadIntegrity(draft).Some?
    ensures AssertJsonValue(LinkTo(draft, previous), 0)
  {
    if previous.Some? {
      WithTextHashable(draft, PREVIOUS_HASH, previous.value);
    }
  }

  lemma SealNextSucceeds(ctx: Context, draft: JsValue, previous: Option<Text>, c: Text, algorithm: Text)
    requires Draft(ctx, draft, c, algorithm) && AssertJsonValue(draft, 0) && AlgorithmNamed(algorithm).Some?
    ensures SealNext(ctx.hash, draft, previous).Some?
  {
    LinkToReads(ctx, draft, previous, c, algorithm);
    LinkToHashable(draft, previous);
    DigestInputSound(LinkTo(draft, previous));
  }

  /** Drafts that JSON can represent, within the depth limit, under a supported algorithm: sealing them never throws. */
  lemma {:induction false} SealAllSucceeds(
    ctx: Context, drafts: seq<JsValue>, previous: Option<Text>, c: Text, algorithm: Text)
    requires AllDrafts(ctx, drafts, c, algorithm) && AllHashable(drafts)
    requires AlgorithmNamed(algorithm).Some?
    ensures SealAll(ctx.hash, drafts, previous).Some?
  {
    if drafts != [] {
      SealNextSucceeds(ctx, drafts[0], previous, c, algorithm);
      SealAllSucceeds(ctx, drafts[1..], HashOf(SealNext(ctx.hash, drafts[0], previous).value), c, algorithm);
    }
  }

  // ---------------------------------------------------------------- verifying what was sealed

  /** The sealed events under their labels, as they are offered for verification. */
  function Offered(tags: seq<Text>, events: seq<JsValue>): seq<ChainInput>
    requires |tags| == |events|
  {
    seq(|events|, i requires 0 <= i < |events| => ChainInput(tags[i], events[i]))
  }

  predicate Increasing(ctx: Context, drafts: seq<JsValue>) {
    && (forall d | d in drafts :: SequenceOf(ctx, d).Some?)
    && (forall i, j | 0 <= i < j < |drafts| :: SequenceOf(ctx, drafts[i]).value < SequenceOf(ctx, drafts[j]).value)
  }

  /** What a sealed event is reduced to. */
  predicate SealedMember(m: ChainMember, sequence: Option<nat>, hash: Option<Text>, algorithm: Text) {
    && m.digestFindings == []
    && m.sequence.Some? && m.sequence == sequence
    && m.hash.Some? && m.hash == hash
    && m.hashAlgorithm == Some(algorithm) && m.canonicalization == Some(RFC8785)
  }

  lemma SealedIsMember(ctx: Context, x: ChainInput, draft: JsValue, c: Text, algorithm: Text)
    requires SealedFrom(ctx, x.event, draft, c, algorithm)
    requires ctx.schemaValid(x.event) && SignatureFailure(ctx, x.event).None?
    ensures Place(ctx, x) == Assigned(c, MemberOf(ctx, x))
    ensures SealedMember(MemberOf(ctx, x), SequenceOf(ctx, draft), HashOf(x.event), algorithm)
    ensures IsHexDigest(HashOf(x.event).value)
  {
    VerifiedIsSealed(ctx, x.event, false);
  }

  function MembersInOrder(ctx: Context, xs: seq<ChainInput>): (ms: seq<ChainMember>)
    ensures |ms| == |xs|
    ensures forall i | 0 <= i < |xs| :: ms[i] == MemberOf(ctx, xs[i])
  {
    if xs == [] then [] else MembersInOrder(ctx, xs[..|xs| - 1]) + [MemberOf(ctx, xs[|xs| - 1])]
  }

  lemma {:induction false} AllInOneChain(ctx: Context, xs: seq<ChainInput>, c: Text)
    requires forall x | x in xs :: Place(ctx, x) == Assigned(c, MemberOf(ctx, x))
    ensures MembersOf(ctx, xs, c) == MembersInOrder(ctx, xs)
    ensures forall d | d != c :: MembersOf(ctx, xs, d) == []
  {
    if xs != [] {
      AllInOneChain(ctx, xs[..|xs| - 1], c);
    }
  }

  /** Drafts sealed in turn, as events offered for verification. */
  ghost predicate SealedInTurn(ctx: Context, xs: seq<ChainInput>, drafts: seq<JsValue>, c: Text, algorithm: Text) {
    && |xs| == |drafts|
    && Increasing(ctx, drafts)
    && (forall i | 0 <= i < |xs| :: SealedFrom(ctx, xs[i].event, drafts[i], c, algorithm))
    && (forall i | 0 <= i < |xs| :: ctx.schemaValid(xs[i].event) && SignatureFailure(ctx, xs[i].event).None?)
    && (forall i, j | 0 <= i < j < |xs| && j == i + 1 ::
          AsText(IntegrityMember(xs[j].event, PREVIOUS_HASH)) == HashOf(xs[i].event))
  }

  lemma SealedAt(ctx: Context, xs: seq<ChainInput>, drafts: seq<JsValue>, c: Text, algorithm: Text, i: nat)
    requires SealedInTurn(ctx, xs, drafts, c, algorithm) && i < |xs|
    ensures Place(ctx, xs[i]) == Assigned(c, MemberOf(ctx, xs[i]))
    ensures SealedMember(MembersInOrder(ctx, xs)[i], SequenceOf(ctx, drafts[i]), HashOf(xs[i].event), algorithm)
    ensures IsHexDigest(HashOf(xs[i].event).value)
  {
    SealedIsMember(ctx, xs[i], drafts[i], c, algorithm);
  }

  /** Sealed in turn, the members verify, rise and link. */
  lemma SealedMembersLinked(ctx: Context, xs: seq<ChainInput>, drafts: seq<JsValue>, c: Text, algorithm: Text)
    requires SealedInTurn(ctx, xs, drafts, c, algorithm)
    ensures var ms := MembersInOrder(ctx, xs);
      && (forall m | m in ms :: m.digestFindings == [] && m.sequence.Some?)
      && (forall m, m' | m in ms && m' in ms :: SealedAlike(m, m'))
      && Rising(ms) && Linked(ms)
  {
    var ms := MembersInOrder(ctx, xs);
    forall i | 0 <= i < |ms|
      ensures SealedMember(ms[i], SequenceOf(ctx, drafts[i]), HashOf(xs[i].event), algorithm)
    {
      SealedAt(ctx, xs, drafts, c, algorithm, i);
    }
    forall i, j | 0 <= i < j < |ms| && j == i + 1
      ensures LinksTo(ms[j], ms[i])
    {
      SealedAt(ctx, xs, drafts, c, algorithm, i);
      DigestsEqualIsTextEquality(HashOf(xs[i].event).value, HashOf(xs[i].event).value);
    }
  }

  lemma ListIntact(ms: seq<ChainMember>)
    requires forall m | m in ms :: m.digestFindings == [] && m.sequence.Some?
    requires forall m, m' | m in ms && m' in ms :: SealedAlike(m, m')
    requires Rising(ms) && Linked(ms)
    ensures IntactMembers(multiset(ms))
  {
    MembersInMultiset(ms);
    ListIsDeclarative(ms);
  }

  /** The head of a rising list of members is its last one. */
  lemma HeadOfRising(ctx: Context, c: Text, ms: seq<Sequenced>)
    requires Rising(ms) && ms != []
    ensures var r := Verdict(ctx, c, ms);
      r.lastSequence == ms[|ms| - 1].sequence && r.headHash == ms[|ms| - 1].hash && r.firstSequence == ms[0].sequence
  {
    var sorted := Ordered(ctx, ms);
    OrderedIsAll(ctx, ms);
    OrderedIsSorted(ctx, ms);
    EndsAndHeadPermuted(sorted, ms);
    SequencesOfNonDescending(ms);
    LastAtHead(ms);
  }

  lemma SealedPlaced(ctx: Context, xs: seq<ChainInput>, drafts: seq<JsValue>, c: Text, algorithm: Text)
    requires SealedInTurn(ctx, xs, drafts, c, algorithm)
    ensures forall x | x in xs :: Place(ctx, x) == Assigned(c, MemberOf(ctx, x))
  {
    forall x | x in xs
      ensures Place(ctx, x) == Assigned(c, MemberOf(ctx, x))
    {
      var i :| 0 <= i < |xs| && xs[i] == x;
      SealedAt(ctx, xs, drafts, c, algorithm, i);
    }
  }

  /** A single intact chain that leaves no event out makes the report intact. */
  lemma OneChainReport(ctx: Context, xs: seq<ChainInput>, c: Text)
    requires forall x | x in xs :: Place(ctx, x) == Assigned(c, MemberOf(ctx, x))
    requires IntactMembers(multiset(MembersInOrder(ctx, xs)))
    ensures Report(ctx, xs).intact
  {
    AllInOneChain(ctx, xs, c);
    forall d: Text
      ensures ChainHolds(ctx, xs, d)
    {
      assert d != c ==> multiset(MembersOf(ctx, xs, d)) == multiset{};
    }
    ReportIsDeclarative(ctx, xs);
  }

  lemma SealedReport(ctx: Context, xs: seq<ChainInput>, drafts: seq<JsValue>, c: Text, algorithm: Text)
    requires SealedInTurn(ctx, xs, drafts, c, algorithm)
    ensures Report(ctx, xs).intact
    ensures MembersOf(ctx, xs, c) == MembersInOrder(ctx, xs)
  {
    SealedPlaced(ctx, xs, drafts, c, algorithm);
    AllInOneChain(ctx, xs, c);
    SealedMembersLinked(ctx, xs, drafts, c, algorithm);
    ListIntact(MembersInOrder(ctx, xs));
    OneChainReport(ctx, xs, c);
  }

  lemma SealedEnds(ctx: Context, xs: seq<ChainInput>, drafts: seq<JsValue>, c: Text, algorithm: Text)
    requires SealedInTurn(ctx, xs, drafts, c, algorithm) && drafts != []
    ensures var ms := MembersInOrder(ctx, xs);
      && |ms| == |drafts|
      && ms[0].sequence == SequenceOf(ctx, drafts[0])
      && ms[|ms| - 1].sequence == SequenceOf(ctx, drafts[|drafts| - 1])
      && ms[|ms| - 1].hash == HashOf(xs[|xs| - 1].event)
  {
    SealedAt(ctx, xs, drafts, c, algorithm, 0);
    SealedAt(ctx, xs, drafts, c, algorithm, |drafts| - 1);
  }

  /** What of a chain's verdict a checkpoint would record, for members that rise. */
  lemma RisingVerdict(ctx: Context, xs: seq<ChainInput>, c: Text, ms: seq<ChainMember>) returns (r: ChainResult)
    requires MembersOf(ctx, xs, c) == ms && ms != []
    requires forall m | m in ms :: m.sequence.Some?
    requires Rising(ms)
    ensures r in Report(ctx, xs).chains && r.chainId == c && r.eventCount == |ms|
    ensures r.firstSequence == ms[0].sequence
    ensures r.lastSequence == ms[|ms| - 1].sequence && r.headHash == ms[|ms| - 1].hash
  {
    r := Verdict(ctx, c, ms);
    HeadOfRising(ctx, c, ms);
    ReportedChains(ctx, xs, r);
  }

  lemma SealedChain(
    ctx: Context, xs: seq<ChainInput>, drafts: seq<JsValue>, c: Text, algorithm: Text)
    returns (r: ChainResult)
    requires SealedInTurn(ctx, xs, drafts, c, algorithm) && drafts != []
    ensures r in Report(ctx, xs).chains && r.chainId == c && r.eventCount == |drafts|
    ensures r.firstSequence == SequenceOf(ctx, drafts[0])
    ensures r.lastSequence == SequenceOf(ctx, drafts[|drafts| - 1])
    ensures r.headHash == HashOf(xs[|xs| - 1].event)
  {
    SealedReport(ctx, xs, drafts, c, algorithm);
    SealedMembersLinked(ctx, xs, drafts, c, algorithm);
    SealedEnds(ctx, xs, drafts, c, algorithm);
    r := RisingVerdict(ctx, xs, c, MembersInOrder(ctx, xs));
  }

  /** Events sealed in turn verify intact in any order, with the last hash as head. */
  lemma InTurnVerifies(
    ctx: Context, xs: seq<ChainInput>, drafts: seq<JsValue>, c: Text, algorithm: Text, inputs: seq<ChainInput>)
    returns (chain: ChainResult)
    requires SealedInTurn(ctx, xs, drafts, c, algorithm) && drafts != []
    requires multiset(inputs) == multiset(xs)
    ensures Report(ctx, inputs).intact
    ensures chain in Report(ctx, inputs).chains && chain.chainId == c && chain.eventCount == |drafts|
    ensures chain.firstSequence == SequenceOf(ctx, drafts[0])
    ensures chain.lastSequence == SequenceOf(ctx, drafts[|drafts| - 1])
    ensures chain.headHash == HashOf(xs[|xs| - 1].event)
  {
    SealedReport(ctx, xs, drafts, c, algorithm);
    IntactPermuted(ctx, xs, inputs);
    var r := SealedChain(ctx, xs, drafts, c, algorithm);
    chain := ChainPermuted(ctx, xs, inputs, r);
  }

  /**
   * Seal, then verify: drafts sealed one after another verify intact in whatever order
   * they are offered, and the head reported is the hash of the last one sealed.
   */
  lemma SealThenVerify(
    ctx: Context, tags: seq<Text>, drafts: seq<JsValue>, events: seq<JsValue>, c: Text, algorithm: Text,
    inputs: seq<ChainInput>)
    returns (chain: ChainResult)
    requires drafts != [] && Increasing(ctx, drafts)
    requires AllDrafts(ctx, drafts, c, algorithm) && AllHashable(drafts)
    requires AlgorithmNamed(algorithm).Some? && events == SealAll(ctx.hash, drafts, None).GetOr([])
    requires AllAccepted(ctx, events)
    requires |tags| == |events| && multiset(inputs) == multiset(Offered(tags, events))
    ensures SealAll(ctx.hash, drafts, None) == Some(events)
    ensures Report(ctx, inputs).intact
    ensures chain in Report(ctx, inputs).chains && chain.chainId == c && chain.eventCount == |drafts|
    ensures chain.firstSequence == SequenceOf(ctx, drafts[0])
    ensures chain.lastSequence == SequenceOf(ctx, drafts[|drafts| - 1])
    ensures events != [] && chain.headHash == HashOf(events[|events| - 1])
  {
    SealAllSucceeds(ctx, drafts, None, c, algorithm);
    SealAllReads(ctx, drafts, None, c, algorithm);
    OfferedInTurn(ctx, tags, drafts, events, c, algorithm);
    chain := InTurnVerifies(ctx, Offered(tags, events), drafts, c, algorithm, inputs);
  }

  lemma OfferedInTurn(
    ctx: Context, tags: seq<Text>, drafts: seq<JsValue>, events: seq<JsValue>, c: Text, algorithm: Text)
    requires |tags| == |events| == |drafts| && Increasing(ctx, drafts) && LinkedEvents(events)
    requires forall i | 0 <= i < |events| :: SealedFrom(ctx, events[i], drafts[i], c, algorithm)
    requires AllAccepted(ctx, events)
    ensures SealedInTurn(ctx, Offered(tags, events), drafts, c, algorithm)
  {
    var xs := Offered(tags, events);
    assert forall i | 0 <= i < |xs| :: xs[i].event == events[i] && events[i] in events;
  }
}
