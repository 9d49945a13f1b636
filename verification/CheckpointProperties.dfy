/**
 * What agreement with a checkpoint proves about an archive, and the one tampering only a
 * checkpoint can see.
 */
module CheckpointProperties {
  import opened Wrappers
  import opened Unicode
  import opened Hashing
  import opened EventVerification
  import opened Chain
  import opened ChainOrder
  import opened ChainProperties
  import opened ChainBinding
  import opened Checkpoint

  // ---------------------------------------------------------------- the second index agrees with the grouping

  function EntryOf(m: Sequenced): IndexedEvent {
    IndexedEvent(m.tag, m.sequence.value, m.hash, m.hashAlgorithm, m.canonicalization)
  }

  function Entries(ms: seq<Sequenced>): seq<IndexedEvent> {
    if ms == [] then [] else Entries(ms[..|ms| - 1]) + [EntryOf(ms[|ms| - 1])]
  }

  /** The labels set apart are exactly enough to index one chain: every unassigned event, and no member of the chain. */
  ghost predicate SetsApart(ctx: Context, inputs: seq<ChainInput>, tags: set<Text>, c: Text) {
    forall x | x in inputs ::
      && (Place(ctx, x).Unassigned? ==> x.tag in tags)
      && (Place(ctx, x).Assigned? && Place(ctx, x).chainId == c ==> x.tag !in tags)
  }

  lemma EntriesOfOne(m: ChainMember)
    ensures Entries(Linkable([m])) == if m.sequence.Some? then [EntryOf(m)] else []
  {
    assert [m][..0] == [];
    if m.sequence.Some? {
      assert Linkable([m]) == [m];
      assert Linkable([m])[..0] == [];
    }
  }

  lemma EntryOfEvent(ctx: Context, x: ChainInput, tags: set<Text>, c: Text)
    requires SetsApart(ctx, [x], tags, c)
    ensures EntryIn(ctx, x, tags, c) == Entries(Linkable(MemberIn(ctx, x, c)))
  {
    assert x in [x];
    EntriesOfOne(MemberOf(ctx, x));
  }

  lemma {:induction false} LinkableConcat(a: seq<ChainMember>, b: seq<ChainMember>)
    ensures Linkable(a + b) == Linkable(a) + Linkable(b)
  {
    if b == [] {
      assert a + b == a;
    } else {
      assert (a + b)[..|a + b| - 1] == a + b[..|b| - 1];
      LinkableConcat(a, b[..|b| - 1]);
    }
  }

  lemma {:induction false} EntriesConcat(a: seq<Sequenced>, b: seq<Sequenced>)
    ensures Entries(a + b) == Entries(a) + Entries(b)
  {
    if b == [] {
      assert a + b == a;
    } else {
      assert (a + b)[..|a + b| - 1] == a + b[..|b| - 1];
      EntriesConcat(a, b[..|b| - 1]);
    }
  }

  lemma {:induction false} IndexIsMembers(ctx: Context, inputs: seq<ChainInput>, tags: set<Text>, c: Text)
    requires SetsApart(ctx, inputs, tags, c)
    ensures IndexOf(ctx, inputs, tags, c) == Entries(Linkable(MembersOf(ctx, inputs, c)))
  {
    if inputs != [] {
      var front, x := inputs[..|inputs| - 1], inputs[|inputs| - 1];
      assert inputs == front + [x];
      assert SetsApart(ctx, front, tags, c) && SetsApart(ctx, [x], tags, c);
      IndexIsMembers(ctx, front, tags, c);
      EntryOfEvent(ctx, x, tags, c);
      LinkableConcat(MembersOf(ctx, front, c), MemberIn(ctx, x, c));
      EntriesConcat(Linkable(MembersOf(ctx, front, c)), Linkable(MemberIn(ctx, x, c)));
    }
  }

  /** Every unassigned event's finding carries its label, and no finding carries another. */
  lemma TagsAreUnassigned(ctx: Context, inputs: seq<ChainInput>, tag: Text)
    ensures tag in UnassignedTags(UnassignedOf(ctx, inputs)) <==>
      exists x :: x in inputs && x.tag == tag && Place(ctx, x).Unassigned?
  {
    if tag in UnassignedTags(UnassignedOf(ctx, inputs)) {
      var f :| f in UnassignedOf(ctx, inputs) && f.tag == Some(tag);
      UnassignedHas(ctx, inputs, f);
    }
    if x :| x in inputs && x.tag == tag && Place(ctx, x).Unassigned? {
      UnassignedHas(ctx, inputs, Place(ctx, x).finding);
      assert Place(ctx, x).finding.tag == Some(tag);
    }
  }

  predicate DistinctTags(inputs: seq<ChainInput>) {
    forall i, j | 0 <= i < j < |inputs| :: inputs[i].tag != inputs[j].tag
  }

  /** With distinct labels the checkpoint's index of a chain is that chain's members, in arrival order. */
  lemma IndexAgreesWithGrouping(ctx: Context, inputs: seq<ChainInput>, c: Text)
    requires DistinctTags(inputs)
    ensures IndexOf(ctx, inputs, UnassignedTags(UnassignedOf(ctx, inputs)), c)
      == Entries(Linkable(MembersOf(ctx, inputs, c)))
  {
    forall x | x in inputs
      ensures Place(ctx, x).Unassigned? <==> x.tag in UnassignedTags(UnassignedOf(ctx, inputs))
    {
      TagsAreUnassigned(ctx, inputs, x.tag);
      if y :| y in inputs && y.tag == x.tag && Place(ctx, y).Unassigned? {
        var i :| 0 <= i < |inputs| && inputs[i] == x;
        var j :| 0 <= j < |inputs| && inputs[j] == y;
        assert i == j;
      }
    }
    IndexIsMembers(ctx, inputs, UnassignedTags(UnassignedOf(ctx, inputs)), c);
  }

  lemma {:induction false} NoneUnverified(ctx: Context, inputs: seq<ChainInput>, tags: set<Text>, c: Text)
    requires UnverifiedOf(inputs, tags, c) == 0
    ensures forall x | x in inputs :: ChainIdOf(x.event) == Some(c) ==> x.tag !in tags
  {
    if inputs != [] {
      var front, last := inputs[..|inputs| - 1], inputs[|inputs| - 1];
      NoneUnverified(ctx, front, tags, c);
      assert inputs == front + [last];
    }
  }

  /**
   * Even when labels clash: a chain with no member set apart is indexed whole, and from
   * verified members only.
   */
  lemma IndexCoversChain(ctx: Context, inputs: seq<ChainInput>, c: Text)
    requires UnverifiedOf(inputs, UnassignedTags(UnassignedOf(ctx, inputs)), c) == 0
    ensures IndexOf(ctx, inputs, UnassignedTags(UnassignedOf(ctx, inputs)), c)
      == Entries(Linkable(MembersOf(ctx, inputs, c)))
  {
    var tags := UnassignedTags(UnassignedOf(ctx, inputs));
    NoneUnverified(ctx, inputs, tags, c);
    forall x | x in inputs
      ensures Place(ctx, x).Unassigned? ==> x.tag in tags
    {
      TagsAreUnassigned(ctx, inputs, x.tag);
    }
    IndexIsMembers(ctx, inputs, tags, c);
  }

  // ---------------------------------------------------------------- reading the index

  lemma {:induction false} EventsAtEntries(ms: seq<Sequenced>, k: nat)
    ensures EventsAt(Entries(ms), k) == Entries(AtSequence(ms, k))
  {
    if ms != [] {
      var front, last := ms[..|ms| - 1], ms[|ms| - 1];
      EventsAtEntries(front, k);
      assert Entries(ms)[..|Entries(ms)| - 1] == Entries(front);
      if last.sequence.value == k {
        assert AtSequence(ms, k)[..|AtSequence(ms, k)| - 1] == AtSequence(front, k);
      } else {
        assert AtSequence(ms, k) == AtSequence(front, k);
      }
    }
  }

  lemma {:induction false} EntriesHave(ms: seq<Sequenced>, e: IndexedEvent)
    ensures e in Entries(ms) <==> exists m :: m in ms && EntryOf(m) == e
  {
    if ms != [] {
      var front, last := ms[..|ms| - 1], ms[|ms| - 1];
      EntriesHave(front, e);
      assert ms == front + [last];
      assert forall m :: m in ms <==> m in front || m == last;
    }
  }

  function AtMost(ms: seq<Sequenced>, k: nat): seq<Sequenced> {
    if ms == [] then []
    else AtMost(ms[..|ms| - 1], k) + if ms[|ms| - 1].sequence.value <= k then [ms[|ms| - 1]] else []
  }

  lemma {:induction false} CountIsAtMost(ms: seq<Sequenced>, k: nat)
    ensures CountUpTo(Entries(ms), k) == |AtMost(ms, k)|
  {
    if ms != [] {
      CountIsAtMost(ms[..|ms| - 1], k);
      assert Entries(ms)[..|Entries(ms)| - 1] == Entries(ms[..|ms| - 1]);
    }
  }

  lemma {:induction false} AtMostCounts(ms: seq<Sequenced>, k: nat, m: Sequenced)
    ensures multiset(AtMost(ms, k))[m] == if m.sequence.value <= k then multiset(ms)[m] else 0
  {
    if ms != [] {
      var front, last := ms[..|ms| - 1], ms[|ms| - 1];
      AtMostCounts(front, k, m);
      CountLast(ms, m);
      if last.sequence.value <= k {
        assert AtMost(ms, k)[..|AtMost(ms, k)| - 1] == AtMost(front, k);
        CountLast(AtMost(ms, k), m);
      } else {
        assert AtMost(ms, k) == AtMost(front, k);
      }
    }
  }

  lemma AtMostPermuted(a: seq<Sequenced>, b: seq<Sequenced>, k: nat)
    requires multiset(a) == multiset(b)
    ensures |AtMost(a, k)| == |AtMost(b, k)|
  {
    forall m: Sequenced
      ensures multiset(AtMost(a, k))[m] == multiset(AtMost(b, k))[m]
    {
      AtMostCounts(a, k, m);
      AtMostCounts(b, k, m);
    }
    assert multiset(AtMost(a, k)) == multiset(AtMost(b, k));
    assert |AtMost(a, k)| == |multiset(AtMost(a, k))| && |AtMost(b, k)| == |multiset(AtMost(b, k))|;
  }

  lemma {:induction false} AtMostOfRising(ms: seq<Sequenced>, p: nat, k: nat)
    requires p <= |ms|
    requires forall i | 0 <= i < |ms| :: ms[i].sequence.value <= k <==> i < p
    ensures |AtMost(ms, k)| == p
  {
    if ms != [] {
      AtMostOfRising(ms[..|ms| - 1], if p == |ms| then p - 1 else p, k);
    }
  }

  lemma LinkablePermutesOrdered(ctx: Context, members: seq<ChainMember>)
    ensures multiset(Linkable(members)) == multiset(Ordered(ctx, members))
  {
    forall m: Sequenced
      ensures multiset(Linkable(members))[m] == multiset(Ordered(ctx, members))[m]
    {
      LinkableHas(members, m);
      OrderedHas(ctx, members, m);
    }
  }

  // ---------------------------------------------------------------- what agreement means

  /**
   * The recorded head is a member sealed the way the checkpoint says, and as many members
   * lie at or below it as recorded.
   */
  ghost predicate HeadAt(ms: seq<Sequenced>, claim: Claim, hashAlgorithm: Text, canonicalization: Text, p: nat) {
    && p < |ms|
    && ms[p].sequence == Some(claim.headSequence)
    && ms[p].hash == Some(claim.headHash)
    && ms[p].hashAlgorithm == Some(hashAlgorithm)
    && ms[p].canonicalization == Some(canonicalization)
    && (claim.eventCount.Some? ==> claim.eventCount.value == p + 1)
  }

  lemma OneAtHead(ctx: Context, members: seq<ChainMember>, k: nat)
    requires Rising(Ordered(ctx, members))
    ensures |AtSequence(Linkable(members), k)| <= 1
  {
    LinkablePermutesOrdered(ctx, members);
    AtSequencePermuted(Linkable(members), Ordered(ctx, members), k);
    RisingAtMostOne(Ordered(ctx, members), k);
    var u, v := AtSequence(Linkable(members), k), AtSequence(Ordered(ctx, members), k);
    assert |u| == |multiset(u)| == |multiset(v)| == |v|;
  }

  lemma SameLength(u: seq<Sequenced>, v: seq<Sequenced>)
    requires multiset(u) == multiset(v)
    ensures |u| == |v|
  {
    assert |u| == |multiset(u)| == |multiset(v)| == |v|;
  }

  lemma ShortListsEqual(u: seq<Sequenced>, v: seq<Sequenced>)
    requires multiset(u) == multiset(v) && |u| <= 1
    ensures u == v
  {
    SameLength(u, v);
    if u != [] {
      assert u[0] in multiset(v);
    }
  }

  lemma OnlyMember(u: seq<Sequenced>, m: Sequenced)
    requires |u| <= 1 && multiset(u)[m] > 0
    ensures u == [m]
  {
    assert m in multiset(u);
  }

  lemma AtHeadIsMember(ctx: Context, members: seq<ChainMember>, m: Sequenced)
    requires Rising(Ordered(ctx, members)) && m in Ordered(ctx, members)
    ensures AtSequence(Linkable(members), m.sequence.value) == [m]
  {
    var k := m.sequence.value;
    OneAtHead(ctx, members, k);
    OrderedHas(ctx, members, m);
    LinkableHas(members, m);
    AtSequenceCounts(Linkable(members), k, m);
    assert multiset(Linkable(members))[m] > 0;
    OnlyMember(AtSequence(Linkable(members), k), m);
  }

  /** In an intact chain the index holds one event at the sequence of each member, and it is that member's. */
  lemma HeadEntry(ctx: Context, members: seq<ChainMember>, m: Sequenced)
    requires Rising(Ordered(ctx, members)) && m in Ordered(ctx, members)
    ensures EventsAt(Entries(Linkable(members)), m.sequence.value) == [EntryOf(m)]
  {
    AtHeadIsMember(ctx, members, m);
    EventsAtEntries(Linkable(members), m.sequence.value);
    assert [m][..0] == [];
  }

  lemma HeadFound(ctx: Context, members: seq<ChainMember>, claim: Claim, e: IndexedEvent) returns (p: nat)
    requires e in EventsAt(Entries(Linkable(members)), claim.headSequence) && MatchesHead(e, claim.headHash)
    ensures var ms := Ordered(ctx, members);
      p < |ms| && ms[p].sequence == Some(claim.headSequence) && ms[p].hash == Some(claim.headHash)
  {
    var ms, k := Ordered(ctx, members), claim.headSequence;
    EventsAtEntries(Linkable(members), k);
    EntriesHave(AtSequence(Linkable(members), k), e);
    var m :| m in AtSequence(Linkable(members), k) && EntryOf(m) == e;
    AtSequenceCounts(Linkable(members), k, m);
    LinkablePermutesOrdered(ctx, members);
    assert m in multiset(AtSequence(Linkable(members), k));
    assert m in multiset(ms);
    p :| 0 <= p < |ms| && ms[p] == m;
    DigestsEqualIsTextEquality(e.hash.value, claim.headHash);
  }

  lemma RisingCountUpTo(ms: seq<Sequenced>, p: nat)
    requires Rising(ms) && p < |ms|
    ensures |AtMost(ms, ms[p].sequence.value)| == p + 1
  {
    AtMostOfRising(ms, p + 1, ms[p].sequence.value);
  }

  lemma CountFound(ctx: Context, members: seq<ChainMember>, p: nat)
    requires p < |Ordered(ctx, members)| && Rising(Ordered(ctx, members))
    ensures CountUpTo(Entries(Linkable(members)), Ordered(ctx, members)[p].sequence.value) == p + 1
  {
    var ms := Ordered(ctx, members);
    var k := ms[p].sequence.value;
    CountIsAtMost(Linkable(members), k);
    LinkablePermutesOrdered(ctx, members);
    AtMostPermuted(Linkable(members), ms, k);
    RisingCountUpTo(ms, p);
  }

  /** Agreement, unfolded: the chain is intact, nothing of it is unverified, and its own members hold the head. */
  lemma AgreesMeans(ctx: Context, inputs: seq<ChainInput>, doc: CheckpointDocument, claim: Claim) returns (p: nat)
    requires ClaimOutcome(ctx, inputs, doc, claim).status == Agrees
    ensures Intact(ctx, inputs, claim.chainId)
    ensures UnverifiedOf(inputs, UnassignedTags(UnassignedOf(ctx, inputs)), claim.chainId) == 0
    ensures HeadAt(OrderedChain(ctx, inputs, claim.chainId), claim, doc.hashAlgorithm, doc.canonicalization, p)
  {
    var c := claim.chainId;
    var members := MembersOf(ctx, inputs, c);
    ChainFound(ctx, inputs, c);
    IndexCoversChain(ctx, inputs, c);
    IntactIsSound(ctx, inputs, c);
    p := AgreementOnMembers(ctx, c, members, claim, doc.hashAlgorithm, doc.canonicalization);
  }

  lemma AgreementOnMembers(
    ctx: Context, c: Text, members: seq<ChainMember>, claim: Claim, a: Text, k: Text)
    returns (p: nat)
    requires ClaimFindings(claim, Verdict(ctx, c, members), Entries(Linkable(members)), 0, a, k) == []
    requires Rising(Ordered(ctx, members))
    ensures HeadAt(Ordered(ctx, members), claim, a, k, p)
  {
    var events := Entries(Linkable(members));
    var atHead := EventsAt(events, claim.headSequence);
    var e :| e in atHead && MatchesHead(e, claim.headHash);
    p := HeadFound(ctx, members, claim, e);
    HeadEntry(ctx, members, Ordered(ctx, members)[p]);
    CountFound(ctx, members, p);
  }

  lemma NothingFound(claim: Claim, chain: ChainResult, events: seq<IndexedEvent>, e: IndexedEvent, a: Text, k: Text)
    requires EventsAt(events, claim.headSequence) == [e] && MatchesHead(e, claim.headHash)
    requires e.hashAlgorithm == Some(a) && e.canonicalization == Some(k)
    requires claim.eventCount.Some? ==> CountUpTo(events, claim.headSequence) == claim.eventCount.value
    ensures ClaimFindings(claim, chain, events, 0, a, k) == []
  {
    assert e in [e];
  }

  lemma HeadAtAgrees(
    ctx: Context, members: seq<ChainMember>, chain: ChainResult, claim: Claim, a: Text, k: Text, p: nat)
    requires Rising(Ordered(ctx, members)) && IsHexDigest(claim.headHash)
    requires HeadAt(Ordered(ctx, members), claim, a, k, p)
    ensures ClaimFindings(claim, chain, Entries(Linkable(members)), 0, a, k) == []
  {
    var m := Ordered(ctx, members)[p];
    HeadEntry(ctx, members, m);
    CountFound(ctx, members, p);
    DigestsEqualIsTextEquality(m.hash.value, claim.headHash);
    NothingFound(claim, chain, Entries(Linkable(members)), EntryOf(m), a, k);
  }

  /** What a claim has to say of an archive for the two to agree: a test that knows nothing of indexes and findings. */
  ghost predicate Holds(ctx: Context, inputs: seq<ChainInput>, doc: CheckpointDocument, claim: Claim) {
    && Intact(ctx, inputs, claim.chainId)
    && UnverifiedOf(inputs, UnassignedTags(UnassignedOf(ctx, inputs)), claim.chainId) == 0
    && exists p :: HeadAt(OrderedChain(ctx, inputs, claim.chainId), claim, doc.hashAlgorithm, doc.canonicalization, p)
  }

  /** A hash some member of an intact chain declares is a hexadecimal digest. */
  lemma HeadIsDigest(ctx: Context, inputs: seq<ChainInput>, c: Text, m: Sequenced)
    requires Sound(ctx, inputs, c, OrderedChain(ctx, inputs, c)) && m in OrderedChain(ctx, inputs, c)
    ensures m.hash.Some? && IsHexDigest(m.hash.value)
    ensures MembersOf(ctx, inputs, c) != []
  {
    var x := EventOf(ctx, inputs, c, m);
    VerifiedMemberSealed(ctx, x, c, m);
    OrderedHas(ctx, MembersOf(ctx, inputs, c), m);
  }

  lemma NoFindingsAgrees(
    ctx: Context, inputs: seq<ChainInput>, doc: CheckpointDocument, claim: Claim, members: seq<ChainMember>)
    requires members == MembersOf(ctx, inputs, claim.chainId) && members != [] && Intact(ctx, inputs, claim.chainId)
    requires UnverifiedOf(inputs, UnassignedTags(UnassignedOf(ctx, inputs)), claim.chainId) == 0
    requires ClaimFindings(claim, Verdict(ctx, claim.chainId, members), Entries(Linkable(members)), 0,
                           doc.hashAlgorithm, doc.canonicalization) == []
    ensures ClaimOutcome(ctx, inputs, doc, claim).status == Agrees
  {
    ChainFound(ctx, inputs, claim.chainId);
    IndexCoversChain(ctx, inputs, claim.chainId);
  }

  lemma HeadAtIsDigest(ctx: Context, inputs: seq<ChainInput>, claim: Claim, a: Text, k: Text, p: nat)
    requires Intact(ctx, inputs, claim.chainId)
    requires HeadAt(OrderedChain(ctx, inputs, claim.chainId), claim, a, k, p)
    ensures IsHexDigest(claim.headHash) && MembersOf(ctx, inputs, claim.chainId) != []
    ensures Rising(OrderedChain(ctx, inputs, claim.chainId))
  {
    IntactIsSound(ctx, inputs, claim.chainId);
    HeadIsDigest(ctx, inputs, claim.chainId, OrderedChain(ctx, inputs, claim.chainId)[p]);
  }

  lemma HoldsAgrees(ctx: Context, inputs: seq<ChainInput>, doc: CheckpointDocument, claim: Claim, p: nat)
    requires Intact(ctx, inputs, claim.chainId)
    requires UnverifiedOf(inputs, UnassignedTags(UnassignedOf(ctx, inputs)), claim.chainId) == 0
    requires HeadAt(OrderedChain(ctx, inputs, claim.chainId), claim, doc.hashAlgorithm, doc.canonicalization, p)
    ensures ClaimOutcome(ctx, inputs, doc, claim).status == Agrees
  {
    var members := MembersOf(ctx, inputs, claim.chainId);
    HeadAtIsDigest(ctx, inputs, claim, doc.hashAlgorithm, doc.canonicalization, p);
    HeadAtAgrees(ctx, members, Verdict(ctx, claim.chainId, members), claim, doc.hashAlgorithm, doc.canonicalization, p);
    NoFindingsAgrees(ctx, inputs, doc, claim, members);
  }

  /** A claim agrees with an archive exactly when it holds of it. */
  lemma AgreesExactly(ctx: Context, inputs: seq<ChainInput>, doc: CheckpointDocument, claim: Claim)
    ensures ClaimOutcome(ctx, inputs, doc, claim).status == Agrees <==> Holds(ctx, inputs, doc, claim)
  {
    if ClaimOutcome(ctx, inputs, doc, claim).status == Agrees {
      var _ := AgreesMeans(ctx, inputs, doc, claim);
    }
    if Holds(ctx, inputs, doc, claim) {
      var p :| HeadAt(OrderedChain(ctx, inputs, claim.chainId), claim, doc.hashAlgorithm, doc.canonicalization, p);
      HoldsAgrees(ctx, inputs, doc, claim, p);
    }
  }

  // ---------------------------------------------------------------- the binding theorem

  /** The claim was read off an intact chain: its last sequence, the hash there, and perhaps its size. */
  predicate ReadOff(ctx: Context, original: seq<ChainInput>, claim: Claim) {
    && Intact(ctx, original, claim.chainId)
    && var chain := Verdict(ctx, claim.chainId, MembersOf(ctx, original, claim.chainId));
    && chain.lastSequence == Some(claim.headSequence)
    && chain.headHash == Some(claim.headHash)
    && (claim.eventCount.None? || claim.eventCount == Some(chain.eventCount))
  }

  /** The claim records the last member, and the number of members when it records one. */
  ghost predicate RecordsLast(os: seq<Sequenced>, claim: Claim) {
    && os != []
    && os[|os| - 1].sequence == Some(claim.headSequence)
    && os[|os| - 1].hash == Some(claim.headHash)
    && (claim.eventCount.Some? ==> claim.eventCount.value == |os|)
  }

  lemma ReadOffIsLast(ctx: Context, original: seq<ChainInput>, claim: Claim)
    requires ReadOff(ctx, original, claim)
    ensures RecordsLast(OrderedChain(ctx, original, claim.chainId), claim)
  {
    var c := claim.chainId;
    var members, os := MembersOf(ctx, original, c), OrderedChain(ctx, original, c);
    IntactIsSound(ctx, original, c);
    OrderedIsSorted(ctx, members);
    SequencesOfNonDescending(os);
    OrderedIsAll(ctx, members);
    assert |os| == |multiset(os)| == |multiset(members)| == |members|;
    if os != [] {
      LastAtHead(os);
    }
  }

  predicate AllSealedAs(members: seq<ChainMember>, hashAlgorithm: Text, canonicalization: Text) {
    forall m | m in members :: m.hashAlgorithm == Some(hashAlgorithm) && m.canonicalization == Some(canonicalization)
  }

  lemma OrderedSealedAs(ctx: Context, members: seq<ChainMember>, hashAlgorithm: Text, canonicalization: Text)
    requires AllSealedAs(members, hashAlgorithm, canonicalization)
    ensures AllSealedAs(Ordered(ctx, members), hashAlgorithm, canonicalization)
  {
    forall m | m in Ordered(ctx, members)
      ensures m in members
    {
      OrderedHas(ctx, members, m);
    }
  }

  lemma HeadAtLast(os: seq<Sequenced>, claim: Claim, hashAlgorithm: Text, canonicalization: Text)
    requires RecordsLast(os, claim) && AllSealedAs(os, hashAlgorithm, canonicalization)
    ensures HeadAt(os, claim, hashAlgorithm, canonicalization, |os| - 1)
  {
    assert os[|os| - 1] in os;
  }

  lemma ReadOffHeadAt(
    ctx: Context, original: seq<ChainInput>, claim: Claim, hashAlgorithm: Text, canonicalization: Text)
    returns (p: nat)
    requires ReadOff(ctx, original, claim)
    requires AllSealedAs(MembersOf(ctx, original, claim.chainId), hashAlgorithm, canonicalization)
    ensures HeadAt(OrderedChain(ctx, original, claim.chainId), claim, hashAlgorithm, canonicalization, p)
  {
    var os := OrderedChain(ctx, original, claim.chainId);
    ReadOffIsLast(ctx, original, claim);
    OrderedSealedAs(ctx, MembersOf(ctx, original, claim.chainId), hashAlgorithm, canonicalization);
    HeadAtLast(os, claim, hashAlgorithm, canonicalization);
    p := |os| - 1;
  }

  /** A claim read off a chain agrees with the events it was read off, sealed the way the document says. */
  lemma ReadOffAgrees(ctx: Context, original: seq<ChainInput>, doc: CheckpointDocument, claim: Claim)
    requires ReadOff(ctx, original, claim)
    requires UnverifiedOf(original, UnassignedTags(UnassignedOf(ctx, original)), claim.chainId) == 0
    requires AllSealedAs(MembersOf(ctx, original, claim.chainId), doc.hashAlgorithm, doc.canonicalization)
    ensures ClaimOutcome(ctx, original, doc, claim).status == Agrees
  {
    var p := ReadOffHeadAt(ctx, original, claim, doc.hashAlgorithm, doc.canonicalization);
    HoldsAgrees(ctx, original, doc, claim, p);
  }

  /** Backwards from position `p` the one list holds what the other holds from its last member, as far as both go. */
  ghost predicate TwinRun(ctx: Context, archive: seq<ChainInput>, original: seq<ChainInput>, c: Text,
                          ms: seq<Sequenced>, os: seq<Sequenced>, p: nat)
    requires p < |ms|
  {
    forall i, j | 0 <= i <= p && 0 <= j < |os| && p - i == |os| - 1 - j ::
      Twins(ctx, archive, original, c, ms[i], os[j])
  }

  /** How the archive's chain up to the head lies against the original one. */
  ghost predicate Bound(ctx: Context, archive: seq<ChainInput>, original: seq<ChainInput>, claim: Claim,
                        ms: seq<Sequenced>, os: seq<Sequenced>, p: nat) {
    && os != []
    && p < |ms|
    && ms[p].sequence == Some(claim.headSequence)
    && (claim.eventCount.Some? ==> p + 1 == |os|)
    && (os[0].previousHash.None? ==> p < |os|)
    && (os[0].previousHash.None? && ms[0].previousHash.None? ==> p + 1 == |os|)
    && TwinRun(ctx, archive, original, claim.chainId, ms, os, p)
  }

  lemma TwinsToHead(ctx: Context, archive: seq<ChainInput>, original: seq<ChainInput>, c: Text,
                    ms: seq<Sequenced>, os: seq<Sequenced>, p: nat)
    requires HashLinked(ms) && HashLinked(os) && HashesIdentify(ctx, archive, original, c, ms, os)
    requires os != [] && p < |ms| && ms[p].hash == os[|os| - 1].hash
    ensures TwinRun(ctx, archive, original, c, ms, os, p)
  {
    forall i, j | 0 <= i <= p && 0 <= j < |os| && p - i == |os| - 1 - j
      ensures Twins(ctx, archive, original, c, ms[i], os[j])
    {
      SameBackwards(ctx, archive, original, c, ms, os, p, |os| - 1, i, j);
    }
  }

  /** A chain that starts later than the original starts in the middle of it, and says so. */
  lemma ShorterThanOriginal(ctx: Context, archive: seq<ChainInput>, original: seq<ChainInput>, c: Text,
                            ms: seq<Sequenced>, os: seq<Sequenced>, p: nat)
    requires HashLinked(ms) && HashLinked(os) && HashesIdentify(ctx, archive, original, c, ms, os)
    requires p < |ms| && p + 1 < |os| && ms[p].hash == os[|os| - 1].hash
    ensures ms[0].previousHash.Some?
  {
    SameBackwards(ctx, archive, original, c, ms, os, p, |os| - 1, 0, |os| - 1 - p);
    assert HashLink(os[|os| - 1 - p], os[|os| - 2 - p]);
  }

  /** A chain that reaches further back than the original shows that the original's first event had a predecessor. */
  lemma LongerThanOriginal(ctx: Context, archive: seq<ChainInput>, original: seq<ChainInput>, c: Text,
                           ms: seq<Sequenced>, os: seq<Sequenced>, p: nat)
    requires HashLinked(ms) && HashLinked(os) && HashesIdentify(ctx, archive, original, c, ms, os)
    requires os != [] && |os| <= p < |ms| && ms[p].hash == os[|os| - 1].hash
    ensures os[0].previousHash.Some?
  {
    SameBackwards(ctx, archive, original, c, ms, os, p, |os| - 1, p - (|os| - 1), 0);
    assert HashLink(ms[p - (|os| - 1)], ms[p - |os|]);
  }

  /**
   * The checkpoint binds the archive: when a claim read off an intact chain agrees with an
   * archive, the archive's members, backwards from the head, are the original events.
   */
  lemma CheckpointBinding(
    ctx: Context, archive: seq<ChainInput>, original: seq<ChainInput>, doc: CheckpointDocument, claim: Claim)
    returns (p: nat)
    requires ReadOff(ctx, original, claim)
    requires ClaimOutcome(ctx, archive, doc, claim).status == Agrees
    requires CollisionFree(ctx.hash, Hashed(ctx, archive, claim.chainId) + Hashed(ctx, original, claim.chainId))
    ensures Bound(ctx, archive, original, claim,
                  OrderedChain(ctx, archive, claim.chainId), OrderedChain(ctx, original, claim.chainId), p)
  {
    p := AgreesMeans(ctx, archive, doc, claim);
    ReadOffIsLast(ctx, original, claim);
    IntactIsSound(ctx, archive, claim.chainId);
    IntactIsSound(ctx, original, claim.chainId);
    var ms, os := OrderedChain(ctx, archive, claim.chainId), OrderedChain(ctx, original, claim.chainId);
    CollisionFreeIdentifies(ctx, archive, original, claim.chainId, ms, os);
    TwinsToHead(ctx, archive, original, claim.chainId, ms, os, p);
    if p + 1 < |os| {
      ShorterThanOriginal(ctx, archive, original, claim.chainId, ms, os, p);
    } else if |os| <= p {
      LongerThanOriginal(ctx, archive, original, claim.chainId, ms, os, p);
    }
  }
}
