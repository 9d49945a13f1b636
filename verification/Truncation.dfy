/** Cutting the end off a chain, and adding to it: what chain verification and a checkpoint each see. */
module Truncation {
  import opened Wrappers
  import opened Unicode
  import opened EventVerification
  import opened Chain
  import opened ChainOrder
  import opened ChainProperties
  import opened ChainBinding
  import opened Checkpoint
  import opened CheckpointProperties

  /** `part` holds exactly the members of `whole` up to a sequence. */
  ghost predicate UpTo(whole: multiset<ChainMember>, part: multiset<ChainMember>, t: nat) {
    forall m :: part[m] == if m.sequence.Some? && m.sequence.value <= t then whole[m] else 0
  }

  /** The specification of an intact chain is closed under cutting off its end. */
  lemma PrefixIntact(whole: multiset<ChainMember>, part: multiset<ChainMember>, t: nat)
    requires IntactMembers(whole) && UpTo(whole, part, t)
    ensures IntactMembers(part)
  {
    assert forall m :: m in part <==> m in whole && m.sequence.value <= t;
    forall p, m | Adjacent(part, p, m)
      ensures LinksTo(m, p)
    {
      assert Adjacent(whole, p, m);
    }
  }

  lemma LastIsMember(ctx: Context, c: Text, members: seq<ChainMember>)
    requires members != [] && forall m | m in members :: m.sequence.Some?
    ensures Verdict(ctx, c, members).lastSequence.Some?
    ensures exists m :: m in members && m.sequence == Verdict(ctx, c, members).lastSequence
  {
    var ms := Ordered(ctx, members);
    OrderedIsSorted(ctx, members);
    SequencesOfNonDescending(ms);
    OrderedHas(ctx, members, members[0]);
    assert members[0] in members;
    var last := ms[|ms| - 1];
    assert last in ms;
    OrderedHas(ctx, members, last);
  }

  lemma NothingAt(ms: seq<ChainMember>, k: nat)
    requires forall m | m in ms :: m.sequence != Some(k)
    ensures EventsAt(Entries(Linkable(ms)), k) == []
  {
    EventsAtEntries(Linkable(ms), k);
    var at := AtSequence(Linkable(ms), k);
    if at != [] {
      NothingAtUnlisted(Linkable(ms), k);
      SequencesHas(Linkable(ms), k);
      var m :| m in Linkable(ms) && m.sequence.value == k;
      LinkableHas(ms, m);
    }
  }

  lemma NothingAtHead(claim: Claim, chain: ChainResult, events: seq<IndexedEvent>, a: Text, k: Text)
    requires EventsAt(events, claim.headSequence) == []
    requires chain.lastSequence.Some? && chain.lastSequence.value < claim.headSequence
    ensures ClaimFindings(claim, chain, events, 0, a, k) == [TailTruncated]
  {
  }

  /** Compared with a head beyond its end, a chain that was cut short has exactly one finding. */
  lemma CutIsSeen(ctx: Context, c: Text, part: seq<ChainMember>, t: nat, claim: Claim, a: Text, k: Text)
    requires part != [] && t < claim.headSequence
    requires forall m | m in part :: m.sequence.Some? && m.sequence.value <= t
    ensures ClaimFindings(claim, Verdict(ctx, c, part), Entries(Linkable(part)), 0, a, k) == [TailTruncated]
  {
    NothingAt(part, claim.headSequence);
    LastIsMember(ctx, c, part);
    NothingAtHead(claim, Verdict(ctx, c, part), Entries(Linkable(part)), a, k);
  }

  /**
   * Truncation is seen only, and always, by the checkpoint: what is left of an intact chain
   * after its end is cut off verifies intact, and its comparison with a claim at the full
   * chain's head has exactly one finding.
   */
  lemma TruncationOnlySeenByCheckpoint(ctx: Context, original: seq<ChainInput>, archive: seq<ChainInput>,
                                       doc: CheckpointDocument, claim: Claim, t: nat)
    requires ReadOff(ctx, original, claim) && t < claim.headSequence
    requires MembersOf(ctx, archive, claim.chainId) != []
    requires UpTo(multiset(MembersOf(ctx, original, claim.chainId)),
      multiset(MembersOf(ctx, archive, claim.chainId)), t)
    requires UnverifiedOf(archive, UnassignedTags(UnassignedOf(ctx, archive)), claim.chainId) == 0
    ensures Intact(ctx, archive, claim.chainId)
    ensures ClaimOutcome(ctx, archive, doc, claim).findings == [TailTruncated]
    ensures ClaimOutcome(ctx, archive, doc, claim).status == Disagrees
  {
    var c := claim.chainId;
    var whole, part := MembersOf(ctx, original, c), MembersOf(ctx, archive, c);
    VerdictIsDeclarative(ctx, c, whole);
    VerdictIsDeclarative(ctx, c, part);
    PrefixIntact(multiset(whole), multiset(part), t);
    forall m | m in part
      ensures m.sequence.Some? && m.sequence.value <= t
    {
      assert m in multiset(part);
    }
    ChainFound(ctx, archive, c);
    IndexCoversChain(ctx, archive, c);
    CutIsSeen(ctx, c, part, t, claim, doc.hashAlgorithm, doc.canonicalization);
  }

  // ---------------------------------------------------------------- growing a chain

  /** `more` adds members to `few`, all of them after a sequence. */
  ghost predicate GrowsAfter(few: seq<ChainMember>, more: seq<ChainMember>, t: nat) {
    forall m: ChainMember | m.sequence.Some? && m.sequence.value <= t :: multiset(few)[m] == multiset(more)[m]
  }

  lemma SameAt(few: seq<ChainMember>, more: seq<ChainMember>, t: nat)
    requires GrowsAfter(few, more, t)
    ensures multiset(AtSequence(Linkable(few), t)) == multiset(AtSequence(Linkable(more), t))
  {
    forall m: Sequenced
      ensures multiset(AtSequence(Linkable(few), t))[m] == multiset(AtSequence(Linkable(more), t))[m]
    {
      AtSequenceCounts(Linkable(few), t, m);
      AtSequenceCounts(Linkable(more), t, m);
      LinkableHas(few, m);
      LinkableHas(more, m);
    }
  }

  lemma SameAtMost(few: seq<ChainMember>, more: seq<ChainMember>, t: nat)
    requires GrowsAfter(few, more, t)
    ensures multiset(AtMost(Linkable(few), t)) == multiset(AtMost(Linkable(more), t))
  {
    forall m: Sequenced
      ensures multiset(AtMost(Linkable(few), t))[m] == multiset(AtMost(Linkable(more), t))[m]
    {
      AtMostCounts(Linkable(few), t, m);
      AtMostCounts(Linkable(more), t, m);
      LinkableHas(few, m);
      LinkableHas(more, m);
    }
  }

  /** Members after the head change nothing the comparison reads. */
  lemma SameComparison(ctx: Context, few: seq<ChainMember>, more: seq<ChainMember>, t: nat)
    requires GrowsAfter(few, more, t)
    requires Rising(Ordered(ctx, few)) && Rising(Ordered(ctx, more))
    ensures EventsAt(Entries(Linkable(few)), t) == EventsAt(Entries(Linkable(more)), t)
    ensures CountUpTo(Entries(Linkable(few)), t) == CountUpTo(Entries(Linkable(more)), t)
  {
    SameAt(few, more, t);
    SameAtMost(few, more, t);
    OneAtHead(ctx, few, t);
    OneAtHead(ctx, more, t);
    EventsAtEntries(Linkable(few), t);
    EventsAtEntries(Linkable(more), t);
    CountIsAtMost(Linkable(few), t);
    CountIsAtMost(Linkable(more), t);
    ShortListsEqual(AtSequence(Linkable(few), t), AtSequence(Linkable(more), t));
    SameLength(AtMost(Linkable(few), t), AtMost(Linkable(more), t));
  }

  lemma StillNoFindings(
    claim: Claim, chain: ChainResult, chain': ChainResult, events: seq<IndexedEvent>, events': seq<IndexedEvent>,
    a: Text, k: Text)
    requires ClaimFindings(claim, chain, events, 0, a, k) == []
    requires EventsAt(events, claim.headSequence) == EventsAt(events', claim.headSequence)
    requires CountUpTo(events, claim.headSequence) == CountUpTo(events', claim.headSequence)
    ensures ClaimFindings(claim, chain', events', 0, a, k) == []
  {
  }

  lemma IntactExtensionAgrees(
    ctx: Context, before: seq<ChainInput>, after: seq<ChainInput>, doc: CheckpointDocument, claim: Claim)
    requires ClaimOutcome(ctx, before, doc, claim).status == Agrees
    requires Intact(ctx, after, claim.chainId)
    requires UnverifiedOf(after, UnassignedTags(UnassignedOf(ctx, after)), claim.chainId) == 0
    requires GrowsAfter(MembersOf(ctx, before, claim.chainId), MembersOf(ctx, after, claim.chainId), claim.headSequence)
    ensures ClaimOutcome(ctx, after, doc, claim).status == Agrees
  {
    var c := claim.chainId;
    var few, more := MembersOf(ctx, before, c), MembersOf(ctx, after, c);
    var p := AgreesMeans(ctx, before, doc, claim);
    IntactIsSound(ctx, before, c);
    IntactIsSound(ctx, after, c);
    SameComparison(ctx, few, more, claim.headSequence);
    var _ := HeadKept(ctx, few, more, claim.headSequence, p);
    ChainFound(ctx, before, c);
    ChainFound(ctx, after, c);
    IndexCoversChain(ctx, before, c);
    IndexCoversChain(ctx, after, c);
    StillNoFindings(claim, Verdict(ctx, c, few), Verdict(ctx, c, more), Entries(Linkable(few)), Entries(Linkable(more)),
                    doc.hashAlgorithm, doc.canonicalization);
  }

  /** The members of a chain from a sequence on. */
  ghost predicate From(whole: multiset<ChainMember>, rest: multiset<ChainMember>, t: nat) {
    forall m :: rest[m] == if m.sequence.Some? && m.sequence.value >= t then whole[m] else 0
  }

  predicate AllSequenced(ms: multiset<ChainMember>) {
    forall m | m in ms :: m.sequence.Some?
  }

  /** A chain with a member at `t` is intact exactly when what ends there and what starts there are. */
  lemma IntactInTwo(
    whole: multiset<ChainMember>, below: multiset<ChainMember>, above: multiset<ChainMember>, t: nat,
    head: ChainMember)
    requires UpTo(whole, below, t) && From(whole, above, t)
    requires head in whole && head.sequence == Some(t)
    ensures IntactMembers(whole) <==> AllSequenced(whole) && IntactMembers(below) && IntactMembers(above)
  {
    assert forall m :: m in below <==> m in whole && m.sequence.Some? && m.sequence.value <= t;
    assert forall m :: m in above <==> m in whole && m.sequence.Some? && m.sequence.value >= t;
    if IntactMembers(whole) {
      PrefixIntact(whole, below, t);
      SuffixIntact(whole, above, t);
    }
    if AllSequenced(whole) && IntactMembers(below) && IntactMembers(above) {
      GluedIntact(whole, below, above, t, head);
    }
  }

  lemma SuffixIntact(whole: multiset<ChainMember>, above: multiset<ChainMember>, t: nat)
    requires IntactMembers(whole) && From(whole, above, t)
    ensures IntactMembers(above)
  {
    assert forall m :: m in above <==> m in whole && m.sequence.value >= t;
    forall p, m | Adjacent(above, p, m)
      ensures LinksTo(m, p)
    {
      assert Adjacent(whole, p, m);
    }
  }

  lemma GluedIntact(
    whole: multiset<ChainMember>, below: multiset<ChainMember>, above: multiset<ChainMember>, t: nat,
    head: ChainMember)
    requires UpTo(whole, below, t) && From(whole, above, t) && AllSequenced(whole)
    requires head in whole && head.sequence == Some(t)
    requires IntactMembers(below) && IntactMembers(above)
    ensures IntactMembers(whole)
  {
    assert forall m :: m in below <==> m in whole && m.sequence.value <= t;
    assert forall m :: m in above <==> m in whole && m.sequence.value >= t;
    forall m, m' | m in whole && m' in whole
      ensures SealedAlike(m, m')
    {
      assert SealedAlike(m, head) && SealedAlike(head, m');
    }
    forall p, m | Adjacent(whole, p, m)
      ensures LinksTo(m, p)
    {
      assert Adjacent(if p.sequence.value < t then below else above, p, m);
    }
  }

  /**
   * A checkpoint does not age: extending an agreeing chain past its head by events that,
   * from the head on, verify and link keeps it intact and agreeing.
   */
  lemma ExtensionStillAgrees(
    ctx: Context, before: seq<ChainInput>, after: seq<ChainInput>, doc: CheckpointDocument, claim: Claim,
    below: multiset<ChainMember>, above: multiset<ChainMember>)
    requires ClaimOutcome(ctx, before, doc, claim).status == Agrees
    requires UnverifiedOf(after, UnassignedTags(UnassignedOf(ctx, after)), claim.chainId) == 0
    requires UpTo(multiset(MembersOf(ctx, before, claim.chainId)), below, claim.headSequence)
    requires UpTo(multiset(MembersOf(ctx, after, claim.chainId)), below, claim.headSequence)
    requires From(multiset(MembersOf(ctx, after, claim.chainId)), above, claim.headSequence)
    requires AllSequenced(multiset(MembersOf(ctx, after, claim.chainId))) && IntactMembers(above)
    ensures Intact(ctx, after, claim.chainId)
    ensures ClaimOutcome(ctx, after, doc, claim).status == Agrees
  {
    var c, t := claim.chainId, claim.headSequence;
    var few, more := MembersOf(ctx, before, c), MembersOf(ctx, after, c);
    var p := AgreesMeans(ctx, before, doc, claim);
    SameUpTo(few, more, below, t);
    var head := HeadKept(ctx, few, more, t, p);
    VerdictIsDeclarative(ctx, c, few);
    VerdictIsDeclarative(ctx, c, more);
    PrefixIntact(multiset(few), below, t);
    GluedIntact(multiset(more), below, above, t, head);
    IntactExtensionAgrees(ctx, before, after, doc, claim);
  }

  lemma SameUpTo(few: seq<ChainMember>, more: seq<ChainMember>, below: multiset<ChainMember>, t: nat)
    requires UpTo(multiset(few), below, t) && UpTo(multiset(more), below, t)
    ensures GrowsAfter(few, more, t)
  {
    forall m: ChainMember | m.sequence.Some? && m.sequence.value <= t
      ensures multiset(few)[m] == multiset(more)[m]
    {
      assert below[m] == multiset(few)[m] && below[m] == multiset(more)[m];
    }
  }

  lemma HeadKept(
    ctx: Context, few: seq<ChainMember>, more: seq<ChainMember>, t: nat, p: nat)
    returns (head: ChainMember)
    requires GrowsAfter(few, more, t)
    requires p < |Ordered(ctx, few)| && Ordered(ctx, few)[p].sequence == Some(t)
    ensures head in multiset(more) && head.sequence == Some(t) && more != []
  {
    head := Ordered(ctx, few)[p];
    assert head in Ordered(ctx, few);
    OrderedHas(ctx, few, head);
    assert head in multiset(few);
    assert head in multiset(more);
  }
}
