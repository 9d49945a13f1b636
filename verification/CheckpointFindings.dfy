/** When each finding on a claim is there, from the indexed events and the chain's end alone. */
module CheckpointFindings {
  import opened Wrappers
  import opened Unicode
  import opened Hashing
  import opened EventVerification
  import opened Chain
  import opened Checkpoint

  /** The first indexed event at a sequence, in arrival order. */
  ghost predicate IsFirstAt(events: seq<IndexedEvent>, i: nat, k: nat) {
    i < |events| && events[i].sequence == k && forall j | 0 <= j < i :: events[j].sequence != k
  }

  /** How many indexed events lie at or below a sequence. */
  ghost function HowManyUpTo(events: seq<IndexedEvent>, k: nat): nat {
    |set i | 0 <= i < |events| && events[i].sequence <= k|
  }

  lemma {:induction false} CountIsHowMany(events: seq<IndexedEvent>, k: nat)
    ensures CountUpTo(events, k) == HowManyUpTo(events, k)
  {
    if events != [] {
      var front, n := events[..|events| - 1], |events| - 1;
      CountIsHowMany(front, k);
      var fewer := set i | 0 <= i < |front| && front[i].sequence <= k;
      var more := set i | 0 <= i < |events| && events[i].sequence <= k;
      assert more == if events[n].sequence <= k then fewer + {n} else fewer;
    }
  }

  lemma {:induction false} EventsAtHas(events: seq<IndexedEvent>, k: nat, e: IndexedEvent)
    ensures e in EventsAt(events, k) <==> e in events && e.sequence == k
  {
    if events != [] {
      var front, last := events[..|events| - 1], events[|events| - 1];
      EventsAtHas(front, k, e);
      assert events == front + [last];
    }
  }

  lemma {:induction false} NothingBefore(events: seq<IndexedEvent>, k: nat)
    requires forall e | e in events :: e.sequence != k
    ensures EventsAt(events, k) == []
  {
    if events != [] {
      var front, last := events[..|events| - 1], events[|events| - 1];
      assert events == front + [last];
      NothingBefore(front, k);
    }
  }

  lemma {:induction false} FirstIsFirst(events: seq<IndexedEvent>, i: nat, k: nat)
    requires IsFirstAt(events, i, k)
    ensures EventsAt(events, k) != [] && EventsAt(events, k)[0] == events[i]
  {
    var front := events[..|events| - 1];
    if i < |front| {
      assert IsFirstAt(front, i, k);
      FirstIsFirst(front, i, k);
    } else {
      forall e | e in front
        ensures e.sequence != k
      {
        var j :| 0 <= j < |front| && front[j] == e;
        assert events[j] == e;
      }
      NothingBefore(front, k);
    }
  }

  /** No indexed event at the recorded head. */
  lemma AbsentHeadFindings(
    claim: Claim, chain: ChainResult, events: seq<IndexedEvent>, unverified: nat, a: Text, k: Text)
    requires forall e | e in events :: e.sequence != claim.headSequence
    ensures var findings := ClaimFindings(claim, chain, events, unverified, a, k);
      && (TailTruncated in findings <==>
            unverified == 0 && chain.lastSequence.Some? && chain.lastSequence.value < claim.headSequence)
      && (CheckpointHeadMissing in findings <==>
            unverified == 0 && (chain.lastSequence.None? || claim.headSequence <= chain.lastSequence.value))
      && (CheckpointMembersUnverified in findings <==> unverified > 0)
      && forall f | f in findings ::
        f == TailTruncated || f == CheckpointHeadMissing || f == CheckpointMembersUnverified
  {
    NothingBefore(events, claim.headSequence);
  }

  /** The event at the recorded head declares the recorded digest. */
  predicate Matches(e: IndexedEvent, claim: Claim) {
    e.sequence == claim.headSequence && e.hash == Some(claim.headHash) && LowerHex(claim.headHash)
  }

  lemma MatchesIs(e: IndexedEvent, claim: Claim)
    requires e.sequence == claim.headSequence
    ensures MatchesHead(e, claim.headHash) <==> Matches(e, claim)
  {
    LowerHexIs(claim.headHash);
    if e.hash.Some? {
      DigestsEqualIsTextEquality(e.hash.value, claim.headHash);
    }
  }

  lemma SomeMatch(events: seq<IndexedEvent>, claim: Claim)
    ensures (exists e | e in EventsAt(events, claim.headSequence) :: MatchesHead(e, claim.headHash)) <==>
      exists e | e in events :: Matches(e, claim)
  {
    var atHead := EventsAt(events, claim.headSequence);
    if e :| e in atHead && MatchesHead(e, claim.headHash) {
      EventsAtHas(events, claim.headSequence, e);
      MatchesIs(e, claim);
    }
    if e :| e in events && Matches(e, claim) {
      EventsAtHas(events, claim.headSequence, e);
      MatchesIs(e, claim);
    }
  }

  /** A list of findings put together from four tests. */
  function Listed(alike: bool, matched: bool, counted: bool, verified: bool): seq<FindingKind> {
    (if !alike then [CheckpointAlgorithmMismatch]
     else (if matched then [] else [CheckpointHeadMismatch]) + (if counted then [] else [CheckpointCountMismatch]))
    + (if verified then [] else [CheckpointMembersUnverified])
  }

  lemma ListedHas(alike: bool, matched: bool, counted: bool, verified: bool)
    ensures var findings := Listed(alike, matched, counted, verified);
      && (CheckpointAlgorithmMismatch in findings <==> !alike)
      && (CheckpointHeadMismatch in findings <==> alike && !matched)
      && (CheckpointCountMismatch in findings <==> alike && !counted)
      && (CheckpointMembersUnverified in findings <==> !verified)
      && forall f | f in findings ::
           || f == CheckpointAlgorithmMismatch || f == CheckpointHeadMismatch
           || f == CheckpointCountMismatch || f == CheckpointMembersUnverified
  {
  }

  lemma PresentFindings(
    claim: Claim, chain: ChainResult, events: seq<IndexedEvent>, unverified: nat, a: Text, k: Text,
    first: IndexedEvent)
    requires EventsAt(events, claim.headSequence) != [] && EventsAt(events, claim.headSequence)[0] == first
    ensures ClaimFindings(claim, chain, events, unverified, a, k) ==
      Listed(
        first.hashAlgorithm == Some(a) && first.canonicalization == Some(k),
        exists e | e in EventsAt(events, claim.headSequence) :: MatchesHead(e, claim.headHash),
        !(claim.eventCount.Some? && unverified == 0
          && CountUpTo(events, claim.headSequence) != claim.eventCount.value),
        unverified == 0)
  {
  }

  /** Indexed events at the recorded head, the first of them at position `i`. */
  lemma PresentHeadFindings(
    claim: Claim, chain: ChainResult, events: seq<IndexedEvent>, unverified: nat, a: Text, k: Text, i: nat)
    requires IsFirstAt(events, i, claim.headSequence)
    ensures var findings := ClaimFindings(claim, chain, events, unverified, a, k);
      var alike := events[i].hashAlgorithm == Some(a) && events[i].canonicalization == Some(k);
      && (CheckpointAlgorithmMismatch in findings <==> !alike)
      && (CheckpointHeadMismatch in findings <==> alike && forall e | e in events :: !Matches(e, claim))
      && (CheckpointCountMismatch in findings <==>
            && alike && unverified == 0 && claim.eventCount.Some?
            && HowManyUpTo(events, claim.headSequence) != claim.eventCount.value)
      && (CheckpointMembersUnverified in findings <==> unverified > 0)
      && forall f | f in findings ::
           || f == CheckpointAlgorithmMismatch || f == CheckpointHeadMismatch
           || f == CheckpointCountMismatch || f == CheckpointMembersUnverified
  {
    FirstIsFirst(events, i, claim.headSequence);
    SomeMatch(events, claim);
    CountIsHowMany(events, claim.headSequence);
    PresentFindings(claim, chain, events, unverified, a, k, events[i]);
    ListedHas(
      events[i].hashAlgorithm == Some(a) && events[i].canonicalization == Some(k),
      exists e | e in EventsAt(events, claim.headSequence) :: MatchesHead(e, claim.headHash),
      !(claim.eventCount.Some? && unverified == 0
        && CountUpTo(events, claim.headSequence) != claim.eventCount.value),
      unverified == 0);
  }

  /** The status: agreement is an intact chain, nothing found and nothing unverified. */
  lemma StatusExactly(claim: Claim, chain: ChainResult, events: seq<IndexedEvent>, unverified: nat, a: Text, k: Text)
    ensures var r := Comparison(claim, chain, events, unverified, a, k);
      && (r.status == Agrees <==> chain.intact && r.findings == [] && unverified == 0)
      && (r.status == Disagrees <==> r.status != Agrees)
      && r.claim == claim && r.chain == Some(chain)
  {
  }
}
