/** Recorded chain heads, and what an archive is found to be against them. */
module Checkpoint {
  import opened Wrappers
  import opened Unicode
  import opened Json
  import opened Hashing
  import opened Digest
  import opened EventVerification
  import opened Chain
  import opened ChainProperties
  import ChainIntake

  /** A recorded head: chain, sequence and hash, with the number of events when that was recorded. */
  datatype Claim = Claim(chainId: Text, headSequence: nat, headHash: Text, eventCount: Option<nat>)

  /** A checkpoint as its schema leaves it; `signatureFailure` is what checking its own signature found. */
  datatype CheckpointDocument = CheckpointDocument(
    schemaValid: bool,
    signatureFailure: Option<SignatureFinding>,
    hashAlgorithm: Text,
    canonicalization: Text,
    claims: seq<Claim>
  )

  /** An entry of the index: the declared texts of an event, and its sequence. */
  datatype IndexedEvent = IndexedEvent(
    tag: Text,
    sequence: nat,
    hash: Option<Text>,
    hashAlgorithm: Option<Text>,
    canonicalization: Option<Text>
  )

  datatype Status = Agrees | Disagrees | Missing

  datatype ClaimResult = ClaimResult(
    claim: Claim,
    status: Status,
    chain: Option<ChainResult>,
    findings: seq<FindingKind>
  )

  datatype CheckpointOutcome = ArchiveAgrees | ArchiveDisagrees | NoChain | InvalidCheckpoint

  // ---------------------------------------------------------------- the index of the archive

  function ChainIdOf(event: Value): Option<Text> {
    AsText(IntegrityMember(event, CHAIN_ID))
  }

  /** What one event adds to the index of one chain; nothing when its label was left unassigned. */
  function EntryIn(ctx: Context, x: ChainInput, unassigned: set<Text>, c: Text): seq<IndexedEvent> {
    if x.tag in unassigned || ChainIdOf(x.event) != Some(c) || SequenceOf(ctx, x.event).None? then []
    else [IndexedEvent(x.tag, SequenceOf(ctx, x.event).value,
                       AsText(IntegrityMember(x.event, HASH)),
                       AsText(IntegrityMember(x.event, HASH_ALGORITHM)),
                       AsText(IntegrityMember(x.event, CANONICALIZATION)))]
  }

  function IndexOf(ctx: Context, inputs: seq<ChainInput>, unassigned: set<Text>, c: Text): seq<IndexedEvent> {
    if inputs == [] then []
    else IndexOf(ctx, inputs[..|inputs| - 1], unassigned, c) + EntryIn(ctx, inputs[|inputs| - 1], unassigned, c)
  }

  function UnverifiedOf(inputs: seq<ChainInput>, unassigned: set<Text>, c: Text): nat {
    if inputs == [] then 0
    else
      var x := inputs[|inputs| - 1];
      UnverifiedOf(inputs[..|inputs| - 1], unassigned, c)
      + if x.tag in unassigned && ChainIdOf(x.event) == Some(c) then 1 else 0
  }

  /** The labels on the findings about unassigned events. */
  function UnassignedTags(findings: seq<Finding>): set<Text> {
    set f | f in findings && f.tag.Some? :: f.tag.value
  }

  ghost predicate IndexMatches(ctx: Context, inputs: seq<ChainInput>, unassigned: set<Text>,
                               verified: map<Text, seq<IndexedEvent>>, unverified: map<Text, nat>) {
    && (forall c: Text :: IndexOf(ctx, inputs, unassigned, c) == if c in verified then verified[c] else [])
    && (forall c: Text :: UnverifiedOf(inputs, unassigned, c) == if c in unverified then unverified[c] else 0)
  }

  /** Fills both maps in one pass: entries for assigned events, a count for the rest. */
  method IndexArchive(ctx: Context, inputs: seq<ChainInput>, unassigned: set<Text>)
    returns (verified: map<Text, seq<IndexedEvent>>, unverified: map<Text, nat>)
    ensures IndexMatches(ctx, inputs, unassigned, verified, unverified)
  {
    verified, unverified := map[], map[];
    for i := 0 to |inputs|
      invariant IndexMatches(ctx, inputs[..i], unassigned, verified, unverified)
    {
      assert inputs[..i + 1] == inputs[..i] + [inputs[i]];
      verified, unverified := IndexEvent(ctx, inputs[..i], inputs[i], unassigned, verified, unverified);
    }
    assert inputs[..|inputs|] == inputs;
  }

  method IndexEvent(ctx: Context, ghost before: seq<ChainInput>, x: ChainInput, unassigned: set<Text>,
                    verified: map<Text, seq<IndexedEvent>>, unverified: map<Text, nat>)
    returns (verified': map<Text, seq<IndexedEvent>>, unverified': map<Text, nat>)
    requires IndexMatches(ctx, before, unassigned, verified, unverified)
    ensures IndexMatches(ctx, before + [x], unassigned, verified', unverified')
  {
    assert (before + [x])[..|before|] == before;
    verified', unverified' := verified, unverified;
    var chainId, sequence := ChainIdOf(x.event), SequenceOf(ctx, x.event);
    if x.tag in unassigned {
      if chainId.Some? {
        var soFar := if chainId.value in unverified then unverified[chainId.value] else 0;
        unverified' := unverified[chainId.value := soFar + 1];
      }
      return;
    }
    if chainId.None? || sequence.None? {
      return;
    }
    var entry := IndexedEvent(x.tag, sequence.value, AsText(IntegrityMember(x.event, HASH)),
                              AsText(IntegrityMember(x.event, HASH_ALGORITHM)),
                              AsText(IntegrityMember(x.event, CANONICALIZATION)));
    var bucket := if chainId.value in verified then verified[chainId.value] else [];
    verified' := verified[chainId.value := bucket + [entry]];
  }

  // ---------------------------------------------------------------- one claim

  /** Whether an archived event declares the recorded head. */
  predicate MatchesHead(event: IndexedEvent, headHash: Text) {
    && event.hash.Some? && IsHexDigest(event.hash.value) && IsHexDigest(headHash)
    && DigestsEqual(event.hash.value, headHash)
  }

  function EventsAt(events: seq<IndexedEvent>, k: nat): seq<IndexedEvent> {
    if events == [] then []
    else EventsAt(events[..|events| - 1], k) + if events[|events| - 1].sequence == k then [events[|events| - 1]] else []
  }

  function CountUpTo(events: seq<IndexedEvent>, k: nat): nat {
    if events == [] then 0
    else CountUpTo(events[..|events| - 1], k) + if events[|events| - 1].sequence <= k then 1 else 0
  }

  /** Why there is no event at the recorded head. */
  function HeadAbsent(claim: Claim, chain: ChainResult, unverifiedMembers: nat): seq<FindingKind> {
    if unverifiedMembers > 0 then []
    else if chain.lastSequence.None? then [CheckpointHeadMissing]
    else if chain.lastSequence.value < claim.headSequence then [TailTruncated]
    else [CheckpointHeadMissing]
  }

  function HeadPresent(
    claim: Claim, events: seq<IndexedEvent>, atHead: seq<IndexedEvent>, unverifiedMembers: nat): seq<FindingKind> {
    (if exists e | e in atHead :: MatchesHead(e, claim.headHash) then [] else [CheckpointHeadMismatch]) +
    (if && claim.eventCount.Some? && unverifiedMembers == 0
        && CountUpTo(events, claim.headSequence) != claim.eventCount.value
     then [CheckpointCountMismatch] else [])
  }

  function ClaimFindings(claim: Claim, chain: ChainResult, events: seq<IndexedEvent>, unverifiedMembers: nat,
                         hashAlgorithm: Text, canonicalization: Text): seq<FindingKind> {
    var atHead := EventsAt(events, claim.headSequence);
    (if atHead == [] then HeadAbsent(claim, chain, unverifiedMembers)
     else if atHead[0].hashAlgorithm != Some(hashAlgorithm) || atHead[0].canonicalization != Some(canonicalization)
       then [CheckpointAlgorithmMismatch]
     else HeadPresent(claim, events, atHead, unverifiedMembers)) +
    (if unverifiedMembers > 0 then [CheckpointMembersUnverified] else [])
  }

  function ClaimStatus(chain: ChainResult, findings: seq<FindingKind>, unverifiedMembers: nat): Status {
    if chain.intact && findings == [] && unverifiedMembers == 0 then Agrees else Disagrees
  }

  function Comparison(claim: Claim, chain: ChainResult, events: seq<IndexedEvent>, unverifiedMembers: nat,
                      hashAlgorithm: Text, canonicalization: Text): ClaimResult {
    var findings := ClaimFindings(claim, chain, events, unverifiedMembers, hashAlgorithm, canonicalization);
    ClaimResult(claim, ClaimStatus(chain, findings, unverifiedMembers), Some(chain), findings)
  }

  /** The comparison of a claim, each finding pushed where its test fails. */
  method CompareClaim(claim: Claim, chain: ChainResult, events: seq<IndexedEvent>, unverifiedMembers: nat,
                      hashAlgorithm: Text, canonicalization: Text) returns (result: ClaimResult)
    ensures result == Comparison(claim, chain, events, unverifiedMembers, hashAlgorithm, canonicalization)
  {
    var findings: seq<FindingKind> := [];
    var atHead := EventsAt(events, claim.headSequence);
    if |atHead| == 0 {
      if unverifiedMembers > 0 {
      } else if chain.lastSequence.None? {
        findings := findings + [CheckpointHeadMissing];
      } else if chain.lastSequence.value < claim.headSequence {
        findings := findings + [TailTruncated];
      } else {
        findings := findings + [CheckpointHeadMissing];
      }
    } else if atHead[0].hashAlgorithm != Some(hashAlgorithm) || atHead[0].canonicalization != Some(canonicalization) {
      findings := findings + [CheckpointAlgorithmMismatch];
    } else {
      var matches := false;
      for i := 0 to |atHead|
        invariant matches <==> exists j | 0 <= j < i :: MatchesHead(atHead[j], claim.headHash)
      {
        matches := matches || MatchesHead(atHead[i], claim.headHash);
      }
      assert matches <==> exists e | e in atHead :: MatchesHead(e, claim.headHash);
      if !matches {
        findings := findings + [CheckpointHeadMismatch];
      }
      if claim.eventCount.Some? && unverifiedMembers == 0 {
        var counted := CountUpTo(events, claim.headSequence);
        if counted != claim.eventCount.value {
          findings := findings + [CheckpointCountMismatch];
        }
      }
    }
    if unverifiedMembers > 0 {
      findings := findings + [CheckpointMembersUnverified];
    }
    result := ClaimResult(claim, ClaimStatus(chain, findings, unverifiedMembers), Some(chain), findings);
  }

  // ---------------------------------------------------------------- the whole comparison

  function FindChain(chains: seq<ChainResult>, c: Text): Option<ChainResult> {
    if chains == [] then None
    else if chains[0].chainId == c then Some(chains[0])
    else FindChain(chains[1..], c)
  }

  function MissingChain(claim: Claim): ClaimResult {
    ClaimResult(claim, Missing, None, [CheckpointChainMissing])
  }

  /** How one claim of a document compares with an archive. */
  function ClaimOutcome(ctx: Context, inputs: seq<ChainInput>, doc: CheckpointDocument, claim: Claim): ClaimResult {
    var report := Report(ctx, inputs);
    var unassigned := UnassignedTags(report.unassigned);
    match FindChain(report.chains, claim.chainId)
    case None => MissingChain(claim)
    case Some(chain) =>
      Comparison(claim, chain, IndexOf(ctx, inputs, unassigned, claim.chainId),
        UnverifiedOf(inputs, unassigned, claim.chainId),
                 doc.hashAlgorithm, doc.canonicalization)
  }

  lemma ChainFound(ctx: Context, inputs: seq<ChainInput>, c: Text)
    ensures FindChain(Report(ctx, inputs).chains, c) ==
      if MembersOf(ctx, inputs, c) == [] then None else Some(Verdict(ctx, c, MembersOf(ctx, inputs, c)))
  {
    var chains := Report(ctx, inputs).chains;
    FindChainIs(chains, c);
    ReportedChains(ctx, inputs, Verdict(ctx, c, MembersOf(ctx, inputs, c)));
    if FindChain(chains, c).Some? {
      ReportedChains(ctx, inputs, FindChain(chains, c).value);
    }
  }

  lemma {:induction false} FindChainIs(chains: seq<ChainResult>, c: Text)
    ensures FindChain(chains, c).Some? ==>
      FindChain(chains, c).value in chains && FindChain(chains, c).value.chainId == c
    ensures FindChain(chains, c).None? ==> forall r | r in chains :: r.chainId != c
  {
    if chains != [] {
      FindChainIs(chains[1..], c);
    }
  }

  /** A chain none of the accepted events names is missing, and no other is. */
  lemma MissingExactly(ctx: Context, inputs: seq<ChainInput>, doc: CheckpointDocument, claim: Claim)
    ensures ClaimOutcome(ctx, inputs, doc, claim).status == Missing <==> MembersOf(ctx, inputs, claim.chainId) == []
    ensures MembersOf(ctx, inputs, claim.chainId) == [] ==>
      && ClaimOutcome(ctx, inputs, doc, claim).findings == [CheckpointChainMissing]
      && ClaimOutcome(ctx, inputs, doc, claim).chain.None?
    ensures MembersOf(ctx, inputs, claim.chainId) != [] ==>
      ClaimOutcome(ctx, inputs, doc, claim).chain
      == Some(Verdict(ctx, claim.chainId, MembersOf(ctx, inputs, claim.chainId)))
  {
    ChainFound(ctx, inputs, claim.chainId);
  }

  lemma AllMissing(ctx: Context, inputs: seq<ChainInput>, doc: CheckpointDocument, results: seq<ClaimResult>)
    requires |results| == |doc.claims|
    requires forall i | 0 <= i < |results| :: results[i] == ClaimOutcome(ctx, inputs, doc, doc.claims[i])
    ensures (forall r | r in results :: r.status == Missing) <==>
      forall claim | claim in doc.claims :: MembersOf(ctx, inputs, claim.chainId) == []
  {
    forall i | 0 <= i < |results|
      ensures results[i].status == Missing <==> MembersOf(ctx, inputs, doc.claims[i].chainId) == []
    {
      MissingExactly(ctx, inputs, doc, doc.claims[i]);
    }
    if forall r | r in results :: r.status == Missing {
      forall claim | claim in doc.claims
        ensures MembersOf(ctx, inputs, claim.chainId) == []
      {
        var i :| 0 <= i < |doc.claims| && doc.claims[i] == claim;
        assert results[i] in results;
      }
    }
    if forall claim | claim in doc.claims :: MembersOf(ctx, inputs, claim.chainId) == [] {
      forall r | r in results
        ensures r.status == Missing
      {
        var i :| 0 <= i < |results| && results[i] == r;
        assert doc.claims[i] in doc.claims;
      }
    }
  }

  /**
   * The document is validated first; then the archive is verified exactly as its chains
   * are, and each claim is compared with it.
   */
  method VerifyCheckpoint(ctx: Context, inputs: seq<ChainInput>, doc: CheckpointDocument)
    returns (outcome: CheckpointOutcome, results: seq<ClaimResult>)
    ensures outcome == InvalidCheckpoint <==> !doc.schemaValid
    ensures doc.schemaValid ==>
      |results| == |doc.claims| && forall i | 0 <= i < |results| ::
        results[i] == ClaimOutcome(ctx, inputs, doc, doc.claims[i])
    ensures !doc.schemaValid ==> results == []
    ensures outcome == NoChain <==>
      doc.schemaValid && forall claim | claim in doc.claims :: MembersOf(ctx, inputs, claim.chainId) == []
    ensures outcome == ArchiveAgrees <==>
      && doc.schemaValid && doc.signatureFailure.None? && Report(ctx, inputs).intact
      && doc.claims != [] && forall r | r in results :: r.status == Agrees
  {
    results := [];
    if !doc.schemaValid {
      return InvalidCheckpoint, [];
    }
    var archive := ChainIntake.VerifyChains(ctx, inputs);
    var unassigned := UnassignedTags(archive.unassigned);
    var verified, unverified := IndexArchive(ctx, inputs, unassigned);
    for i := 0 to |doc.claims|
      invariant |results| == i
      invariant forall j | 0 <= j < i :: results[j] == ClaimOutcome(ctx, inputs, doc, doc.claims[j])
    {
      var result := CompareWithArchive(ctx, inputs, doc, doc.claims[i], archive, verified, unverified);
      results := results + [result];
    }
    AllMissing(ctx, inputs, doc, results);
    outcome := Conclude(doc, archive, results);
  }

  method CompareWithArchive(ctx: Context, ghost inputs: seq<ChainInput>, doc: CheckpointDocument, claim: Claim,
                            archive: ChainReport, verified: map<Text, seq<IndexedEvent>>, unverified: map<Text, nat>)
    returns (result: ClaimResult)
    requires archive == Report(ctx, inputs)
    requires IndexMatches(ctx, inputs, UnassignedTags(archive.unassigned), verified, unverified)
    ensures result == ClaimOutcome(ctx, inputs, doc, claim)
  {
    var chain := FindChain(archive.chains, claim.chainId);
    if chain.None? {
      return MissingChain(claim);
    }
    var events := if claim.chainId in verified then verified[claim.chainId] else [];
    var apart := if claim.chainId in unverified then unverified[claim.chainId] else 0;
    result := CompareClaim(claim, chain.value, events, apart, doc.hashAlgorithm, doc.canonicalization);
  }

  method Conclude(
    doc: CheckpointDocument, archive: ChainReport, results: seq<ClaimResult>)
    returns (outcome: CheckpointOutcome)
    ensures outcome != InvalidCheckpoint
    ensures outcome == NoChain <==> forall r | r in results :: r.status == Missing
    ensures outcome == ArchiveAgrees <==>
      doc.signatureFailure.None? && archive.intact && results != [] && forall r | r in results :: r.status == Agrees
  {
    var somePresent := exists r | r in results :: r.status != Missing;
    var allAgree := forall r | r in results :: r.status == Agrees;
    assert results != [] ==> results[0] in results;
    outcome := if !somePresent then NoChain
               else if doc.signatureFailure.None? && archive.intact && allAgree then ArchiveAgrees
               else ArchiveDisagrees;
  }
}
