/** Inclusion proofs: the checks on a proof document, the check of the event it is for, and what passing them shows. */
module Proof {
  import opened Wrappers
  import opened Unicode
  import opened Json
  import opened Hashing
  import opened Digest
  import opened EventVerification
  import opened Merkle
  import opened MerkleShape

  /**
   * A proof document as its schema leaves it; `schemaValid` is the verdict of that
   * schema, `signatureFailure` what checking the root's declared signature found.
   */
  datatype ProofDocument = ProofDocument(
    schemaValid: bool,
    signatureFailure: Option<SignatureFinding>,
    hashAlgorithm: Text,
    leafHash: Text,
    leafIndex: nat,
    path: seq<PathStep>,
    rootHash: Text,
    leafCount: nat
  )

  datatype Outcome = ProofVerified | ProofFailed | NoLeaf | InvalidProof

  /** The verdicts on an event that leave it without a hash to compare. */
  predicate LeafUnavailable(kind: FindingKind) {
    kind in {IntegrityMissing, HashMissing, HashAlgorithmMissing, CanonicalizationMissing,
             UnsupportedCanonicalization, UnsupportedHashAlgorithm}
  }

  /** The path has the shape of the leaf's position and climbs from the leaf to the root. */
  ghost predicate PathProves(h: HashFunction, a: Algorithm, doc: ProofDocument) {
    && doc.leafIndex < doc.leafCount
    && SidesOf(doc.path) == ExpectedSides(doc.leafIndex, doc.leafCount)
    && DecodeDigest(a, doc.leafHash).Some?
    && DecodeDigest(a, doc.rootHash).Some?
    && Climb(h, a, LeafHash(h, a, DecodeDigest(a, doc.leafHash).value), doc.path) == DecodeDigest(a, doc.rootHash)
  }

  /** The document holds together, whichever event is offered with it. */
  ghost predicate Consistent(h: HashFunction, doc: ProofDocument) {
    && doc.schemaValid
    && doc.signatureFailure.None?
    && AlgorithmNamed(doc.hashAlgorithm).Some?
    && PathProves(h, AlgorithmNamed(doc.hashAlgorithm).value, doc)
  }

  /** The event verifies by itself and its hash is the leaf. */
  ghost predicate LeafIsEvent(ctx: Context, event: Value, doc: ProofDocument) {
    VerifyEvent(ctx, event, true) == Verified(doc.leafHash)
  }

  predicate AllDecode(a: Algorithm, path: seq<PathStep>) {
    forall i | 0 <= i < |path| :: DecodeDigest(a, path[i].hash).Some?
  }

  lemma {:induction false} ClimbDecodes(h: HashFunction, a: Algorithm, current: Bytes, path: seq<PathStep>)
    ensures Climb(h, a, current, path).Some? <==> AllDecode(a, path)
    decreases path
  {
    if path != [] {
      var sibling := DecodeDigest(a, path[0].hash);
      if sibling.Some? {
        ClimbDecodes(h, a, Combine(h, a, current, path[0].side, sibling.value), path[1..]);
        assert forall i | 0 < i < |path| :: path[i] == path[1..][i - 1];
      }
    }
  }

  /** When the path leads to another root than the recorded one. */
  ghost predicate ClimbsElsewhere(h: HashFunction, a: Algorithm, doc: ProofDocument) {
    && LengthsHold(a, doc)
    && Climb(h, a, LeafHash(h, a, DecodeDigest(a, doc.leafHash).value), doc.path) != DecodeDigest(a, doc.rootHash)
  }

  /** Every digest in the document has the length of the algorithm. */
  predicate LengthsHold(a: Algorithm, doc: ProofDocument) {
    DecodeDigest(a, doc.leafHash).Some? && DecodeDigest(a, doc.rootHash).Some? && AllDecode(a, doc.path)
  }

  function ShapeFindings(doc: ProofDocument): seq<FindingKind> {
    if doc.leafIndex >= doc.leafCount then [ProofPositionInvalid]
    else if ExpectedSides(doc.leafIndex, doc.leafCount) != SidesOf(doc.path) then [ProofPathInconsistent]
    else []
  }

  /** Which findings on the path and the root there are, and exactly when. */
  ghost predicate PathFindings(h: HashFunction, a: Algorithm, doc: ProofDocument, findings: seq<FindingKind>) {
    && (ProofDigestLengthMismatch in findings <==> !LengthsHold(a, doc))
    && (ProofPositionInvalid in findings <==> doc.leafIndex >= doc.leafCount)
    && (ProofPathInconsistent in findings <==>
          doc.leafIndex < doc.leafCount && SidesOf(doc.path) != ExpectedSides(doc.leafIndex, doc.leafCount))
    && (ProofRootMismatch in findings <==> ClimbsElsewhere(h, a, doc))
  }

  /** The kinds that judge the path and the root. */
  predicate AboutPath(kind: FindingKind) {
    kind == ProofDigestLengthMismatch || kind == ProofPositionInvalid ||
    kind == ProofPathInconsistent || kind == ProofRootMismatch
  }

  /** Which findings on the document there are: none that is not listed here. */
  ghost predicate DocumentFindings(h: HashFunction, doc: ProofDocument, findings: seq<FindingKind>) {
    && (forall k | k in findings :: Some(k) == doc.signatureFailure || k == ProofAlgorithmUnsupported || AboutPath(k))
    && (doc.signatureFailure.Some? ==> doc.signatureFailure.value in findings)
    && (ProofAlgorithmUnsupported in findings <==> AlgorithmNamed(doc.hashAlgorithm).None?)
    && (AlgorithmNamed(doc.hashAlgorithm).Some? ==>
          PathFindings(h, AlgorithmNamed(doc.hashAlgorithm).value, doc, findings))
  }

  /** The findings on the proof document itself, each pushed as it is found. */
  method CheckDocument(h: HashFunction, doc: ProofDocument) returns (findings: seq<FindingKind>)
    requires doc.schemaValid
    ensures findings == [] <==> Consistent(h, doc)
    ensures DocumentFindings(h, doc, findings)
  {
    findings := [];
    if doc.signatureFailure.Some? {
      findings := findings + [doc.signatureFailure.value];
    }
    var named := AlgorithmNamed(doc.hashAlgorithm);
    if named.None? {
      findings := findings + [ProofAlgorithmUnsupported];
    } else {
      var onPath := CheckPath(h, named.value, doc);
      findings := findings + onPath;
    }
  }

  /** Without a finding on the path: the digests decode, the shape is right, and no other root is reached. */
  lemma ProvesIs(h: HashFunction, a: Algorithm, doc: ProofDocument)
    ensures PathProves(h, a, doc) <==>
      && LengthsHold(a, doc) && ShapeFindings(doc) == [] && !ClimbsElsewhere(h, a, doc)
  {
    var leaf := DecodeDigest(a, doc.leafHash);
    if leaf.Some? {
      ClimbDecodes(h, a, LeafHash(h, a, leaf.value), doc.path);
    }
  }

  /** Recomputes the root, when every digest decodes, and compares it with the recorded one. */
  method RootDiffers(h: HashFunction, a: Algorithm, doc: ProofDocument) returns (differs: bool)
    ensures differs <==> ClimbsElsewhere(h, a, doc)
  {
    var leaf := DecodeDigest(a, doc.leafHash);
    differs := false;
    if LengthsHold(a, doc) {
      ClimbDecodes(h, a, LeafHash(h, a, leaf.value), doc.path);
      var recomputed := RootFromPath(h, a, leaf.value, doc.path);
      RootComparison(h, a, leaf.value, doc);
      differs := !DigestsEqual(ToHex(recomputed.value), doc.rootHash);
    }
  }

  lemma NothingFoundProves(h: HashFunction, a: Algorithm, doc: ProofDocument, findings: seq<FindingKind>)
    requires PathFindings(h, a, doc, findings) && forall k | k in findings :: AboutPath(k)
    ensures findings == [] <==> PathProves(h, a, doc)
  {
    ProvesIs(h, a, doc);
    ShapeFindingsAre(doc);
    if findings != [] {
      assert findings[0] in findings;
    }
  }

  /** The findings one by one, as they are pushed. */
  lemma PathFindingsAre(h: HashFunction, a: Algorithm, doc: ProofDocument, findings: seq<FindingKind>)
    requires findings
      == (if LengthsHold(a, doc) then [] else [ProofDigestLengthMismatch]) + ShapeFindings(doc)
         + (if ClimbsElsewhere(h, a, doc) then [ProofRootMismatch] else [])
    ensures PathFindings(h, a, doc, findings) && forall k | k in findings :: AboutPath(k)
  {
    ShapeFindingsAre(doc);
  }

  method CheckPath(h: HashFunction, a: Algorithm, doc: ProofDocument) returns (findings: seq<FindingKind>)
    ensures findings == [] <==> PathProves(h, a, doc)
    ensures forall k | k in findings :: AboutPath(k)
    ensures PathFindings(h, a, doc, findings)
  {
    findings := if LengthsHold(a, doc) then [] else [ProofDigestLengthMismatch];
    findings := findings + ShapeFindings(doc);
    var differs := RootDiffers(h, a, doc);
    if differs {
      findings := findings + [ProofRootMismatch];
    }
    PathFindingsAre(h, a, doc, findings);
    NothingFoundProves(h, a, doc, findings);
  }

  lemma ShapeFindingsAre(doc: ProofDocument)
    ensures var shape := ShapeFindings(doc);
      && (forall k | k in shape :: k == ProofPositionInvalid || k == ProofPathInconsistent)
      && (ProofPositionInvalid in shape <==> doc.leafIndex >= doc.leafCount)
      && (ProofPathInconsistent in shape <==>
            doc.leafIndex < doc.leafCount && SidesOf(doc.path) != ExpectedSides(doc.leafIndex, doc.leafCount))
  {
  }

  /** Comparing the recomputed root as hexadecimal decides whether the path reaches the recorded root. */
  lemma RootComparison(h: HashFunction, a: Algorithm, leaf: Bytes, doc: ProofDocument)
    requires Climb(h, a, LeafHash(h, a, leaf), doc.path).Some? && DecodeDigest(a, doc.rootHash).Some?
    ensures var root := ToHex(Climb(h, a, LeafHash(h, a, leaf), doc.path).value);
      && (DigestsEqual(root, doc.rootHash) <==> root == doc.rootHash)
      && (root == doc.rootHash <==> Climb(h, a, LeafHash(h, a, leaf), doc.path) == DecodeDigest(a, doc.rootHash))
  {
    var climbed := Climb(h, a, LeafHash(h, a, leaf), doc.path).value;
    ClimbLength(h, a, LeafHash(h, a, leaf), doc.path);
    DigestsEqualIsTextEquality(ToHex(climbed), doc.rootHash);
    DecodeOfToHex(a, climbed);
    DecodeDigestInjective(a, doc.rootHash, doc.rootHash);
  }

  /** What is found about the leaf: nothing at all when the algorithm is unsupported, as the event is not looked at. */
  function LeafFindings(result: EventResult, doc: ProofDocument): seq<FindingKind> {
    if AlgorithmNamed(doc.hashAlgorithm).None? then []
    else if result.Failed? then (if LeafUnavailable(result.kind) then [ProofLeafUnavailable] else [])
    else if result.declaredHash != doc.leafHash then [ProofLeafMismatch]
    else []
  }

  /** The findings are those on the document, then those on the leaf. */
  ghost predicate AllFindings(h: HashFunction, result: EventResult, doc: ProofDocument, findings: seq<FindingKind>) {
    exists onDocument ::
      findings == onDocument + LeafFindings(result, doc) && DocumentFindings(h, doc, onDocument)
  }

  /** Checks the document, then the event exactly as it is verified on its own, then that its hash is the leaf. */
  method VerifyProof(
    ctx: Context, event: Value, doc: ProofDocument)
    returns (outcome: Outcome, findings: seq<FindingKind>)
    ensures outcome == InvalidProof <==> !doc.schemaValid
    ensures outcome == ProofVerified <==> Consistent(ctx.hash, doc) && LeafIsEvent(ctx, event, doc)
    ensures outcome == NoLeaf <==>
      Consistent(ctx.hash, doc) && VerifyEvent(ctx, event, true).Failed?
        && LeafUnavailable(VerifyEvent(ctx, event, true).kind)
    ensures outcome == InvalidProof ==> findings == [ProofSchemaInvalid]
    ensures outcome == ProofVerified ==> findings == []
    ensures outcome == NoLeaf ==> findings == [ProofLeafUnavailable]
    ensures doc.schemaValid ==> AllFindings(ctx.hash, VerifyEvent(ctx, event, true), doc, findings)
  {
    if !doc.schemaValid {
      return InvalidProof, [ProofSchemaInvalid];
    }
    VerifiedHashIsDigest(ctx, event);
    outcome, findings := JudgeProof(ctx.hash, doc, VerifyEvent(ctx, event, true));
  }

  lemma NoLeafKind(h: HashFunction, doc: ProofDocument, findings: seq<FindingKind>)
    requires DocumentFindings(h, doc, findings)
    ensures forall k | k in findings :: k != ProofLeafUnavailable
  {
  }

  lemma AllFindingsAre(
    h: HashFunction, result: EventResult, doc: ProofDocument, onDocument: seq<FindingKind>)
    requires DocumentFindings(h, doc, onDocument)
    ensures AllFindings(h, result, doc, onDocument + LeafFindings(result, doc))
  {
  }

  /** The judgement on a document, given the verdict on the event. */
  method JudgeProof(
    h: HashFunction, doc: ProofDocument, result: EventResult)
    returns (outcome: Outcome, findings: seq<FindingKind>)
    requires doc.schemaValid && (result.Verified? ==> IsHexDigest(result.declaredHash))
    ensures outcome != InvalidProof
    ensures outcome == ProofVerified <==> Consistent(h, doc) && result == Verified(doc.leafHash)
    ensures outcome == NoLeaf <==> Consistent(h, doc) && result.Failed? && LeafUnavailable(result.kind)
    ensures outcome == ProofVerified ==> findings == []
    ensures outcome == NoLeaf ==> findings == [ProofLeafUnavailable]
    ensures AllFindings(h, result, doc, findings)
  {
    var onDocument := CheckDocument(h, doc);
    AllFindingsAre(h, result, doc, onDocument);
    NoLeafKind(h, doc, onDocument);
    if AlgorithmNamed(doc.hashAlgorithm).None? {
      assert onDocument + [] == onDocument;
      return ProofFailed, onDocument;
    }
    var onLeaf, eventFailed := CheckLeaf(result, doc);
    outcome := Judge(onDocument, onLeaf, eventFailed);
    findings := onDocument + onLeaf;
  }

  /** The event's part: its hash is the leaf, or is not, or cannot be established. */
  method CheckLeaf(result: EventResult, doc: ProofDocument) returns (onLeaf: seq<FindingKind>, eventFailed: bool)
    requires AlgorithmNamed(doc.hashAlgorithm).Some?
    requires result.Verified? ==> IsHexDigest(result.declaredHash)
    ensures onLeaf == LeafFindings(result, doc)
    ensures onLeaf == [] && !eventFailed <==> result == Verified(doc.leafHash)
    ensures eventFailed <==> result.Failed? && !LeafUnavailable(result.kind)
  {
    onLeaf, eventFailed := [], false;
    if result.Verified? {
      DigestsEqualIsTextEquality(result.declaredHash, doc.leafHash);
      if !DigestsEqual(result.declaredHash, doc.leafHash) {
        onLeaf := [ProofLeafMismatch];
      }
    } else if LeafUnavailable(result.kind) {
      onLeaf := [ProofLeafUnavailable];
    } else {
      eventFailed := true;
    }
  }

  /** An unavailable leaf is no verdict unless something else failed. */
  method Judge(onDocument: seq<FindingKind>, onLeaf: seq<FindingKind>, eventFailed: bool) returns (outcome: Outcome)
    requires forall k | k in onDocument :: k != ProofLeafUnavailable
    requires onLeaf == [] || onLeaf == [ProofLeafUnavailable] || onLeaf == [ProofLeafMismatch]
    ensures outcome == ProofVerified <==> onDocument == [] && onLeaf == [] && !eventFailed
    ensures outcome == NoLeaf <==> onDocument == [] && onLeaf == [ProofLeafUnavailable] && !eventFailed
    ensures outcome == ProofVerified || outcome == NoLeaf || outcome == ProofFailed
  {
    var proofFailed := exists k | k in onDocument + onLeaf :: k != ProofLeafUnavailable;
    assert onDocument != [] ==> onDocument[0] in onDocument + onLeaf;
    assert onLeaf == [ProofLeafMismatch] ==> ProofLeafMismatch in onDocument + onLeaf;
    outcome := if proofFailed || eventFailed then ProofFailed
               else if ProofLeafUnavailable in onLeaf then NoLeaf
               else ProofVerified;
  }

  lemma VerifiedHashIsDigest(ctx: Context, event: Value)
    ensures var result := VerifyEvent(ctx, event, true); result.Verified? ==> IsHexDigest(result.declaredHash)
  {
  }

  /**
   * The events without a hash to compare: accepted by the validator, but declaring no hash,
   * not the one canonicalization, or none of the three algorithms. A hash that is declared
   * under them and wrong is a failure of the event.
   */
  lemma NoLeafExactly(ctx: Context, event: Value)
    ensures var d := DeclaredBy(event);
      VerifyEvent(ctx, event, true).Failed? && LeafUnavailable(VerifyEvent(ctx, event, true).kind) <==>
        && ctx.schemaValid(event)
        && (|| ReadIntegrity(event).None? || d.hash.None?
            || d.canonicalization != Some(Ascii("RFC8785"))
            || d.algorithm.None? || !HashNamed(d.algorithm.value))
  {
    DeclarationFindingExactly(ctx, event, true);
  }

  // ---------------------------------------------------------------- what a verified proof shows

  /**
   * A verified proof against the root of a list of digests, with the list's size, shows
   * that the event's own hash stands in the list at exactly the claimed index.
   */
  lemma VerifiedProofPinsLeaf(ctx: Context, event: Value, doc: ProofDocument, digests: seq<Text>)
    requires Consistent(ctx.hash, doc) && LeafIsEvent(ctx, event, doc)
    requires var a := AlgorithmNamed(doc.hashAlgorithm).value;
      && doc.leafCount == |digests|
      && MerkleRoot(ctx.hash, a, digests).Some?
      && MerkleRoot(ctx.hash, a, digests) == DecodeDigest(a, doc.rootHash)
      && CollisionFree(ctx.hash, ProofInputs(ctx.hash, a, DecodeDigest(a, doc.leafHash).value, doc.path, digests))
    ensures Some(digests[doc.leafIndex]) == AsText(IntegrityMember(event, HASH))
  {
    var a := AlgorithmNamed(doc.hashAlgorithm).value;
    var leaf := DecodeDigest(a, doc.leafHash).value;
    ProofPinsPosition(ctx.hash, a, leaf, doc.path, digests, doc.leafIndex);
    DecodeDigestInjective(a, doc.leafHash, doc.leafHash);
    VerifiedIsSealed(ctx, event, true);
  }

  /**
   * End to end: if the published root was built over the hashes of sealed events, an event
   * with a verified proof is the published event at that index, up to what is not hashed.
   */
  lemma VerifiedProofPinsEvent(ctx: Context, event: JsValue, doc: ProofDocument, digests: seq<Text>, published: JsValue)
    requires Consistent(ctx.hash, doc) && LeafIsEvent(ctx, event, doc)
    requires var a := AlgorithmNamed(doc.hashAlgorithm).value;
      && doc.leafCount == |digests|
      && MerkleRoot(ctx.hash, a, digests).Some?
      && MerkleRoot(ctx.hash, a, digests) == DecodeDigest(a, doc.rootHash)
      && CollisionFree(ctx.hash, ProofInputs(ctx.hash, a, DecodeDigest(a, doc.leafHash).value, doc.path, digests))
    requires Seals(ctx.hash, published, DeclaredAlgorithm(published), digests[doc.leafIndex])
    requires CollisionFree(ctx.hash,
      [SealPreimage(event, DeclaredAlgorithm(event)), SealPreimage(published, DeclaredAlgorithm(published))])
    ensures SameValue(DigestInput(event), DigestInput(published))
  {
    VerifiedProofPinsLeaf(ctx, event, doc, digests);
    VerifiedIsSealed(ctx, event, true);
    SameHashSameEvent(ctx.hash, event, published, DeclaredAlgorithm(event), DeclaredAlgorithm(published),
      digests[doc.leafIndex]);
  }

  /** What following the path of a document hashes. */
  function PathInputs(h: HashFunction, a: Algorithm, doc: ProofDocument): seq<Preimage>
    requires DecodeDigest(a, doc.leafHash).Some?
  {
    var leaf := DecodeDigest(a, doc.leafHash).value;
    [LeafPreimage(a, leaf)] + ClimbInputs(h, a, LeafHash(h, a, leaf), doc.path)
  }

  /** Two documents about one position of one published root. */
  predicate SamePosition(doc: ProofDocument, other: ProofDocument) {
    && doc.hashAlgorithm == other.hashAlgorithm && doc.rootHash == other.rootHash
    && doc.leafCount == other.leafCount && doc.leafIndex == other.leafIndex
  }

  /**
   * A root binds each position without the list it was built from: consistent documents
   * about one position name one leaf and one path.
   */
  lemma PositionBindsLeaf(h: HashFunction, doc: ProofDocument, other: ProofDocument)
    requires Consistent(h, doc) && Consistent(h, other) && SamePosition(doc, other)
    requires var a := AlgorithmNamed(doc.hashAlgorithm).value;
      CollisionFree(h, PathInputs(h, a, doc) + PathInputs(h, a, other))
    ensures doc.leafHash == other.leafHash && doc.path == other.path
  {
    var a := AlgorithmNamed(doc.hashAlgorithm).value;
    var d, d' := DecodeDigest(a, doc.leafHash).value, DecodeDigest(a, other.leafHash).value;
    var root, known := DecodeDigest(a, doc.rootHash).value, PathInputs(h, a, doc) + PathInputs(h, a, other);
    ClimbsAgree(h, a, d, doc.path, d', other.path, root, known);
    DecodeDigestInjective(a, doc.leafHash, other.leafHash);
  }

  /** And so two events proved to stand at one position of one root are the same event, up to what is not hashed. */
  lemma PositionBindsEvent(ctx: Context, event: JsValue, doc: ProofDocument, event': JsValue, other: ProofDocument)
    requires Consistent(ctx.hash, doc) && LeafIsEvent(ctx, event, doc)
    requires Consistent(ctx.hash, other) && LeafIsEvent(ctx, event', other)
    requires SamePosition(doc, other)
    requires var a := AlgorithmNamed(doc.hashAlgorithm).value;
      CollisionFree(ctx.hash, PathInputs(ctx.hash, a, doc) + PathInputs(ctx.hash, a, other))
    requires CollisionFree(ctx.hash,
      [SealPreimage(event, DeclaredAlgorithm(event)), SealPreimage(event', DeclaredAlgorithm(event'))])
    ensures SameValue(DigestInput(event), DigestInput(event'))
  {
    PositionBindsLeaf(ctx.hash, doc, other);
    VerifiedIsSealed(ctx, event, true);
    VerifiedIsSealed(ctx, event', true);
    SameHashSameEvent(ctx.hash, event, event', DeclaredAlgorithm(event), DeclaredAlgorithm(event'), doc.leafHash);
  }

  /** The proof a publisher cuts from a tree for one of its leaves. */
  function CutProof(h: HashFunction, a: Algorithm, name: Text, digests: seq<Text>, index: nat): ProofDocument
    requires index < |digests| && MerkleRoot(h, a, digests).Some?
  {
    ProofDocument(true, None, name, digests[index], index, AuditPath(h, a, digests, index).GetOr([]),
                  ToHex(MerkleRoot(h, a, digests).value), |digests|)
  }

  /** Every proof cut from a tree verifies, for the event whose verified hash is the leaf. */
  lemma CutProofVerifies(ctx: Context, event: Value, name: Text, digests: seq<Text>, index: nat)
    requires AlgorithmNamed(name).Some? && index < |digests|
    requires MerkleRoot(ctx.hash, AlgorithmNamed(name).value, digests).Some?
    requires VerifyEvent(ctx, event, true) == Verified(digests[index])
    ensures var doc := CutProof(ctx.hash, AlgorithmNamed(name).value, name, digests, index);
      Consistent(ctx.hash, doc) && LeafIsEvent(ctx, event, doc)
  {
    var h, a := ctx.hash, AlgorithmNamed(name).value;
    ProofCompleteness(h, a, digests, index);
    var leaf := DecodeDigest(a, digests[index]).value;
    ClimbLength(h, a, LeafHash(h, a, leaf), AuditPath(h, a, digests, index).value);
    DecodeOfToHex(a, MerkleRoot(h, a, digests).value);
  }
}
