/** Verification of one event's own digest. */
module EventVerification {
  import opened Wrappers
  import opened Unicode
  import opened Json
  import opened Canonical
  import opened Hashing
  import opened Digest

  /** Why verification did not succeed. The messages and detail lines are not modelled. */
  datatype FindingKind =
    | SchemaInvalid
    | IntegrityMissing
    | HashMissing
    | HashAlgorithmMissing
    | CanonicalizationMissing
    | UnsupportedCanonicalization
    | UnsupportedHashAlgorithm
    | MalformedHash
    | DigestLengthMismatch
    | HashMismatch
    | CanonicalizationFailed
    | UnsupportedSignatureAlgorithm
    | MalformedSignature
    | SignatureInvalid
    | ChainIdMissing
    | SequenceMissing
    | DuplicateSequence(sequence: nat, count: nat)
    | PreviousHashMissing
    | BrokenLink
    | AlgorithmMismatch
    | CheckpointChainMissing
    | CheckpointAlgorithmMismatch
    | TailTruncated
    | CheckpointHeadMismatch
    | CheckpointHeadMissing
    | CheckpointCountMismatch
    | CheckpointMembersUnverified
    | ProofSchemaInvalid
    | ProofAlgorithmUnsupported
    | ProofDigestLengthMismatch
    | ProofPositionInvalid
    | ProofPathInconsistent
    | ProofRootMismatch
    | ProofLeafUnavailable
    | ProofLeafMismatch

  /** What a signature that was checked can fail with. */
  type SignatureFinding = k: FindingKind |
    k == UnsupportedSignatureAlgorithm || k == MalformedSignature || k == SignatureInvalid
    witness SignatureInvalid

  /** A reason, and the label of the event it was found on when it is about one event. */
  datatype Finding = Finding(kind: FindingKind, tag: Option<Text>)

  /**
   * Everything verification takes from outside: the hash, the reading of a number
   * token as a whole number, the schema validator, the locale order of labels, and the
   * check of a declared signature against a supplied public key (absent when none is).
   */
  datatype Context = Context(
    hash: HashFunction,
    wholeNumber: Text -> Option<nat>,
    schemaValid: Value -> bool,
    labelRank: Text -> real,
    publicKey: Option<(Value, Text, Text) -> Option<SignatureFinding>>
  )

  const RFC8785 := Ascii("RFC8785")
  const ALGORITHM := Ascii("algorithm")
  const VALUE := Ascii("value")

  predicate IsSupportedSignatureAlgorithm(name: Text) {
    name == Ascii("Ed25519") || name == Ascii("ECDSA-P256-SHA256") || name == Ascii("RSA-PSS-SHA256")
  }

  /** What a declared signature adds to the verdict: a failure, or nothing. */
  function SignatureFailure(ctx: Context, event: Value): Option<SignatureFinding> {
    match IntegrityMember(event, SIGNATURE)
    case Some(Object(fields)) =>
      var algorithm, value := AsText(Get(fields, ALGORITHM)), AsText(Get(fields, VALUE));
      if algorithm.None? || value.None? then None
      else if !IsSupportedSignatureAlgorithm(algorithm.value) then Some(UnsupportedSignatureAlgorithm)
      else if ctx.publicKey.None? then None
      else ctx.publicKey.value(event, algorithm.value, value.value)
    case _ => None
  }

  /** Either the declared hash that was verified, or the one finding that stopped verification. */
  datatype EventResult = Verified(declaredHash: Text) | Failed(kind: FindingKind)

  function VerifyEvent(ctx: Context, event: Value, validateSchema: bool): EventResult {
    if validateSchema && !ctx.schemaValid(event) then Failed(SchemaInvalid)
    else if ReadIntegrity(event).None? then Failed(IntegrityMissing)
    else
      var hash := AsText(IntegrityMember(event, HASH));
      var canonicalization := AsText(IntegrityMember(event, CANONICALIZATION));
      var algorithm := AsText(IntegrityMember(event, HASH_ALGORITHM));
      if hash.None? then Failed(HashMissing)
      else if canonicalization.None? then Failed(CanonicalizationMissing)
      else if canonicalization.value != RFC8785 then Failed(UnsupportedCanonicalization)
      else if algorithm.None? then Failed(HashAlgorithmMissing)
      else if AlgorithmNamed(algorithm.value).None? then Failed(UnsupportedHashAlgorithm)
      else VerifyHash(ctx, event, hash.value, algorithm.value)
  }

  /** The kinds that judge what is declared. */
  predicate OnDeclaration(kind: FindingKind) {
    || kind == SchemaInvalid || kind == IntegrityMissing || kind == HashMissing || kind == CanonicalizationMissing
    || kind == UnsupportedCanonicalization || kind == HashAlgorithmMissing || kind == UnsupportedHashAlgorithm
  }

  /** The checks on the declared hash, under a supported algorithm. */
  function VerifyHash(ctx: Context, event: Value, hash: Text, algorithm: Text): (r: EventResult)
    requires AlgorithmNamed(algorithm).Some?
    ensures r.Failed? ==> !OnDeclaration(r.kind)
  {
    if !IsHexDigest(hash) then Failed(MalformedHash)
    else if |hash| != DigestByteLength(AlgorithmNamed(algorithm).value) * 2 then Failed(DigestLengthMismatch)
    else VerifyDigest(ctx, event, hash, algorithm)
  }

  /** The comparison with the recalculated digest, and the signature after it. */
  function VerifyDigest(ctx: Context, event: Value, hash: Text, algorithm: Text): (r: EventResult)
    requires AlgorithmNamed(algorithm).Some? && IsHexDigest(hash)
    ensures r == Failed(CanonicalizationFailed) <==> CanonicalBytes(DigestInput(event)).None?
    ensures r == Failed(HashMismatch) <==>
      && CanonicalBytes(DigestInput(event)).Some?
      && hash != ToHex(ctx.hash(SealPreimage(event, AlgorithmNamed(algorithm).value)))
    ensures r.Failed? ==> r.kind == CanonicalizationFailed || r.kind == HashMismatch || OnSignature(r.kind)
  {
    match CalculateDigest(ctx.hash, event, algorithm)
    case Failure(_) => Failed(CanonicalizationFailed)
    case Success(calculated) =>
      DigestsEqualIsTextEquality(hash, calculated);
      if !DigestsEqual(hash, calculated) then Failed(HashMismatch)
      else
        match SignatureFailure(ctx, event)
        case Some(kind) => Failed(kind)
        case None => Verified(hash)
  }

  predicate OnSignature(kind: FindingKind) {
    kind == UnsupportedSignatureAlgorithm || kind == MalformedSignature || kind == SignatureInvalid
  }

  /** The event declares this algorithm and the digest it recalculates to under it. */
  predicate Seals(h: HashFunction, event: Value, a: Algorithm, hash: Text) {
    && AsText(IntegrityMember(event, CANONICALIZATION)) == Some(RFC8785)
    && AsText(IntegrityMember(event, HASH_ALGORITHM)).Some?
    && AlgorithmNamed(AsText(IntegrityMember(event, HASH_ALGORITHM)).value) == Some(a)
    && AsText(IntegrityMember(event, HASH)) == Some(hash)
    && CanonicalBytes(DigestInput(event)).Some?
    && hash == ToHex(h(SealPreimage(event, a)))
  }

  /** What is hashed for an event. */
  function SealPreimage(event: Value, a: Algorithm): Preimage {
    Preimage(a, CanonicalBytes(DigestInput(event)).GetOr([]))
  }

  function DeclaredAlgorithm(event: Value): Algorithm {
    match AsText(IntegrityMember(event, HASH_ALGORITHM))
    case Some(name) => AlgorithmNamed(name).GetOr(Sha256)
    case None => Sha256
  }

  /**
   * The nine checks together decide one thing: the declared hash is the recalculated
   * digest under the declared, supported algorithm and canonicalization.
   */
  lemma VerifiedIsSealed(ctx: Context, event: Value, validateSchema: bool)
    ensures VerifyEvent(ctx, event, validateSchema).Verified? <==>
      && (validateSchema ==> ctx.schemaValid(event))
      && AsText(IntegrityMember(event, HASH)).Some?
      && Seals(ctx.hash, event, DeclaredAlgorithm(event), AsText(IntegrityMember(event, HASH)).value)
      && SignatureFailure(ctx, event).None?
    ensures VerifyEvent(ctx, event, validateSchema).Verified? ==>
      Some(VerifyEvent(ctx, event, validateSchema).declaredHash) == AsText(IntegrityMember(event, HASH))
  {
    var hash := AsText(IntegrityMember(event, HASH));
    var algorithm := AsText(IntegrityMember(event, HASH_ALGORITHM));
    if hash.Some? && algorithm.Some? && AlgorithmNamed(algorithm.value).Some? {
      match CalculateDigest(ctx.hash, event, algorithm.value)
      case Success(calculated) => DigestsEqualIsTextEquality(hash.value, calculated);
      case Failure(_) =>
    }
  }

  /** The declared signature: an object whose `algorithm` and `value` are texts. */
  predicate Declares(event: Value, algorithm: Text, value: Text) {
    match IntegrityMember(event, Ascii("signature"))
    case Some(Object(fields)) =>
      Get(fields, Ascii("algorithm")) == Some(String(algorithm)) && Get(fields, Ascii("value")) == Some(String(value))
    case _ => false
  }

  predicate IsSigned(event: Value) {
    match IntegrityMember(event, Ascii("signature"))
    case Some(Object(fields)) =>
      AsText(Get(fields, Ascii("algorithm"))).Some? && AsText(Get(fields, Ascii("value"))).Some?
    case _ => false
  }

  /** The verdict on the event before its signature is looked at. */
  predicate DigestHolds(ctx: Context, event: Value, validateSchema: bool) {
    && (validateSchema ==> ctx.schemaValid(event))
    && AsText(IntegrityMember(event, HASH)).Some?
    && Seals(ctx.hash, event, DeclaredAlgorithm(event), AsText(IntegrityMember(event, HASH)).value)
  }

  /** The signature algorithms a key can be tried with. */
  predicate Implemented(algorithm: Text) {
    || algorithm == Ascii("Ed25519")
    || algorithm == Ascii("ECDSA-P256-SHA256")
    || algorithm == Ascii("RSA-PSS-SHA256")
  }

  /** What the check of a declared signature comes to: nothing, or a finding. */
  lemma DeclaredSignature(ctx: Context, event: Value, algorithm: Text, value: Text)
    requires Declares(event, algorithm, value)
    ensures !Implemented(algorithm) ==> SignatureFailure(ctx, event) == Some(UnsupportedSignatureAlgorithm)
    ensures Implemented(algorithm) && ctx.publicKey.None? ==> SignatureFailure(ctx, event).None?
    ensures Implemented(algorithm) && ctx.publicKey.Some? ==>
      SignatureFailure(ctx, event) == ctx.publicKey.value(event, algorithm, value)
  {
  }

  /** The event verifies when its digest holds and its signature, if it fails, is not what fails it. */
  lemma SignatureDecides(ctx: Context, event: Value, validateSchema: bool)
    ensures VerifyEvent(ctx, event, validateSchema).Verified? <==>
      DigestHolds(ctx, event, validateSchema) && SignatureFailure(ctx, event).None?
  {
    VerifiedIsSealed(ctx, event, validateSchema);
  }

  /**
   * A signature under an algorithm nobody implements here fails the event, key or no key, and
   * so does whatever a supplied key finds; nothing else about a signature does.
   */
  lemma SignedVerifiesExactly(ctx: Context, event: Value, validateSchema: bool, algorithm: Text, value: Text)
    requires Declares(event, algorithm, value)
    ensures VerifyEvent(ctx, event, validateSchema).Verified? <==>
      && DigestHolds(ctx, event, validateSchema)
      && Implemented(algorithm)
      && (ctx.publicKey.Some? ==> ctx.publicKey.value(event, algorithm, value).None?)
  {
    SignatureDecides(ctx, event, validateSchema);
    DeclaredSignature(ctx, event, algorithm, value);
  }

  /** And the finding is the unsupported algorithm, or what the key found. */
  lemma SignedFailsExactly(ctx: Context, event: Value, validateSchema: bool, algorithm: Text, value: Text)
    requires Declares(event, algorithm, value) && DigestHolds(ctx, event, validateSchema)
    ensures !Implemented(algorithm) ==>
      VerifyEvent(ctx, event, validateSchema) == Failed(UnsupportedSignatureAlgorithm)
    ensures Implemented(algorithm) && ctx.publicKey.Some? && ctx.publicKey.value(event, algorithm, value).Some? ==>
      VerifyEvent(ctx, event, validateSchema) == Failed(ctx.publicKey.value(event, algorithm, value).value)
  {
    DigestHoldsReaches(ctx, event, validateSchema);
    DeclaredSignature(ctx, event, algorithm, value);
  }

  /** Without a declared signature the digest decides alone, whatever key is supplied. */
  lemma UnsignedVerifiesExactly(ctx: Context, event: Value, validateSchema: bool)
    requires !IsSigned(event)
    ensures VerifyEvent(ctx, event, validateSchema).Verified? <==> DigestHolds(ctx, event, validateSchema)
  {
    VerifiedIsSealed(ctx, event, validateSchema);
  }

  lemma DigestHoldsReaches(ctx: Context, event: Value, validateSchema: bool)
    requires DigestHolds(ctx, event, validateSchema)
    ensures SignatureFailure(ctx, event).Some? ==>
      VerifyEvent(ctx, event, validateSchema) == Failed(SignatureFailure(ctx, event).value)
  {
    var hash := AsText(IntegrityMember(event, HASH)).value;
    var calculated := CalculateDigest(ctx.hash, event, AsText(IntegrityMember(event, HASH_ALGORITHM)).value).value;
    DigestsEqualIsTextEquality(hash, calculated);
  }

  /** What an event declares, as far as its digest is checked. */
  datatype Declared = Declared(hash: Option<Text>, canonicalization: Option<Text>, algorithm: Option<Text>)

  function DeclaredBy(event: Value): Declared {
    Declared(
      AsText(IntegrityMember(event, Ascii("hash"))),
      AsText(IntegrityMember(event, Ascii("canonicalization"))),
      AsText(IntegrityMember(event, Ascii("hashAlgorithm"))))
  }

  /** The declarations get the event as far as its hash: canonicalization and algorithm are the supported ones. */
  predicate Named(d: Declared) {
    && d.hash.Some? && d.canonicalization == Some(Ascii("RFC8785"))
    && d.algorithm.Some? && HashNamed(d.algorithm.value)
  }

  /** The validator was passed, or not asked, and there is an integrity object. */
  predicate Readable(ctx: Context, event: Value, validateSchema: bool) {
    (!validateSchema || ctx.schemaValid(event)) && ReadIntegrity(event).Some?
  }

  /** When each finding on what is declared is the result. */
  ghost predicate DeclarationFinding(ctx: Context, event: Value, validateSchema: bool, r: EventResult) {
    var d := DeclaredBy(event);
    var read := Readable(ctx, event, validateSchema);
    var canonical := read && d.hash.Some? && d.canonicalization == Some(Ascii("RFC8785"));
    && (r == Failed(SchemaInvalid) <==> validateSchema && !ctx.schemaValid(event))
    && (r == Failed(IntegrityMissing) <==>
          (!validateSchema || ctx.schemaValid(event)) && ReadIntegrity(event).None?)
    && (r == Failed(HashMissing) <==> read && d.hash.None?)
    && (r == Failed(CanonicalizationMissing) <==> read && d.hash.Some? && d.canonicalization.None?)
    && (r == Failed(UnsupportedCanonicalization) <==>
          && read && d.hash.Some? && d.canonicalization.Some?
          && d.canonicalization != Some(Ascii("RFC8785")))
    && (r == Failed(HashAlgorithmMissing) <==> canonical && d.algorithm.None?)
    && (r == Failed(UnsupportedHashAlgorithm) <==> canonical && d.algorithm.Some? && !HashNamed(d.algorithm.value))
  }

  /** The first check on what is declared that fails. */
  function FirstFailed(ctx: Context, event: Value, validateSchema: bool): Option<FindingKind> {
    var d := DeclaredBy(event);
    if validateSchema && !ctx.schemaValid(event) then Some(SchemaInvalid)
    else if ReadIntegrity(event).None? then Some(IntegrityMissing)
    else if d.hash.None? then Some(HashMissing)
    else if d.canonicalization.None? then Some(CanonicalizationMissing)
    else if d.canonicalization != Some(Ascii("RFC8785")) then Some(UnsupportedCanonicalization)
    else if d.algorithm.None? then Some(HashAlgorithmMissing)
    else if !HashNamed(d.algorithm.value) then Some(UnsupportedHashAlgorithm)
    else None
  }

  lemma FirstFailedIs(ctx: Context, event: Value, validateSchema: bool)
    ensures FirstFailed(ctx, event, validateSchema).Some? ==>
      VerifyEvent(ctx, event, validateSchema) == Failed(FirstFailed(ctx, event, validateSchema).value)
  {
    var algorithm := DeclaredBy(event).algorithm;
    if algorithm.Some? {
      AlgorithmNames(algorithm.value);
    }
  }

  lemma NoneFailedIs(ctx: Context, event: Value, validateSchema: bool)
    requires FirstFailed(ctx, event, validateSchema).None?
    ensures var r := VerifyEvent(ctx, event, validateSchema); r.Failed? ==> !OnDeclaration(r.kind)
  {
    var d := DeclaredBy(event);
    AlgorithmNames(d.algorithm.value);
  }

  lemma FirstFailedExactly(ctx: Context, event: Value, validateSchema: bool, r: EventResult)
    requires match FirstFailed(ctx, event, validateSchema)
      case Some(kind) => r == Failed(kind)
      case None => r.Failed? ==> !OnDeclaration(r.kind)
    ensures DeclarationFinding(ctx, event, validateSchema, r)
  {
  }

  /** The first of the checks on what is declared that fails names the finding. */
  lemma DeclarationFindingExactly(ctx: Context, event: Value, validateSchema: bool)
    ensures DeclarationFinding(ctx, event, validateSchema, VerifyEvent(ctx, event, validateSchema))
  {
    FirstFailedIs(ctx, event, validateSchema);
    if FirstFailed(ctx, event, validateSchema).None? {
      NoneFailedIs(ctx, event, validateSchema);
    }
    FirstFailedExactly(ctx, event, validateSchema, VerifyEvent(ctx, event, validateSchema));
  }

  lemma NamedReaches(ctx: Context, event: Value, validateSchema: bool)
    requires Readable(ctx, event, validateSchema) && Named(DeclaredBy(event))
    ensures var d := DeclaredBy(event);
      && AlgorithmNamed(d.algorithm.value).Some?
      && VerifyEvent(ctx, event, validateSchema) == VerifyHash(ctx, event, d.hash.value, d.algorithm.value)
  {
    AlgorithmNames(DeclaredBy(event).algorithm.value);
  }

  /** When each finding on a declared hash is the result. */
  ghost predicate HashFinding(ctx: Context, event: Value, hash: Text, algorithm: Text, r: EventResult) {
    var sized := LowerHex(hash) && |hash| == HexLength(algorithm);
    && (r == Failed(MalformedHash) <==> !LowerHex(hash))
    && (r == Failed(DigestLengthMismatch) <==> LowerHex(hash) && |hash| != HexLength(algorithm))
    && (r == Failed(CanonicalizationFailed) <==> sized && CanonicalBytes(DigestInput(event)).None?)
    && (r == Failed(HashMismatch) <==>
          && sized && CanonicalBytes(DigestInput(event)).Some?
          && hash != ToHex(ctx.hash(SealPreimage(event, DeclaredAlgorithm(event)))))
  }

  lemma VerifyHashFinds(ctx: Context, event: Value, hash: Text, algorithm: Text)
    requires AlgorithmNamed(algorithm).Some? && AsText(IntegrityMember(event, HASH_ALGORITHM)) == Some(algorithm)
    ensures HashFinding(ctx, event, hash, algorithm, VerifyHash(ctx, event, hash, algorithm))
  {
    AlgorithmNames(algorithm);
    LowerHexIs(hash);
  }

  /** The first of the checks on the hash itself that fails names the finding. */
  lemma HashFindingExactly(ctx: Context, event: Value, validateSchema: bool)
    requires Readable(ctx, event, validateSchema) && Named(DeclaredBy(event))
    ensures var d := DeclaredBy(event);
      HashFinding(ctx, event, d.hash.value, d.algorithm.value, VerifyEvent(ctx, event, validateSchema))
  {
    var d := DeclaredBy(event);
    NamedReaches(ctx, event, validateSchema);
    VerifyHashFinds(ctx, event, d.hash.value, d.algorithm.value);
  }

  /** And those four are found of no other event. */
  lemma HashFindingNeedsNames(ctx: Context, event: Value, validateSchema: bool)
    requires var r := VerifyEvent(ctx, event, validateSchema);
      || r == Failed(MalformedHash) || r == Failed(DigestLengthMismatch)
      || r == Failed(CanonicalizationFailed) || r == Failed(HashMismatch)
    ensures Readable(ctx, event, validateSchema) && Named(DeclaredBy(event))
  {
    if AsText(IntegrityMember(event, HASH_ALGORITHM)).Some? {
      AlgorithmNames(AsText(IntegrityMember(event, HASH_ALGORITHM)).value);
    }
  }

  /** An event with an infinity in what is hashed never verifies, whatever it declares. */
  lemma VerifiedIsFinite(ctx: Context, event: JsValue, validateSchema: bool)
    requires VerifyEvent(ctx, event, validateSchema).Verified?
    ensures HashedFinite(event)
  {
    VerifiedIsSealed(ctx, event, validateSchema);
    DigestInputSound(event);
    GuardsAgree(DigestInput(event), 0);
    DigestInputFinite(event);
  }

  /** Two events with the same declared hash are the same event, as far as anything hashed goes. */
  lemma SameHashSameEvent(h: HashFunction, e: JsValue, e': JsValue, a: Algorithm, a': Algorithm, hash: Text)
    requires Seals(h, e, a, hash) && Seals(h, e', a', hash)
    requires CollisionFree(h, [SealPreimage(e, a), SealPreimage(e', a')])
    ensures a == a' && SameValue(DigestInput(e), DigestInput(e'))
  {
    var p, q := SealPreimage(e, a), SealPreimage(e', a');
    HexRoundTrip(h(p));
    HexRoundTrip(h(q));
    assert p in [p, q] && q in [p, q];
    DigestInputSound(e);
    DigestInputSound(e');
    BytesIdentifyValue(DigestInput(e), DigestInput(e'));
  }
}
