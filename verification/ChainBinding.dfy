/** What an intact verdict says about the events themselves: deletions, substitutions, reorderings. */
module ChainBinding {
  import opened Wrappers
  import opened Unicode
  import opened Json
  import opened Hashing
  import opened Digest
  import opened EventVerification
  import opened Chain
  import opened ChainOrder
  import opened ChainProperties

  /** Two events that are the same as far as anything hashed goes. */
  ghost predicate SameSealed(x: ChainInput, y: ChainInput) {
    SameValue(DigestInput(x.event), DigestInput(y.event))
  }

  predicate BelongsTo(ctx: Context, x: ChainInput, c: Text) {
    Place(ctx, x).Assigned? && Place(ctx, x).chainId == c
  }

  /** What is hashed when the digests of the events of one chain are checked. */
  function Hashed(ctx: Context, inputs: seq<ChainInput>, c: Text): (ps: seq<Preimage>)
    ensures forall x | x in inputs && BelongsTo(ctx, x, c) :: SealPreimage(x.event, DeclaredAlgorithm(x.event)) in ps
  {
    if inputs == [] then []
    else
      (if BelongsTo(ctx, inputs[0], c) then [SealPreimage(inputs[0].event, DeclaredAlgorithm(inputs[0].event))] else [])
      + Hashed(ctx, inputs[1..], c)
  }

  /** The event behind a member. */
  predicate Backs(ctx: Context, x: ChainInput, c: Text, m: ChainMember) {
    Place(ctx, x) == Assigned(c, m)
  }

  lemma {:induction false} MemberHasEvent(ctx: Context, inputs: seq<ChainInput>, c: Text, m: ChainMember)
    ensures m in MembersOf(ctx, inputs, c) <==> exists x :: x in inputs && Backs(ctx, x, c, m)
  {
    if inputs != [] {
      var front, last := inputs[..|inputs| - 1], inputs[|inputs| - 1];
      MemberHasEvent(ctx, front, c, m);
      assert m in MemberIn(ctx, last, c) <==> Backs(ctx, last, c, m);
      assert inputs == front + [last];
      assert forall x :: x in inputs <==> x in front || x == last;
    }
  }

  lemma EventOf(ctx: Context, inputs: seq<ChainInput>, c: Text, m: Sequenced) returns (x: ChainInput)
    requires m in Ordered(ctx, MembersOf(ctx, inputs, c))
    ensures x in inputs && Backs(ctx, x, c, m)
  {
    OrderedHas(ctx, MembersOf(ctx, inputs, c), m);
    MemberHasEvent(ctx, inputs, c, m);
    x :| x in inputs && Backs(ctx, x, c, m);
  }

  /** Everything chain verification reads of an event is read of its digest input, so it is fixed by the hash. */
  lemma SameSealedSameLinks(ctx: Context, x: ChainInput, y: ChainInput)
    requires SameSealed(x, y)
    ensures SequenceOf(ctx, x.event) == SequenceOf(ctx, y.event)
    ensures AsText(IntegrityMember(x.event, PREVIOUS_HASH)) == AsText(IntegrityMember(y.event, PREVIOUS_HASH))
    ensures AsText(IntegrityMember(x.event, CHAIN_ID)) == AsText(IntegrityMember(y.event, CHAIN_ID))
  {
    var v, w := DigestInput(x.event), DigestInput(y.event);
    DigestInputSound(x.event);
    DigestInputSound(y.event);
    DigestInputReads(x.event, SEQUENCE);
    DigestInputReads(y.event, SEQUENCE);
    SameValueMembers(v, w, SEQUENCE);
    DigestInputReads(x.event, PREVIOUS_HASH);
    DigestInputReads(y.event, PREVIOUS_HASH);
    SameValueIntegrity(v, w, PREVIOUS_HASH);
    DigestInputReads(x.event, CHAIN_ID);
    DigestInputReads(y.event, CHAIN_ID);
    SameValueIntegrity(v, w, CHAIN_ID);
  }

  lemma VerifiedMemberSealed(ctx: Context, x: ChainInput, c: Text, m: ChainMember)
    requires Backs(ctx, x, c, m) && m.digestFindings == []
    ensures m.hash.Some? && IsHexDigest(m.hash.value)
    ensures Seals(ctx.hash, x.event, DeclaredAlgorithm(x.event), m.hash.value)
  {
    VerifiedIsSealed(ctx, x.event, false);
  }

  /** The links of a member are those its event declares. */
  lemma BackedLinks(ctx: Context, x: ChainInput, c: Text, m: ChainMember)
    requires Backs(ctx, x, c, m)
    ensures Some(c) == AsText(IntegrityMember(x.event, CHAIN_ID))
    ensures m.sequence == SequenceOf(ctx, x.event)
    ensures m.previousHash == AsText(IntegrityMember(x.event, PREVIOUS_HASH))
  {
  }

  /** Two verified members with one hash come from one event. */
  lemma SameHashSameSealed(
    ctx: Context, x: ChainInput, c: Text, m: ChainMember, y: ChainInput, d: Text, o: ChainMember,
    known: seq<Preimage>)
    requires Backs(ctx, x, c, m) && Backs(ctx, y, d, o)
    requires m.digestFindings == [] && o.digestFindings == [] && m.hash == o.hash
    requires CollisionFree(ctx.hash, known)
    requires SealPreimage(x.event, DeclaredAlgorithm(x.event)) in known
    requires SealPreimage(y.event, DeclaredAlgorithm(y.event)) in known
    ensures SameSealed(x, y)
  {
    VerifiedMemberSealed(ctx, x, c, m);
    VerifiedMemberSealed(ctx, y, d, o);
    SameHashSameEvent(ctx.hash, x.event, y.event, DeclaredAlgorithm(x.event), DeclaredAlgorithm(y.event), m.hash.value);
  }

  /** And so they agree on every link. */
  lemma SameHashSameMember(
    ctx: Context, x: ChainInput, c: Text, m: ChainMember, y: ChainInput, d: Text, o: ChainMember,
    known: seq<Preimage>)
    requires Backs(ctx, x, c, m) && Backs(ctx, y, d, o)
    requires m.digestFindings == [] && o.digestFindings == [] && m.hash == o.hash
    requires CollisionFree(ctx.hash, known)
    requires SealPreimage(x.event, DeclaredAlgorithm(x.event)) in known
    requires SealPreimage(y.event, DeclaredAlgorithm(y.event)) in known
    ensures SameSealed(x, y)
    ensures c == d && m.sequence == o.sequence && m.previousHash == o.previousHash
  {
    SameHashSameSealed(ctx, x, c, m, y, d, o, known);
    SameSealedSameLinks(ctx, x, y);
    BackedLinks(ctx, x, c, m);
    BackedLinks(ctx, y, d, o);
  }

  /** The chain verifies intact. */
  predicate Intact(ctx: Context, inputs: seq<ChainInput>, c: Text) {
    Verdict(ctx, c, MembersOf(ctx, inputs, c)).intact
  }

  /** The members of a chain in sequence order. */
  function OrderedChain(ctx: Context, inputs: seq<ChainInput>, c: Text): seq<Sequenced> {
    Ordered(ctx, MembersOf(ctx, inputs, c))
  }

  predicate HashLink(m: ChainMember, predecessor: ChainMember) {
    m.previousHash.Some? && m.previousHash == predecessor.hash
  }

  /** Each member declares its predecessor's hash, compared as text. */
  ghost predicate HashLinked(ms: seq<Sequenced>) {
    forall i, j | 0 <= i < j < |ms| && j == i + 1 :: HashLink(ms[j], ms[i])
  }

  /** What an intact verdict gives, as facts about the sorted list. */
  ghost predicate Sound(ctx: Context, inputs: seq<ChainInput>, c: Text, ms: seq<Sequenced>) {
    && ms == Ordered(ctx, MembersOf(ctx, inputs, c))
    && Rising(ms)
    && HashLinked(ms)
    && forall m | m in ms :: m.digestFindings == []
  }

  lemma LinkedIsHashLinked(ms: seq<Sequenced>)
    requires Linked(ms)
    ensures HashLinked(ms)
  {
    forall i, j | 0 <= i < j < |ms| && j == i + 1
      ensures HashLink(ms[j], ms[i])
    {
      assert LinksTo(ms[j], ms[i]);
      DigestsEqualIsTextEquality(ms[j].previousHash.value, ms[i].hash.value);
    }
  }

  lemma IntactIsSound(ctx: Context, inputs: seq<ChainInput>, c: Text)
    requires Intact(ctx, inputs, c)
    ensures Sound(ctx, inputs, c, OrderedChain(ctx, inputs, c))
    ensures forall m | m in MembersOf(ctx, inputs, c) :: m.sequence.Some?
  {
    var members := MembersOf(ctx, inputs, c);
    VerdictOnList(ctx, c, members);
    LinkedIsHashLinked(Ordered(ctx, members));
    forall m | m in Ordered(ctx, members)
      ensures m.digestFindings == []
    {
      OrderedHas(ctx, members, m);
    }
  }

  // ---------------------------------------------------------------- deletions

  /** Within one intact chain a member's link names its only possible predecessor. */
  lemma LinkNamesPredecessor(ctx: Context, inputs: seq<ChainInput>, c: Text, ms: seq<Sequenced>, q: nat, p: nat)
    requires Sound(ctx, inputs, c, ms) && q < p < |ms|
    requires CollisionFree(ctx.hash, Hashed(ctx, inputs, c))
    requires ms[p].previousHash == ms[q].hash
    ensures q == p - 1
  {
    assert HashLink(ms[p], ms[p - 1]);
    assert ms[q] in ms && ms[p - 1] in ms;
    var x := EventOf(ctx, inputs, c, ms[q]);
    var y := EventOf(ctx, inputs, c, ms[p - 1]);
    SameHashSameMember(ctx, x, c, ms[q], y, c, ms[p - 1], Hashed(ctx, inputs, c));
  }

  lemma SubListContained(ctx: Context, whole: seq<ChainInput>, part: seq<ChainInput>, c: Text, m: Sequenced)
    requires forall x | x in part :: x in whole
    requires m in Ordered(ctx, MembersOf(ctx, part, c))
    ensures m in Ordered(ctx, MembersOf(ctx, whole, c))
  {
    var x := EventOf(ctx, part, c, m);
    MemberHasEvent(ctx, whole, c, m);
    OrderedHas(ctx, MembersOf(ctx, whole, c), m);
  }

  /** One more member of a run: it links to the end of the run, so it is the next of the chain. */
  lemma RunGrows(ctx: Context, whole: seq<ChainInput>, c: Text, ms: seq<Sequenced>, q: nat, last: Sequenced)
    requires Sound(ctx, whole, c, ms) && CollisionFree(ctx.hash, Hashed(ctx, whole, c))
    requires q < |ms| && last in ms && ms[q].sequence.value < last.sequence.value
    requires last.previousHash == ms[q].hash
    ensures q + 1 < |ms| && ms[q + 1] == last
  {
    var p :| 0 <= p < |ms| && ms[p] == last;
    assert q < p;
    LinkNamesPredecessor(ctx, whole, c, ms, q, p);
  }

  /** The list stands in the chain at this offset. */
  ghost predicate RunAt(ms: seq<Sequenced>, run: seq<Sequenced>, length: nat, i: nat)
    requires length <= |run|
  {
    i + length <= |ms| && forall j, k | 0 <= j < length && k == i + j :: ms[k] == run[j]
  }

  lemma RunExtends(ms: seq<Sequenced>, run: seq<Sequenced>, length: nat, i: nat)
    requires length < |run| && RunAt(ms, run, length, i)
    requires i + length < |ms| && ms[i + length] == run[length]
    ensures RunAt(ms, run, length + 1, i)
  {
  }

  /** Where a run ends in the chain, and how its next member follows on. */
  lemma RunEnd(ms: seq<Sequenced>, run: seq<Sequenced>, length: nat, i: nat) returns (q: nat)
    requires 0 < length < |run| && RunAt(ms, run, length, i) && Rising(run) && HashLinked(run)
    ensures q == i + length - 1 && q < |ms|
    ensures ms[q].sequence.value < run[length].sequence.value && run[length].previousHash == ms[q].hash
  {
    var j := length - 1;
    q := i + j;
    assert ms[q] == run[j];
    assert HashLink(run[length], run[j]);
  }

  lemma RunStep(
    ctx: Context, whole: seq<ChainInput>, c: Text, ms: seq<Sequenced>, run: seq<Sequenced>, length: nat, i: nat)
    requires Sound(ctx, whole, c, ms) && CollisionFree(ctx.hash, Hashed(ctx, whole, c))
    requires Rising(run) && HashLinked(run) && 0 < length < |run| && run[length] in ms
    requires RunAt(ms, run, length, i)
    ensures RunAt(ms, run, length + 1, i)
  {
    var q := RunEnd(ms, run, length, i);
    RunGrows(ctx, whole, c, ms, q, run[length]);
    RunExtends(ms, run, length, i);
  }

  lemma {:induction false} RunFrom(
    ctx: Context, whole: seq<ChainInput>, c: Text, ms: seq<Sequenced>, run: seq<Sequenced>, length: nat)
    returns (i: nat)
    requires Sound(ctx, whole, c, ms) && CollisionFree(ctx.hash, Hashed(ctx, whole, c))
    requires Rising(run) && HashLinked(run) && 1 <= length <= |run|
    requires forall j | 0 <= j < |run| :: run[j] in ms
    ensures RunAt(ms, run, length, i)
  {
    if length == 1 {
      assert run[0] in ms;
      i :| 0 <= i < |ms| && ms[i] == run[0];
    } else {
      i := RunFrom(ctx, whole, c, ms, run, length - 1);
      assert run[length - 1] in ms;
      RunStep(ctx, whole, c, ms, run, length - 1, i);
    }
  }

  lemma SoundRuns(
    ctx: Context, whole: seq<ChainInput>, part: seq<ChainInput>, c: Text, ms: seq<Sequenced>, run: seq<Sequenced>)
    returns (i: nat)
    requires forall x | x in part :: x in whole
    requires Sound(ctx, whole, c, ms) && Sound(ctx, part, c, run)
    requires CollisionFree(ctx.hash, Hashed(ctx, whole, c))
    ensures RunAt(ms, run, |run|, i)
  {
    forall j | 0 <= j < |run|
      ensures run[j] in ms
    {
      assert run[j] in run;
      SubListContained(ctx, whole, part, c, run[j]);
    }
    if run == [] {
      i := 0;
    } else {
      i := RunFrom(ctx, whole, c, ms, run, |run|);
    }
  }

  /**
   * Undetected deletions are only at the ends: a sub-collection of an intact chain that is
   * itself intact is a contiguous run of it.
   */
  lemma DeletionsOnlyAtEnds(ctx: Context, whole: seq<ChainInput>, part: seq<ChainInput>, c: Text) returns (i: nat)
    requires forall x | x in part :: x in whole
    requires Intact(ctx, whole, c) && Intact(ctx, part, c)
    requires CollisionFree(ctx.hash, Hashed(ctx, whole, c))
    ensures var run := OrderedChain(ctx, part, c); RunAt(OrderedChain(ctx, whole, c), run, |run|, i)
  {
    IntactIsSound(ctx, whole, c);
    IntactIsSound(ctx, part, c);
    i := SoundRuns(ctx, whole, part, c, OrderedChain(ctx, whole, c), OrderedChain(ctx, part, c));
  }

  // ---------------------------------------------------------------- two chains through one hash

  /** Member `m` of one archive and member `o` of another come from the same sealed event. */
  ghost predicate Twins(ctx: Context, a: seq<ChainInput>, b: seq<ChainInput>, c: Text, m: ChainMember, o: ChainMember) {
    && m.hash == o.hash && m.sequence == o.sequence && m.previousHash == o.previousHash
    && FromSameEvent(ctx, a, b, c, m, o)
  }

  ghost predicate FromSameEvent(
    ctx: Context, a: seq<ChainInput>, b: seq<ChainInput>, c: Text, m: ChainMember, o: ChainMember) {
    exists x, y :: x in a && y in b && Backs(ctx, x, c, m) && Backs(ctx, y, c, o) && SameSealed(x, y)
  }

  lemma EqualHashesAreTwins(ctx: Context, a: seq<ChainInput>, b: seq<ChainInput>, c: Text,
                            am: seq<Sequenced>, bm: seq<Sequenced>, p: nat, q: nat)
    requires Sound(ctx, a, c, am) && Sound(ctx, b, c, bm) && p < |am| && q < |bm|
    requires CollisionFree(ctx.hash, Hashed(ctx, a, c) + Hashed(ctx, b, c))
    requires am[p].hash == bm[q].hash
    ensures Twins(ctx, a, b, c, am[p], bm[q])
  {
    assert am[p] in am && bm[q] in bm;
    var x := EventOf(ctx, a, c, am[p]);
    var y := EventOf(ctx, b, c, bm[q]);
    SameHashSameMember(ctx, x, c, am[p], y, c, bm[q], Hashed(ctx, a, c) + Hashed(ctx, b, c));
  }

  /** Wherever two chains hold one hash they hold one event. */
  ghost predicate HashesIdentify(ctx: Context, a: seq<ChainInput>, b: seq<ChainInput>, c: Text,
                                 am: seq<Sequenced>, bm: seq<Sequenced>) {
    forall i, j | 0 <= i < |am| && 0 <= j < |bm| && am[i].hash == bm[j].hash :: Twins(ctx, a, b, c, am[i], bm[j])
  }

  lemma CollisionFreeIdentifies(ctx: Context, a: seq<ChainInput>, b: seq<ChainInput>, c: Text,
                                am: seq<Sequenced>, bm: seq<Sequenced>)
    requires Sound(ctx, a, c, am) && Sound(ctx, b, c, bm)
    requires CollisionFree(ctx.hash, Hashed(ctx, a, c) + Hashed(ctx, b, c))
    ensures HashesIdentify(ctx, a, b, c, am, bm)
  {
    forall i, j | 0 <= i < |am| && 0 <= j < |bm| && am[i].hash == bm[j].hash
      ensures Twins(ctx, a, b, c, am[i], bm[j])
    {
      EqualHashesAreTwins(ctx, a, b, c, am, bm, i, j);
    }
  }

  /**
   * Two intact chains that meet in one hash are the same chain backwards from there, as
   * far as both go.
   */
  lemma {:induction false} SameBackwards(ctx: Context, a: seq<ChainInput>, b: seq<ChainInput>, c: Text,
                                         am: seq<Sequenced>, bm: seq<Sequenced>, p: nat, q: nat, i: nat, j: nat)
    requires HashLinked(am) && HashLinked(bm) && HashesIdentify(ctx, a, b, c, am, bm)
    requires p < |am| && q < |bm| && am[p].hash == bm[q].hash
    requires i <= p && j <= q && p - i == q - j
    ensures Twins(ctx, a, b, c, am[i], bm[j])
    decreases p - i
  {
    if i < p {
      SameBackwards(ctx, a, b, c, am, bm, p, q, i + 1, j + 1);
      assert HashLink(am[i + 1], am[i]) && HashLink(bm[j + 1], bm[j]);
    }
  }
}
