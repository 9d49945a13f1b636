/** The streaming verifier, which sees each event once and keeps its reduction. */
module ChainIntake {
  import opened Wrappers
  import opened Unicode
  import opened Hashing
  import opened Digest
  import opened EventVerification
  import opened Chain
  import opened ChainOrder

  /** The state of a run: everything kept of the events taken in. */
  class Intake {
    const ctx: Context
    var eventCount: nat
    var unassigned: seq<Finding>
    var groups: map<Text, seq<ChainMember>>
    /** The keys of `groups` in insertion order, as the program's map keeps them. */
    var chainIds: seq<Text>
    /** The events taken in so far. */
    ghost var seen: seq<ChainInput>

    ghost predicate Valid()
      reads this
    {
      && eventCount == |seen|
      && unassigned == UnassignedOf(ctx, seen)
      && GroupsMatch(ctx, seen, groups, chainIds)
    }

    constructor (ctx: Context)
      ensures Valid() && this.ctx == ctx && seen == []
    {
      this.ctx := ctx;
      eventCount, unassigned, groups, chainIds, seen := 0, [], map[], [], [];
    }

    /** Takes in an event: it joins a chain as a member, or a finding says why it joins none. */
    method AddChainEvent(input: ChainInput)
      requires Valid()
      modifies this
      ensures Valid() && seen == old(seen) + [input]
    {
      eventCount := eventCount + 1;
      seen := seen + [input];
      TakeIn(ctx, old(seen), input, groups, chainIds);
      if !ctx.schemaValid(input.event) {
        unassigned := unassigned + [Finding(SchemaInvalid, Some(input.tag))];
        return;
      }
      if ReadIntegrity(input.event).None? {
        unassigned := unassigned + [Finding(IntegrityMissing, Some(input.tag))];
        return;
      }
      var chainId := AsText(IntegrityMember(input.event, CHAIN_ID));
      if chainId.None? {
        unassigned := unassigned + [Finding(ChainIdMissing, Some(input.tag))];
        return;
      }
      var member := MemberOf(ctx, input);
      groups, chainIds := AddToGroup(ctx, old(seen), input, chainId.value, member, groups, chainIds);
    }

    /** Judges every group and puts the report together. */
    method FinishChains() returns (report: ChainReport)
      requires Valid()
      ensures report == Report(ctx, seen)
    {
      var ids := SortIds(ctx, chainIds);
      forall id | id in ids
        ensures id in groups && groups[id] == MembersOf(ctx, seen, id)
      {
        SortIdsHas(ctx, chainIds, id);
      }
      var chains := JudgeGroups(ctx, ids, groups, seen);
      report := ChainReport(chains, unassigned, eventCount, unassigned == [] && forall c | c in chains :: c.intact);
    }
  }

  ghost predicate GroupsMatch(
    ctx: Context, seen: seq<ChainInput>, groups: map<Text, seq<ChainMember>>, chainIds: seq<Text>) {
    && chainIds == ChainIdsOf(ctx, seen)
    && (forall c :: c in groups <==> c in chainIds)
    && (forall c | c in groups :: groups[c] == MembersOf(ctx, seen, c))
  }

  /** How the batch specification grows by one event. */
  lemma TakeIn(
    ctx: Context, seen: seq<ChainInput>, input: ChainInput, groups: map<Text, seq<ChainMember>>,
    chainIds: seq<Text>)
    requires GroupsMatch(ctx, seen, groups, chainIds)
    ensures UnassignedOf(ctx, seen + [input]) ==
      UnassignedOf(ctx, seen) + match Place(ctx, input) case Unassigned(f) => [f] case Assigned(_, _) => []
    ensures Place(ctx, input).Unassigned? ==> GroupsMatch(ctx, seen + [input], groups, chainIds)
  {
    assert (seen + [input])[..|seen|] == seen;
  }

  method AddToGroup(
    ctx: Context, ghost seen: seq<ChainInput>, ghost input: ChainInput, chainId: Text, member: ChainMember,
    groups: map<Text, seq<ChainMember>>, chainIds: seq<Text>)
    returns (groups': map<Text, seq<ChainMember>>, chainIds': seq<Text>)
    requires GroupsMatch(ctx, seen, groups, chainIds)
    requires Place(ctx, input) == Assigned(chainId, member)
    ensures GroupsMatch(ctx, seen + [input], groups', chainIds')
  {
    assert (seen + [input])[..|seen|] == seen;
    assert forall c ::
      MembersOf(ctx, seen + [input], c) == MembersOf(ctx, seen, c) + if c == chainId then [member] else [];
    if chainId in groups {
      groups' := groups[chainId := groups[chainId] + [member]];
      chainIds' := chainIds;
    } else {
      NoMembersUnlessListed(ctx, seen, chainId);
      groups' := groups[chainId := [member]];
      chainIds' := chainIds + [chainId];
    }
  }

  /** Judges the groups one by one. */
  method JudgeGroups(ctx: Context, ids: seq<Text>, groups: map<Text, seq<ChainMember>>, ghost inputs: seq<ChainInput>)
    returns (chains: seq<ChainResult>)
    requires forall id | id in ids :: id in groups && groups[id] == MembersOf(ctx, inputs, id)
    ensures chains == Verdicts(ctx, inputs, ids)
  {
    chains := [];
    for i := 0 to |ids|
      invariant chains == Verdicts(ctx, inputs, ids[..i])
    {
      assert ids[..i + 1][..i] == ids[..i];
      var chain := VerifyOneChain(ctx, ids[i], groups[ids[i]]);
      chains := chains + [chain];
    }
    assert ids[..|ids|] == ids;
  }

  /** One pass over the events, then the judgement. */
  method VerifyChains(ctx: Context, inputs: seq<ChainInput>) returns (report: ChainReport)
    ensures report == Report(ctx, inputs)
  {
    var intake := new Intake(ctx);
    for i := 0 to |inputs|
      invariant intake.Valid() && intake.ctx == ctx && intake.seen == inputs[..i]
      invariant fresh(intake)
    {
      intake.AddChainEvent(inputs[i]);
      assert inputs[..i + 1] == inputs[..i] + [inputs[i]];
    }
    assert inputs[..|inputs|] == inputs;
    report := intake.FinishChains();
  }

  /** Judges one chain from its members, in the order they arrived. */
  method VerifyOneChain(ctx: Context, chainId: Text, members: seq<ChainMember>) returns (result: ChainResult)
    ensures result == Verdict(ctx, chainId, members)
  {
    var digests := CollectDigestFindings(members);
    var sealing := CheckSealing(members);
    var missing := CollectMissing(members);
    var ordered := SortMembers(ctx, members);
    var bySequence, keys := GroupBySequence(ordered);
    var linkable := Linkable(ordered);
    SequencesAscending(ctx, members);
    SortedNatsUnchanged(keys);
    var sortedKeys := SortNats(keys);
    var duplicates := CollectDuplicates(bySequence, sortedKeys, linkable);
    var links, notes := CheckLinks(linkable);
    var findings := digests + sealing + missing + duplicates + links;
    assert findings == ChainFindings(members, linkable);
    notes := notes + GapNotes(sortedKeys);
    var headHash := FindHead(bySequence, sortedKeys, linkable);
    var first := if |sortedKeys| == 0 then None else Some(sortedKeys[0]);
    var last := if |sortedKeys| == 0 then None else Some(sortedKeys[|sortedKeys| - 1]);
    result := ChainResult(chainId, |members|, first, last, headHash, findings == [], findings, notes);
  }

  /** The hash to publish: declared by the one event at the last sequence. */
  method FindHead(bySequence: map<nat, seq<Sequenced>>, keys: seq<nat>, ghost linkable: seq<Sequenced>)
    returns (headHash: Option<Text>)
    requires forall k | k in keys :: k in bySequence && bySequence[k] == AtSequence(linkable, k)
    ensures headHash == HeadHash(keys, linkable)
  {
    headHash := None;
    if |keys| > 0 {
      var atHead := bySequence[keys[|keys| - 1]];
      if |atHead| == 1 {
        headHash := atHead[0].hash;
      }
    }
  }

  method CheckSealing(members: seq<ChainMember>) returns (findings: seq<Finding>)
    ensures findings == SealingFindings(members)
  {
    var algorithms := set m | m in members :: m.hashAlgorithm.GetOr(NONE);
    var canonicalizations := set m | m in members :: m.canonicalization.GetOr(NONE);
    findings := [];
    if |algorithms| > 1 || |canonicalizations| > 1 {
      findings := [Finding(AlgorithmMismatch, None)];
    }
  }

  method CollectDigestFindings(members: seq<ChainMember>) returns (findings: seq<Finding>)
    ensures findings == DigestFindings(members)
  {
    findings := [];
    for i := 0 to |members|
      invariant findings == DigestFindings(members[..i])
    {
      assert members[..i + 1][..i] == members[..i];
      findings := findings + members[i].digestFindings;
    }
    assert members[..|members|] == members;
  }

  method CollectMissing(members: seq<ChainMember>) returns (findings: seq<Finding>)
    ensures findings == MissingFindings(members)
  {
    findings := [];
    for i := 0 to |members|
      invariant findings == MissingFindings(members[..i])
    {
      assert members[..i + 1][..i] == members[..i];
      if members[i].sequence.None? {
        findings := findings + [Finding(SequenceMissing, Some(members[i].tag))];
      }
    }
    assert members[..|members|] == members;
  }

  method CollectDuplicates(bySequence: map<nat, seq<Sequenced>>, keys: seq<nat>, ghost linkable: seq<Sequenced>)
    returns (findings: seq<Finding>)
    requires forall k | k in keys :: k in bySequence && bySequence[k] == AtSequence(linkable, k)
    ensures findings == DuplicateFindings(keys, linkable)
  {
    findings := [];
    for i := 0 to |keys|
      invariant findings == DuplicateFindings(keys[..i], linkable)
    {
      assert keys[..i + 1][..i] == keys[..i];
      var bucket := bySequence[keys[i]];
      if |bucket| > 1 {
        findings := findings + [Finding(DuplicateSequence(keys[i], |bucket|), None)];
      }
    }
    assert keys[..|keys|] == keys;
  }

  /** One bucket a sequence, and the sequences in the order their buckets were made. */
  method GroupBySequence(ordered: seq<ChainMember>)
    returns (bySequence: map<nat, seq<Sequenced>>, keys: seq<nat>)
    ensures Buckets(Linkable(ordered), bySequence, keys)
  {
    bySequence, keys := map[], [];
    ghost var taken: seq<Sequenced> := [];
    for i := 0 to |ordered|
      invariant taken == Linkable(ordered[..i])
      invariant Buckets(taken, bySequence, keys)
    {
      LinkableStep(ordered, i);
      if ordered[i].sequence.Some? {
        bySequence, keys := AddToBucket(ordered[i], bySequence, keys, taken);
        taken := taken + [ordered[i]];
      }
    }
    assert ordered[..|ordered|] == ordered;
  }

  ghost predicate Buckets(taken: seq<Sequenced>, bySequence: map<nat, seq<Sequenced>>, keys: seq<nat>) {
    && keys == SequencesOf(taken)
    && (forall k :: k in bySequence <==> k in keys)
    && (forall k | k in bySequence :: bySequence[k] == AtSequence(taken, k))
  }

  method AddToBucket(
    member: Sequenced, bySequence: map<nat, seq<Sequenced>>, keys: seq<nat>, ghost taken: seq<Sequenced>)
    returns (bySequence': map<nat, seq<Sequenced>>, keys': seq<nat>)
    requires Buckets(taken, bySequence, keys)
    ensures Buckets(taken + [member], bySequence', keys')
  {
    var k := member.sequence.value;
    SequencesStep(taken, member);
    forall j: nat
      ensures AtSequence(taken + [member], j) == AtSequence(taken, j) + if k == j then [member] else []
    {
      AtSequenceStep(taken, member, j);
    }
    if k in bySequence {
      bySequence' := bySequence[k := bySequence[k] + [member]];
      keys' := keys;
    } else {
      NothingAtUnlisted(taken, k);
      bySequence' := bySequence[k := [member]];
      keys' := keys + [k];
    }
  }

  /** Each member against its predecessor's declared hash. */
  method CheckLinks(linkable: seq<Sequenced>) returns (findings: seq<Finding>, notes: seq<Note>)
    ensures findings == LinkFindings(linkable)
    ensures notes == GenesisNotes(linkable)
  {
    findings, notes := [], [];
    for i := 0 to |linkable|
      invariant findings == LinkFindings(linkable[..i])
      invariant notes == if i == 0 then [] else GenesisNotes(linkable)
    {
      assert linkable[..i + 1][..i] == linkable[..i];
      var member := linkable[i];
      if i == 0 {
        if member.previousHash.Some? {
          notes := notes + [NotAtGenesis(member.tag)];
        }
      } else {
        var predecessor := linkable[i - 1];
        if member.previousHash.None? {
          findings := findings + [Finding(PreviousHashMissing, Some(member.tag))];
        } else if predecessor.hash.None? || !DigestsEqual(member.previousHash.value, predecessor.hash.value) {
          findings := findings + [Finding(BrokenLink, Some(member.tag))];
        }
      }
    }
    assert linkable[..|linkable|] == linkable;
  }
}
