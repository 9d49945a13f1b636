/** What a chain's verdict reports, finding by finding and field by field, from its members alone. */
module ChainFindings {
  import opened Wrappers
  import opened Unicode
  import opened Json
  import opened Hashing
  import opened Digest
  import opened EventVerification
  import opened Chain
  import opened ChainOrder
  import opened ChainProperties

  // ---------------------------------------------------------------- each kind of finding

  ghost predicate FoundOnDigest(ms: seq<ChainMember>, f: Finding) {
    exists m :: m in ms && f in m.digestFindings
  }

  ghost predicate FoundUnsequenced(ms: seq<ChainMember>, f: Finding) {
    exists m :: m in ms && m.sequence.None? && f == Finding(SequenceMissing, Some(m.tag))
  }

  /** Two members differ in what they were sealed with, an undeclared name counting as `(none)`. */
  ghost predicate FoundMixed(ms: seq<ChainMember>, f: Finding) {
    && f == Finding(AlgorithmMismatch, None)
    && exists m, m' :: m in ms && m' in ms && DiffersFrom(m, m')
  }

  predicate DiffersFrom(m: ChainMember, m': ChainMember) {
    || m.hashAlgorithm.GetOr(Ascii("(none)")) != m'.hashAlgorithm.GetOr(Ascii("(none)"))
    || m.canonicalization.GetOr(Ascii("(none)")) != m'.canonicalization.GetOr(Ascii("(none)"))
  }

  /** How many members declare a sequence. */
  ghost function HowManyAt(ms: seq<ChainMember>, k: nat): nat {
    |set i | 0 <= i < |ms| && ms[i].sequence == Some(k)|
  }

  ghost predicate FoundTwice(ms: seq<ChainMember>, f: Finding) {
    exists k: nat :: HowManyAt(ms, k) > 1 && f == Finding(DuplicateSequence(k, HowManyAt(ms, k)), None)
  }

  /** The finding on the link of `m` to the member before it, when there is one. */
  predicate FoundOnLink(p: ChainMember, m: ChainMember, f: Finding) {
    if m.previousHash.None? then f == Finding(PreviousHashMissing, Some(m.tag))
    else
      && !(LowerHex(m.previousHash.value) && m.previousHash == p.hash)
      && f == Finding(BrokenLink, Some(m.tag))
  }

  ghost predicate FoundAt(ms: seq<Sequenced>, j: nat, f: Finding) {
    0 < j < |ms| && FoundOnLink(ms[j - 1], ms[j], f)
  }

  ghost predicate FoundLinking(ms: seq<Sequenced>, f: Finding) {
    exists j: nat :: FoundAt(ms, j, f)
  }

  lemma {:induction false} DigestFindingsAre(ms: seq<ChainMember>, f: Finding)
    ensures f in DigestFindings(ms) <==> FoundOnDigest(ms, f)
  {
    if ms != [] {
      DigestFindingsAre(ms[..|ms| - 1], f);
      assert ms == ms[..|ms| - 1] + [ms[|ms| - 1]];
    }
  }

  lemma {:induction false} MissingFindingsAre(ms: seq<ChainMember>, f: Finding)
    ensures f in MissingFindings(ms) <==> FoundUnsequenced(ms, f)
  {
    if ms != [] {
      MissingFindingsAre(ms[..|ms| - 1], f);
      assert ms == ms[..|ms| - 1] + [ms[|ms| - 1]];
    }
  }

  lemma SealingFindingsAre(ms: seq<ChainMember>, f: Finding)
    ensures f in SealingFindings(ms) <==> FoundMixed(ms, f)
  {
    NoSealingFindings(ms);
    assert (forall m, m' | m in ms && m' in ms :: SealedAlike(m, m')) <==>
      !(exists m, m' :: m in ms && m' in ms && DiffersFrom(m, m')) by {
      assert forall m, m' :: SealedAlike(m, m') <==> !DiffersFrom(m, m');
    }
  }

  lemma OneMoreAt(ms: seq<ChainMember>, k: nat)
    requires ms != []
    ensures HowManyAt(ms, k) == HowManyAt(ms[..|ms| - 1], k) + if ms[|ms| - 1].sequence == Some(k) then 1 else 0
  {
    var front, n := ms[..|ms| - 1], |ms| - 1;
    var fewer := set i | 0 <= i < |front| && front[i].sequence == Some(k);
    var more := set i | 0 <= i < |ms| && ms[i].sequence == Some(k);
    assert n !in fewer;
    assert more == if ms[n].sequence == Some(k) then fewer + {n} else fewer;
  }

  lemma {:induction false} AtSequenceIsHowMany(ms: seq<ChainMember>, k: nat)
    ensures |AtSequence(Linkable(ms), k)| == HowManyAt(ms, k)
  {
    if ms != [] {
      var front, last := ms[..|ms| - 1], ms[|ms| - 1];
      AtSequenceIsHowMany(front, k);
      OneMoreAt(ms, k);
      if last.sequence.Some? {
        assert Linkable(ms) == Linkable(front) + [last];
        AtSequenceStep(Linkable(front), last, k);
      } else {
        assert Linkable(ms) == Linkable(front);
      }
    }
  }

  lemma HowManyOrdered(ctx: Context, members: seq<ChainMember>, k: nat)
    ensures |AtSequence(Ordered(ctx, members), k)| == HowManyAt(members, k)
  {
    AtSequenceIsHowMany(members, k);
    var x, y := Linkable(members), Ordered(ctx, members);
    forall m: Sequenced
      ensures multiset(Linkable(members))[m] == multiset(Ordered(ctx, members))[m]
    {
      LinkableHas(members, m);
      OrderedHas(ctx, members, m);
    }
    AtSequencePermuted(x, y, k);
    var u, v := AtSequence(x, k), AtSequence(y, k);
    assert |u| == |multiset(u)| == |multiset(v)| == |v|;
  }

  ghost predicate TwiceIn(ms: seq<Sequenced>, k: nat, f: Finding) {
    |AtSequence(ms, k)| > 1 && f == Finding(DuplicateSequence(k, |AtSequence(ms, k)|), None)
  }

  lemma {:induction false} DuplicateFindingsAre(ks: seq<nat>, ms: seq<Sequenced>, f: Finding)
    ensures f in DuplicateFindings(ks, ms) <==> exists k :: k in ks && TwiceIn(ms, k, f)
  {
    if ks != [] {
      var front, last := ks[..|ks| - 1], ks[|ks| - 1];
      DuplicateFindingsAre(front, ms, f);
      assert ks == front + [last];
      assert f in DuplicateFindings(ks, ms) <==> f in DuplicateFindings(front, ms) || TwiceIn(ms, last, f);
    }
  }

  lemma TwiceIs(ctx: Context, members: seq<ChainMember>, f: Finding)
    ensures var ms := Ordered(ctx, members);
      f in DuplicateFindings(SequencesOf(ms), ms) <==> FoundTwice(members, f)
  {
    var ms := Ordered(ctx, members);
    DuplicateFindingsAre(SequencesOf(ms), ms, f);
    if f in DuplicateFindings(SequencesOf(ms), ms) {
      var k :| k in SequencesOf(ms) && TwiceIn(ms, k, f);
      HowManyOrdered(ctx, members, k);
    }
    if FoundTwice(members, f) {
      var k: nat :| HowManyAt(members, k) > 1 && f == Finding(DuplicateSequence(k, HowManyAt(members, k)), None);
      HowManyOrdered(ctx, members, k);
      NothingAtUnlisted(ms, k);
      assert TwiceIn(ms, k, f);
    }
  }

  lemma LinkIs(p: ChainMember, m: ChainMember, f: Finding)
    ensures FoundOnLink(p, m, f) <==>
      if m.previousHash.None? then f == Finding(PreviousHashMissing, Some(m.tag))
      else !LinksTo(m, p) && f == Finding(BrokenLink, Some(m.tag))
  {
    if m.previousHash.Some? {
      LowerHexIs(m.previousHash.value);
      if p.hash.Some? {
        DigestsEqualIsTextEquality(m.previousHash.value, p.hash.value);
      }
    }
  }

  lemma FoundInFront(ms: seq<Sequenced>, f: Finding)
    requires ms != []
    ensures FoundLinking(ms, f) <==> FoundLinking(ms[..|ms| - 1], f) || FoundAt(ms, |ms| - 1, f)
  {
    var front := ms[..|ms| - 1];
    if FoundLinking(ms, f) {
      var j: nat :| FoundAt(ms, j, f);
      assert j < |front| ==> FoundAt(front, j, f);
    }
    if FoundLinking(front, f) {
      var j: nat :| FoundAt(front, j, f);
      assert FoundAt(ms, j, f);
    }
  }

  lemma {:induction false} LinkFindingsAre(ms: seq<Sequenced>, f: Finding)
    ensures f in LinkFindings(ms) <==> FoundLinking(ms, f)
  {
    if |ms| > 1 {
      var front, p, m := ms[..|ms| - 1], ms[|ms| - 2], ms[|ms| - 1];
      LinkFindingsAre(front, f);
      FoundInFront(ms, f);
      LinkIs(p, m, f);
    }
  }

  /** The findings of a verdict, each exactly where it belongs, and no other. */
  lemma FindingsExactly(ctx: Context, c: Text, members: seq<ChainMember>, f: Finding)
    ensures f in Verdict(ctx, c, members).findings <==>
      || FoundOnDigest(members, f)
      || FoundMixed(members, f)
      || FoundUnsequenced(members, f)
      || FoundTwice(members, f)
      || FoundLinking(Ordered(ctx, members), f)
  {
    DigestFindingsAre(members, f);
    SealingFindingsAre(members, f);
    MissingFindingsAre(members, f);
    TwiceIs(ctx, members, f);
    LinkFindingsAre(Ordered(ctx, members), f);
  }

  // ---------------------------------------------------------------- the ends, the head and the notes

  ghost predicate Declared(members: seq<ChainMember>, k: nat) {
    exists m :: m in members && m.sequence == Some(k)
  }

  lemma DeclaredIsListed(ctx: Context, members: seq<ChainMember>, k: nat)
    ensures Declared(members, k) <==> k in SequencesOf(Ordered(ctx, members))
  {
    var ms := Ordered(ctx, members);
    SequencesHas(ms, k);
    if m :| m in members && m.sequence == Some(k) {
      OrderedHas(ctx, members, m);
    }
    if m :| m in ms && m.sequence.value == k {
      OrderedHas(ctx, members, m);
    }
  }

  ghost predicate IsLeast(members: seq<ChainMember>, k: nat) {
    Declared(members, k) && forall j: nat :: Declared(members, j) ==> k <= j
  }

  ghost predicate IsGreatest(members: seq<ChainMember>, k: nat) {
    Declared(members, k) && forall j: nat :: Declared(members, j) ==> j <= k
  }

  lemma EndsOfAscending(ks: seq<nat>)
    requires Ascending(ks) && ks != []
    ensures forall k | k in ks :: ks[0] <= k <= ks[|ks| - 1]
  {
  }

  lemma LeastIsOne(members: seq<ChainMember>, k: nat, l: nat)
    requires IsLeast(members, k) && IsLeast(members, l)
    ensures k == l
  {
  }

  lemma GreatestIsOne(members: seq<ChainMember>, k: nat, l: nat)
    requires IsGreatest(members, k) && IsGreatest(members, l)
    ensures k == l
  {
  }

  /** The sequences listed for a chain end in the least and the greatest declared. */
  lemma ListedEnds(ctx: Context, members: seq<ChainMember>)
    ensures var ks := SequencesOf(Ordered(ctx, members));
      && (ks == [] <==> forall k: nat :: !Declared(members, k))
      && (ks != [] ==> IsLeast(members, ks[0]) && IsGreatest(members, ks[|ks| - 1]))
  {
    var ks := SequencesOf(Ordered(ctx, members));
    SequencesAscending(ctx, members);
    forall k: nat
      ensures Declared(members, k) <==> k in ks
    {
      DeclaredIsListed(ctx, members, k);
    }
    if ks != [] {
      assert ks[0] in ks && ks[|ks| - 1] in ks;
      EndsOfAscending(ks);
    }
  }

  lemma FirstExactly(ctx: Context, c: Text, members: seq<ChainMember>, k: nat)
    ensures Verdict(ctx, c, members).firstSequence == Some(k) <==> IsLeast(members, k)
  {
    var ks := SequencesOf(Ordered(ctx, members));
    ListedEnds(ctx, members);
    if IsLeast(members, k) {
      LeastIsOne(members, k, ks[0]);
    }
  }

  lemma LastExactly(ctx: Context, c: Text, members: seq<ChainMember>, k: nat)
    ensures Verdict(ctx, c, members).lastSequence == Some(k) <==> IsGreatest(members, k)
  {
    var ks := SequencesOf(Ordered(ctx, members));
    ListedEnds(ctx, members);
    if IsGreatest(members, k) {
      GreatestIsOne(members, k, ks[|ks| - 1]);
    }
  }

  /** The count is of all members, and the ends are the least and the greatest sequence declared. */
  lemma EndsExactly(ctx: Context, c: Text, members: seq<ChainMember>)
    ensures var r := Verdict(ctx, c, members);
      && r.chainId == c && r.eventCount == |members|
      && (forall k: nat :: r.firstSequence == Some(k) <==> IsLeast(members, k))
      && (forall k: nat :: r.lastSequence == Some(k) <==> IsGreatest(members, k))
  {
    forall k: nat
      ensures Verdict(ctx, c, members).firstSequence == Some(k) <==> IsLeast(members, k)
      ensures Verdict(ctx, c, members).lastSequence == Some(k) <==> IsGreatest(members, k)
    {
      FirstExactly(ctx, c, members, k);
      LastExactly(ctx, c, members, k);
    }
  }

  /** The head hash is declared by the one member at the greatest sequence, and absent when several are there. */
  lemma HeadExactly(ctx: Context, c: Text, members: seq<ChainMember>, k: nat)
    requires IsGreatest(members, k)
    ensures HowManyAt(members, k) > 1 ==> Verdict(ctx, c, members).headHash.None?
    ensures forall m | m in members && m.sequence == Some(k) && HowManyAt(members, k) == 1 ::
      Verdict(ctx, c, members).headHash == m.hash
  {
    var ms := Ordered(ctx, members);
    LastExactly(ctx, c, members, k);
    HowManyOrdered(ctx, members, k);
    forall m | m in members && m.sequence == Some(k) && HowManyAt(members, k) == 1
      ensures Verdict(ctx, c, members).headHash == m.hash
    {
      OrderedHas(ctx, members, m);
      AtSequenceCounts(ms, k, m);
      OnlyOne(AtSequence(ms, k), m);
    }
  }

  lemma OnlyOne(u: seq<Sequenced>, m: Sequenced)
    requires |u| == 1 && multiset(u)[m] > 0
    ensures u[0] == m
  {
    assert m in multiset(u);
  }

  /** A number between the first and the last that is listed nowhere. */
  ghost predicate Gap(ks: seq<nat>, k: nat) {
    ks != [] && ks[0] < k < ks[|ks| - 1] && k !in ks
  }

  /** Distinct numbers in ascending order have no gap exactly when there are as many as their range holds. */
  lemma {:induction false} NoGap(ks: seq<nat>)
    requires Ascending(ks) && ks != []
    ensures ks[0] + |ks| <= ks[|ks| - 1] + 1
    ensures ks[|ks| - 1] + 1 != ks[0] + |ks| <==> exists k: nat :: Gap(ks, k)
  {
    if |ks| > 1 {
      var front, last := ks[..|ks| - 1], ks[|ks| - 1];
      var before := front[|front| - 1];
      NoGap(front);
      assert ks == front + [last];
      if k: nat :| Gap(front, k) {
        assert Gap(ks, k);
      }
      if before + 1 < last {
        assert Gap(ks, before + 1);
      }
      if k: nat :| Gap(ks, k) {
        assert k == before ==> k in front;
        assert k < before ==> Gap(front, k);
      }
    }
  }

  /** A gap is noted exactly when a number between the ends is declared by no member. */
  lemma GapsExactly(ctx: Context, c: Text, members: seq<ChainMember>, first: nat, last: nat)
    requires IsLeast(members, first) && IsGreatest(members, last)
    ensures SequenceGaps in Verdict(ctx, c, members).notes <==> SomeGap(members, first, last)
  {
    EndsAre(ctx, c, members, first, last);
    GapsNoted(ctx, c, members);
    GapIs(ctx, members, first, last);
    SequencesAscending(ctx, members);
    NoGap(SequencesOf(Ordered(ctx, members)));
  }

  /** A number strictly between two others that no member declares. */
  ghost predicate SomeGap(members: seq<ChainMember>, first: nat, last: nat) {
    exists k: nat :: first < k < last && !Declared(members, k)
  }

  lemma EndsAre(ctx: Context, c: Text, members: seq<ChainMember>, first: nat, last: nat)
    requires IsLeast(members, first) && IsGreatest(members, last)
    ensures var ks := SequencesOf(Ordered(ctx, members));
      ks != [] && ks[0] == first && ks[|ks| - 1] == last
  {
    var ks := SequencesOf(Ordered(ctx, members));
    ListedEnds(ctx, members);
    LeastIsOne(members, first, ks[0]);
    GreatestIsOne(members, last, ks[|ks| - 1]);
  }

  lemma NotesHave(ms: seq<Sequenced>, ks: seq<nat>)
    ensures SequenceGaps in GenesisNotes(ms) + GapNotes(ks) <==> ks != [] && ks[|ks| - 1] + 1 != ks[0] + |ks|
    ensures forall tag :: NotAtGenesis(tag) in GenesisNotes(ms) + GapNotes(ks) <==>
      ms != [] && ms[0].previousHash.Some? && ms[0].tag == tag
  {
  }

  lemma GapsNoted(ctx: Context, c: Text, members: seq<ChainMember>)
    ensures var ks := SequencesOf(Ordered(ctx, members));
      SequenceGaps in Verdict(ctx, c, members).notes <==> ks != [] && ks[|ks| - 1] + 1 != ks[0] + |ks|
  {
    NotesHave(Ordered(ctx, members), SequencesOf(Ordered(ctx, members)));
  }

  lemma GapIs(ctx: Context, members: seq<ChainMember>, first: nat, last: nat)
    requires var ks := SequencesOf(Ordered(ctx, members)); ks != [] && ks[0] == first && ks[|ks| - 1] == last
    ensures (exists k: nat :: Gap(SequencesOf(Ordered(ctx, members)), k)) <==> SomeGap(members, first, last)
  {
    var ks := SequencesOf(Ordered(ctx, members));
    if k: nat :| Gap(ks, k) {
      DeclaredIsListed(ctx, members, k);
    }
    if k: nat :| first < k < last && !Declared(members, k) {
      DeclaredIsListed(ctx, members, k);
      assert Gap(ks, k);
    }
  }

  /** A chain is noted to start within itself exactly when its first member declares a previous hash. */
  lemma GenesisExactly(ctx: Context, c: Text, members: seq<ChainMember>, tag: Text)
    ensures NotAtGenesis(tag) in Verdict(ctx, c, members).notes <==>
      var ms := Ordered(ctx, members);
      ms != [] && ms[0].previousHash.Some? && ms[0].tag == tag
  {
    NotesHave(Ordered(ctx, members), SequencesOf(Ordered(ctx, members)));
  }

  // ---------------------------------------------------------------- the order

  lemma {:induction false} InsertMemberRanked(ctx: Context, m: ChainMember, ms: seq<ChainMember>)
    requires Ranked(ctx, ms)
    ensures Ranked(ctx, InsertMember(ctx, m, ms))
  {
    if ms != [] && !(CompareMembers(ctx, m, ms[0]) <= 0.0) {
      var rest := InsertMember(ctx, m, ms[1..]);
      InsertMemberRanked(ctx, m, ms[1..]);
      forall j | 0 <= j < |rest|
        ensures RankedPair(ctx, ms[0], rest[j])
      {
        InsertMemberKeeps(ctx, m, ms[1..]);
        assert rest[j] in multiset(rest);
        if rest[j] != m {
          var k :| 0 <= k < |ms[1..]| && ms[1..][k] == rest[j];
          assert RankedPair(ctx, ms[0], ms[k + 1]);
        }
      }
    } else if ms != [] {
      forall j | 0 <= j < |ms|
        ensures RankedPair(ctx, m, ms[j])
      {
        assert j > 0 ==> RankedPair(ctx, ms[0], ms[j]);
      }
    }
  }

  /** Lower sequences first, none counting as the largest safe integer; equal ones by the rank of their labels. */
  predicate RankedPair(ctx: Context, m: ChainMember, o: ChainMember) {
    var k, l := m.sequence.GetOr(9007199254740991), o.sequence.GetOr(9007199254740991);
    k < l || (k == l && ctx.labelRank(m.tag) <= ctx.labelRank(o.tag))
  }

  ghost predicate Ranked(ctx: Context, ms: seq<ChainMember>) {
    forall i, j | 0 <= i < j < |ms| :: RankedPair(ctx, ms[i], ms[j])
  }

  lemma {:induction false} SortRanks(ctx: Context, ms: seq<ChainMember>)
    ensures Ranked(ctx, SortMembers(ctx, ms))
  {
    if ms != [] {
      SortRanks(ctx, ms[1..]);
      InsertMemberRanked(ctx, ms[0], SortMembers(ctx, ms[1..]));
    }
  }

  ghost predicate RankedIds(ctx: Context, ids: seq<Text>) {
    forall i, j | 0 <= i < j < |ids| :: RankedIdPair(ctx, ids[i], ids[j])
  }

  predicate RankedIdPair(ctx: Context, id: Text, other: Text) {
    ctx.labelRank(id) <= ctx.labelRank(other)
  }

  lemma {:induction false} InsertIdRanked(ctx: Context, id: Text, ids: seq<Text>)
    requires RankedIds(ctx, ids)
    ensures RankedIds(ctx, InsertId(ctx, id, ids))
  {
    if ids != [] && !(ctx.labelRank(id) <= ctx.labelRank(ids[0])) {
      var rest := InsertId(ctx, id, ids[1..]);
      InsertIdRanked(ctx, id, ids[1..]);
      forall j | 0 <= j < |rest|
        ensures RankedIdPair(ctx, ids[0], rest[j])
      {
        InsertIdHas(ctx, id, ids[1..], rest[j]);
        if rest[j] != id {
          var k :| 0 <= k < |ids[1..]| && ids[1..][k] == rest[j];
          assert RankedIdPair(ctx, ids[0], ids[k + 1]);
        }
      }
    } else if ids != [] {
      forall j | 0 <= j < |ids|
        ensures RankedIdPair(ctx, id, ids[j])
      {
        assert j > 0 ==> RankedIdPair(ctx, ids[0], ids[j]);
      }
    }
  }

  lemma {:induction false} SortIdsRanked(ctx: Context, ids: seq<Text>)
    ensures RankedIds(ctx, SortIds(ctx, ids))
  {
    if ids != [] {
      SortIdsRanked(ctx, ids[1..]);
      InsertIdRanked(ctx, ids[0], SortIds(ctx, ids[1..]));
    }
  }

  /** The chains of a report stand in the order of their identifiers. */
  lemma ReportInOrder(ctx: Context, inputs: seq<ChainInput>)
    ensures var chains := Report(ctx, inputs).chains;
      forall i, j | 0 <= i < j < |chains| :: ctx.labelRank(chains[i].chainId) <= ctx.labelRank(chains[j].chainId)
  {
    var ids := SortIds(ctx, ChainIdsOf(ctx, inputs));
    var chains := Report(ctx, inputs).chains;
    SortIdsRanked(ctx, ChainIdsOf(ctx, inputs));
    forall i, j | 0 <= i < j < |chains|
      ensures ctx.labelRank(chains[i].chainId) <= ctx.labelRank(chains[j].chainId)
    {
      VerdictsAt(ctx, inputs, ids, i);
      VerdictsAt(ctx, inputs, ids, j);
      assert RankedIdPair(ctx, ids[i], ids[j]);
    }
  }

  // ---------------------------------------------------------------- the names events are read by

  lemma NamesApart()
    ensures Ascii("integrity") != Ascii("sequence") && Ascii("hash") != Ascii("signature")
    ensures forall name | name in NamesKept() :: name != Ascii("hash") && name != Ascii("signature")
    ensures forall i, j | 0 <= i < j < 4 :: NamesKept()[i] != NamesKept()[j]
  {
    assert |Ascii("integrity")| == 9 && |Ascii("sequence")| == 8;
    assert |Ascii("chainId")| == 7 && |Ascii("previousHash")| == 12 && |Ascii("hashAlgorithm")| == 13;
    assert |Ascii("canonicalization")| == 16 && |Ascii("hash")| == 4 && |Ascii("signature")| == 9;
  }

  function NamesKept(): (names: seq<Text>)
    ensures |names| == 4
  {
    [Ascii("chainId"), Ascii("previousHash"), Ascii("hashAlgorithm"), Ascii("canonicalization")]
  }

  /** An event with every member that is read, and one signature member besides. */
  function Spelled(
    token: Text, chain: Value, previous: Value, algorithm: Value, canonicalization: Value, hash: Value): Value {
    Object([
      Field(Ascii("sequence"), Number(token)),
      Field(Ascii("integrity"), Object(Kept4(chain, previous, algorithm, canonicalization) + [
        Field(Ascii("hash"), hash),
        Field(Ascii("signature"), Null)]))])
  }

  function Kept4(chain: Value, previous: Value, algorithm: Value, canonicalization: Value): seq<Field> {
    [ Field(Ascii("chainId"), chain),
      Field(Ascii("previousHash"), previous),
      Field(Ascii("hashAlgorithm"), algorithm),
      Field(Ascii("canonicalization"), canonicalization)]
  }

  /** What is read of such an event, and what is left of it to be hashed. */
  lemma SpelledReads(ctx: Context, token: Text, c: Value, p: Value, a: Value, k: Value, h: Value)
    ensures var e := Spelled(token, c, p, a, k, h);
      && SequenceOf(ctx, e) == ctx.wholeNumber(token)
      && IntegrityMember(e, CHAIN_ID) == Some(c)
      && IntegrityMember(e, PREVIOUS_HASH) == Some(p)
      && IntegrityMember(e, HASH_ALGORITHM) == Some(a)
      && IntegrityMember(e, CANONICALIZATION) == Some(k)
      && IntegrityMember(e, HASH) == Some(h)
      && IntegrityMember(e, SIGNATURE) == Some(Null)
      && DigestInput(e) == Object([
           Field(Ascii("sequence"), Number(token)),
           Field(Ascii("integrity"), Object(Kept4(c, p, a, k)))])
  {
    var e := Spelled(token, c, p, a, k, h);
    var own := e.fields[1].value.fields;
    TwoFields(e.fields[0], e.fields[1], Object(Kept4(c, p, a, k)));
    SixFields(own[0], own[1], own[2], own[3], own[4], own[5]);
    assert e.fields == [e.fields[0], e.fields[1]];
    assert own == [own[0], own[1], own[2], own[3], own[4], own[5]];
    assert Kept4(c, p, a, k) == [own[0], own[1], own[2], own[3]];
  }

  lemma TwoFields(f: Field, g: Field, value: Value)
    requires f.key == Ascii("sequence") && g.key == Ascii("integrity")
    ensures Get([f, g], Ascii("sequence")) == Some(f.value) && Get([f, g], Ascii("integrity")) == Some(g.value)
    ensures Put([f, g], Ascii("integrity"), value) == [f, Field(Ascii("integrity"), value)]
  {
    NamesApart();
    assert [f, g][1..] == [g] && [g][1..] == [];
    assert Put([g], Ascii("integrity"), value) == [Field(Ascii("integrity"), value)];
  }

  lemma SixFields(u: Field, v: Field, w: Field, x: Field, y: Field, z: Field)
    requires u.key == Ascii("chainId") && v.key == Ascii("previousHash") && w.key == Ascii("hashAlgorithm")
    requires x.key == Ascii("canonicalization") && y.key == Ascii("hash") && z.key == Ascii("signature")
    ensures var own := [u, v, w, x, y, z];
      && (forall f | f in own :: Get(own, f.key) == Some(f.value))
      && Kept(own) == [u, v, w, x]
  {
    var own := [u, v, w, x, y, z];
    SixApart();
    var names := NamesKept() + [Ascii("hash"), Ascii("signature")];
    assert forall i | 0 <= i < 6 :: own[i].key == names[i];
    forall f | f in own
      ensures Get(own, f.key) == Some(f.value)
    {
      GetFound(own, f);
    }
    NamesApart();
    assert EXCLUDED == [Ascii("hash"), Ascii("signature")];
    KeptFour(u, v, w, x, y, z);
  }

  lemma KeptFour(u: Field, v: Field, w: Field, x: Field, y: Field, z: Field)
    requires u.key !in EXCLUDED && v.key !in EXCLUDED && w.key !in EXCLUDED && x.key !in EXCLUDED
    requires y.key in EXCLUDED && z.key in EXCLUDED
    ensures Kept([u, v, w, x, y, z]) == [u, v, w, x]
  {
    KeptNext(z, []);
    KeptNext(y, [z]);
    KeptNext(x, [y, z]);
    KeptNext(w, [x, y, z]);
    KeptNext(v, [w, x, y, z]);
    KeptNext(u, [v, w, x, y, z]);
  }

  lemma KeptNext(f: Field, fields: seq<Field>)
    ensures Kept([f] + fields) == if f.key in EXCLUDED then Kept(fields) else [f] + Kept(fields)
  {
    assert ([f] + fields)[1..] == fields;
  }

  lemma SixApart()
    ensures var names := NamesKept() + [Ascii("hash"), Ascii("signature")];
      forall i, j | 0 <= i < j < 6 :: names[i] != names[j]
  {
    assert |Ascii("chainId")| == 7 && |Ascii("previousHash")| == 12 && |Ascii("hashAlgorithm")| == 13;
    assert |Ascii("canonicalization")| == 16 && |Ascii("hash")| == 4 && |Ascii("signature")| == 9;
  }

  /** The member such an event becomes, with what its digest check found under its label. */
  lemma SpelledMember(
    ctx: Context, tag: Text, token: Text, c: Text, p: Text, a: Text, k: Text, h: Text, event: JsValue)
    requires event == Spelled(token, String(c), String(p), String(a), String(k), String(h))
    ensures var m := MemberOf(ctx, ChainInput(tag, event));
      && m.tag == tag && m.sequence == ctx.wholeNumber(token)
      && m.hash == Some(h) && m.previousHash == Some(p)
      && m.hashAlgorithm == Some(a) && m.canonicalization == Some(k)
      && (ctx.schemaValid(event) ==> Place(ctx, ChainInput(tag, event)) == Assigned(c, m))
  {
    SpelledReads(ctx, token, String(c), String(p), String(a), String(k), String(h));
  }

  /** What the check of its own digest leaves with a member: nothing, or the one finding under its label. */
  lemma MemberFindings(ctx: Context, x: ChainInput)
    ensures var r := VerifyEvent(ctx, x.event, false);
      && (r.Verified? <==> MemberOf(ctx, x).digestFindings == [])
      && (r.Failed? ==> MemberOf(ctx, x).digestFindings == [Finding(r.kind, Some(x.tag))])
  {
  }
}
