/**
 * What an intact chain is, said without sorting or streaming, and the consequences:
 * nothing is lost on intake, and the order events arrive in never matters.
 */
module ChainProperties {
  import opened Wrappers
  import opened Unicode
  import opened Digest
  import opened EventVerification
  import opened Chain
  import opened ChainOrder

  // ---------------------------------------------------------------- the declarative specification

  /** Two members with no third between them in sequence order. */
  ghost predicate Adjacent(ms: multiset<ChainMember>, p: ChainMember, m: ChainMember) {
    && p in ms && m in ms && p.sequence.Some? && m.sequence.Some?
    && p.sequence.value < m.sequence.value
    && forall q | q in ms && q.sequence.Some? :: !(p.sequence.value < q.sequence.value < m.sequence.value)
  }

  predicate SealedAlike(m: ChainMember, m': ChainMember) {
    && m.hashAlgorithm.GetOr(NONE) == m'.hashAlgorithm.GetOr(NONE)
    && m.canonicalization.GetOr(NONE) == m'.canonicalization.GetOr(NONE)
  }

  /**
   * Every member verifies and can be ordered, all are sealed alike, sequences are
   * distinct, and each member links to the one before it.
   */
  ghost predicate IntactMembers(ms: multiset<ChainMember>) {
    && (forall m | m in ms :: m.digestFindings == [] && m.sequence.Some?)
    && (forall m, m' | m in ms && m' in ms :: SealedAlike(m, m'))
    && DistinctSequences(ms)
    && AllLinked(ms)
  }

  ghost predicate DistinctSequences(ms: multiset<ChainMember>) {
    && (forall m | m in ms :: ms[m] == 1)
    && (forall m, m' | m in ms && m' in ms && m.sequence == m'.sequence :: m == m')
  }

  ghost predicate AllLinked(ms: multiset<ChainMember>) {
    forall p, m | Adjacent(ms, p, m) :: LinksTo(m, p)
  }

  ghost predicate Linked(ms: seq<Sequenced>) {
    forall i, j | 0 <= i < j < |ms| && j == i + 1 :: LinksTo(ms[j], ms[i])
  }

  // ---------------------------------------------------------------- each kind of finding

  lemma {:induction false} NoDigestFindings(ms: seq<ChainMember>)
    ensures DigestFindings(ms) == [] <==> forall m | m in ms :: m.digestFindings == []
  {
    if ms != [] {
      NoDigestFindings(ms[..|ms| - 1]);
      assert ms == ms[..|ms| - 1] + [ms[|ms| - 1]];
    }
  }

  lemma {:induction false} NoMissingFindings(ms: seq<ChainMember>)
    ensures MissingFindings(ms) == [] <==> forall m | m in ms :: m.sequence.Some?
  {
    if ms != [] {
      NoMissingFindings(ms[..|ms| - 1]);
      assert ms == ms[..|ms| - 1] + [ms[|ms| - 1]];
    }
  }

  lemma AtMostOne<T>(s: set<T>)
    ensures |s| <= 1 <==> forall x, y | x in s && y in s :: x == y
  {
    if s != {} {
      var x :| x in s;
      assert s == {x} + (s - {x});
      if y :| y in s && y != x {
        assert {x, y} <= s;
        assert s == {x, y} + (s - {x, y});
      } else {
        assert s == {x};
      }
    }
  }

  lemma NoSealingFindings(ms: seq<ChainMember>)
    ensures SealingFindings(ms) == [] <==> forall m, m' | m in ms && m' in ms :: SealedAlike(m, m')
  {
    var algorithms := set m | m in ms :: m.hashAlgorithm.GetOr(NONE);
    var canonicalizations := set m | m in ms :: m.canonicalization.GetOr(NONE);
    AtMostOne(algorithms);
    AtMostOne(canonicalizations);
    if SealingFindings(ms) == [] {
      forall m, m' | m in ms && m' in ms
        ensures SealedAlike(m, m')
      {
        assert m.hashAlgorithm.GetOr(NONE) in algorithms && m'.hashAlgorithm.GetOr(NONE) in algorithms;
        assert m.canonicalization.GetOr(NONE) in canonicalizations
          && m'.canonicalization.GetOr(NONE) in canonicalizations;
      }
    }
  }

  lemma {:induction false} NoLinkFindings(ms: seq<Sequenced>)
    ensures LinkFindings(ms) == [] <==> Linked(ms)
  {
    if |ms| > 1 {
      var front := ms[..|ms| - 1];
      NoLinkFindings(front);
      assert Linked(ms) <==> Linked(front) && LinksTo(ms[|ms| - 1], ms[|ms| - 2]) by {
        assert forall i | 0 <= i < |front| :: front[i] == ms[i];
      }
    }
  }

  predicate Alone(ms: seq<Sequenced>, k: nat) {
    |AtSequence(ms, k)| <= 1
  }

  lemma {:induction false} NoDuplicateFindings(ks: seq<nat>, ms: seq<Sequenced>)
    ensures DuplicateFindings(ks, ms) == [] <==> forall k | k in ks :: Alone(ms, k)
  {
    if ks != [] {
      var front, last := ks[..|ks| - 1], ks[|ks| - 1];
      NoDuplicateFindings(front, ms);
      assert ks == front + [last];
      assert DuplicateFindings(ks, ms) == [] <==> DuplicateFindings(front, ms) == [] && Alone(ms, last);
    }
  }

  lemma {:induction false} AtSequenceCounts(ms: seq<Sequenced>, k: nat, m: Sequenced)
    ensures multiset(AtSequence(ms, k))[m] == if m.sequence.value == k then multiset(ms)[m] else 0
  {
    if ms != [] {
      var front, last := ms[..|ms| - 1], ms[|ms| - 1];
      AtSequenceCounts(front, k, m);
      CountLast(ms, m);
      if last.sequence.value == k {
        assert AtSequence(ms, k)[..|AtSequence(ms, k)| - 1] == AtSequence(front, k);
        CountLast(AtSequence(ms, k), m);
      } else {
        assert AtSequence(ms, k) == AtSequence(front, k);
      }
    }
  }

  lemma {:induction false} RisingAtMostOne(ms: seq<Sequenced>, k: nat)
    requires Rising(ms)
    ensures |AtSequence(ms, k)| <= 1
    ensures forall m | m in AtSequence(ms, k) :: m in ms && m.sequence.value == k
  {
    if ms != [] {
      var front, last := ms[..|ms| - 1], ms[|ms| - 1];
      RisingAtMostOne(front, k);
      forall m | m in front
        ensures m.sequence.value < last.sequence.value
      {
        var i :| 0 <= i < |front| && front[i] == m;
        assert ms[i] == m;
      }
      assert AtSequence(front, k) != [] ==> AtSequence(front, k)[0] in front;
    }
  }

  lemma {:induction false} TwoAtSequence(ms: seq<Sequenced>, i: nat, j: nat)
    requires i < j < |ms| && ms[i].sequence == ms[j].sequence
    ensures |AtSequence(ms, ms[j].sequence.value)| >= 2
  {
    var front, last, k := ms[..|ms| - 1], ms[|ms| - 1], ms[j].sequence.value;
    if j < |ms| - 1 {
      TwoAtSequence(front, i, j);
    } else {
      SequencesHas(front, k);
      assert front[i] in front;
      NothingAtUnlisted(front, k);
    }
  }

  lemma NoDuplicatesIsRising(ms: seq<Sequenced>)
    requires NonDescending(ms)
    ensures DuplicateFindings(SequencesOf(ms), ms) == [] <==> Rising(ms)
  {
    NoDuplicateFindings(SequencesOf(ms), ms);
    if Rising(ms) {
      forall k | k in SequencesOf(ms)
        ensures Alone(ms, k)
      {
        RisingAtMostOne(ms, k);
      }
    } else {
      var i, j :| 0 <= i < j < |ms| && !(ms[i].sequence.value < ms[j].sequence.value);
      TwoAtSequence(ms, i, j);
      SequencesHas(ms, ms[j].sequence.value);
      assert ms[j] in ms;
    }
  }

  lemma LastAtHead(os: seq<Sequenced>)
    requires Rising(os) && os != []
    ensures AtSequence(os, os[|os| - 1].sequence.value) == [os[|os| - 1]]
  {
    var front, last := os[..|os| - 1], os[|os| - 1];
    RisingAtMostOne(os, last.sequence.value);
    assert AtSequence(os, last.sequence.value) == AtSequence(front, last.sequence.value) + [last];
  }

  // ---------------------------------------------------------------- the verdict is the specification

  predicate AllVerified(members: seq<ChainMember>) {
    forall m | m in members :: m.digestFindings == [] && m.sequence.Some?
  }

  predicate AllAlike(members: seq<ChainMember>) {
    forall m, m' | m in members && m' in members :: SealedAlike(m, m')
  }

  /** The verdict, read off the sorted list. */
  lemma VerdictOnList(ctx: Context, c: Text, members: seq<ChainMember>)
    ensures Verdict(ctx, c, members).intact <==>
      && AllVerified(members)
      && AllAlike(members)
      && Rising(Ordered(ctx, members))
      && Linked(Ordered(ctx, members))
  {
    var ms := Ordered(ctx, members);
    OrderedIsSorted(ctx, members);
    NoDigestFindings(members);
    NoSealingFindings(members);
    NoMissingFindings(members);
    NoDuplicatesIsRising(ms);
    NoLinkFindings(ms);
  }

  lemma {:induction false} RisingCounts(ms: seq<Sequenced>, m: Sequenced)
    requires Rising(ms) && m in ms
    ensures multiset(ms)[m] == 1
  {
    var front, last := ms[..|ms| - 1], ms[|ms| - 1];
    assert ms == front + [last];
    if m in front {
      RisingCounts(front, m);
      var i :| 0 <= i < |front| && front[i] == m;
      assert ms[i] == m;
    } else {
      assert multiset(front)[m] == 0;
    }
  }

  lemma CountsTwice(ms: seq<Sequenced>, i: nat, j: nat)
    requires i < j < |ms| && ms[i] == ms[j]
    ensures multiset(ms)[ms[i]] >= 2
  {
    assert ms == ms[..j] + ms[j..];
    assert ms[i] in ms[..j] && ms[j] in ms[j..];
  }

  lemma OrderedIsAll(ctx: Context, members: seq<ChainMember>)
    requires forall m | m in members :: m.sequence.Some?
    ensures forall m: Sequenced :: m in Ordered(ctx, members) <==> m in multiset(members)
    ensures multiset(Ordered(ctx, members)) == multiset(members)
  {
    forall m: Sequenced
      ensures (m in Ordered(ctx, members) <==> m in multiset(members))
      ensures multiset(Ordered(ctx, members))[m] == multiset(members)[m]
    {
      OrderedHas(ctx, members, m);
    }
    forall m: ChainMember
      ensures multiset(Ordered(ctx, members))[m] == multiset(members)[m]
    {
      if m.sequence.Some? {
        OrderedHas(ctx, members, m);
      } else {
        assert m !in Ordered(ctx, members) && m !in members;
      }
    }
  }

  lemma AdjacentAreNext(ms: seq<Sequenced>, i: nat, j: nat)
    requires Rising(ms) && i < |ms| && j < |ms| && Adjacent(multiset(ms), ms[i], ms[j])
    ensures j == i + 1
  {
    assert i < j;
    assert ms[i + 1] in multiset(ms);
  }

  lemma NeighboursLinked(ms: seq<Sequenced>)
    requires Rising(ms) && Linked(ms)
    ensures AllLinked(multiset(ms))
  {
    forall p, m | Adjacent(multiset(ms), p, m)
      ensures LinksTo(m, p)
    {
      var i :| 0 <= i < |ms| && ms[i] == p;
      var j :| 0 <= j < |ms| && ms[j] == m;
      AdjacentAreNext(ms, i, j);
    }
  }

  lemma AdjacentLinked(ms: seq<Sequenced>)
    requires Rising(ms) && AllLinked(multiset(ms))
    ensures Linked(ms)
  {
    forall i, j | 0 <= i < j < |ms| && j == i + 1
      ensures LinksTo(ms[j], ms[i])
    {
      assert ms[i] in ms && ms[j] in ms;
      forall q | q in multiset(ms)
        ensures !(ms[i].sequence.value < q.sequence.value < ms[j].sequence.value)
      {
        var k :| 0 <= k < |ms| && ms[k] == q;
      }
      assert Adjacent(multiset(ms), ms[i], ms[j]);
    }
  }

  lemma RisingIsDistinct(ms: seq<Sequenced>)
    requires Rising(ms)
    ensures DistinctSequences(multiset(ms))
  {
    forall m | m in multiset(ms)
      ensures multiset(ms)[m] == 1
    {
      RisingCounts(ms, m);
    }
    forall m, m' | m in multiset(ms) && m' in multiset(ms) && m.sequence == m'.sequence
      ensures m == m'
    {
      var i :| 0 <= i < |ms| && ms[i] == m;
      var j :| 0 <= j < |ms| && ms[j] == m';
    }
  }

  lemma DistinctIsRising(ms: seq<Sequenced>)
    requires NonDescending(ms) && DistinctSequences(multiset(ms))
    ensures Rising(ms)
  {
    forall i, j | 0 <= i < j < |ms|
      ensures ms[i].sequence.value < ms[j].sequence.value
    {
      assert ms[i] in multiset(ms) && ms[j] in multiset(ms);
      if ms[i] == ms[j] {
        CountsTwice(ms, i, j);
      }
    }
  }

  lemma ListIsDeclarative(ms: seq<Sequenced>)
    requires NonDescending(ms)
    ensures Rising(ms) && Linked(ms) <==> DistinctSequences(multiset(ms)) && AllLinked(multiset(ms))
  {
    if Rising(ms) && Linked(ms) {
      RisingIsDistinct(ms);
      NeighboursLinked(ms);
    }
    if DistinctSequences(multiset(ms)) && AllLinked(multiset(ms)) {
      DistinctIsRising(ms);
      AdjacentLinked(ms);
    }
  }

  lemma MembersInMultiset(members: seq<ChainMember>)
    ensures AllVerified(members) <==> forall m | m in multiset(members) :: m.digestFindings == [] && m.sequence.Some?
    ensures AllAlike(members) <==> forall m, m' | m in multiset(members) && m' in multiset(members) ::
      SealedAlike(m, m')
  {
    assert forall m :: m in members <==> m in multiset(members);
  }

  lemma OrderedIsDeclarative(ctx: Context, members: seq<ChainMember>)
    requires AllVerified(members)
    ensures var ms := Ordered(ctx, members);
      Rising(ms) && Linked(ms) <==> DistinctSequences(multiset(members)) && AllLinked(multiset(members))
  {
    OrderedIsAll(ctx, members);
    OrderedIsSorted(ctx, members);
    ListIsDeclarative(Ordered(ctx, members));
  }

  /** The streaming, sorting, bucketing verifier decides exactly the declarative specification. */
  lemma VerdictIsDeclarative(ctx: Context, c: Text, members: seq<ChainMember>)
    ensures Verdict(ctx, c, members).intact <==> IntactMembers(multiset(members))
  {
    VerdictOnList(ctx, c, members);
    MembersInMultiset(members);
    if AllVerified(members) {
      OrderedIsDeclarative(ctx, members);
    }
  }

  // ---------------------------------------------------------------- the whole report

  /** A chain is in the report exactly when it has members, and then with the verdict on them. */
  lemma ReportedChains(ctx: Context, inputs: seq<ChainInput>, r: ChainResult)
    ensures r in Report(ctx, inputs).chains <==>
      MembersOf(ctx, inputs, r.chainId) != [] && r == Verdict(ctx, r.chainId, MembersOf(ctx, inputs, r.chainId))
  {
    var ids := SortIds(ctx, ChainIdsOf(ctx, inputs));
    var rs := Verdicts(ctx, inputs, ids);
    assert Report(ctx, inputs).chains == rs;
    SortIdsHas(ctx, ChainIdsOf(ctx, inputs), r.chainId);
    NoMembersUnlessListed(ctx, inputs, r.chainId);
    if r in rs {
      var i :| 0 <= i < |rs| && rs[i] == r;
      VerdictsAt(ctx, inputs, ids, i);
      assert ids[i] in ids;
    }
    if r.chainId in ids && r == Verdict(ctx, r.chainId, MembersOf(ctx, inputs, r.chainId)) {
      var i :| 0 <= i < |ids| && ids[i] == r.chainId;
      VerdictsAt(ctx, inputs, ids, i);
      assert rs[i] == r;
    }
  }

  lemma {:induction false} AllPlaced(ctx: Context, inputs: seq<ChainInput>)
    ensures UnassignedOf(ctx, inputs) == [] <==> forall x | x in inputs :: Place(ctx, x).Assigned?
  {
    if inputs != [] {
      var front, last := inputs[..|inputs| - 1], inputs[|inputs| - 1];
      AllPlaced(ctx, front);
      assert inputs == front + [last];
      assert forall x :: x in inputs <==> x in front || x == last;
    }
  }

  /** The members of one chain are intact; true of a chain with no members at all. */
  ghost predicate ChainHolds(ctx: Context, inputs: seq<ChainInput>, c: Text) {
    IntactMembers(multiset(MembersOf(ctx, inputs, c)))
  }

  /** Where an event goes: to the chain it names, or to none, with the first of three reasons. */
  lemma PlaceExactly(ctx: Context, x: ChainInput)
    ensures Place(ctx, x).Assigned? <==>
      ctx.schemaValid(x.event) && AsText(IntegrityMember(x.event, CHAIN_ID)).Some?
    ensures Place(ctx, x).Assigned? ==> Some(Place(ctx, x).chainId) == AsText(IntegrityMember(x.event, CHAIN_ID))
    ensures Place(ctx, x) == Unassigned(Finding(SchemaInvalid, Some(x.tag))) <==> !ctx.schemaValid(x.event)
    ensures Place(ctx, x) == Unassigned(Finding(IntegrityMissing, Some(x.tag))) <==>
      ctx.schemaValid(x.event) && ReadIntegrity(x.event).None?
    ensures Place(ctx, x) == Unassigned(Finding(ChainIdMissing, Some(x.tag))) <==>
      && ctx.schemaValid(x.event) && ReadIntegrity(x.event).Some?
      && AsText(IntegrityMember(x.event, CHAIN_ID)).None?
  {
  }

  /**
   * A report is intact exactly when the validator accepts every event, every event names a
   * chain, and the members of every chain are intact.
   */
  lemma ReportIsDeclarative(ctx: Context, inputs: seq<ChainInput>)
    ensures Report(ctx, inputs).intact <==>
      && (forall x | x in inputs :: ctx.schemaValid(x.event) && AsText(IntegrityMember(x.event, CHAIN_ID)).Some?)
      && (forall c: Text :: ChainHolds(ctx, inputs, c))
  {
    AllPlaced(ctx, inputs);
    ChainsIntact(ctx, inputs);
    forall x | x in inputs
      ensures Place(ctx, x).Assigned? <==>
        ctx.schemaValid(x.event) && AsText(IntegrityMember(x.event, CHAIN_ID)).Some?
    {
      PlaceExactly(ctx, x);
    }
  }

  lemma {:induction false} UnassignedHas(ctx: Context, inputs: seq<ChainInput>, f: Finding)
    ensures f in UnassignedOf(ctx, inputs) <==> exists x :: x in inputs && Place(ctx, x) == Unassigned(f)
  {
    if inputs != [] {
      var front, last := inputs[..|inputs| - 1], inputs[|inputs| - 1];
      UnassignedHas(ctx, front, f);
      assert inputs == front + [last];
      assert forall x :: x in inputs <==> x in front || x == last;
    }
  }

  /** The findings on unassigned events: what is wrong with each, and no other. */
  lemma UnassignedExactly(ctx: Context, inputs: seq<ChainInput>, f: Finding)
    ensures f in Report(ctx, inputs).unassigned <==> exists x :: x in inputs && KeptOut(ctx, x, f)
    ensures Report(ctx, inputs).eventCount == |inputs|
  {
    UnassignedHas(ctx, inputs, f);
    if x :| x in inputs && Place(ctx, x) == Unassigned(f) {
      PlaceExactly(ctx, x);
      assert KeptOut(ctx, x, f);
    }
    if x :| x in inputs && KeptOut(ctx, x, f) {
      PlaceExactly(ctx, x);
    }
  }

  /** Why an event is kept out of every chain. */
  predicate KeptOut(ctx: Context, x: ChainInput, f: Finding) {
    && f.tag == Some(x.tag)
    && if !ctx.schemaValid(x.event) then f.kind == SchemaInvalid
       else if ReadIntegrity(x.event).None? then f.kind == IntegrityMissing
       else AsText(IntegrityMember(x.event, CHAIN_ID)).None? && f.kind == ChainIdMissing
  }

  lemma ChainsIntact(ctx: Context, inputs: seq<ChainInput>)
    ensures (forall r | r in Report(ctx, inputs).chains :: r.intact) <==>
      forall c: Text :: ChainHolds(ctx, inputs, c)
  {
    if forall r | r in Report(ctx, inputs).chains :: r.intact {
      forall c: Text
        ensures ChainHolds(ctx, inputs, c)
      {
        if MembersOf(ctx, inputs, c) != [] {
          ChainIntact(ctx, inputs, c);
        }
      }
    }
    if forall c: Text :: ChainHolds(ctx, inputs, c) {
      forall r | r in Report(ctx, inputs).chains
        ensures r.intact
      {
        ReportedChains(ctx, inputs, r);
        ChainIntact(ctx, inputs, r.chainId);
      }
    }
  }

  /** One chain that has members: it is reported, and reported intact exactly when its members are. */
  lemma ChainIntact(ctx: Context, inputs: seq<ChainInput>, c: Text)
    requires MembersOf(ctx, inputs, c) != []
    ensures var r := Verdict(ctx, c, MembersOf(ctx, inputs, c));
      && r in Report(ctx, inputs).chains
      && (r.intact <==> ChainHolds(ctx, inputs, c))
  {
    ReportedChains(ctx, inputs, Verdict(ctx, c, MembersOf(ctx, inputs, c)));
    VerdictIsDeclarative(ctx, c, MembersOf(ctx, inputs, c));
  }

  // ---------------------------------------------------------------- nothing is lost on intake

  function TotalMembers(ctx: Context, inputs: seq<ChainInput>, ids: seq<Text>): nat {
    if ids == [] then 0
    else TotalMembers(ctx, inputs, ids[..|ids| - 1]) + |MembersOf(ctx, inputs, ids[|ids| - 1])|
  }

  predicate Distinct(ids: seq<Text>) {
    forall i, j | 0 <= i < j < |ids| :: ids[i] != ids[j]
  }

  lemma {:induction false} ChainIdsDistinct(ctx: Context, inputs: seq<ChainInput>)
    ensures Distinct(ChainIdsOf(ctx, inputs))
  {
    if inputs != [] {
      ChainIdsDistinct(ctx, inputs[..|inputs| - 1]);
    }
  }

  /** One more event adds one member to the chain it is assigned to, and to no other. */
  lemma {:induction false} TotalGrows(ctx: Context, inputs: seq<ChainInput>, ids: seq<Text>)
    requires inputs != [] && Distinct(ids)
    ensures TotalMembers(ctx, inputs, ids) == TotalMembers(ctx, inputs[..|inputs| - 1], ids) +
      match Place(ctx, inputs[|inputs| - 1])
      case Unassigned(_) => 0
      case Assigned(c, _) => if c in ids then 1 else 0
  {
    if ids != [] {
      var front, last := ids[..|ids| - 1], ids[|ids| - 1];
      TotalGrows(ctx, inputs, front);
      assert ids == front + [last];
      assert last !in front;
    }
  }

  /** Each event is counted in exactly one place: among the unassigned or in one chain. */
  lemma {:induction false} EventsAreConserved(ctx: Context, inputs: seq<ChainInput>)
    ensures |inputs| == |UnassignedOf(ctx, inputs)| + TotalMembers(ctx, inputs, ChainIdsOf(ctx, inputs))
  {
    if inputs != [] {
      var front, ids := inputs[..|inputs| - 1], ChainIdsOf(ctx, inputs);
      var before := ChainIdsOf(ctx, front);
      EventsAreConserved(ctx, front);
      ChainIdsDistinct(ctx, inputs);
      TotalGrows(ctx, inputs, ids);
      if ids != before {
        assert ids[..|ids| - 1] == before;
        NoMembersUnlessListed(ctx, front, ids[|ids| - 1]);
      }
    }
  }

  // ---------------------------------------------------------------- order independence

  lemma {:induction false} MembersOfConcat(ctx: Context, a: seq<ChainInput>, b: seq<ChainInput>, c: Text)
    ensures MembersOf(ctx, a + b, c) == MembersOf(ctx, a, c) + MembersOf(ctx, b, c)
  {
    if b == [] {
      assert a + b == a;
    } else {
      assert (a + b)[..|a + b| - 1] == a + b[..|b| - 1];
      MembersOfConcat(ctx, a, b[..|b| - 1], c);
    }
  }

  lemma MembersOfSnoc(ctx: Context, a: seq<ChainInput>, x: ChainInput, c: Text)
    ensures MembersOf(ctx, a + [x], c) == MembersOf(ctx, a, c) + MemberIn(ctx, x, c)
  {
    assert (a + [x])[..|a|] == a;
  }

  lemma MembersAround(ctx: Context, before: seq<ChainInput>, x: ChainInput, after: seq<ChainInput>, c: Text)
    ensures MembersOf(ctx, before + [x] + after, c)
         == MembersOf(ctx, before, c) + MemberIn(ctx, x, c) + MembersOf(ctx, after, c)
  {
    MembersOfSnoc(ctx, before, x, c);
    MembersOfConcat(ctx, before + [x], after, c);
  }

  lemma MiddleOut<T>(x: seq<T>, middle: seq<T>, y: seq<T>)
    ensures multiset(x + middle + y) == multiset(x + y) + multiset(middle)
  {
  }

  /** Taking one event out takes out exactly what it contributed. */
  lemma MembersWithout(ctx: Context, b: seq<ChainInput>, i: nat, c: Text)
    requires i < |b|
    ensures multiset(MembersOf(ctx, b, c))
         == multiset(MembersOf(ctx, b[..i] + b[i + 1..], c)) + multiset(MemberIn(ctx, b[i], c))
  {
    assert b == b[..i] + [b[i]] + b[i + 1..];
    MembersAround(ctx, b[..i], b[i], b[i + 1..], c);
    MembersOfConcat(ctx, b[..i], b[i + 1..], c);
    MiddleOut(MembersOf(ctx, b[..i], c), MemberIn(ctx, b[i], c), MembersOf(ctx, b[i + 1..], c));
  }

  lemma {:induction false} MembersPermuted(ctx: Context, a: seq<ChainInput>, b: seq<ChainInput>, c: Text)
    requires multiset(a) == multiset(b)
    ensures multiset(MembersOf(ctx, a, c)) == multiset(MembersOf(ctx, b, c))
    decreases |a|
  {
    assert |a| == |multiset(a)| == |multiset(b)| == |b|;
    if a != [] {
      var i := PermutedRest(a, b);
      MembersPermuted(ctx, a[..|a| - 1], b[..i] + b[i + 1..], c);
      MembersWithout(ctx, b, i, c);
    }
  }

  lemma {:induction false} AtSequencePermuted(a: seq<Sequenced>, b: seq<Sequenced>, k: nat)
    requires multiset(a) == multiset(b)
    ensures multiset(AtSequence(a, k)) == multiset(AtSequence(b, k))
  {
    forall m: Sequenced
      ensures multiset(AtSequence(a, k))[m] == multiset(AtSequence(b, k))[m]
    {
      AtSequenceCounts(a, k, m);
      AtSequenceCounts(b, k, m);
    }
  }

  /** The ends of the sorted list are the least and greatest sequences, which only the set decides. */
  lemma EndsPermuted(a: seq<Sequenced>, b: seq<Sequenced>)
    requires multiset(a) == multiset(b) && NonDescending(a) && NonDescending(b)
    ensures |a| == |b|
    ensures a != [] ==> a[0].sequence == b[0].sequence && a[|a| - 1].sequence == b[|b| - 1].sequence
  {
    assert |a| == |multiset(a)| == |multiset(b)| == |b|;
    if a != [] {
      assert a[0] in multiset(b) && a[|a| - 1] in multiset(b);
      assert b[0] in multiset(a) && b[|b| - 1] in multiset(a);
    }
  }

  lemma OrderedPermuted(ctx: Context, a: seq<ChainMember>, b: seq<ChainMember>)
    requires multiset(a) == multiset(b)
    ensures multiset(Ordered(ctx, a)) == multiset(Ordered(ctx, b))
  {
    forall m: Sequenced
      ensures multiset(Ordered(ctx, a))[m] == multiset(Ordered(ctx, b))[m]
    {
      OrderedHas(ctx, a, m);
      OrderedHas(ctx, b, m);
    }
  }

  /** What of a verdict is compared or published. */
  datatype Essence = Essence(
    chainId: Text, intact: bool, eventCount: nat, first: Option<nat>, last: Option<nat>, headHash: Option<Text>)

  function EssenceOf(r: ChainResult): Essence {
    Essence(r.chainId, r.intact, r.eventCount, r.firstSequence, r.lastSequence, r.headHash)
  }

  lemma EndsAndHeadPermuted(x: seq<Sequenced>, y: seq<Sequenced>)
    requires multiset(x) == multiset(y) && NonDescending(x) && NonDescending(y)
    ensures var ks, ls := SequencesOf(x), SequencesOf(y);
      && (ks == [] <==> ls == [])
      && (ks != [] ==> ks[0] == ls[0] && ks[|ks| - 1] == ls[|ls| - 1])
      && HeadHash(ks, x) == HeadHash(ls, y)
  {
    EndsPermuted(x, y);
    SequencesOfNonDescending(x);
    SequencesOfNonDescending(y);
    if x != [] {
      HeadPermuted(x, y, x[|x| - 1].sequence.value);
    }
  }

  /** Everything in a verdict that is compared or published is a function of the set of members. */
  lemma VerdictPermuted(ctx: Context, c: Text, a: seq<ChainMember>, b: seq<ChainMember>)
    requires multiset(a) == multiset(b)
    ensures EssenceOf(Verdict(ctx, c, a)) == EssenceOf(Verdict(ctx, c, b))
  {
    VerdictIsDeclarative(ctx, c, a);
    VerdictIsDeclarative(ctx, c, b);
    assert |a| == |multiset(a)| == |multiset(b)| == |b|;
    OrderedPermuted(ctx, a, b);
    OrderedIsSorted(ctx, a);
    OrderedIsSorted(ctx, b);
    EndsAndHeadPermuted(Ordered(ctx, a), Ordered(ctx, b));
  }

  lemma OnlyOneOrder(u: seq<Sequenced>, v: seq<Sequenced>)
    requires multiset(u) == multiset(v)
    ensures |u| == |v|
    ensures |u| == 1 ==> u == v
  {
    assert |u| == |multiset(u)| == |multiset(v)| == |v|;
    if |u| == 1 {
      assert u[0] in multiset(v);
    }
  }

  lemma HeadPermuted(x: seq<Sequenced>, y: seq<Sequenced>, k: nat)
    requires multiset(x) == multiset(y)
    ensures |AtSequence(x, k)| == |AtSequence(y, k)|
    ensures |AtSequence(x, k)| == 1 ==> AtSequence(x, k) == AtSequence(y, k)
  {
    AtSequencePermuted(x, y, k);
    OnlyOneOrder(AtSequence(x, k), AtSequence(y, k));
  }

  lemma ChainPermuted(ctx: Context, a: seq<ChainInput>, b: seq<ChainInput>, r: ChainResult) returns (s: ChainResult)
    requires multiset(a) == multiset(b)
    requires r in Report(ctx, a).chains
    ensures s in Report(ctx, b).chains && EssenceOf(r) == EssenceOf(s)
  {
    var c := r.chainId;
    s := Verdict(ctx, c, MembersOf(ctx, b, c));
    ReportedChains(ctx, a, r);
    ReportedChains(ctx, b, s);
    MembersPermuted(ctx, a, b, c);
    VerdictPermuted(ctx, c, MembersOf(ctx, a, c), MembersOf(ctx, b, c));
    assert |MembersOf(ctx, b, c)| == |multiset(MembersOf(ctx, b, c))| == |multiset(MembersOf(ctx, a, c))|;
  }

  lemma IntactPermuted(ctx: Context, a: seq<ChainInput>, b: seq<ChainInput>)
    requires multiset(a) == multiset(b)
    ensures Report(ctx, a).intact == Report(ctx, b).intact
  {
    ReportIsDeclarative(ctx, a);
    ReportIsDeclarative(ctx, b);
    forall x
      ensures x in a <==> x in b
    {
      assert x in a <==> x in multiset(a);
      assert x in b <==> x in multiset(b);
    }
    HoldsPermuted(ctx, a, b);
  }

  lemma HoldsPermuted(ctx: Context, a: seq<ChainInput>, b: seq<ChainInput>)
    requires multiset(a) == multiset(b)
    ensures forall c: Text :: ChainHolds(ctx, a, c) <==> ChainHolds(ctx, b, c)
  {
    forall c: Text
      ensures ChainHolds(ctx, a, c) <==> ChainHolds(ctx, b, c)
    {
      MembersPermuted(ctx, a, b, c);
    }
  }

  /** The order the events are offered in never changes a verdict. */
  lemma OrderIndependence(ctx: Context, a: seq<ChainInput>, b: seq<ChainInput>)
    requires multiset(a) == multiset(b)
    ensures Report(ctx, a).intact == Report(ctx, b).intact
    ensures Report(ctx, a).eventCount == Report(ctx, b).eventCount
    ensures forall r | r in Report(ctx, a).chains :: exists s ::
      s in Report(ctx, b).chains && EssenceOf(r) == EssenceOf(s)
    ensures forall s | s in Report(ctx, b).chains :: exists r ::
      r in Report(ctx, a).chains && EssenceOf(r) == EssenceOf(s)
  {
    assert |a| == |multiset(a)| == |multiset(b)| == |b|;
    IntactPermuted(ctx, a, b);
    forall r | r in Report(ctx, a).chains
      ensures exists s :: s in Report(ctx, b).chains && EssenceOf(r) == EssenceOf(s)
    {
      var s := ChainPermuted(ctx, a, b, r);
    }
    forall s | s in Report(ctx, b).chains
      ensures exists r :: r in Report(ctx, a).chains && EssenceOf(r) == EssenceOf(s)
    {
      var r := ChainPermuted(ctx, b, a, s);
    }
  }
}
