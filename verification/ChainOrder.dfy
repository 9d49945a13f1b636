/** Facts about sorting and grouping members that hold whatever the locale order of labels is. */
module ChainOrder {
  import opened Unicode
  import opened EventVerification
  import opened Chain

  // ---------------------------------------------------------------- numbers

  predicate Ascending(ks: seq<nat>) {
    forall i, j | 0 <= i < j < |ks| :: ks[i] < ks[j]
  }

  function InsertNat(k: nat, ks: seq<nat>): seq<nat> {
    if ks == [] || k <= ks[0] then [k] + ks else [ks[0]] + InsertNat(k, ks[1..])
  }

  function SortNats(ks: seq<nat>): seq<nat> {
    if ks == [] then [] else InsertNat(ks[0], SortNats(ks[1..]))
  }

  lemma {:induction false} SortedNatsUnchanged(ks: seq<nat>)
    requires Ascending(ks)
    ensures SortNats(ks) == ks
  {
    if ks != [] {
      SortedNatsUnchanged(ks[1..]);
      assert |ks| > 1 ==> ks[0] < ks[1] == ks[1..][0];
    }
  }

  // ---------------------------------------------------------------- identifiers

  lemma {:induction false} InsertIdHas(ctx: Context, id: Text, ids: seq<Text>, x: Text)
    ensures x in InsertId(ctx, id, ids) <==> x == id || x in ids
  {
    if ids == [] || ctx.labelRank(id) <= ctx.labelRank(ids[0]) {
    } else {
      InsertIdHas(ctx, id, ids[1..], x);
    }
  }

  lemma {:induction false} SortIdsHas(ctx: Context, ids: seq<Text>, x: Text)
    ensures x in SortIds(ctx, ids) <==> x in ids
  {
    if ids != [] {
      SortIdsHas(ctx, ids[1..], x);
      InsertIdHas(ctx, ids[0], SortIds(ctx, ids[1..]), x);
    }
  }

  /** A chain is listed exactly when it has members. */
  lemma {:induction false} NoMembersUnlessListed(ctx: Context, inputs: seq<ChainInput>, c: Text)
    ensures c in ChainIdsOf(ctx, inputs) <==> MembersOf(ctx, inputs, c) != []
  {
    if inputs != [] {
      NoMembersUnlessListed(ctx, inputs[..|inputs| - 1], c);
    }
  }

  // ---------------------------------------------------------------- members by sequence

  lemma LinkableStep(ms: seq<ChainMember>, i: nat)
    requires i < |ms|
    ensures Linkable(ms[..i + 1]) == Linkable(ms[..i]) + if ms[i].sequence.Some? then [ms[i]] else []
  {
    assert ms[..i + 1][..i] == ms[..i];
  }

  lemma SequencesStep(ms: seq<Sequenced>, m: Sequenced)
    ensures SequencesOf(ms + [m]) ==
      if m.sequence.value in SequencesOf(ms) then SequencesOf(ms) else SequencesOf(ms) + [m.sequence.value]
  {
    assert (ms + [m])[..|ms|] == ms;
  }

  lemma AtSequenceStep(ms: seq<Sequenced>, m: Sequenced, k: nat)
    ensures AtSequence(ms + [m], k) == AtSequence(ms, k) + if m.sequence.value == k then [m] else []
  {
    assert (ms + [m])[..|ms|] == ms;
  }

  lemma {:induction false} NothingAtUnlisted(ms: seq<Sequenced>, k: nat)
    ensures k in SequencesOf(ms) <==> AtSequence(ms, k) != []
  {
    if ms != [] {
      NothingAtUnlisted(ms[..|ms| - 1], k);
    }
  }

  lemma {:induction false} SequencesHas(ms: seq<Sequenced>, k: nat)
    ensures k in SequencesOf(ms) <==> exists m :: m in ms && m.sequence.value == k
  {
    if ms != [] {
      var front, last := ms[..|ms| - 1], ms[|ms| - 1];
      SequencesHas(front, k);
      assert ms == front + [last];
    }
  }

  predicate NonDescending(ms: seq<Sequenced>) {
    forall i, j | 0 <= i < j < |ms| :: ms[i].sequence.value <= ms[j].sequence.value
  }

  predicate Rising(ms: seq<Sequenced>) {
    forall i, j | 0 <= i < j < |ms| :: ms[i].sequence.value < ms[j].sequence.value
  }

  lemma {:induction false} SequencesOfNonDescending(ms: seq<Sequenced>)
    requires NonDescending(ms)
    ensures Ascending(SequencesOf(ms))
    ensures ms != [] ==> SequencesOf(ms) != [] && SequencesOf(ms)[0] == ms[0].sequence.value
    ensures ms != [] ==> SequencesOf(ms)[|SequencesOf(ms)| - 1] == ms[|ms| - 1].sequence.value
  {
    if ms != [] {
      var front, k := ms[..|ms| - 1], ms[|ms| - 1].sequence.value;
      var ks := SequencesOf(front);
      SequencesOfNonDescending(front);
      if front != [] {
        assert ks[|ks| - 1] == front[|front| - 1].sequence.value <= k;
        if k in ks {
          var i :| 0 <= i < |ks| && ks[i] == k;
          assert i == |ks| - 1;
        }
      }
    }
  }

  // ---------------------------------------------------------------- sorting members

  lemma {:induction false} InsertMemberKeeps(ctx: Context, m: ChainMember, ms: seq<ChainMember>)
    ensures multiset(InsertMember(ctx, m, ms)) == multiset(ms) + multiset{m}
  {
    if ms == [] || CompareMembers(ctx, m, ms[0]) <= 0.0 {
    } else {
      InsertMemberKeeps(ctx, m, ms[1..]);
      assert ms == [ms[0]] + ms[1..];
    }
  }

  lemma {:induction false} SortMembersKeeps(ctx: Context, ms: seq<ChainMember>)
    ensures multiset(SortMembers(ctx, ms)) == multiset(ms)
  {
    if ms != [] {
      SortMembersKeeps(ctx, ms[1..]);
      InsertMemberKeeps(ctx, ms[0], SortMembers(ctx, ms[1..]));
      assert ms == [ms[0]] + ms[1..];
    }
  }

  function Key(m: ChainMember): nat {
    m.sequence.GetOr(MAX_SAFE_INTEGER)
  }

  predicate SortedByKey(ms: seq<ChainMember>) {
    forall i, j | 0 <= i < j < |ms| :: Key(ms[i]) <= Key(ms[j])
  }

  lemma {:induction false} InsertMemberSorted(ctx: Context, m: ChainMember, ms: seq<ChainMember>)
    requires SortedByKey(ms)
    ensures SortedByKey(InsertMember(ctx, m, ms))
  {
    if ms == [] {
    } else if CompareMembers(ctx, m, ms[0]) <= 0.0 {
      assert Key(m) <= Key(ms[0]);
    } else {
      assert Key(ms[0]) <= Key(m);
      InsertMemberSorted(ctx, m, ms[1..]);
      InsertMemberKeeps(ctx, m, ms[1..]);
      forall x | x in InsertMember(ctx, m, ms[1..])
        ensures Key(ms[0]) <= Key(x)
      {
        assert x in multiset(InsertMember(ctx, m, ms[1..]));
        assert x == m || x in ms[1..];
      }
    }
  }

  lemma {:induction false} SortMembersSorted(ctx: Context, ms: seq<ChainMember>)
    ensures SortedByKey(SortMembers(ctx, ms))
  {
    if ms != [] {
      SortMembersSorted(ctx, ms[1..]);
      InsertMemberSorted(ctx, ms[0], SortMembers(ctx, ms[1..]));
    }
  }

  lemma {:induction false} LinkableHas(ms: seq<ChainMember>, m: Sequenced)
    ensures m in Linkable(ms) <==> m in ms
    ensures multiset(Linkable(ms))[m] == multiset(ms)[m]
  {
    if ms != [] {
      var front, last := ms[..|ms| - 1], ms[|ms| - 1];
      LinkableHas(front, m);
      assert ms == front + [last];
    }
  }

  lemma LinkableBelow(ms: seq<ChainMember>, key: nat)
    requires forall m | m in ms :: Key(m) <= key
    ensures forall i | 0 <= i < |Linkable(ms)| :: Linkable(ms)[i].sequence.value <= key
  {
    forall i | 0 <= i < |Linkable(ms)|
      ensures Linkable(ms)[i].sequence.value <= key
    {
      LinkableHas(ms, Linkable(ms)[i]);
    }
  }

  lemma {:induction false} LinkableNonDescending(ms: seq<ChainMember>)
    requires SortedByKey(ms)
    ensures NonDescending(Linkable(ms))
  {
    if ms != [] {
      var front, last := ms[..|ms| - 1], ms[|ms| - 1];
      LinkableNonDescending(front);
      forall m | m in front
        ensures Key(m) <= Key(last)
      {
        var i :| 0 <= i < |front| && front[i] == m;
        assert ms[i] == m;
      }
      LinkableBelow(front, Key(last));
    }
  }

  /** The members that can be ordered, in sequence order. */
  function Ordered(ctx: Context, ms: seq<ChainMember>): seq<Sequenced> {
    Linkable(SortMembers(ctx, ms))
  }

  lemma OrderedIsSorted(ctx: Context, ms: seq<ChainMember>)
    ensures NonDescending(Ordered(ctx, ms))
  {
    SortMembersSorted(ctx, ms);
    LinkableNonDescending(SortMembers(ctx, ms));
  }

  lemma OrderedHas(ctx: Context, ms: seq<ChainMember>, m: Sequenced)
    ensures m in Ordered(ctx, ms) <==> m in ms
    ensures multiset(Ordered(ctx, ms))[m] == multiset(ms)[m]
  {
    SortMembersKeeps(ctx, ms);
    LinkableHas(SortMembers(ctx, ms), m);
    assert m in ms <==> m in multiset(ms);
    assert m in SortMembers(ctx, ms) <==> m in multiset(SortMembers(ctx, ms));
  }

  lemma SequencesAscending(ctx: Context, ms: seq<ChainMember>)
    ensures Ascending(SequencesOf(Ordered(ctx, ms)))
  {
    OrderedIsSorted(ctx, ms);
    SequencesOfNonDescending(Ordered(ctx, ms));
  }
}
