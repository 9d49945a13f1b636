/**
 * Previous-hash chains: how one event is reduced to a chain member, and what the
 * verdict on a set of members is.
 */
module Chain {
  import opened Wrappers
  import opened Unicode
  import opened Json
  import opened Hashing
  import opened Digest
  import opened EventVerification

  const MAX_SAFE_INTEGER: nat := 9007199254740991
  const NONE := Ascii("(none)")

  /** An event and the label it is reported under. */
  datatype ChainInput = ChainInput(tag: Text, event: JsValue)

  /** The reduction of an event: where it stands in its chain, its links, and what its digest check found. */
  datatype ChainMember = ChainMember(
    tag: Text,
    digestFindings: seq<Finding>,
    sequence: Option<nat>,
    hash: Option<Text>,
    previousHash: Option<Text>,
    hashAlgorithm: Option<Text>,
    canonicalization: Option<Text>
  )

  type Sequenced = m: ChainMember | m.sequence.Some?
    witness ChainMember([], [], Some(0), None, None, None, None)

  datatype Placement = Unassigned(finding: Finding) | Assigned(chainId: Text, member: ChainMember)

  function SequenceOf(ctx: Context, event: Value): Option<nat> {
    match Member(event, SEQUENCE)
    case Some(Number(token)) => ctx.wholeNumber(token)
    case _ => None
  }

  /** Where one event goes: to a chain as a member, or to the events that belong to none. */
  function Place(ctx: Context, input: ChainInput): Placement {
    if !ctx.schemaValid(input.event) then Unassigned(Finding(SchemaInvalid, Some(input.tag)))
    else if ReadIntegrity(input.event).None? then Unassigned(Finding(IntegrityMissing, Some(input.tag)))
    else
      match AsText(IntegrityMember(input.event, CHAIN_ID))
      case None => Unassigned(Finding(ChainIdMissing, Some(input.tag)))
      case Some(chainId) => Assigned(chainId, MemberOf(ctx, input))
  }

  function MemberOf(ctx: Context, input: ChainInput): ChainMember {
    ChainMember(
      input.tag,
      match VerifyEvent(ctx, input.event, false)
      case Verified(_) => []
      case Failed(kind) => [Finding(kind, Some(input.tag))],
      SequenceOf(ctx, input.event),
      AsText(IntegrityMember(input.event, HASH)),
      AsText(IntegrityMember(input.event, PREVIOUS_HASH)),
      AsText(IntegrityMember(input.event, HASH_ALGORITHM)),
      AsText(IntegrityMember(input.event, CANONICALIZATION)))
  }

  // ---------------------------------------------------------------- the batch specification

  function UnassignedOf(ctx: Context, inputs: seq<ChainInput>): seq<Finding> {
    if inputs == [] then []
    else
      UnassignedOf(ctx, inputs[..|inputs| - 1]) +
      match Place(ctx, inputs[|inputs| - 1])
      case Unassigned(finding) => [finding]
      case Assigned(_, _) => []
  }

  /** The members of one chain, in the order their events arrived. */
  function MembersOf(ctx: Context, inputs: seq<ChainInput>, chainId: Text): seq<ChainMember> {
    if inputs == [] then []
    else
      MembersOf(ctx, inputs[..|inputs| - 1], chainId) + MemberIn(ctx, inputs[|inputs| - 1], chainId)
  }

  /** What one event adds to one chain. */
  function MemberIn(ctx: Context, input: ChainInput, chainId: Text): seq<ChainMember> {
    match Place(ctx, input)
    case Unassigned(_) => []
    case Assigned(id, member) => if id == chainId then [member] else []
  }

  /** The chains present, in the order they were first seen. */
  function ChainIdsOf(ctx: Context, inputs: seq<ChainInput>): seq<Text> {
    if inputs == [] then []
    else
      var ids := ChainIdsOf(ctx, inputs[..|inputs| - 1]);
      match Place(ctx, inputs[|inputs| - 1])
      case Unassigned(_) => ids
      case Assigned(id, _) => if id in ids then ids else ids + [id]
  }

  // ---------------------------------------------------------------- ordering

  /** Lower sequences first, ties by label rank; no sequence counts as the largest safe integer. */
  function CompareMembers(ctx: Context, left: ChainMember, right: ChainMember): real {
    var l, r := left.sequence.GetOr(MAX_SAFE_INTEGER), right.sequence.GetOr(MAX_SAFE_INTEGER);
    if l != r then (l - r) as real else ctx.labelRank(left.tag) - ctx.labelRank(right.tag)
  }

  function InsertMember(ctx: Context, m: ChainMember, ms: seq<ChainMember>): seq<ChainMember> {
    if ms == [] || CompareMembers(ctx, m, ms[0]) <= 0.0 then [m] + ms
    else [ms[0]] + InsertMember(ctx, m, ms[1..])
  }

  /** A stable sort. */
  function SortMembers(ctx: Context, ms: seq<ChainMember>): seq<ChainMember> {
    if ms == [] then [] else InsertMember(ctx, ms[0], SortMembers(ctx, ms[1..]))
  }

  function Linkable(ms: seq<ChainMember>): seq<Sequenced> {
    if ms == [] then []
    else
      var last := ms[|ms| - 1];
      Linkable(ms[..|ms| - 1]) + if last.sequence.Some? then [last] else []
  }

  /** The distinct sequences, in the order they are met. */
  function SequencesOf(ms: seq<Sequenced>): seq<nat> {
    if ms == [] then []
    else
      var ks, k := SequencesOf(ms[..|ms| - 1]), ms[|ms| - 1].sequence.value;
      if k in ks then ks else ks + [k]
  }

  function AtSequence(ms: seq<Sequenced>, k: nat): seq<Sequenced> {
    if ms == [] then []
    else
      var last := ms[|ms| - 1];
      AtSequence(ms[..|ms| - 1], k) + if last.sequence.value == k then [last] else []
  }

  // ---------------------------------------------------------------- the verdict

  function DigestFindings(ms: seq<ChainMember>): seq<Finding> {
    if ms == [] then [] else DigestFindings(ms[..|ms| - 1]) + ms[|ms| - 1].digestFindings
  }

  function SealingFindings(ms: seq<ChainMember>): seq<Finding> {
    var algorithms := set m | m in ms :: m.hashAlgorithm.GetOr(NONE);
    var canonicalizations := set m | m in ms :: m.canonicalization.GetOr(NONE);
    if |algorithms| > 1 || |canonicalizations| > 1 then [Finding(AlgorithmMismatch, None)] else []
  }

  function MissingFindings(ms: seq<ChainMember>): seq<Finding> {
    if ms == [] then []
    else
      var last := ms[|ms| - 1];
      MissingFindings(ms[..|ms| - 1]) + if last.sequence.None? then [Finding(SequenceMissing, Some(last.tag))] else []
  }

  function DuplicateFindings(ks: seq<nat>, ms: seq<Sequenced>): seq<Finding> {
    if ks == [] then []
    else
      var k := ks[|ks| - 1];
      var total := |AtSequence(ms, k)|;
      DuplicateFindings(ks[..|ks| - 1], ms) + if total > 1 then [Finding(DuplicateSequence(k, total), None)] else []
  }

  predicate LinksTo(m: ChainMember, predecessor: ChainMember) {
    && m.previousHash.Some?
    && predecessor.hash.Some?
    && DigestsEqual(m.previousHash.value, predecessor.hash.value)
  }

  function LinkFindings(ms: seq<Sequenced>): seq<Finding> {
    if |ms| <= 1 then []
    else
      var m, predecessor := ms[|ms| - 1], ms[|ms| - 2];
      LinkFindings(ms[..|ms| - 1]) +
      if m.previousHash.None? then [Finding(PreviousHashMissing, Some(m.tag))]
      else if !LinksTo(m, predecessor) then [Finding(BrokenLink, Some(m.tag))]
      else []
  }

  datatype Note = NotAtGenesis(tag: Text) | SequenceGaps

  function GenesisNotes(ms: seq<Sequenced>): seq<Note> {
    if ms != [] && ms[0].previousHash.Some? then [NotAtGenesis(ms[0].tag)] else []
  }

  function GapNotes(ks: seq<nat>): seq<Note> {
    if ks != [] && ks[|ks| - 1] + 1 != ks[0] + |ks| then [SequenceGaps] else []
  }

  datatype ChainResult = ChainResult(
    chainId: Text,
    eventCount: nat,
    firstSequence: Option<nat>,
    lastSequence: Option<nat>,
    headHash: Option<Text>,
    intact: bool,
    findings: seq<Finding>,
    notes: seq<Note>
  )

  function HeadHash(ks: seq<nat>, ms: seq<Sequenced>): Option<Text> {
    if ks == [] then None
    else
      var atHead := AtSequence(ms, ks[|ks| - 1]);
      if |atHead| == 1 then atHead[0].hash else None
  }

  function ChainFindings(members: seq<ChainMember>, linkable: seq<Sequenced>): seq<Finding> {
    DigestFindings(members) + SealingFindings(members) + MissingFindings(members)
    + DuplicateFindings(SequencesOf(linkable), linkable) + LinkFindings(linkable)
  }

  function Verdict(ctx: Context, chainId: Text, members: seq<ChainMember>): ChainResult {
    var linkable := Linkable(SortMembers(ctx, members));
    var ks := SequencesOf(linkable);
    var findings := ChainFindings(members, linkable);
    ChainResult(
      chainId,
      |members|,
      if ks == [] then None else Some(ks[0]),
      if ks == [] then None else Some(ks[|ks| - 1]),
      HeadHash(ks, linkable),
      findings == [],
      findings,
      GenesisNotes(linkable) + GapNotes(ks))
  }

  datatype ChainReport = ChainReport(chains: seq<ChainResult>, unassigned: seq<Finding>, eventCount: nat, intact: bool)

  /** The chains in report order: by identifier in locale order, ties as first seen. */
  function InsertId(ctx: Context, id: Text, ids: seq<Text>): seq<Text> {
    if ids == [] || ctx.labelRank(id) <= ctx.labelRank(ids[0]) then [id] + ids
    else [ids[0]] + InsertId(ctx, id, ids[1..])
  }

  function SortIds(ctx: Context, ids: seq<Text>): seq<Text> {
    if ids == [] then [] else InsertId(ctx, ids[0], SortIds(ctx, ids[1..]))
  }

  function Verdicts(ctx: Context, inputs: seq<ChainInput>, ids: seq<Text>): (rs: seq<ChainResult>)
    ensures |rs| == |ids|
  {
    if ids == [] then []
    else
      Verdicts(ctx, inputs, ids[..|ids| - 1])
      + [Verdict(ctx, ids[|ids| - 1], MembersOf(ctx, inputs, ids[|ids| - 1]))]
  }

  lemma {:induction false} VerdictsAt(ctx: Context, inputs: seq<ChainInput>, ids: seq<Text>, i: nat)
    requires i < |ids|
    ensures Verdicts(ctx, inputs, ids)[i] == Verdict(ctx, ids[i], MembersOf(ctx, inputs, ids[i]))
  {
    if i < |ids| - 1 {
      VerdictsAt(ctx, inputs, ids[..|ids| - 1], i);
    }
  }

  /** What verifying a set of events reports. */
  function Report(ctx: Context, inputs: seq<ChainInput>): ChainReport {
    var chains := Verdicts(ctx, inputs, SortIds(ctx, ChainIdsOf(ctx, inputs)));
    var unassigned := UnassignedOf(ctx, inputs);
    ChainReport(chains, unassigned, |inputs|, unassigned == [] && forall c | c in chains :: c.intact)
  }
}
