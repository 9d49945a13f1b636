/**
 * Merkle trees over event digests and their audit paths, as sections 2.1 and 2.1.1 of
 * RFC 6962 define them.
 */
module Merkle {
  import opened Wrappers
  import opened Unicode
  import opened Hashing

  /** Left or right of the node climbed from. */
  datatype Side = Left | Right

  /** A sibling met on the way up, its hash in hexadecimal. */
  datatype PathStep = PathStep(side: Side, hash: Text)

  // ---------------------------------------------------------------- where a tree splits

  predicate PowerOfTwo(k: nat) {
    k == 1 || (k >= 2 && k % 2 == 0 && PowerOfTwo(k / 2))
  }

  /** The power of two at which a tree of `n` leaves splits. */
  predicate IsSplit(n: nat, k: nat) {
    PowerOfTwo(k) && k < n <= 2 * k
  }

  function SplitFrom(n: nat, k: nat): (split: nat)
    requires 1 <= k
    ensures 1 <= split && (k < n ==> split < n)
    decreases n - k
  {
    if k * 2 < n then SplitFrom(n, k * 2) else k
  }

  function Split(n: nat): (k: nat)
    ensures n >= 2 ==> 1 <= k < n
  {
    SplitFrom(n, 1)
  }

  lemma {:induction false} SplitFromIsSplit(n: nat, k: nat)
    requires PowerOfTwo(k) && k < n
    ensures IsSplit(n, SplitFrom(n, k))
    decreases n - k
  {
    if k * 2 < n {
      SplitFromIsSplit(n, k * 2);
    }
  }

  lemma {:induction false} SplitUnique(n: nat, k: nat, k': nat)
    requires IsSplit(n, k) && IsSplit(n, k')
    ensures k == k'
  {
    if k > 1 && k' > 1 {
      SplitUnique((n + 1) / 2, k / 2, k' / 2);
    }
  }

  lemma SplitIs(n: nat)
    requires n >= 2
    ensures IsSplit(n, Split(n))
  {
    SplitFromIsSplit(n, 1);
  }

  /** Halving the tree halves the split: what makes the two descriptions of the tree agree. */
  lemma SplitHalves(n: nat)
    requires n >= 3
    ensures Split(n) % 2 == 0 && Split(n) >= 2 && Split((n + 1) / 2) == Split(n) / 2
  {
    SplitIs(n);
    SplitIs((n + 1) / 2);
    SplitUnique((n + 1) / 2, Split((n + 1) / 2), Split(n) / 2);
  }

  method SplitPoint(n: nat) returns (k: nat)
    requires n >= 2
    ensures IsSplit(n, k) && k == Split(n)
  {
    k := 1;
    while k * 2 < n
      invariant 1 <= k < n && PowerOfTwo(k) && SplitFrom(n, k) == Split(n)
    {
      k := k * 2;
    }
  }

  // ---------------------------------------------------------------- the tree

  function LeafPreimage(a: Algorithm, digest: Bytes): Preimage {
    Preimage(a, [0] + digest)
  }

  function NodePreimage(a: Algorithm, left: Bytes, right: Bytes): Preimage {
    Preimage(a, [1] + left + right)
  }

  function LeafHash(h: HashFunction, a: Algorithm, digest: Bytes): Bytes {
    h(LeafPreimage(a, digest))
  }

  function NodeHash(h: HashFunction, a: Algorithm, left: Bytes, right: Bytes): Bytes {
    h(NodePreimage(a, left, right))
  }

  function LeafHashes(h: HashFunction, a: Algorithm, digests: seq<Bytes>): (leaves: seq<Bytes>)
    ensures |leaves| == |digests|
  {
    seq(|digests|, i requires 0 <= i < |digests| => LeafHash(h, a, digests[i]))
  }

  /** The hash of the tree whose leaves have these hashes. */
  function TreeHash(h: HashFunction, a: Algorithm, leaves: seq<Bytes>): Bytes
    requires leaves != []
    decreases |leaves|
  {
    if |leaves| == 1 then leaves[0]
    else
      var k := Split(|leaves|);
      NodeHash(h, a, TreeHash(h, a, leaves[..k]), TreeHash(h, a, leaves[k..]))
  }

  /** The root over a list of digests. */
  function RootOver(h: HashFunction, a: Algorithm, digests: seq<Bytes>): (root: Bytes)
    requires digests != []
    ensures |root| == DigestByteLength(a)
  {
    TreeHash(h, a, LeafHashes(h, a, digests))
  }

  function DecodeAll(a: Algorithm, digests: seq<Text>): (ds: Option<seq<Bytes>>)
    ensures ds.Some? ==> |ds.value| == |digests|
    ensures ds.Some? ==> forall i | 0 <= i < |digests| :: DecodeDigest(a, digests[i]) == Some(ds.value[i])
    ensures ds.None? ==> exists d :: d in digests && DecodeDigest(a, d).None?
  {
    if digests == [] then Some([])
    else
      match (DecodeDigest(a, digests[0]), DecodeAll(a, digests[1..]))
      case (Some(d), Some(ds)) => Some([d] + ds)
      case _ => None
  }

  /** The root over hexadecimal digests; `None` where the program throws. */
  function MerkleRoot(h: HashFunction, a: Algorithm, digests: seq<Text>): Option<Bytes> {
    match DecodeAll(a, digests)
    case Some(ds) => if ds == [] then None else Some(RootOver(h, a, ds))
    case None => None
  }

  function PathOver(h: HashFunction, a: Algorithm, leaves: seq<Bytes>, index: nat): seq<PathStep>
    requires index < |leaves|
    decreases |leaves|
  {
    if |leaves| == 1 then []
    else
      var k := Split(|leaves|);
      if index < k then
        PathOver(h, a, leaves[..k], index) + [PathStep(Right, ToHex(TreeHash(h, a, leaves[k..])))]
      else
        PathOver(h, a, leaves[k..], index - k) + [PathStep(Left, ToHex(TreeHash(h, a, leaves[..k])))]
  }

  /** The audit path of one leaf, from the leaf upward; `None` where the program throws. */
  function AuditPath(h: HashFunction, a: Algorithm, digests: seq<Text>, index: int): Option<seq<PathStep>> {
    if index < 0 || index >= |digests| then None
    else
      match DecodeAll(a, digests)
      case Some(ds) => Some(PathOver(h, a, LeafHashes(h, a, ds), index))
      case None => None
  }

  /** The sides the path of a leaf must have in a tree of a given size, from the leaf upward. */
  function ExpectedSides(index: nat, leafCount: nat): seq<Side>
    requires 1 <= leafCount
    decreases leafCount
  {
    if leafCount == 1 then []
    else
      var k := Split(leafCount);
      if index < k then ExpectedSides(index, k) + [Right]
      else ExpectedSides(index - k, leafCount - k) + [Left]
  }

  function SidesOf(path: seq<PathStep>): (sides: seq<Side>)
    ensures |sides| == |path|
    ensures forall i | 0 <= i < |path| :: sides[i] == path[i].side
  {
    if path == [] then [] else [path[0].side] + SidesOf(path[1..])
  }

  // ---------------------------------------------------------------- climbing a path

  function Combine(h: HashFunction, a: Algorithm, current: Bytes, side: Side, sibling: Bytes): Bytes {
    if side == Left then NodeHash(h, a, sibling, current) else NodeHash(h, a, current, sibling)
  }

  /** The node reached from `current` along a path; `None` at a sibling that is not a digest. */
  function Climb(h: HashFunction, a: Algorithm, current: Bytes, path: seq<PathStep>): Option<Bytes>
    decreases path
  {
    if path == [] then Some(current)
    else
      match DecodeDigest(a, path[0].hash)
      case None => None
      case Some(sibling) => Climb(h, a, Combine(h, a, current, path[0].side, sibling), path[1..])
  }

  method RootFromPath(h: HashFunction, a: Algorithm, leafDigest: Bytes, path: seq<PathStep>)
    returns (root: Option<Bytes>)
    ensures root == Climb(h, a, LeafHash(h, a, leafDigest), path)
  {
    var current := LeafHash(h, a, leafDigest);
    var i := 0;
    while i < |path|
      invariant 0 <= i <= |path|
      invariant Climb(h, a, LeafHash(h, a, leafDigest), path) == Climb(h, a, current, path[i..])
    {
      var sibling := DecodeDigest(a, path[i].hash);
      assert path[i..][0] == path[i] && path[i..][1..] == path[i + 1..];
      if sibling.None? {
        return None;
      }
      current := if path[i].side == Left then NodeHash(h, a, sibling.value, current)
                 else NodeHash(h, a, current, sibling.value);
      i := i + 1;
    }
    assert path[i..] == [];
    root := Some(current);
  }

  lemma {:induction false} ClimbSnoc(h: HashFunction, a: Algorithm, current: Bytes, path: seq<PathStep>, step: PathStep)
    ensures Climb(h, a, current, path + [step]) ==
      match (Climb(h, a, current, path), DecodeDigest(a, step.hash))
      case (Some(below), Some(sibling)) => Some(Combine(h, a, below, step.side, sibling))
      case _ => None
    decreases path
  {
    if path == [] {
      assert path + [step] == [step];
      assert [step][1..] == [];
    } else {
      assert (path + [step])[1..] == path[1..] + [step];
      var sibling := DecodeDigest(a, path[0].hash);
      if sibling.Some? {
        ClimbSnoc(h, a, Combine(h, a, current, path[0].side, sibling.value), path[1..], step);
      }
    }
  }

  // ---------------------------------------------------------------- completeness

  /** One more step on a path that climbs to `below`. */
  lemma ClimbStep(
    h: HashFunction, a: Algorithm, current: Bytes, path: seq<PathStep>, below: Bytes, side: Side, sibling: Bytes)
    requires Climb(h, a, current, path) == Some(below) && |sibling| == DigestByteLength(a)
    ensures Climb(h, a, current, path + [PathStep(side, ToHex(sibling))]) == Some(Combine(h, a, below, side, sibling))
  {
    DecodeOfToHex(a, sibling);
    ClimbSnoc(h, a, current, path, PathStep(side, ToHex(sibling)));
  }

  /** Which half of the tree a leaf stands in, and where. */
  lemma HalfOf(ds: seq<Bytes>, index: nat) returns (side: Side, j: nat)
    requires |ds| > 1 && index < |ds|
    ensures j < |Half(ds, side)| && Half(ds, side)[j] == ds[index]
    ensures index < Split(|ds|) ==> side == Right && j == index
    ensures index >= Split(|ds|) ==> side == Left && j == index - Split(|ds|)
  {
    if index < Split(|ds|) {
      side, j := Right, index;
    } else {
      side, j := Left, index - Split(|ds|);
    }
  }

  /** The audit path of a leaf and the root, unfolded at the top of the tree. */
  lemma PathFromTop(h: HashFunction, a: Algorithm, ds: seq<Bytes>, index: nat) returns (side: Side, j: nat)
    requires |ds| > 1 && index < |ds|
    ensures j < |Half(ds, side)| && Half(ds, side)[j] == ds[index]
    ensures PathOver(h, a, LeafHashes(h, a, ds), index)
      == PathOver(h, a, LeafHashes(h, a, Half(ds, side)), j)
         + [PathStep(side, ToHex(RootOver(h, a, Half(ds, Sibling(side)))))]
    ensures RootOver(h, a, ds)
      == Combine(h, a, RootOver(h, a, Half(ds, side)), side, RootOver(h, a, Half(ds, Sibling(side))))
  {
    side, j := HalfOf(ds, index);
    PathOverTop(h, a, ds, index);
    TreeHashOfParts(h, a, ds);
  }

  lemma {:induction false} PathOverClimbs(h: HashFunction, a: Algorithm, ds: seq<Bytes>, index: nat)
    requires index < |ds|
    ensures Climb(h, a, LeafHash(h, a, ds[index]), PathOver(h, a, LeafHashes(h, a, ds), index))
      == Some(RootOver(h, a, ds))
    decreases |ds|
  {
    if |ds| > 1 {
      var side, j := PathFromTop(h, a, ds, index);
      var half, other := Half(ds, side), Half(ds, Sibling(side));
      PathOverClimbs(h, a, half, j);
      ClimbStep(h, a, LeafHash(h, a, ds[index]), PathOver(h, a, LeafHashes(h, a, half), j),
        RootOver(h, a, half), side, RootOver(h, a, other));
    }
  }

  lemma {:induction false} PathOverSides(h: HashFunction, a: Algorithm, leaves: seq<Bytes>, index: nat)
    requires index < |leaves|
    ensures SidesOf(PathOver(h, a, leaves, index)) == ExpectedSides(index, |leaves|)
    decreases |leaves|
  {
    if |leaves| > 1 {
      var k := Split(|leaves|);
      if index < k {
        PathOverSides(h, a, leaves[..k], index);
      } else {
        PathOverSides(h, a, leaves[k..], index - k);
      }
    }
  }

  /**
   * Completeness: every leaf's audit path recomputes the root, and has exactly the sides
   * expected at its position.
   */
  lemma ProofCompleteness(h: HashFunction, a: Algorithm, digests: seq<Text>, index: nat)
    requires index < |digests|
    requires MerkleRoot(h, a, digests).Some?
    ensures AuditPath(h, a, digests, index).Some? && DecodeDigest(a, digests[index]).Some?
    ensures var path := AuditPath(h, a, digests, index).value;
      && Climb(h, a, LeafHash(h, a, DecodeDigest(a, digests[index]).value), path) == MerkleRoot(h, a, digests)
      && SidesOf(path) == ExpectedSides(index, |digests|)
  {
    var ds := DecodeAll(a, digests).value;
    PathOverClimbs(h, a, ds, index);
    PathOverSides(h, a, LeafHashes(h, a, ds), index);
  }

  // ---------------------------------------------------------------- soundness

  /** Everything hashed while the tree over these digests is built. */
  function TreeInputs(h: HashFunction, a: Algorithm, digests: seq<Bytes>): seq<Preimage>
    requires digests != []
    decreases |digests|
  {
    if |digests| == 1 then [LeafPreimage(a, digests[0])]
    else
      var k := Split(|digests|);
      TreeInputs(h, a, digests[..k]) + TreeInputs(h, a, digests[k..])
      + [NodePreimage(a, RootOver(h, a, digests[..k]), RootOver(h, a, digests[k..]))]
  }

  /** The last input hashed for a tree: the one whose hash is the root. */
  function TopInput(h: HashFunction, a: Algorithm, digests: seq<Bytes>): Preimage
    requires digests != []
  {
    if |digests| == 1 then LeafPreimage(a, digests[0])
    else
      var k := Split(|digests|);
      NodePreimage(a, RootOver(h, a, digests[..k]), RootOver(h, a, digests[k..]))
  }

  lemma LeafHashesOfParts(h: HashFunction, a: Algorithm, digests: seq<Bytes>, k: nat)
    requires k <= |digests|
    ensures LeafHashes(h, a, digests)[..k] == LeafHashes(h, a, digests[..k])
    ensures LeafHashes(h, a, digests)[k..] == LeafHashes(h, a, digests[k..])
  {
  }

  lemma TreeHashOfParts(h: HashFunction, a: Algorithm, digests: seq<Bytes>)
    requires |digests| > 1
    ensures var k := Split(|digests|);
      RootOver(h, a, digests)
      == NodeHash(h, a, RootOver(h, a, digests[..k]), RootOver(h, a, digests[k..]))
  {
    LeafHashesOfParts(h, a, digests, Split(|digests|));
  }

  lemma TopInputIsHashed(h: HashFunction, a: Algorithm, digests: seq<Bytes>)
    requires digests != []
    ensures TopInput(h, a, digests) in TreeInputs(h, a, digests)
  {
    var inputs := TreeInputs(h, a, digests);
    assert inputs[|inputs| - 1] == TopInput(h, a, digests);
  }

  lemma TopInputHashesToRoot(h: HashFunction, a: Algorithm, digests: seq<Bytes>)
    requires digests != []
    ensures TopInput(h, a, digests) in TreeInputs(h, a, digests)
    ensures h(TopInput(h, a, digests)) == RootOver(h, a, digests)
  {
    TopInputIsHashed(h, a, digests);
    if |digests| > 1 {
      TreeHashOfParts(h, a, digests);
    }
  }

  lemma TreeInputsOfParts(h: HashFunction, a: Algorithm, digests: seq<Bytes>, known: seq<Preimage>)
    requires |digests| > 1 && Among(TreeInputs(h, a, digests), known)
    ensures 1 <= Split(|digests|) < |digests|
    ensures Among(TreeInputs(h, a, digests[..Split(|digests|)]), known)
    ensures Among(TreeInputs(h, a, digests[Split(|digests|)..]), known)
  {
    var k := Split(|digests|);
    forall p | p in TreeInputs(h, a, digests[..k]) || p in TreeInputs(h, a, digests[k..])
      ensures p in known
    {
      assert p in TreeInputs(h, a, digests);
    }
  }

  /** The prefixes keep leaves and nodes apart, and fixed length keeps two children apart. */
  lemma PreimagesApart(a: Algorithm, d: Bytes, l: Bytes, r: Bytes, l': Bytes, r': Bytes)
    ensures LeafPreimage(a, d) == Preimage(a, [0] + d) && NodePreimage(a, l, r) == Preimage(a, [1] + l + r)
    ensures LeafPreimage(a, d) != NodePreimage(a, l, r)
    ensures LeafPreimage(a, d) == LeafPreimage(a, l) ==> d == l
    ensures |l| == |l'| && NodePreimage(a, l, r) == NodePreimage(a, l', r') ==> l == l' && r == r'
  {
    assert LeafPreimage(a, d).bytes[0] == 0 && NodePreimage(a, l, r).bytes[0] == 1;
    assert LeafPreimage(a, d).bytes[1..] == d && LeafPreimage(a, l).bytes[1..] == l;
    if |l| == |l'| && NodePreimage(a, l, r) == NodePreimage(a, l', r') {
      var x, y := NodePreimage(a, l, r).bytes, NodePreimage(a, l', r').bytes;
      assert l == x[1..1 + |l|] == y[1..1 + |l'|] == l';
      assert r == x[1 + |l|..] == y[1 + |l'|..] == r';
    }
  }

  lemma TopInputsAgree(h: HashFunction, a: Algorithm, xs: seq<Bytes>, ys: seq<Bytes>, known: seq<Preimage>)
    requires xs != [] && ys != []
    requires RootOver(h, a, xs) == RootOver(h, a, ys)
    requires CollisionFree(h, known)
    requires Among(TreeInputs(h, a, xs), known) && Among(TreeInputs(h, a, ys), known)
    ensures TopInput(h, a, xs) == TopInput(h, a, ys)
  {
    TopInputHashesToRoot(h, a, xs);
    TopInputHashesToRoot(h, a, ys);
  }

  lemma {:induction false} TreeBindsDigests(
    h: HashFunction, a: Algorithm, xs: seq<Bytes>, ys: seq<Bytes>, known: seq<Preimage>)
    requires xs != [] && ys != []
    requires RootOver(h, a, xs) == RootOver(h, a, ys)
    requires CollisionFree(h, known)
    requires Among(TreeInputs(h, a, xs), known) && Among(TreeInputs(h, a, ys), known)
    ensures xs == ys
    decreases |xs|
  {
    TopInputsAgree(h, a, xs, ys, known);
    if |xs| == 1 || |ys| == 1 {
      SingleTree(h, a, xs, ys);
    } else {
      var j, k := Split(|xs|), Split(|ys|);
      TreeInputsOfParts(h, a, xs, known);
      TreeInputsOfParts(h, a, ys, known);
      ChildrenDetermined(h, a, xs, ys);
      TreeBindsDigests(h, a, xs[..j], ys[..k], known);
      TreeBindsDigests(h, a, xs[j..], ys[k..], known);
      assert xs == xs[..j] + xs[j..] && ys == ys[..k] + ys[k..];
    }
  }

  /** The root determines the whole list of digests, its length included. */
  lemma RootBindsList(h: HashFunction, a: Algorithm, xs: seq<Text>, ys: seq<Text>)
    requires MerkleRoot(h, a, xs).Some? && MerkleRoot(h, a, xs) == MerkleRoot(h, a, ys)
    requires CollisionFree(h, TreeInputs(h, a, DecodeAll(a, xs).value) + TreeInputs(h, a, DecodeAll(a, ys).value))
    ensures xs == ys
  {
    var ds, es := DecodeAll(a, xs).value, DecodeAll(a, ys).value;
    TreeBindsDigests(h, a, ds, es, TreeInputs(h, a, ds) + TreeInputs(h, a, es));
    forall i | 0 <= i < |xs|
      ensures xs[i] == ys[i]
    {
      DecodeDigestInjective(a, xs[i], ys[i]);
    }
  }

  lemma SingleTree(h: HashFunction, a: Algorithm, xs: seq<Bytes>, ys: seq<Bytes>)
    requires xs != [] && ys != [] && (|xs| == 1 || |ys| == 1)
    requires TopInput(h, a, xs) == TopInput(h, a, ys)
    ensures xs == ys
  {
    assert TopInput(h, a, xs).bytes[0] == if |xs| == 1 then 0 else 1;
    assert TopInput(h, a, ys).bytes[0] == if |ys| == 1 then 0 else 1;
    assert xs[0] == TopInput(h, a, xs).bytes[1..] == TopInput(h, a, ys).bytes[1..] == ys[0];
  }

  lemma ChildrenDetermined(h: HashFunction, a: Algorithm, xs: seq<Bytes>, ys: seq<Bytes>)
    requires |xs| > 1 && |ys| > 1
    requires TopInput(h, a, xs) == TopInput(h, a, ys)
    ensures 1 <= Split(|xs|) < |xs| && 1 <= Split(|ys|) < |ys|
    ensures RootOver(h, a, xs[..Split(|xs|)]) == RootOver(h, a, ys[..Split(|ys|)])
    ensures RootOver(h, a, xs[Split(|xs|)..]) == RootOver(h, a, ys[Split(|ys|)..])
  {
    var j, k := Split(|xs|), Split(|ys|);
    PreimagesApart(a, [], RootOver(h, a, xs[..j]), RootOver(h, a, xs[j..]), RootOver(h, a, ys[..k]),
      RootOver(h, a, ys[k..]));
  }

  function StepInput(a: Algorithm, below: Bytes, side: Side, sibling: Bytes): Preimage {
    if side == Left then NodePreimage(a, sibling, below) else NodePreimage(a, below, sibling)
  }

  /** Everything hashed on the way up a path. */
  function ClimbInputs(h: HashFunction, a: Algorithm, current: Bytes, path: seq<PathStep>): seq<Preimage>
    decreases path
  {
    if path == [] then []
    else
      match DecodeDigest(a, path[0].hash)
      case None => []
      case Some(sibling) =>
        [StepInput(a, current, path[0].side, sibling)]
        + ClimbInputs(h, a, Combine(h, a, current, path[0].side, sibling), path[1..])
  }

  lemma {:induction false} ClimbInputsSnoc(
    h: HashFunction, a: Algorithm, current: Bytes, path: seq<PathStep>, step: PathStep)
    requires Climb(h, a, current, path + [step]).Some?
    ensures Climb(h, a, current, path).Some? && DecodeDigest(a, step.hash).Some?
    ensures ClimbInputs(h, a, current, path + [step])
         == ClimbInputs(h, a, current, path)
            + [StepInput(a, Climb(h, a, current, path).value, step.side, DecodeDigest(a, step.hash).value)]
    decreases path
  {
    ClimbSnoc(h, a, current, path, step);
    if path == [] {
      assert path + [step] == [step];
      assert [step][1..] == [];
    } else {
      assert (path + [step])[1..] == path[1..] + [step];
      var sibling := DecodeDigest(a, path[0].hash);
      ClimbInputsSnoc(h, a, Combine(h, a, current, path[0].side, sibling.value), path[1..], step);
    }
  }

  lemma {:induction false} ClimbLength(h: HashFunction, a: Algorithm, current: Bytes, path: seq<PathStep>)
    requires |current| == DigestByteLength(a) && Climb(h, a, current, path).Some?
    ensures |Climb(h, a, current, path).value| == DigestByteLength(a)
    decreases path
  {
    if path != [] {
      ClimbLength(h, a, Combine(h, a, current, path[0].side, DecodeDigest(a, path[0].hash).value), path[1..]);
    }
  }

  /** The last input hashed on a path from a leaf digest: the leaf itself when the path is empty. */
  lemma PathTop(h: HashFunction, a: Algorithm, d: Bytes, path: seq<PathStep>, ds: seq<Bytes>, known: seq<Preimage>)
    returns (top: Preimage)
    requires ds != []
    requires Climb(h, a, LeafHash(h, a, d), path) == Some(RootOver(h, a, ds))
    requires CollisionFree(h, known) && LeafPreimage(a, d) in known
    requires Among(ClimbInputs(h, a, LeafHash(h, a, d), path), known) && Among(TreeInputs(h, a, ds), known)
    ensures top == TopInput(h, a, ds)
    ensures path == [] ==> top == LeafPreimage(a, d)
    ensures path != [] ==>
      var front, last := path[..|path| - 1], path[|path| - 1];
      && Climb(h, a, LeafHash(h, a, d), front).Some?
      && DecodeDigest(a, last.hash).Some?
      && top == StepInput(a, Climb(h, a, LeafHash(h, a, d), front).value, last.side, DecodeDigest(a, last.hash).value)
      && Among(ClimbInputs(h, a, LeafHash(h, a, d), front), known)
  {
    TopInputHashesToRoot(h, a, ds);
    if path == [] {
      top := LeafPreimage(a, d);
    } else {
      var front, last := path[..|path| - 1], path[|path| - 1];
      assert path == front + [last];
      ClimbSnoc(h, a, LeafHash(h, a, d), front, last);
      ClimbInputsSnoc(h, a, LeafHash(h, a, d), front, last);
      top := StepInput(a, Climb(h, a, LeafHash(h, a, d), front).value, last.side, DecodeDigest(a, last.hash).value);
      var inputs := ClimbInputs(h, a, LeafHash(h, a, d), path);
      assert inputs[|inputs| - 1] == top && top in inputs;
      assert Among(ClimbInputs(h, a, LeafHash(h, a, d), front), known) by {
        forall p | p in ClimbInputs(h, a, LeafHash(h, a, d), front)
          ensures p in known
        {
          assert p in inputs;
        }
      }
    }
  }

  /** One level down: the path below its last step climbs to the child on that step's side. */
  lemma PathDescends(h: HashFunction, a: Algorithm, d: Bytes, path: seq<PathStep>, ds: seq<Bytes>, known: seq<Preimage>)
    requires ds != []
    requires Climb(h, a, LeafHash(h, a, d), path) == Some(RootOver(h, a, ds))
    requires CollisionFree(h, known) && LeafPreimage(a, d) in known
    requires Among(ClimbInputs(h, a, LeafHash(h, a, d), path), known) && Among(TreeInputs(h, a, ds), known)
    ensures path == [] <==> |ds| == 1
    ensures path == [] ==> ds[0] == d
    ensures path != [] ==>
      var front, last, k := path[..|path| - 1], path[|path| - 1], Split(|ds|);
      && 1 <= k < |ds|
      && Among(ClimbInputs(h, a, LeafHash(h, a, d), front), known)
      && var left, right := RootOver(h, a, ds[..k]), RootOver(h, a, ds[k..]);
      && Climb(h, a, LeafHash(h, a, d), front) == Some(if last.side == Right then left else right)
      && last.hash == ToHex(if last.side == Right then right else left)
  {
    var top := PathTop(h, a, d, path, ds, known);
    assert top.bytes[0] == if |ds| == 1 then 0 else 1;
    assert top.bytes[0] == if path == [] then 0 else 1;
    if path == [] {
      assert ds[0] == top.bytes[1..] == d;
    } else {
      var front, last, k := path[..|path| - 1], path[|path| - 1], Split(|ds|);
      var left, right := RootOver(h, a, ds[..k]), RootOver(h, a, ds[k..]);
      var below, sibling := Climb(h, a, LeafHash(h, a, d), front).value, DecodeDigest(a, last.hash).value;
      ClimbLength(h, a, LeafHash(h, a, d), front);
      if last.side == Right {
        PreimagesApart(a, [], below, sibling, left, right);
      } else {
        PreimagesApart(a, [], sibling, below, left, right);
      }
      DecodeDigestInjective(a, last.hash, last.hash);
    }
  }

  /** The audit path of a leaf, unfolded at the top of the tree. */
  lemma PathOverTop(h: HashFunction, a: Algorithm, ds: seq<Bytes>, i: nat)
    requires |ds| > 1 && i < |ds|
    ensures 1 <= Split(|ds|) < |ds|
    ensures var k := Split(|ds|);
      PathOver(h, a, LeafHashes(h, a, ds), i) ==
        if i < k then
          PathOver(h, a, LeafHashes(h, a, ds[..k]), i)
          + [PathStep(Right, ToHex(RootOver(h, a, ds[k..])))]
        else
          PathOver(h, a, LeafHashes(h, a, ds[k..]), i - k)
          + [PathStep(Left, ToHex(RootOver(h, a, ds[..k])))]
  {
    LeafHashesOfParts(h, a, ds, Split(|ds|));
  }

  /** The half of the tree a last step on `side` leaves, and the half whose root it names. */
  function Half(ds: seq<Bytes>, side: Side): (half: seq<Bytes>)
    requires |ds| > 1
    ensures half != [] && |half| < |ds|
  {
    if side == Right then ds[..Split(|ds|)] else ds[Split(|ds|)..]
  }

  function Sibling(side: Side): Side {
    if side == Right then Left else Right
  }

  /** The audit path of a leaf is its path within its half, then the root of the other half. */
  lemma PathOverFromHalf(h: HashFunction, a: Algorithm, ds: seq<Bytes>, side: Side, j: nat, front: seq<PathStep>)
    returns (i: nat)
    requires |ds| > 1 && j < |Half(ds, side)| && front == PathOver(h, a, LeafHashes(h, a, Half(ds, side)), j)
    ensures i < |ds| && ds[i] == Half(ds, side)[j]
    ensures PathOver(h, a, LeafHashes(h, a, ds), i)
         == front + [PathStep(side, ToHex(RootOver(h, a, Half(ds, Sibling(side)))))]
  {
    i := if side == Right then j else Split(|ds|) + j;
    PathOverTop(h, a, ds, i);
  }

  /** A path that climbs from a digest to the root of a tree, with all that both hash known. */
  ghost predicate Ascends(
    h: HashFunction, a: Algorithm, d: Bytes, path: seq<PathStep>, ds: seq<Bytes>, known: seq<Preimage>) {
    && ds != []
    && Climb(h, a, LeafHash(h, a, d), path) == Some(RootOver(h, a, ds))
    && CollisionFree(h, known) && LeafPreimage(a, d) in known
    && Among(ClimbInputs(h, a, LeafHash(h, a, d), path), known) && Among(TreeInputs(h, a, ds), known)
  }

  /** Below the last step the path climbs within one half, and the last step names the other half. */
  lemma AscendsInHalf(
    h: HashFunction, a: Algorithm, d: Bytes, path: seq<PathStep>, ds: seq<Bytes>, known: seq<Preimage>)
    returns (front: seq<PathStep>, side: Side)
    requires Ascends(h, a, d, path, ds, known) && path != []
    ensures |front| < |path| && |ds| > 1
    ensures Ascends(h, a, d, front, Half(ds, side), known)
    ensures path == front + [PathStep(side, ToHex(RootOver(h, a, Half(ds, Sibling(side)))))]
  {
    PathDescends(h, a, d, path, ds, known);
    TreeInputsOfParts(h, a, ds, known);
    front, side := path[..|path| - 1], path[|path| - 1].side;
    assert path == front + [path[|path| - 1]];
    assert Half(ds, Right) == ds[..Split(|ds|)] && Half(ds, Left) == ds[Split(|ds|)..];
  }

  lemma AscendsNowhere(h: HashFunction, a: Algorithm, d: Bytes, ds: seq<Bytes>, known: seq<Preimage>)
    requires Ascends(h, a, d, [], ds, known)
    ensures ds == [d] && PathOver(h, a, LeafHashes(h, a, ds), 0) == []
  {
    PathDescends(h, a, d, [], ds, known);
  }

  lemma {:induction false} ClimbIsAuditPath(
    h: HashFunction, a: Algorithm, d: Bytes, path: seq<PathStep>, ds: seq<Bytes>, known: seq<Preimage>)
    returns (i: nat)
    requires Ascends(h, a, d, path, ds, known)
    ensures i < |ds| && ds[i] == d && path == PathOver(h, a, LeafHashes(h, a, ds), i)
    decreases |path|
  {
    if path == [] {
      AscendsNowhere(h, a, d, ds, known);
      i := 0;
    } else {
      var front, side := AscendsInHalf(h, a, d, path, ds, known);
      var j := ClimbIsAuditPath(h, a, d, front, Half(ds, side), known);
      i := PathOverFromHalf(h, a, ds, side, j, front);
    }
  }

  /** What verifying a path against the tree of a list of digests hashes, on both sides. */
  function ProofInputs(
    h: HashFunction, a: Algorithm, leaf: Bytes, path: seq<PathStep>, digests: seq<Text>): seq<Preimage>
    requires MerkleRoot(h, a, digests).Some?
  {
    [LeafPreimage(a, leaf)] + ClimbInputs(h, a, LeafHash(h, a, leaf), path)
      + TreeInputs(h, a, DecodeAll(a, digests).value)
  }

  /**
   * Soundness for any path whatever, its shape unchecked: a digest that climbs to the root
   * of a list is one of the list, and the path is that digest's audit path.
   */
  lemma ProofSoundness(h: HashFunction, a: Algorithm, leaf: Bytes, path: seq<PathStep>, digests: seq<Text>)
    returns (i: nat)
    requires MerkleRoot(h, a, digests).Some?
    requires Climb(h, a, LeafHash(h, a, leaf), path) == MerkleRoot(h, a, digests)
    requires CollisionFree(h, ProofInputs(h, a, leaf, path, digests))
    ensures i < |digests| && digests[i] == ToHex(leaf) && AuditPath(h, a, digests, i) == Some(path)
    ensures SidesOf(path) == ExpectedSides(i, |digests|)
  {
    var ds := DecodeAll(a, digests).value;
    i := ClimbIsAuditPath(h, a, leaf, path, ds, ProofInputs(h, a, leaf, path, digests));
    DecodeDigestInjective(a, digests[i], digests[i]);
    PathOverSides(h, a, LeafHashes(h, a, ds), i);
  }
}
