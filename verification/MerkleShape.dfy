/** What the side pattern of an audit path says about a position, and a second description of the tree. */
module MerkleShape {
  import opened Wrappers
  import opened Unicode
  import opened Hashing
  import opened Merkle

  // ---------------------------------------------------------------- positions

  lemma {:induction false} SidesNotBelow(i: nat, j: nat, n: nat, below: seq<Side>)
    requires i < n && j < n
    requires ExpectedSides(j, n) == below + ExpectedSides(i, n)
    ensures i == j && below == []
    decreases n
  {
    if n > 1 {
      var k := Split(n);
      var si, sj := ExpectedSides(i, n), ExpectedSides(j, n);
      assert si[|si| - 1] == sj[|sj| - 1];
      var ti, tj := si[..|si| - 1], sj[..|sj| - 1];
      assert tj == below + ti;
      if i < k {
        assert ti == ExpectedSides(i, k) && tj == ExpectedSides(j, k);
        SidesNotBelow(i, j, k, below);
      } else {
        assert ti == ExpectedSides(i - k, n - k) && tj == ExpectedSides(j - k, n - k);
        SidesNotBelow(i - k, j - k, n - k, below);
      }
    }
  }

  /**
   * Read from the root down, side patterns are a prefix-free code: the pattern of one
   * position never begins with the pattern of another.
   */
  lemma SidesArePrefixFree(i: nat, j: nat, n: nat)
    requires i < n && j < n && i != j
    ensures |ExpectedSides(i, n)| <= |ExpectedSides(j, n)| ==>
      ExpectedSides(j, n)[|ExpectedSides(j, n)| - |ExpectedSides(i, n)|..] != ExpectedSides(i, n)
  {
    var si, sj := ExpectedSides(i, n), ExpectedSides(j, n);
    if |si| <= |sj| && sj[|sj| - |si|..] == si {
      var below := sj[..|sj| - |si|];
      assert sj == below + si;
      SidesNotBelow(i, j, n, below);
    }
  }

  function Ones(i: nat): nat {
    if i == 0 then 0 else i % 2 + Ones(i / 2)
  }

  function LeftSteps(sides: seq<Side>): nat {
    if sides == [] then 0 else (if sides[|sides| - 1] == Left then 1 else 0) + LeftSteps(sides[..|sides| - 1])
  }

  /** A count of positions that adds their bits. */
  ghost predicate AddsBits(f: nat -> nat, j: nat, b: nat) {
    b < 2 ==> f(2 * j + b) == b + f(j)
  }

  lemma BitsOf(i: nat, j: nat, b: nat)
    requires i == 2 * j + b && b < 2
    ensures i % 2 == b && i / 2 == j
  {
  }

  lemma OnesOfHalf(i: nat, j: nat, b: nat)
    requires i == 2 * j + b && b < 2
    ensures Ones(i) == b + Ones(j)
  {
    BitsOf(i, j, b);
  }

  lemma AddsBitsAt(f: nat -> nat, j: nat, b: nat, i: nat, more: nat, fewer: nat)
    requires i == 2 * j + b && f(i) == more && f(j) == fewer && more == b + fewer
    ensures AddsBits(f, j, b)
  {
  }

  lemma OnesAddsBits(j: nat, b: nat, i: nat)
    requires b < 2 && i == 2 * j + b
    ensures AddsBits(Ones, j, b)
  {
    OnesOfHalf(i, j, b);
    AddsBitsAt(Ones, j, b, i, Ones(i), Ones(j));
  }

  lemma {:induction false} TopBitRaises(f: nat -> nat, k: nat, i: nat)
    requires f(0) == 0 && forall j: nat, b: nat :: AddsBits(f, j, b)
    requires PowerOfTwo(k) && k <= i < 2 * k
    ensures f(i) == 1 + f(i - k)
  {
    var j := i / 2;
    var b := i - 2 * j;
    assert AddsBits(f, j, b);
    if k > 1 {
      TopBitRaises(f, k / 2, j);
      assert AddsBits(f, j - k / 2, b);
      assert 2 * (j - k / 2) + b == i - k;
    }
  }

  lemma LeftStepsOf(s: seq<Side>, last: Side)
    ensures LeftSteps(s + [last]) == LeftSteps(s) + if last == Left then 1 else 0
  {
    assert (s + [last])[..|s|] == s;
  }

  /** The left steps of a position's path, a count for every position in every tree. */
  function LeftCount(i: nat, n: nat): nat {
    if n == 0 then 0 else LeftSteps(ExpectedSides(i, n))
  }

  /** A count that goes down the tree with a position and goes up by one at each left step. */
  ghost predicate Descends(g: (nat, nat) -> nat, i: nat, n: nat) {
    && (n == 1 ==> g(i, n) == 0)
    && (n > 1 ==> g(i, n) == if i < Split(n) then g(i, Split(n)) else g(i - Split(n), n - Split(n)) + 1)
  }

  lemma LeftCountRight(i: nat, n: nat)
    requires n > 1 && i < Split(n)
    ensures LeftCount(i, n) == LeftCount(i, Split(n))
  {
    LeftStepsOf(ExpectedSides(i, Split(n)), Right);
  }

  lemma LeftCountLeft(i: nat, n: nat)
    requires n > 1 && Split(n) <= i
    ensures LeftCount(i, n) == LeftCount(i - Split(n), n - Split(n)) + 1
  {
    LeftStepsOf(ExpectedSides(i - Split(n), n - Split(n)), Left);
  }

  lemma LeftCountDescends(i: nat, n: nat)
    ensures Descends(LeftCount, i, n)
  {
    if n > 1 && i < Split(n) {
      LeftCountRight(i, n);
    } else if n > 1 {
      LeftCountLeft(i, n);
    }
  }

  /** A count of positions that a top bit raises by one. */
  ghost predicate TopBitCounts(f: nat -> nat, i: nat, k: nat) {
    PowerOfTwo(k) && k <= i < 2 * k ==> f(i) == 1 + f(i - k)
  }

  lemma OnesTopBit(i: nat, k: nat)
    ensures TopBitCounts(Ones, i, k)
  {
    if PowerOfTwo(k) && k <= i < 2 * k {
      forall j: nat, b: nat
        ensures AddsBits(Ones, j, b)
      {
        if b < 2 {
          OnesAddsBits(j, b, 2 * j + b);
        }
      }
      TopBitRaises(Ones, k, i);
    }
  }

  lemma SplitCounts(f: nat -> nat, i: nat, n: nat)
    requires n > 1 && Split(n) <= i < n && TopBitCounts(f, i, Split(n))
    ensures f(i) == 1 + f(i - Split(n))
  {
    SplitIs(n);
  }

  lemma {:induction false} CountsAgree(g: (nat, nat) -> nat, f: nat -> nat, i: nat, n: nat)
    requires forall j: nat, m: nat :: Descends(g, j, m)
    requires f(0) == 0 && forall j: nat, k: nat :: TopBitCounts(f, j, k)
    requires i < n
    ensures g(i, n) == f(i)
    decreases n
  {
    assert Descends(g, i, n);
    if n > 1 {
      if i < Split(n) {
        CountsAgree(g, f, i, Split(n));
      } else {
        CountsAgree(g, f, i - Split(n), n - Split(n));
        assert TopBitCounts(f, i, Split(n));
        SplitCounts(f, i, n);
      }
    }
  }

  /** The left steps of a position's path are the one bits of its index, whatever the size of the tree. */
  lemma LeftStepsAreOneBits(i: nat, n: nat)
    requires i < n
    ensures LeftSteps(ExpectedSides(i, n)) == Ones(i)
  {
    forall j: nat, m: nat
      ensures Descends(LeftCount, j, m)
    {
      LeftCountDescends(j, m);
    }
    forall j: nat, k: nat
      ensures TopBitCounts(Ones, j, k)
    {
      OnesTopBit(j, k);
    }
    CountsAgree(LeftCount, Ones, i, n);
  }

  function Pow2(e: nat): nat {
    if e == 0 then 1 else 2 * Pow2(e - 1)
  }

  lemma {:induction false} PowerAtMost(k: nat, e: nat)
    requires PowerOfTwo(k) && k < Pow2(e)
    ensures e > 0 && k <= Pow2(e - 1)
  {
    if k > 1 {
      PowerAtMost(k / 2, e - 1);
    }
  }

  /** A path is no longer than the height of the tree. */
  lemma {:induction false} PathLength(i: nat, n: nat, height: nat)
    requires i < n <= Pow2(height)
    ensures |ExpectedSides(i, n)| <= height
    decreases n
  {
    if n > 1 {
      SplitIs(n);
      var k := Split(n);
      PowerAtMost(k, height);
      if i < k {
        PathLength(i, k, height - 1);
      } else {
        PathLength(i - k, n - k, height - 1);
      }
    }
  }

  /** With the shape checked too, soundness pins the position. */
  lemma ProofPinsPosition(
    h: HashFunction, a: Algorithm, leaf: Bytes, path: seq<PathStep>, digests: seq<Text>, index: nat)
    requires MerkleRoot(h, a, digests).Some? && index < |digests|
    requires Climb(h, a, LeafHash(h, a, leaf), path) == MerkleRoot(h, a, digests)
    requires SidesOf(path) == ExpectedSides(index, |digests|)
    requires CollisionFree(h, ProofInputs(h, a, leaf, path, digests))
    ensures digests[index] == ToHex(leaf) && AuditPath(h, a, digests, index) == Some(path)
  {
    var i := ProofSoundness(h, a, leaf, path, digests);
    assert ExpectedSides(index, |digests|) == [] + ExpectedSides(i, |digests|);
    SidesNotBelow(i, index, |digests|, []);
  }

  /** A path from a digest to a node, with all that it hashes known. */
  ghost predicate ClimbsTo(
    h: HashFunction, a: Algorithm, d: Bytes, path: seq<PathStep>, node: Bytes, known: seq<Preimage>) {
    && Climb(h, a, LeafHash(h, a, d), path) == Some(node)
    && LeafPreimage(a, d) in known
    && Among(ClimbInputs(h, a, LeafHash(h, a, d), path), known)
  }

  /** The last step of a climb: the node below it and its sibling, which were hashed together. */
  lemma LastStep(
    h: HashFunction, a: Algorithm, d: Bytes, path: seq<PathStep>, node: Bytes, known: seq<Preimage>)
    returns (front: seq<PathStep>, last: PathStep, below: Bytes, sibling: Bytes)
    requires ClimbsTo(h, a, d, path, node, known) && path != []
    ensures path == front + [last] && ClimbsTo(h, a, d, front, below, known)
    ensures DecodeDigest(a, last.hash) == Some(sibling) && |below| == |sibling| == DigestByteLength(a)
    ensures StepInput(a, below, last.side, sibling) in known && node == h(StepInput(a, below, last.side, sibling))
    ensures SidesOf(path) == SidesOf(front) + [last.side]
  {
    var start := LeafHash(h, a, d);
    front, last := path[..|path| - 1], path[|path| - 1];
    assert path == front + [last];
    ClimbSnoc(h, a, start, front, last);
    ClimbInputsSnoc(h, a, start, front, last);
    below, sibling := Climb(h, a, start, front).value, DecodeDigest(a, last.hash).value;
    ClimbLength(h, a, start, front);
    var inputs := ClimbInputs(h, a, start, path);
    assert inputs[|inputs| - 1] == StepInput(a, below, last.side, sibling);
    forall p | p in ClimbInputs(h, a, start, front)
      ensures p in known
    {
      assert p in inputs;
    }
  }

  lemma StepDetermined(a: Algorithm, side: Side, b: Bytes, s: Bytes, b': Bytes, s': Bytes)
    requires |b| == |s| == |b'| == |s'| && StepInput(a, b, side, s) == StepInput(a, b', side, s')
    ensures b == b' && s == s'
  {
    if side == Left {
      PreimagesApart(a, [], s, b, s', b');
    } else {
      PreimagesApart(a, [], b, s, b', s');
    }
  }

  /** Two climbs that meet in a node with the same last side agree one step below it. */
  lemma StepsAgree(
    h: HashFunction, a: Algorithm, known: seq<Preimage>,
    last: PathStep, b: Bytes, s: Bytes, last': PathStep, b': Bytes, s': Bytes)
    requires CollisionFree(h, known) && last.side == last'.side
    requires |b| == |s| == |b'| == |s'|
    requires DecodeDigest(a, last.hash) == Some(s) && DecodeDigest(a, last'.hash) == Some(s')
    requires StepInput(a, b, last.side, s) in known && StepInput(a, b', last'.side, s') in known
    requires h(StepInput(a, b, last.side, s)) == h(StepInput(a, b', last'.side, s'))
    ensures b == b' && last == last'
  {
    StepDetermined(a, last.side, b, s, b', s');
    DecodeDigestInjective(a, last.hash, last'.hash);
  }

  lemma SameEnd(sides: seq<Side>, last: Side, sides': seq<Side>, last': Side)
    requires sides + [last] == sides' + [last']
    ensures sides == sides' && last == last'
  {
    var all := sides + [last];
    assert |sides| == |sides'|;
    assert sides == all[..|sides|] == sides';
    assert last == all[|sides|] == last';
  }

  /** Two climbs with the same sides to the same node start from one digest and follow one path. */
  lemma {:induction false} ClimbsAgree(
    h: HashFunction, a: Algorithm, d: Bytes, path: seq<PathStep>, d': Bytes, path': seq<PathStep>,
    node: Bytes, known: seq<Preimage>)
    requires SidesOf(path) == SidesOf(path') && CollisionFree(h, known)
    requires ClimbsTo(h, a, d, path, node, known) && ClimbsTo(h, a, d', path', node, known)
    ensures d == d' && path == path'
    decreases |path|
  {
    if path == [] {
      PreimagesApart(a, d, d', [], [], []);
    } else {
      var front, last, b, s := LastStep(h, a, d, path, node, known);
      var front', last', b', s' := LastStep(h, a, d', path', node, known);
      SameEnd(SidesOf(front), last.side, SidesOf(front'), last'.side);
      StepsAgree(h, a, known, last, b, s, last', b', s');
      ClimbsAgree(h, a, d, front, d', front', b, known);
    }
  }

  // ---------------------------------------------------------------- level by level

  /** The level above: neighbours are hashed in pairs behind a one, and an odd last node is promoted unchanged. */
  function LevelAbove(h: HashFunction, a: Algorithm, nodes: seq<Bytes>): (above: seq<Bytes>)
    ensures |above| == (|nodes| + 1) / 2
  {
    if |nodes| <= 1 then nodes
    else [h(Preimage(a, [1] + nodes[0] + nodes[1]))] + LevelAbove(h, a, nodes[2..])
  }

  function BottomUpRoot(h: HashFunction, a: Algorithm, nodes: seq<Bytes>): Bytes
    requires nodes != []
    decreases |nodes|
  {
    if |nodes| == 1 then nodes[0] else BottomUpRoot(h, a, LevelAbove(h, a, nodes))
  }

  lemma {:induction false} LevelOfConcat(h: HashFunction, a: Algorithm, left: seq<Bytes>, right: seq<Bytes>)
    requires |left| % 2 == 0
    ensures LevelAbove(h, a, left + right) == LevelAbove(h, a, left) + LevelAbove(h, a, right)
    decreases |left|
  {
    if left == [] {
      assert left + right == right;
    } else {
      assert (left + right)[2..] == left[2..] + right;
      LevelOfConcat(h, a, left[2..], right);
    }
  }

  lemma TreeHashOfHalves(h: HashFunction, a: Algorithm, nodes: seq<Bytes>, left: seq<Bytes>, right: seq<Bytes>)
    requires left != [] && right != [] && nodes == left + right && |left| == Split(|nodes|)
    ensures TreeHash(h, a, nodes) == NodeHash(h, a, TreeHash(h, a, left), TreeHash(h, a, right))
  {
    assert nodes[..|left|] == left && nodes[|left|..] == right;
  }

  lemma LevelOfTwo(h: HashFunction, a: Algorithm, nodes: seq<Bytes>)
    requires |nodes| == 2
    ensures TreeHash(h, a, nodes) == TreeHash(h, a, LevelAbove(h, a, nodes))
  {
    assert LevelAbove(h, a, nodes[2..]) == [];
    TreeHashOfHalves(h, a, nodes, [nodes[0]], [nodes[1]]);
  }

  /** The level above splits where the level does. */
  lemma LevelSplits(h: HashFunction, a: Algorithm, nodes: seq<Bytes>) returns (left: seq<Bytes>, right: seq<Bytes>)
    requires |nodes| > 2
    ensures nodes == left + right && |left| == Split(|nodes|) && 0 < |left| < |nodes|
    ensures LevelAbove(h, a, nodes) == LevelAbove(h, a, left) + LevelAbove(h, a, right)
    ensures |LevelAbove(h, a, left)| == Split(|LevelAbove(h, a, nodes)|)
    ensures LevelAbove(h, a, left) != [] && LevelAbove(h, a, right) != []
  {
    left, right := nodes[..Split(|nodes|)], nodes[Split(|nodes|)..];
    SplitHalves(|nodes|);
    LevelOfConcat(h, a, left, right);
  }

  /** One level up, the tree has the same root. */
  lemma {:induction false} LevelKeepsRoot(h: HashFunction, a: Algorithm, nodes: seq<Bytes>)
    requires nodes != []
    ensures TreeHash(h, a, nodes) == TreeHash(h, a, LevelAbove(h, a, nodes))
    decreases |nodes|
  {
    if |nodes| == 2 {
      LevelOfTwo(h, a, nodes);
    } else if |nodes| > 2 {
      var left, right := LevelSplits(h, a, nodes);
      LevelKeepsRoot(h, a, left);
      LevelKeepsRoot(h, a, right);
      TreeHashOfHalves(h, a, nodes, left, right);
      TreeHashOfHalves(h, a, LevelAbove(h, a, nodes), LevelAbove(h, a, left), LevelAbove(h, a, right));
    }
  }

  /**
   * The two descriptions of the tree agree: splitting at the largest smaller power of two
   * from the top, and pairing level by level from the bottom.
   */
  lemma {:induction false} TwoTreesAgree(h: HashFunction, a: Algorithm, nodes: seq<Bytes>)
    requires nodes != []
    ensures TreeHash(h, a, nodes) == BottomUpRoot(h, a, nodes)
    decreases |nodes|
  {
    if |nodes| > 1 {
      LevelKeepsRoot(h, a, nodes);
      TwoTreesAgree(h, a, LevelAbove(h, a, nodes));
    }
  }

  // ---------------------------------------------------------------- the bytes

  /** The leaves of the tree, byte for byte: a zero in front of each digest. */
  function LeafLevel(h: HashFunction, a: Algorithm, digests: seq<Bytes>): (leaves: seq<Bytes>)
    ensures |leaves| == |digests|
  {
    if digests == [] then [] else [h(Preimage(a, [0] + digests[0]))] + LeafLevel(h, a, digests[1..])
  }

  lemma {:induction false} LeafLevelIs(h: HashFunction, a: Algorithm, digests: seq<Bytes>)
    ensures LeafHashes(h, a, digests) == LeafLevel(h, a, digests)
  {
    if digests != [] {
      LeafLevelIs(h, a, digests[1..]);
      assert LeafHashes(h, a, digests) == [LeafHash(h, a, digests[0])] + LeafHashes(h, a, digests[1..]);
    }
  }

  /** The root of any list, computed level by level from the bytes of its leaves. */
  lemma RootIsBottomUp(h: HashFunction, a: Algorithm, digests: seq<Text>)
    ensures MerkleRoot(h, a, digests).Some? <==> digests != [] && DecodeAll(a, digests).Some?
    ensures MerkleRoot(h, a, digests).Some? ==>
      MerkleRoot(h, a, digests) == Some(BottomUpRoot(h, a, LeafLevel(h, a, DecodeAll(a, digests).value)))
  {
    if MerkleRoot(h, a, digests).Some? {
      LeafLevelIs(h, a, DecodeAll(a, digests).value);
      TwoTreesAgree(h, a, LeafHashes(h, a, DecodeAll(a, digests).value));
    }
  }

  /** One leaf, two and three, written out. */
  lemma SmallRoots(h: HashFunction, a: Algorithm, d: Bytes, e: Bytes, f: Bytes)
    ensures var x, y, z := h(Preimage(a, [0] + d)), h(Preimage(a, [0] + e)), h(Preimage(a, [0] + f));
      && RootOver(h, a, [d]) == x
      && RootOver(h, a, [d, e]) == h(Preimage(a, [1] + x + y))
      && RootOver(h, a, [d, e, f]) == h(Preimage(a, [1] + h(Preimage(a, [1] + x + y)) + z))
  {
    var x, y, z := h(Preimage(a, [0] + d)), h(Preimage(a, [0] + e)), h(Preimage(a, [0] + f));
    assert LeafHashes(h, a, [d]) == [x] && LeafHashes(h, a, [d, e]) == [x, y];
    assert LeafHashes(h, a, [d, e, f]) == [x, y, z];
    LevelTwo(h, a, x, y);
    LevelThree(h, a, x, y, z);
    TwoTreesAgree(h, a, [x, y]);
    TwoTreesAgree(h, a, [x, y, z]);
    LevelTwo(h, a, h(Preimage(a, [1] + x + y)), z);
  }

  lemma LevelTwo(h: HashFunction, a: Algorithm, x: Bytes, y: Bytes)
    ensures LevelAbove(h, a, [x, y]) == [h(Preimage(a, [1] + x + y))]
    ensures BottomUpRoot(h, a, [x, y]) == h(Preimage(a, [1] + x + y))
  {
    assert [x, y][2..] == [];
  }

  lemma LevelThree(h: HashFunction, a: Algorithm, x: Bytes, y: Bytes, z: Bytes)
    ensures LevelAbove(h, a, [x, y, z]) == [h(Preimage(a, [1] + x + y)), z]
    ensures BottomUpRoot(h, a, [x, y, z]) == BottomUpRoot(h, a, [h(Preimage(a, [1] + x + y)), z])
  {
    assert [x, y, z][2..] == [z];
  }

  /** One step up a path, on each side, byte for byte; a sibling that is no digest ends the climb. */
  lemma ClimbOneStep(h: HashFunction, a: Algorithm, current: Bytes, side: Side, sibling: Text, rest: seq<PathStep>)
    ensures var path := [PathStep(side, sibling)] + rest;
      var s := DecodeDigest(a, sibling);
      && (s.None? ==> Climb(h, a, current, path).None?)
      && (s.Some? && side == Left ==>
            Climb(h, a, current, path) == Climb(h, a, h(Preimage(a, [1] + s.value + current)), rest))
      && (s.Some? && side == Right ==>
            Climb(h, a, current, path) == Climb(h, a, h(Preimage(a, [1] + current + s.value)), rest))
    ensures Climb(h, a, current, []) == Some(current)
    ensures LeafHash(h, a, current) == h(Preimage(a, [0] + current))
  {
    assert ([PathStep(side, sibling)] + rest)[1..] == rest;
  }

  /** When an audit path exists, and when the program throws instead. */
  lemma AuditPathExists(h: HashFunction, a: Algorithm, digests: seq<Text>, index: int)
    ensures AuditPath(h, a, digests, index).Some? <==>
      0 <= index < |digests| && forall d | d in digests :: DecodeDigest(a, d).Some?
  {
    if DecodeAll(a, digests).Some? {
      forall d | d in digests
        ensures DecodeDigest(a, d).Some?
      {
        var i :| 0 <= i < |digests| && digests[i] == d;
      }
    }
  }

  /** A digest is written with two lower-case digits a byte, the high half first, and only so. */
  lemma {:induction false} HexIsDigits(bytes: Bytes, i: nat)
    requires i < |bytes|
    ensures ToHex(bytes)[2 * i] == Ascii("0123456789abcdef")[bytes[i] / 16]
    ensures ToHex(bytes)[2 * i + 1] == Ascii("0123456789abcdef")[bytes[i] % 16]
  {
    if i == 0 {
      DigitIs(bytes[0] / 16);
      DigitIs(bytes[0] % 16);
    } else {
      HexIsDigits(bytes[1..], i - 1);
      assert ToHex(bytes)[2..] == ToHex(bytes[1..]);
    }
  }

  lemma DigitIs(d: nat)
    requires d < 16
    ensures HexOf(d) == Ascii("0123456789abcdef")[d]
  {
  }

  /** The digests of an algorithm, as texts: what a hash of its length is written as. */
  lemma DigestTexts(a: Algorithm, t: Text)
    ensures DecodeDigest(a, t).Some? <==> exists bytes: Bytes :: |bytes| == DigestByteLength(a) && ToHex(bytes) == t
    ensures IsHexDigest(t) <==> exists bytes: Bytes :: bytes != [] && ToHex(bytes) == t
  {
    if IsHexDigest(t) {
      HexDecodeRoundTrip(t);
      assert FromHex(t) != [] && ToHex(FromHex(t)) == t;
    }
    if bytes: Bytes :| |bytes| == DigestByteLength(a) && ToHex(bytes) == t {
      HexRoundTrip(bytes);
    }
  }
}
