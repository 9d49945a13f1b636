/**
 * Hash algorithms, hexadecimal digests, and what it means for the hash to have been
 * free of collisions on the inputs a computation actually hashed.
 */
module Hashing {
  import opened Wrappers
  import opened Unicode

  datatype Algorithm = Sha256 | Sha384 | Sha512

  function DigestByteLength(a: Algorithm): nat {
    match a
    case Sha256 => 32
    case Sha384 => 48
    case Sha512 => 64
  }

  function AlgorithmNamed(name: Text): Option<Algorithm> {
    if name == Ascii("SHA-256") then Some(Sha256)
    else if name == Ascii("SHA-384") then Some(Sha384)
    else if name == Ascii("SHA-512") then Some(Sha512)
    else None
  }

  /** What is handed to the hash: the bytes, and the algorithm that hashes them. */
  datatype Preimage = Preimage(algorithm: Algorithm, bytes: Bytes)

  function Zeros(n: nat): (z: Bytes)
    ensures |z| == n
  {
    seq(n, _ => 0)
  }

  /** Any function with digests of the algorithm's length; nothing else is assumed of it. */
  type HashFunction = h: Preimage -> Bytes | forall p :: |h(p)| == DigestByteLength(p.algorithm)
    witness (p: Preimage) => Zeros(DigestByteLength(p.algorithm))

  // ---------------------------------------------------------------- collisions

  /** The hash told apart every two of these inputs. A finite statement about one run. */
  ghost predicate CollisionFree(h: HashFunction, ps: seq<Preimage>) {
    forall p, q | p in ps && q in ps && h(p) == h(q) :: p == q
  }

  function FindPartner(h: HashFunction, p: Preimage, qs: seq<Preimage>): (r: Option<Preimage>)
    ensures r.Some? ==> r.value in qs && r.value != p && h(r.value) == h(p)
    ensures r.None? ==> forall q | q in qs && h(q) == h(p) :: q == p
  {
    if qs == [] then None
    else if qs[0] != p && h(qs[0]) == h(p) then Some(qs[0])
    else FindPartner(h, p, qs[1..])
  }

  /**
   * The extractor: searches the inputs a run hashed for two that collide. Every result
   * below that assumes `CollisionFree` fails only together with a pair found here.
   */
  function FindCollision(h: HashFunction, ps: seq<Preimage>): (r: Option<(Preimage, Preimage)>)
    ensures r.Some? ==> r.value.0 in ps && r.value.1 in ps && r.value.0 != r.value.1 && h(r.value.0) == h(r.value.1)
    ensures r.None? <==> CollisionFree(h, ps)
  {
    if ps == [] then None
    else
      match FindPartner(h, ps[0], ps[1..])
      case Some(q) => Some((ps[0], q))
      case None => FindCollision(h, ps[1..])
  }

  /** The inputs of one computation are among those of a run. */
  ghost predicate Among(ps: seq<Preimage>, known: seq<Preimage>) {
    forall p | p in ps :: p in known
  }

  function Flatten(parts: seq<Bytes>): Bytes {
    if parts == [] then [] else parts[0] + Flatten(parts[1..])
  }

  lemma {:induction false} FlattenSnoc(parts: seq<Bytes>, part: Bytes)
    ensures Flatten(parts + [part]) == Flatten(parts) + part
  {
    if parts == [] {
      assert parts + [part] == [part];
      assert Flatten([part][1..]) == [];
    } else {
      assert (parts + [part])[1..] == parts[1..] + [part];
      FlattenSnoc(parts[1..], part);
    }
  }

  /** Feeds the parts to a hash object one after another. */
  method DigestBytes(h: HashFunction, a: Algorithm, parts: seq<Bytes>) returns (digest: Bytes)
    ensures digest == h(Preimage(a, Flatten(parts)))
    ensures |digest| == DigestByteLength(a)
  {
    var fed: Bytes := [];
    for i := 0 to |parts|
      invariant fed == Flatten(parts[..i])
    {
      assert parts[..i + 1] == parts[..i] + [parts[i]];
      FlattenSnoc(parts[..i], parts[i]);
      fed := fed + parts[i];
    }
    assert parts[..|parts|] == parts;
    digest := h(Preimage(a, fed));
  }

  // ---------------------------------------------------------------- hexadecimal

  predicate HexUnit(c: CodeUnit) {
    48 <= c <= 57 || 97 <= c <= 102
  }

  /** Lower-case hexadecimal, a positive even number of digits. */
  predicate IsHexDigest(t: Text) {
    t != [] && |t| % 2 == 0 && forall i | 0 <= i < |t| :: HexUnit(t[i])
  }

  function HexValue(c: CodeUnit): nat
    requires HexUnit(c)
  {
    if c <= 57 then c - 48 else c - 87
  }

  function ToHex(bytes: Bytes): (t: Text)
    ensures |t| == 2 * |bytes|
    ensures forall i | 0 <= i < |t| :: HexUnit(t[i])
  {
    if bytes == [] then []
    else [HexOf(bytes[0] / 16), HexOf(bytes[0] % 16)] + ToHex(bytes[1..])
  }

  function FromHex(t: Text): (bytes: Bytes)
    requires |t| % 2 == 0 && forall i | 0 <= i < |t| :: HexUnit(t[i])
    ensures |bytes| == |t| / 2
  {
    if t == [] then [] else [HexValue(t[0]) * 16 + HexValue(t[1])] + FromHex(t[2..])
  }

  lemma {:induction false} HexRoundTrip(bytes: Bytes)
    ensures FromHex(ToHex(bytes)) == bytes
  {
    if bytes != [] {
      assert ToHex(bytes)[2..] == ToHex(bytes[1..]);
      HexRoundTrip(bytes[1..]);
    }
  }

  lemma HexUnitRoundTrip(c: CodeUnit, d: CodeUnit)
    requires HexUnit(c) && HexUnit(d)
    ensures var byte := HexValue(c) * 16 + HexValue(d); HexOf(byte / 16) == c && HexOf(byte % 16) == d
  {
  }

  lemma {:induction false} HexDecodeRoundTrip(t: Text)
    requires |t| % 2 == 0 && forall i | 0 <= i < |t| :: HexUnit(t[i])
    ensures ToHex(FromHex(t)) == t
  {
    if t != [] {
      HexDecodeRoundTrip(t[2..]);
      assert FromHex(t)[1..] == FromHex(t[2..]);
      HexUnitRoundTrip(t[0], t[1]);
      assert t == [t[0], t[1]] + t[2..];
    }
  }

  /** Equality of decoded digests, which no ill-formed text has with anything. */
  predicate DigestsEqual(left: Text, right: Text) {
    && IsHexDigest(left)
    && IsHexDigest(right)
    && |FromHex(left)| == |FromHex(right)|
    && FromHex(left) == FromHex(right)
  }

  /** The accepted encoding is unique, so comparing bytes compares texts. */
  lemma DigestsEqualIsTextEquality(left: Text, right: Text)
    ensures DigestsEqual(left, right) <==> IsHexDigest(left) && left == right
  {
    if DigestsEqual(left, right) {
      HexDecodeRoundTrip(left);
      HexDecodeRoundTrip(right);
    }
  }

  /** A hexadecimal digest of exactly the algorithm's length. */
  function DecodeDigest(a: Algorithm, hex: Text): (d: Option<Bytes>)
    ensures d.Some? ==> |d.value| == DigestByteLength(a)
  {
    if !IsHexDigest(hex) || |hex| != DigestByteLength(a) * 2 then None else Some(FromHex(hex))
  }

  lemma DecodeOfToHex(a: Algorithm, bytes: Bytes)
    requires |bytes| == DigestByteLength(a)
    ensures DecodeDigest(a, ToHex(bytes)) == Some(bytes)
  {
    HexRoundTrip(bytes);
  }

  lemma DecodeDigestInjective(a: Algorithm, hex: Text, hex': Text)
    requires DecodeDigest(a, hex).Some?
    requires DecodeDigest(a, hex) == DecodeDigest(a, hex')
    ensures hex == hex' == ToHex(DecodeDigest(a, hex).value)
  {
    HexDecodeRoundTrip(hex);
    HexDecodeRoundTrip(hex');
  }

  // ---------------------------------------------------------------- names and lengths

  predicate HashNamed(name: Text) {
    name == Ascii("SHA-256") || name == Ascii("SHA-384") || name == Ascii("SHA-512")
  }

  /** How many hexadecimal digits a named algorithm produces. */
  function HexLength(name: Text): nat {
    if name == Ascii("SHA-256") then 64 else if name == Ascii("SHA-384") then 96 else 128
  }

  predicate LowerHex(t: Text) {
    t != [] && |t| % 2 == 0 && forall c | c in t :: 48 <= c <= 57 || 97 <= c <= 102
  }

  lemma LowerHexIs(t: Text)
    ensures IsHexDigest(t) <==> LowerHex(t)
  {
    if LowerHex(t) {
      forall i | 0 <= i < |t|
        ensures HexUnit(t[i])
      {
        assert t[i] in t;
      }
    }
  }

  lemma AlgorithmNames(name: Text)
    ensures AlgorithmNamed(name).Some? <==> HashNamed(name)
    ensures AlgorithmNamed(name).Some? ==> DigestByteLength(AlgorithmNamed(name).value) * 2 == HexLength(name)
  {
    assert |Ascii("SHA-256")| == 7 && Ascii("SHA-256")[4] == 50;
    assert |Ascii("SHA-384")| == 7 && Ascii("SHA-384")[4] == 51;
    assert |Ascii("SHA-512")| == 7 && Ascii("SHA-512")[4] == 53;
  }
}
