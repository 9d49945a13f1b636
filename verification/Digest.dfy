/** Event digests: what is hashed, how it is read back, and sealing. */
module Digest {
  import opened Wrappers
  import opened Unicode
  import opened Json
  import opened Canonical
  import opened Hashing

  const INTEGRITY := Ascii("integrity")
  const HASH := Ascii("hash")
  const SIGNATURE := Ascii("signature")
  const HASH_ALGORITHM := Ascii("hashAlgorithm")
  const CANONICALIZATION := Ascii("canonicalization")
  const PREVIOUS_HASH := Ascii("previousHash")
  const CHAIN_ID := Ascii("chainId")
  const SEQUENCE := Ascii("sequence")

  /** The members of `integrity` left out of the digest, in the order they are deleted. */
  const EXCLUDED: seq<Text> := [HASH, SIGNATURE]

  // ---------------------------------------------------------------- members of an object

  function Get(fields: seq<Field>, key: Text): Option<Value> {
    if fields == [] then None
    else if fields[0].key == key then Some(fields[0].value)
    else Get(fields[1..], key)
  }

  function Delete(fields: seq<Field>, key: Text): (r: seq<Field>)
    ensures forall f | f in r :: f in fields && f.key != key
  {
    if fields == [] then []
    else if fields[0].key == key then Delete(fields[1..], key)
    else [fields[0]] + Delete(fields[1..], key)
  }

  /** Assignment: a present key keeps its place, a new one goes last. */
  function Put(fields: seq<Field>, key: Text, value: Value): seq<Field> {
    if fields == [] then [Field(key, value)]
    else if fields[0].key == key then [Field(key, value)] + fields[1..]
    else [fields[0]] + Put(fields[1..], key, value)
  }

  function Member(v: Value, key: Text): Option<Value> {
    if v.Object? then Get(v.fields, key) else None
  }

  function AsText(v: Option<Value>): Option<Text> {
    match v
    case Some(String(text)) => Some(text)
    case _ => None
  }

  /** An event's `integrity` member, when that is an object. */
  function ReadIntegrity(event: Value): Option<Value> {
    match Member(event, INTEGRITY)
    case Some(Object(fields)) => Some(Object(fields))
    case _ => None
  }

  function IntegrityMember(event: Value, key: Text): Option<Value> {
    match ReadIntegrity(event)
    case Some(integrity) => Member(integrity, key)
    case None => None
  }

  // ---------------------------------------------------------------- digest input

  /** The event without the members of `integrity` that are excluded from the digest. */
  function DigestInput(event: Value): Value {
    match ReadIntegrity(event)
    case None => event
    case Some(integrity) => Object(Put(event.fields, INTEGRITY, Object(Kept(integrity.fields))))
  }

  /** The members that stay, in their order. */
  function Kept(fields: seq<Field>): seq<Field> {
    if fields == [] then []
    else if fields[0].key in EXCLUDED then Kept(fields[1..])
    else [fields[0]] + Kept(fields[1..])
  }

  lemma {:induction false} DeletedBothIsKept(fields: seq<Field>)
    ensures Delete(Delete(fields, HASH), SIGNATURE) == Kept(fields)
  {
    if fields != [] {
      DeletedBothIsKept(fields[1..]);
    }
  }

  method BuildDigestInput(event: Value) returns (clone: Value)
    ensures clone == DigestInput(event)
  {
    clone := event;
    var integrity := ReadIntegrity(clone);
    if integrity.Some? {
      var record := integrity.value.fields;
      var i := 0;
      while i < |EXCLUDED|
        invariant 0 <= i <= |EXCLUDED|
        invariant i == 0 ==> record == integrity.value.fields
        invariant i == 1 ==> record == Delete(integrity.value.fields, HASH)
        invariant i == 2 ==> record == Delete(Delete(integrity.value.fields, HASH), SIGNATURE)
      {
        record := Delete(record, EXCLUDED[i]);
        i := i + 1;
      }
      DeletedBothIsKept(integrity.value.fields);
      clone := Object(Put(clone.fields, INTEGRITY, Object(record)));
    }
  }

  lemma {:induction false} PutHas(fields: seq<Field>, key: Text, value: Value, f: Field)
    requires f in Put(fields, key, value)
    ensures f == Field(key, value) || f in fields
  {
    if fields != [] && fields[0].key != key && f != fields[0] {
      PutHas(fields[1..], key, value, f);
    }
  }

  lemma {:induction false} PutDistinct(fields: seq<Field>, key: Text, value: Value)
    requires DistinctKeys(fields)
    ensures DistinctKeys(Put(fields, key, value))
  {
    if fields != [] && fields[0].key != key {
      PutDistinct(fields[1..], key, value);
      forall f | f in Put(fields[1..], key, value)
        ensures f.key != fields[0].key
      {
        PutHas(fields[1..], key, value, f);
      }
    }
  }

  lemma {:induction false} KeptHas(fields: seq<Field>, f: Field)
    requires f in Kept(fields)
    ensures f in fields && f.key !in EXCLUDED
  {
    if fields[0].key in EXCLUDED || f != fields[0] {
      KeptHas(fields[1..], f);
    }
  }

  lemma {:induction false} KeptDistinct(fields: seq<Field>)
    requires DistinctKeys(fields)
    ensures DistinctKeys(Kept(fields))
  {
    if fields != [] {
      KeptDistinct(fields[1..]);
      forall f | f in Kept(fields[1..])
        ensures f.key != fields[0].key
      {
        KeptHas(fields[1..], f);
      }
    }
  }

  lemma {:induction false} GetHas(fields: seq<Field>, key: Text)
    requires Get(fields, key).Some?
    ensures Field(key, Get(fields, key).value) in fields
  {
    if fields[0].key != key {
      GetHas(fields[1..], key);
    } else {
      assert fields[0] == Field(key, Get(fields, key).value);
    }
  }

  lemma {:induction false} GetFound(fields: seq<Field>, f: Field)
    requires DistinctKeys(fields) && f in fields
    ensures Get(fields, f.key) == Some(f.value)
  {
    if fields[0] != f {
      GetFound(fields[1..], f);
    }
  }

  lemma {:induction false} GetAfterPut(fields: seq<Field>, key: Text, value: Value, other: Text)
    ensures Get(Put(fields, key, value), other) == if other == key then Some(value) else Get(fields, other)
  {
    if fields != [] && fields[0].key != key {
      GetAfterPut(fields[1..], key, value, other);
    }
  }

  lemma {:induction false} GetAfterKept(fields: seq<Field>, key: Text)
    ensures Get(Kept(fields), key) == if key in EXCLUDED then None else Get(fields, key)
  {
    if fields != [] {
      GetAfterKept(fields[1..], key);
    }
  }

  /** No other member is lost: it reads the same from the digest input as from the event. */
  lemma DigestInputReads(event: Value, key: Text)
    ensures key != INTEGRITY ==> Member(DigestInput(event), key) == Member(event, key)
    ensures IntegrityMember(DigestInput(event), key) == if key in EXCLUDED then None else IntegrityMember(event, key)
  {
    var integrity := ReadIntegrity(event);
    if integrity.Some? {
      var kept := Object(Kept(integrity.value.fields));
      GetAfterPut(event.fields, INTEGRITY, kept, key);
      GetAfterPut(event.fields, INTEGRITY, kept, INTEGRITY);
      GetAfterKept(integrity.value.fields, key);
    }
  }

  /** Taking members out never makes a value unrepresentable, and never deeper. */
  lemma DigestInputSound(event: JsValue)
    ensures Representable(DigestInput(event))
    ensures AssertJsonValue(event, 0) ==> AssertJsonValue(DigestInput(event), 0)
  {
    var integrity := ReadIntegrity(event);
    if integrity.Some? {
      var fields := integrity.value.fields;
      GetHas(event.fields, INTEGRITY);
      assert Representable(Object(fields));
      KeptDistinct(fields);
      PutDistinct(event.fields, INTEGRITY, Object(Kept(fields)));
      assert Representable(integrity.value);
      forall f | f in Kept(fields)
        ensures f in fields
      {
        KeptHas(fields, f);
      }
      assert AssertJsonValue(event, 0) ==> AssertJsonValue(integrity.value, 1);
      forall f | f in DigestInput(event).fields
        ensures Representable(f.value) && (AssertJsonValue(event, 0) ==> AssertJsonValue(f.value, 1))
      {
        PutHas(event.fields, INTEGRITY, Object(Kept(fields)), f);
      }
    }
  }

  /** Every number that is hashed is finite: those in the excluded members of `integrity` do not matter. */
  predicate HashedFinite(event: Value) {
    match event
    case Object(fields) => forall f | f in fields :: HashedFiniteField(f)
    case _ => Finite(event)
  }

  predicate HashedFiniteField(f: Field) {
    if f.key == INTEGRITY && f.value.Object? then
      forall g | g in f.value.fields && g.key !in EXCLUDED :: Finite(g.value)
    else Finite(f.value)
  }

  lemma {:induction false} KeptKeeps(fields: seq<Field>, f: Field)
    requires f in fields && f.key !in EXCLUDED
    ensures f in Kept(fields)
  {
    if fields[0] != f {
      KeptKeeps(fields[1..], f);
    }
  }

  lemma {:induction false} PutKeeps(fields: seq<Field>, key: Text, value: Value, f: Field)
    requires f == Field(key, value) || (f in fields && f.key != key)
    ensures f in Put(fields, key, value)
  {
    if fields != [] && fields[0].key != key && fields[0] != f {
      PutKeeps(fields[1..], key, value, f);
    }
  }

  lemma {:induction false} PutReplaces(fields: seq<Field>, key: Text, value: Value, f: Field)
    requires DistinctKeys(fields) && f in Put(fields, key, value)
    ensures f == Field(key, value) || (f in fields && f.key != key)
  {
    if fields != [] && fields[0].key != key && f != fields[0] {
      PutReplaces(fields[1..], key, value, f);
    }
  }

  lemma KeptFinite(fields: seq<Field>)
    ensures Finite(Object(Kept(fields))) <==> forall g | g in fields && g.key !in EXCLUDED :: Finite(g.value)
  {
    forall g: Field
      ensures g in Kept(fields) <==> g in fields && g.key !in EXCLUDED
    {
      if g in Kept(fields) {
        KeptHas(fields, g);
      }
      if g in fields && g.key !in EXCLUDED {
        KeptKeeps(fields, g);
      }
    }
  }

  /** The numbers of the digest input are the numbers that are hashed. */
  lemma DigestInputFinite(event: JsValue)
    ensures Finite(DigestInput(event)) <==> HashedFinite(event)
  {
    var integrity := ReadIntegrity(event);
    if event.Object? && integrity.None? {
      forall f | f in event.fields
        ensures HashedFiniteField(f) <==> Finite(f.value)
      {
        GetFound(event.fields, f);
      }
    } else if event.Object? {
      var kept := Object(Kept(integrity.value.fields));
      var own := Field(INTEGRITY, integrity.value);
      KeptFinite(integrity.value.fields);
      GetHas(event.fields, INTEGRITY);
      PutKeeps(event.fields, INTEGRITY, kept, Field(INTEGRITY, kept));
      forall f: Field
        ensures f in Put(event.fields, INTEGRITY, kept) <==>
          f == Field(INTEGRITY, kept) || (f in event.fields && f != own)
      {
        if f in event.fields {
          GetFound(event.fields, f);
        }
        if f in Put(event.fields, INTEGRITY, kept) {
          PutReplaces(event.fields, INTEGRITY, kept, f);
        }
        if f in event.fields && f.key != INTEGRITY {
          PutKeeps(event.fields, INTEGRITY, kept, f);
        }
      }
      FieldsFinite(event.fields, own, Put(event.fields, INTEGRITY, kept), Field(INTEGRITY, kept));
    }
  }

  lemma FieldsFinite(fields: seq<Field>, own: Field, others: seq<Field>, kept: Field)
    requires own in fields && own.key == INTEGRITY && own.value.Object?
    requires forall f: Field :: f in others <==> f == kept || (f in fields && f != own)
    requires forall f | f in fields && f != own :: f.key != INTEGRITY
    requires Finite(kept.value) <==> HashedFiniteField(own)
    ensures (forall f | f in others :: Finite(f.value)) <==> forall f | f in fields :: HashedFiniteField(f)
  {
    assert kept in others;
    if forall f | f in others :: Finite(f.value) {
      forall f | f in fields
        ensures HashedFiniteField(f)
      {
        assert f != own ==> f in others;
      }
    }
    if forall f | f in fields :: HashedFiniteField(f) {
      forall f | f in others
        ensures Finite(f.value)
      {
        assert f != kept ==> f in fields && HashedFiniteField(f);
      }
    }
  }

  lemma DigestInputParsed(event: JsValue)
    requires Parsed(event) && !NestedTooDeep(event, 0)
    ensures Parsed(DigestInput(event)) && !NestedTooDeep(DigestInput(event), 0)
  {
    var integrity := ReadIntegrity(event);
    if integrity.Some? {
      var fields := integrity.value.fields;
      var kept := Object(Kept(fields));
      DigestInputSound(event);
      GetHas(event.fields, INTEGRITY);
      var own := Field(INTEGRITY, integrity.value);
      assert Parsed(own.value) && !NestedTooDeep(own.value, 1);
      assert Representable(Object(fields));
      KeptDistinct(fields);
      forall g | g in Kept(fields)
        ensures Parsed(g.value) && !NestedTooDeep(g.value, 2)
      {
        KeptHas(fields, g);
      }
      assert Parsed(kept) && !NestedTooDeep(kept, 1);
      PutDistinct(event.fields, INTEGRITY, kept);
      forall f | f in Put(event.fields, INTEGRITY, kept)
        ensures Parsed(f.value) && !NestedTooDeep(f.value, 1)
      {
        PutHas(event.fields, INTEGRITY, kept, f);
      }
    }
  }

  /**
   * Of the values the reader lets through, those with finite numbers only pass the guard,
   * and those with finite numbers in everything that is hashed can be hashed.
   */
  lemma ReadableIsHashable(event: JsValue)
    requires Parsed(event) && !NestedTooDeep(event, 0)
    ensures AssertJsonValue(event, 0) <==> Finite(event)
    ensures CanonicalBytes(DigestInput(event)).Some? <==> HashedFinite(event)
  {
    GuardsAgree(event, 0);
    DigestInputSound(event);
    DigestInputParsed(event);
    GuardsAgree(DigestInput(event), 0);
    DigestInputFinite(event);
  }

  /** What `{"n":1e400}` parses to: it gets past the depth walk, but not past the guard, and cannot be hashed. */
  lemma InfinityIsNotHashable()
    ensures var event := Object([Field(Ascii("n"), NonFinite(false))]);
      && Representable(event) && Parsed(event) && !NestedTooDeep(event, 0)
      && !AssertJsonValue(event, 0) && CanonicalBytes(DigestInput(event)).None?
  {
    var n := Field(Ascii("n"), NonFinite(false));
    var event := Object([n]);
    assert n in event.fields && !Finite(n.value);
    assert |Ascii("n")| != |INTEGRITY|;
    assert Get(event.fields, INTEGRITY).None? by {
      assert event.fields[1..] == [];
    }
    GuardsAgree(event, 0);
  }

  // ---------------------------------------------------------------- what equal values share

  lemma SameValueMembers(v: JsValue, w: JsValue, key: Text)
    requires SameValue(v, w)
    ensures Member(v, key).Some? <==> Member(w, key).Some?
    ensures Member(v, key).Some? ==> SameValue(Member(v, key).value, Member(w, key).value)
  {
    if v.Object? {
      if Get(v.fields, key).Some? {
        GetHas(v.fields, key);
        var f := Field(key, Get(v.fields, key).value);
        assert MatchedIn(f, w.fields);
        var g :| g in w.fields && f.key == g.key && SameValue(f.value, g.value);
        GetFound(w.fields, g);
      }
      if Get(w.fields, key).Some? {
        GetHas(w.fields, key);
        var g := Field(key, Get(w.fields, key).value);
        assert MatchedBy(v.fields, g);
        var f :| f in v.fields && f.key == g.key && SameValue(f.value, g.value);
        GetFound(v.fields, f);
      }
    }
  }

  lemma MemberRepresentable(v: JsValue, key: Text)
    requires Member(v, key).Some?
    ensures Representable(Member(v, key).value)
  {
    GetHas(v.fields, key);
  }

  lemma SameValueIntegrity(v: JsValue, w: JsValue, key: Text)
    requires SameValue(v, w)
    ensures AsText(IntegrityMember(v, key)) == AsText(IntegrityMember(w, key))
  {
    SameValueMembers(v, w, INTEGRITY);
    if Member(v, INTEGRITY).Some? {
      MemberRepresentable(v, INTEGRITY);
      MemberRepresentable(w, INTEGRITY);
      SameValueMembers(Member(v, INTEGRITY).value, Member(w, INTEGRITY).value, key);
    }
  }

  // ---------------------------------------------------------------- digests

  datatype DigestError = UnsupportedAlgorithm | NotCanonicalizable

  /** The digest of an event as hexadecimal, or the reason it throws. */
  function CalculateDigest(h: HashFunction, event: Value, algorithm: Text): Result<Text, DigestError> {
    match AlgorithmNamed(algorithm)
    case None => Failure(UnsupportedAlgorithm)
    case Some(a) =>
      match CanonicalBytes(DigestInput(event))
      case None => Failure(NotCanonicalizable)
      case Some(bytes) => Success(ToHex(h(Preimage(a, bytes))))
  }

  datatype SealError = NoIntegrity | NoCanonicalization | NoHashAlgorithm | DigestFailed(error: DigestError)

  /** The event with its own digest as its declared hash. */
  function SealEvent(h: HashFunction, event: Value): Result<Value, SealError> {
    match ReadIntegrity(event)
    case None => Failure(NoIntegrity)
    case Some(integrity) =>
      if AsText(Member(integrity, CANONICALIZATION)).None? then Failure(NoCanonicalization)
      else
        match AsText(Member(integrity, HASH_ALGORITHM))
        case None => Failure(NoHashAlgorithm)
        case Some(algorithm) =>
          match CalculateDigest(h, event, algorithm)
          case Failure(error) => Failure(DigestFailed(error))
          case Success(hash) => Success(WithIntegrity(event, HASH, String(hash)))
  }

  /** An event with one member of its integrity object set. */
  function WithIntegrity(event: Value, key: Text, value: Value): Value
    requires ReadIntegrity(event).Some?
  {
    Object(Put(event.fields, INTEGRITY, Object(Put(ReadIntegrity(event).value.fields, key, value))))
  }

  lemma {:induction false} KeptAfterPut(fields: seq<Field>, key: Text, value: Value)
    requires DistinctKeys(fields) && key in EXCLUDED
    ensures Kept(Put(fields, key, value)) == Kept(fields)
  {
    if fields == [] {
      assert Put(fields, key, value)[1..] == [];
    } else if fields[0].key == key {
      assert Put(fields, key, value)[1..] == fields[1..];
    } else {
      assert Put(fields, key, value)[1..] == Put(fields[1..], key, value);
      KeptAfterPut(fields[1..], key, value);
    }
  }

  lemma {:induction false} PutTwice(fields: seq<Field>, key: Text, first: Value, second: Value)
    ensures Put(Put(fields, key, first), key, second) == Put(fields, key, second)
  {
    if fields != [] && fields[0].key != key {
      assert Put(fields, key, first)[1..] == Put(fields[1..], key, first);
      PutTwice(fields[1..], key, first, second);
    }
  }

  lemma WithIntegrityReads(event: JsValue, key: Text, value: Value, other: Text)
    requires ReadIntegrity(event).Some?
    ensures other != INTEGRITY ==> Member(WithIntegrity(event, key, value), other) == Member(event, other)
    ensures IntegrityMember(WithIntegrity(event, key, value), other)
         == if other == key then Some(value) else IntegrityMember(event, other)
  {
    var fields := ReadIntegrity(event).value.fields;
    var integrity := Object(Put(fields, key, value));
    GetAfterPut(event.fields, INTEGRITY, integrity, other);
    GetAfterPut(event.fields, INTEGRITY, integrity, INTEGRITY);
    GetAfterPut(fields, key, value, other);
  }

  lemma WithIntegrityRepresentable(event: JsValue, key: Text, value: JsValue)
    requires ReadIntegrity(event).Some?
    ensures Representable(WithIntegrity(event, key, value))
  {
    GetHas(event.fields, INTEGRITY);
    var fields := ReadIntegrity(event).value.fields;
    assert Representable(Object(fields));
    PutDistinct(fields, key, value);
    PutDistinct(event.fields, INTEGRITY, Object(Put(fields, key, value)));
    forall f | f in Put(fields, key, value)
      ensures Representable(f.value)
    {
      PutHas(fields, key, value, f);
    }
    forall f | f in WithIntegrity(event, key, value).fields
      ensures Representable(f.value)
    {
      PutHas(event.fields, INTEGRITY, Object(Put(fields, key, value)), f);
    }
  }

  /** Setting the hash or the signature changes nothing that is hashed. */
  lemma ExcludedMemberNotHashed(event: JsValue, key: Text, value: Value)
    requires ReadIntegrity(event).Some? && key in EXCLUDED
    ensures DigestInput(WithIntegrity(event, key, value)) == DigestInput(event)
  {
    GetHas(event.fields, INTEGRITY);
    var fields := ReadIntegrity(event).value.fields;
    assert Representable(Object(fields));
    KeptAfterPut(fields, key, value);
    var integrity := Object(Put(fields, key, value));
    GetAfterPut(event.fields, INTEGRITY, integrity, INTEGRITY);
    PutTwice(event.fields, INTEGRITY, integrity, Object(Kept(fields)));
  }

  /** Sealing is a fixed point: the sealed event recalculates to the hash it declares, and seals to itself. */
  lemma SealIsFixedPoint(h: HashFunction, event: JsValue, algorithm: Text)
    requires SealEvent(h, event).Success?
    requires AsText(IntegrityMember(event, HASH_ALGORITHM)) == Some(algorithm)
    ensures var sealed := SealEvent(h, event).value;
      && Representable(sealed)
      && DigestInput(sealed) == DigestInput(event)
      && CalculateDigest(h, sealed, algorithm).Success?
      && AsText(IntegrityMember(sealed, HASH)) == Some(CalculateDigest(h, sealed, algorithm).value)
      && SealEvent(h, sealed) == Success(sealed)
  {
    var hash := CalculateDigest(h, event, algorithm).value;
    var sealed := WithIntegrity(event, HASH, String(hash));
    WithIntegrityRepresentable(event, HASH, String(hash));
    ExcludedMemberNotHashed(event, HASH, String(hash));
    WithIntegrityReads(event, HASH, String(hash), HASH);
    WithIntegrityReads(event, HASH, String(hash), HASH_ALGORITHM);
    WithIntegrityReads(event, HASH, String(hash), CANONICALIZATION);
    var fields := ReadIntegrity(event).value.fields;
    var integrity := Object(Put(fields, HASH, String(hash)));
    GetAfterPut(event.fields, INTEGRITY, integrity, INTEGRITY);
    PutTwice(fields, HASH, String(hash), String(hash));
    PutTwice(event.fields, INTEGRITY, integrity, integrity);
  }

  // ---------------------------------------------------------------- when digests and seals fail

  /** A digest exists for the three algorithms and a digest input with canonical bytes,
    and is their hash in hexadecimal. */
  lemma DigestExactly(h: HashFunction, event: Value, algorithm: Text)
    ensures var r, bytes := CalculateDigest(h, event, algorithm), CanonicalBytes(DigestInput(event));
      && (r == Failure(UnsupportedAlgorithm) <==> !HashNamed(algorithm))
      && (r == Failure(NotCanonicalizable) <==> HashNamed(algorithm) && bytes.None?)
      && (r.Success? ==> |r.value| == HexLength(algorithm))
      && (HashNamed(algorithm) && bytes.Some? ==>
            exists a: Algorithm ::
              AlgorithmNamed(algorithm) == Some(a) && r == Success(ToHex(h(Preimage(a, bytes.value)))))
  {
    AlgorithmNames(algorithm);
    if HashNamed(algorithm) && CanonicalBytes(DigestInput(event)).Some? {
      var a := AlgorithmNamed(algorithm).value;
      assert AlgorithmNamed(algorithm) == Some(a);
    }
  }

  /** Why sealing throws, by what the event declares. */
  lemma SealFailsExactly(h: HashFunction, event: Value)
    ensures var r := SealEvent(h, event);
      var canonicalization := AsText(IntegrityMember(event, Ascii("canonicalization")));
      var algorithm := AsText(IntegrityMember(event, Ascii("hashAlgorithm")));
      && (r == Failure(NoIntegrity) <==> ReadIntegrity(event).None?)
      && (r == Failure(NoCanonicalization) <==> ReadIntegrity(event).Some? && canonicalization.None?)
      && (r == Failure(NoHashAlgorithm) <==> canonicalization.Some? && algorithm.None?)
      && (r == Failure(DigestFailed(UnsupportedAlgorithm)) <==>
            canonicalization.Some? && algorithm.Some? && !HashNamed(algorithm.value))
      && (r == Failure(DigestFailed(NotCanonicalizable)) <==>
            && canonicalization.Some? && algorithm.Some? && HashNamed(algorithm.value)
            && CanonicalBytes(DigestInput(event)).None?)
  {
    var algorithm := AsText(IntegrityMember(event, HASH_ALGORITHM));
    if algorithm.Some? {
      AlgorithmNames(algorithm.value);
    }
  }

  /** Sealing sets the hash and nothing else. */
  lemma SealSetsHash(h: HashFunction, event: JsValue, algorithm: Text, key: Text)
    requires SealEvent(h, event).Success?
    requires AsText(IntegrityMember(event, Ascii("hashAlgorithm"))) == Some(algorithm)
    ensures CalculateDigest(h, event, algorithm).Success?
    ensures var sealed := SealEvent(h, event).value;
      && IntegrityMember(sealed, Ascii("hash")) == Some(String(CalculateDigest(h, event, algorithm).value))
      && (key != Ascii("hash") ==> IntegrityMember(sealed, key) == IntegrityMember(event, key))
      && (key != Ascii("integrity") ==> Member(sealed, key) == Member(event, key))
  {
    var hash := String(CalculateDigest(h, event, algorithm).value);
    WithIntegrityReads(event, HASH, hash, HASH);
    WithIntegrityReads(event, HASH, hash, key);
  }
}
