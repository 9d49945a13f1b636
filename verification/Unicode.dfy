/**
 * Strings as the program holds them, sequences of UTF-16 code units, and the UTF-8
 * bytes they are encoded to before anything is hashed or measured.
 */
module Unicode {
  type CodeUnit = c: int | 0 <= c < 0x1_0000
  type Text = seq<CodeUnit>
  type Byte = b: int | 0 <= b < 0x100
  type Bytes = seq<Byte>

  /** A literal: every name the model compares is ASCII. */
  function Ascii(s: string): (t: Text)
    requires forall i | 0 <= i < |s| :: s[i] < 128 as char
    ensures |t| == |s|
    ensures forall i | 0 <= i < |s| :: t[i] == s[i] as int
  {
    seq<CodeUnit>(|s|, i requires 0 <= i < |s| => s[i] as int)
  }

  /** A lower-case hexadecimal digit. */
  function HexOf(d: nat): CodeUnit
    requires d < 16
  {
    if d < 10 then 48 + d else 87 + d
  }

  predicate IsHigh(c: CodeUnit) { 0xD800 <= c < 0xDC00 }

  predicate IsLow(c: CodeUnit) { 0xDC00 <= c < 0xE000 }

  predicate StartsWithPair(s: Text) {
    |s| >= 2 && IsHigh(s[0]) && IsLow(s[1])
  }

  /** How many units the first code point of a text takes. */
  function Width(s: Text): (w: nat)
    requires s != []
    ensures 1 <= w <= |s|
  {
    if StartsWithPair(s) then 2 else 1
  }

  /** No surrogate stands alone. */
  predicate WellFormed(s: Text) {
    s == [] ||
    ((StartsWithPair(s) || !(IsHigh(s[0]) || IsLow(s[0]))) && WellFormed(s[Width(s)..]))
  }

  /** UTF-8 for one unit; a lone surrogate is replaced by U+FFFD. */
  function EncodeUnit(c: CodeUnit): Bytes {
    if c < 0x80 then [c]
    else if c < 0x800 then [0xC0 + c / 64, 0x80 + c % 64]
    else if IsHigh(c) || IsLow(c) then [0xEF, 0xBF, 0xBD]
    else [0xE0 + c / 64 / 64, 0x80 + c / 64 % 64, 0x80 + c % 64]
  }

  function PairCodePoint(high: CodeUnit, low: CodeUnit): (p: nat)
    requires IsHigh(high) && IsLow(low)
    ensures 0x1_0000 <= p < 0x11_0000
  {
    0x1_0000 + (high - 0xD800) * 1024 + (low - 0xDC00)
  }

  function EncodePair(high: CodeUnit, low: CodeUnit): Bytes
    requires IsHigh(high) && IsLow(low)
  {
    var p := PairCodePoint(high, low);
    [0xF0 + p / 64 / 64 / 64, 0x80 + p / 64 / 64 % 64, 0x80 + p / 64 % 64, 0x80 + p % 64]
  }

  function EncodeFirst(s: Text): Bytes
    requires s != []
  {
    if StartsWithPair(s) then EncodePair(s[0], s[1]) else EncodeUnit(s[0])
  }

  function Encode(s: Text): Bytes {
    if s == [] then [] else EncodeFirst(s) + Encode(s[Width(s)..])
  }

  /** The number of UTF-8 bytes, counted without building them. */
  function ByteLength(s: Text): nat {
    if s == [] then 0
    else if StartsWithPair(s) then 4 + ByteLength(s[2..])
    else (if s[0] < 0x80 then 1 else if s[0] < 0x800 then 2 else 3) + ByteLength(s[1..])
  }

  lemma {:induction false} ByteLengthIsEncodedLength(s: Text)
    ensures |Encode(s)| == ByteLength(s)
  {
    if s != [] {
      ByteLengthIsEncodedLength(s[Width(s)..]);
    }
  }

  /** A unit never takes more than three bytes, a pair no more than four. */
  lemma {:induction false} ByteLengthAtMostThreePerUnit(s: Text)
    ensures |s| <= ByteLength(s) <= 3 * |s|
  {
    if s != [] {
      ByteLengthAtMostThreePerUnit(s[Width(s)..]);
    }
  }

  /** Cutting a text short, even inside a surrogate pair, never makes it longer in bytes. */
  lemma {:induction false} ByteLengthMonotone(s: Text, t: Text)
    ensures ByteLength(s) <= ByteLength(s + t)
  {
    if s == [] {
    } else if StartsWithPair(s + t) && |s| == 1 {
      assert ByteLength(s) <= 3 by { assert s[1..] == []; }
    } else {
      assert Width(s) == Width(s + t);
      assert (s + t)[Width(s)..] == s[Width(s)..] + t;
      ByteLengthMonotone(s[Width(s)..], t);
    }
  }

  /** Joining two texts can only merge a pair at the seam, which takes fewer bytes. */
  lemma {:induction false} ByteLengthConcat(s: Text, t: Text)
    ensures ByteLength(s + t) <= ByteLength(s) + ByteLength(t)
  {
    if s == [] {
      assert s + t == t;
    } else if StartsWithPair(s + t) && |s| == 1 {
      assert (s + t)[2..] == t[1..] && s[1..] == [];
      assert !StartsWithPair(t) && t[0] >= 0x800;
    } else {
      assert Width(s) == Width(s + t);
      assert (s + t)[Width(s)..] == s[Width(s)..] + t;
      ByteLengthConcat(s[Width(s)..], t);
    }
  }

  /** How many bytes a first byte announces. */
  function Announced(b: Byte): nat {
    if b < 0x80 then 1 else if b < 0xE0 then 2 else if b < 0xF0 then 3 else 4
  }

  lemma FirstByteAnnounces(s: Text)
    requires s != []
    ensures |EncodeFirst(s)| == Announced(EncodeFirst(s)[0])
  {
    if StartsWithPair(s) {
      var p := PairCodePoint(s[0], s[1]);
      assert EncodeFirst(s)[0] == 0xF0 + p / 64 / 64 / 64;
    } else {
      assert EncodeFirst(s) == EncodeUnit(s[0]);
    }
  }

  lemma Sextets(a: nat, b: nat)
    ensures a / 64 == b / 64 && a % 64 == b % 64 ==> a == b
  {
  }

  lemma UnitDetermined(c: CodeUnit, d: CodeUnit)
    requires !(IsHigh(c) || IsLow(c)) && !(IsHigh(d) || IsLow(d))
    requires EncodeUnit(c) == EncodeUnit(d)
    ensures c == d
  {
    var u, v := EncodeUnit(c), EncodeUnit(d);
    assert |u| == |v| && u[0] == v[0] && u[|u| - 1] == v[|u| - 1];
    Sextets(c, d);
    if 0x800 <= c {
      assert u[1] == v[1];
      Sextets(c / 64, d / 64);
    }
  }

  lemma PairDetermined(h: CodeUnit, l: CodeUnit, h': CodeUnit, l': CodeUnit)
    requires IsHigh(h) && IsLow(l) && IsHigh(h') && IsLow(l')
    requires EncodePair(h, l) == EncodePair(h', l')
    ensures h == h' && l == l'
  {
    var u, v := EncodePair(h, l), EncodePair(h', l');
    var p, q := PairCodePoint(h, l), PairCodePoint(h', l');
    assert u[0] == v[0] && u[1] == v[1] && u[2] == v[2] && u[3] == v[3];
    Sextets(p / 64 / 64, q / 64 / 64);
    Sextets(p / 64, q / 64);
    Sextets(p, q);
  }

  /** The first code point of a well-formed text is readable from the front of its bytes. */
  lemma FirstDetermined(s: Text, t: Text, x: Bytes, y: Bytes)
    requires s != [] && t != []
    requires StartsWithPair(s) || !(IsHigh(s[0]) || IsLow(s[0]))
    requires StartsWithPair(t) || !(IsHigh(t[0]) || IsLow(t[0]))
    requires EncodeFirst(s) + x == EncodeFirst(t) + y
    ensures Width(s) == Width(t) && s[..Width(s)] == t[..Width(t)] && x == y
  {
    var u, v := EncodeFirst(s), EncodeFirst(t);
    FirstByteAnnounces(s);
    FirstByteAnnounces(t);
    assert u[0] == (u + x)[0] == (v + y)[0] == v[0];
    assert u == (u + x)[..|u|] == (v + y)[..|u|] == v;
    assert x == (u + x)[|u|..] == (v + y)[|u|..] == y;
    if StartsWithPair(s) {
      assert |EncodeFirst(t)| == 4;
      PairDetermined(s[0], s[1], t[0], t[1]);
    } else {
      UnitDetermined(s[0], t[0]);
    }
  }

  /** UTF-8 loses nothing on well-formed text. */
  lemma {:induction false} EncodeInjective(s: Text, t: Text)
    requires WellFormed(s) && WellFormed(t)
    requires Encode(s) == Encode(t)
    ensures s == t
  {
    if s == [] || t == [] {
      return;
    }
    FirstDetermined(s, t, Encode(s[Width(s)..]), Encode(t[Width(t)..]));
    EncodeInjective(s[Width(s)..], t[Width(t)..]);
    assert s == s[..Width(s)] + s[Width(s)..];
    assert t == t[..Width(t)] + t[Width(t)..];
  }

  /** Well-formedness of a concatenation, where the seam cannot join two surrogates. */
  lemma {:induction false} WellFormedConcat(s: Text, t: Text)
    requires WellFormed(s) && WellFormed(t)
    ensures WellFormed(s + t)
  {
    if s == [] {
      assert s + t == t;
    } else {
      assert Width(s + t) == Width(s);
      assert (s + t)[Width(s)..] == s[Width(s)..] + t;
      WellFormedConcat(s[Width(s)..], t);
    }
  }

  // ---------------------------------------------------------------- reading UTF-8 back

  /** The code point of a surrogate pair. */
  function PointOf(high: int, low: int): int {
    0x1_0000 + 0x400 * (high - 0xD800) + (low - 0xDC00)
  }

  /** The code points of a text; a surrogate that stands alone counts as U+FFFD. */
  function CodePoints(s: Text): seq<int>
    decreases |s|
  {
    if s == [] then []
    else if |s| >= 2 && 0xD800 <= s[0] <= 0xDBFF && 0xDC00 <= s[1] <= 0xDFFF then
      [PointOf(s[0], s[1])] + CodePoints(s[2..])
    else [if 0xD800 <= s[0] <= 0xDFFF then 0xFFFD else s[0]] + CodePoints(s[1..])
  }

  /** The bits a continuation byte carries. */
  function Six(b: Byte): int {
    b - 0x80
  }

  /** UTF-8 read back: section 3 of RFC 3629. */
  function Decode(bytes: Bytes): seq<int> {
    if bytes == [] then []
    else
      var lead := bytes[0];
      if lead < 0x80 then [lead] + Decode(bytes[1..])
      else if lead < 0xE0 && |bytes| >= 2 then [(lead - 0xC0) * 64 + Six(bytes[1])] + Decode(bytes[2..])
      else if lead < 0xF0 && |bytes| >= 3 then
        [((lead - 0xE0) * 64 + Six(bytes[1])) * 64 + Six(bytes[2])] + Decode(bytes[3..])
      else if |bytes| >= 4 then
        [(((lead - 0xF0) * 64 + Six(bytes[1])) * 64 + Six(bytes[2])) * 64 + Six(bytes[3])] + Decode(bytes[4..])
      else []
  }

  lemma SixtyFours(c: nat)
    ensures c / 64 * 64 + c % 64 == c
  {
  }

  lemma UnitReadsBack(c: CodeUnit, z: Bytes)
    ensures Decode(EncodeUnit(c) + z) == [if 0xD800 <= c <= 0xDFFF then 0xFFFD else c] + Decode(z)
  {
    var bytes := EncodeUnit(c) + z;
    SixtyFours(c);
    SixtyFours(c / 64);
    if |EncodeUnit(c)| == 1 {
      assert bytes[1..] == z;
    } else if |EncodeUnit(c)| == 2 {
      assert bytes[2..] == z;
    } else {
      assert bytes[3..] == z;
    }
  }

  lemma PairReadsBack(high: CodeUnit, low: CodeUnit, z: Bytes)
    requires IsHigh(high) && IsLow(low)
    ensures Decode(EncodePair(high, low) + z) == [PointOf(high, low)] + Decode(z)
  {
    var bytes, p := EncodePair(high, low) + z, PairCodePoint(high, low);
    SixtyFours(p);
    SixtyFours(p / 64);
    SixtyFours(p / 64 / 64);
    assert bytes[4..] == z;
  }

  /** The bytes of a text are its code points in UTF-8. */
  lemma {:induction false} EncodeReadsBack(s: Text)
    ensures Decode(Encode(s)) == CodePoints(s)
    decreases |s|
  {
    if s != [] {
      EncodeReadsBack(s[Width(s)..]);
      if StartsWithPair(s) {
        PairReadsBack(s[0], s[1], Encode(s[2..]));
      } else {
        UnitReadsBack(s[0], Encode(s[1..]));
      }
    }
  }

  /** No code point takes more bytes than it needs. */
  lemma ShortestForm(s: Text)
    requires s != []
    ensures var point := CodePoints(s)[0];
      |EncodeFirst(s)| == if point < 0x80 then 1 else if point < 0x800 then 2 else if point < 0x1_0000 then 3 else 4
  {
  }
}
