/**
 * A reader of JSON text as RFC 8259 defines it, without whitespace, and the proof that it
 * reads every canonical text back as the value it was printed from.
 */
module JsonReader {
  import opened Wrappers
  import opened Unicode
  import opened Json
  import opened Canonical

  datatype Reading<T> = Reading(value: T, rest: Text)

  // ---------------------------------------------------------------- strings

  function HexOfUnit(c: CodeUnit): Option<nat> {
    if 48 <= c <= 57 then Some(c - 48)
    else if 97 <= c <= 102 then Some(c - 87)
    else if 65 <= c <= 70 then Some(c - 55)
    else None
  }

  /** The unit behind a backslash, and what follows it: section 7 of RFC 8259. */
  function ReadEscape(t: Text): (r: Option<Reading<CodeUnit>>)
    ensures r.Some? ==> |r.value.rest| < |t|
  {
    if t == [] then None
    else if t[0] == 0x22 || t[0] == 0x5C || t[0] == 0x2F then Some(Reading(t[0], t[1..]))
    else if t[0] == 0x62 then Some(Reading(0x08, t[1..]))
    else if t[0] == 0x66 then Some(Reading(0x0C, t[1..]))
    else if t[0] == 0x6E then Some(Reading(0x0A, t[1..]))
    else if t[0] == 0x72 then Some(Reading(0x0D, t[1..]))
    else if t[0] == 0x74 then Some(Reading(0x09, t[1..]))
    else if t[0] == 0x75 && |t| >= 5 then
      match (HexOfUnit(t[1]), HexOfUnit(t[2]), HexOfUnit(t[3]), HexOfUnit(t[4]))
      case (Some(p), Some(q), Some(r), Some(s)) =>
        if p < 16 && q < 16 && r < 16 && s < 16 then Some(Reading(((p * 16 + q) * 16 + r) * 16 + s, t[5..])) else None
      case _ => None
    else None
  }

  /** A string up to its closing quote. */
  function ReadString(t: Text): (r: Option<Reading<Text>>)
    ensures r.Some? ==> |r.value.rest| < |t|
    decreases |t|
  {
    if t == [] || t[0] < 0x20 then None
    else if t[0] == 0x22 then Some(Reading([], t[1..]))
    else
      match if t[0] == 0x5C then ReadEscape(t[1..]) else Some(Reading(t[0], t[1..]))
      case None => None
      case Some(Reading(unit, rest)) =>
        match ReadString(rest)
        case None => None
        case Some(Reading(units, after)) => Some(Reading([unit] + units, after))
  }

  // ---------------------------------------------------------------- values

  predicate StartsWith(t: Text, s: Text) {
    |s| <= |t| && t[..|s|] == s
  }

  function ReadNumber(t: Text): (r: Reading<Text>)
    ensures |r.value| + |r.rest| == |t|
  {
    if t == [] || !(48 <= t[0] <= 57 || t[0] == 43 || t[0] == 45 || t[0] == 46 || t[0] == 69 || t[0] == 101) then
      Reading([], t)
    else
      var more := ReadNumber(t[1..]);
      Reading([t[0]] + more.value, more.rest)
  }

  /** One of the three words. */
  function ReadWord(t: Text): (r: Option<Reading<Value>>)
    ensures r.Some? ==> |r.value.rest| < |t|
  {
    if StartsWith(t, Ascii("null")) then Some(Reading(Null, t[4..]))
    else if StartsWith(t, Ascii("true")) then Some(Reading(Bool(true), t[4..]))
    else if StartsWith(t, Ascii("false")) then Some(Reading(Bool(false), t[5..]))
    else None
  }

  function ReadValue(t: Text): (r: Option<Reading<Value>>)
    ensures r.Some? ==> |r.value.rest| < |t|
    decreases |t|, 0
  {
    if t == [] then None
    else if ReadWord(t).Some? then ReadWord(t)
    else if t[0] == 0x22 then
      match ReadString(t[1..])
      case None => None
      case Some(Reading(text, rest)) => Some(Reading(String(text), rest))
    else if t[0] == 0x5B then
      if |t| > 1 && t[1] == 0x5D then Some(Reading(Array([]), t[2..]))
      else
        match ReadItems(t[1..])
        case None => None
        case Some(Reading(items, rest)) => Some(Reading(Array(items), rest))
    else if t[0] == 0x7B then
      if |t| > 1 && t[1] == 0x7D then Some(Reading(Object([]), t[2..]))
      else
        match ReadMembers(t[1..])
        case None => None
        case Some(Reading(fields, rest)) => Some(Reading(Object(fields), rest))
    else
      var n := ReadNumber(t);
      if n.value == [] then None else Some(Reading(Number(n.value), n.rest))
  }

  /** The items of an array, up to its closing bracket. */
  function ReadItems(t: Text): (r: Option<Reading<seq<Value>>>)
    ensures r.Some? ==> |r.value.rest| < |t|
    decreases |t|, 1
  {
    match ReadValue(t)
    case None => None
    case Some(Reading(item, rest)) =>
      if rest == [] then None
      else if rest[0] == 0x5D then Some(Reading([item], rest[1..]))
      else if rest[0] == 0x2C then
        match ReadItems(rest[1..])
        case None => None
        case Some(Reading(items, after)) => Some(Reading([item] + items, after))
      else None
  }

  /** The members of an object, up to its closing brace. */
  function ReadMembers(t: Text): (r: Option<Reading<seq<Field>>>)
    ensures r.Some? ==> |r.value.rest| < |t|
    decreases |t|, 1
  {
    if t == [] || t[0] != 0x22 then None
    else
      match ReadString(t[1..])
      case None => None
      case Some(Reading(key, colon)) =>
        if colon == [] || colon[0] != 0x3A then None
        else
          match ReadValue(colon[1..])
          case None => None
          case Some(Reading(value, rest)) =>
            if rest == [] then None
            else if rest[0] == 0x7D then Some(Reading([Field(key, value)], rest[1..]))
            else if rest[0] == 0x2C then
              match ReadMembers(rest[1..])
              case None => None
              case Some(Reading(fields, after)) => Some(Reading([Field(key, value)] + fields, after))
            else None
  }

  // ---------------------------------------------------------------- reading strings back

  /** What `ReadString` takes off the front of a text. */
  function ReadUnit(t: Text): Option<Reading<CodeUnit>>
    requires t != []
  {
    if t[0] == 0x5C then ReadEscape(t[1..]) else Some(Reading(t[0], t[1..]))
  }

  lemma HexBack(d: nat)
    requires d < 16
    ensures HexOfUnit(HexOf(d)) == Some(d)
  {
  }

  lemma HexDigitsBack(c: nat)
    ensures (((c / 16 / 16 / 16) * 16 + c / 16 / 16 % 16) * 16 + c / 16 % 16) * 16 + c % 16 == c
  {
  }

  lemma HexEscapeBack(c: CodeUnit, z: Text)
    ensures var t := HexEscape(c) + z; t[0] == 0x5C && ReadEscape(t[1..]) == Some(Reading(c, z))
  {
    var t := HexEscape(c) + z;
    HexBack(c / 16 / 16 / 16);
    HexBack(c / 16 / 16 % 16);
    HexBack(c / 16 % 16);
    HexBack(c % 16);
    HexDigitsBack(c);
    assert t[1..][5..] == z;
  }

  lemma UnitBack(c: CodeUnit, z: Text)
    ensures var t := EscapeUnit(c) + z;
      && t != [] && t[0] >= 0x20 && t[0] != 0x22
      && ReadUnit(t) == Some(Reading(c, z))
  {
    var t := EscapeUnit(c) + z;
    if |EscapeUnit(c)| == 6 {
      HexEscapeBack(c, z);
    } else if |EscapeUnit(c)| == 2 {
      assert t[1..][1..] == z;
    } else {
      assert t[1..] == z;
    }
  }

  lemma StringStep(t: Text, unit: CodeUnit, rest: Text)
    requires t != [] && t[0] >= 0x20 && t[0] != 0x22 && ReadUnit(t) == Some(Reading(unit, rest)) && |rest| < |t|
    ensures ReadString(rest).Some? ==>
      ReadString(t) == Some(Reading([unit] + ReadString(rest).value.value, ReadString(rest).value.rest))
  {
  }

  lemma PairStep(high: CodeUnit, low: CodeUnit, s: Text, after: Text, x: Text)
    requires IsHigh(high) && IsLow(low) && ReadString(after) == Some(Reading(s, x))
    ensures ReadString([high, low] + after) == Some(Reading([high, low] + s, x))
  {
    var t := [high, low] + after;
    assert t[1..] == [low] + after && t[1..][1..] == after;
    StringStep(t[1..], low, after);
    StringStep(t, high, t[1..]);
    assert [high, low] + s == [high] + ([low] + s);
  }

  lemma UnitStep(c: CodeUnit, s: Text, after: Text, x: Text)
    requires ReadString(after) == Some(Reading(s, x))
    ensures ReadString(EscapeUnit(c) + after) == Some(Reading([c] + s, x))
  {
    UnitBack(c, after);
    StringStep(EscapeUnit(c) + after, c, after);
  }

  lemma FirstStep(s: Text, after: Text, x: Text)
    requires s != [] && ReadString(after) == Some(Reading(s[Width(s)..], x))
    ensures ReadString(EscapeFirst(s) + after) == Some(Reading(s, x))
  {
    var rest := s[Width(s)..];
    if StartsWithPair(s) {
      assert s[..2] == [s[0], s[1]] && s == [s[0], s[1]] + rest;
      PairStep(s[0], s[1], rest, after, x);
    } else {
      assert s == [s[0]] + rest;
      UnitStep(s[0], rest, after, x);
    }
  }

  /** A string reads back as itself. */
  lemma {:induction false} StringBack(s: Text, x: Text)
    ensures ReadString(Escape(s) + ([0x22] + x)) == Some(Reading(s, x))
  {
    var z := [0x22] + x;
    if s == [] {
      assert Escape(s) + z == z && z[1..] == x;
    } else {
      EscapeStep(s, z);
      StringBack(s[Width(s)..], x);
      FirstStep(s, Escape(s[Width(s)..]) + z, x);
    }
  }

  lemma {:induction false} NumberBack(token: Text, x: Text)
    requires forall i | 0 <= i < |token| :: NumberUnit(token[i])
    requires Delimited(x)
    ensures ReadNumber(token + x) == Reading(token, x)
  {
    if token == [] {
      assert token + x == x;
    } else {
      assert (token + x)[1..] == token[1..] + x;
      NumberBack(token[1..], x);
      assert token == [token[0]] + token[1..];
    }
  }

  // ---------------------------------------------------------------- reading values back

  ghost predicate AllSame(vs: seq<Value>, ws: seq<Value>) {
    |vs| == |ws| && forall i | 0 <= i < |vs| :: SameValue(vs[i], ws[i])
  }

  /** A text that opens otherwise is none of the three words. */
  lemma NoWord(t: Text)
    requires t != [] && t[0] != 0x6E && t[0] != 0x74 && t[0] != 0x66
    ensures ReadWord(t).None?
  {
  }

  lemma WordBack(word: Text, x: Text)
    ensures StartsWith(word + x, word) && (word + x)[|word|..] == x
  {
  }

  lemma NullBack(x: Text)
    ensures ReadValue(TextOf(Null) + x) == Some(Reading(Null, x))
  {
    WordBack(Ascii("null"), x);
  }

  lemma BoolBack(b: bool, x: Text)
    ensures ReadValue(TextOf(Bool(b)) + x) == Some(Reading(Bool(b), x))
  {
    var t := TextOf(Bool(b)) + x;
    WordBack(TextOf(Bool(b)), x);
    assert t[0] == if b then 0x74 else 0x66;
  }

  lemma NumberValueBack(token: Text, x: Text)
    requires NumberToken(token) && Delimited(x)
    ensures ReadValue(token + x) == Some(Reading(Number(token), x))
  {
    var t := token + x;
    assert t[0] == token[0] && NumberUnit(token[0]);
    NoWord(t);
    NumberBack(token, x);
  }

  lemma StringValueBack(text: Text, x: Text)
    ensures ReadValue(Quote(text) + x) == Some(Reading(String(text), x))
  {
    var t := Quote(text) + x;
    QuoteThen(text, x);
    assert t[1..] == Escape(text) + ([0x22] + x);
    StringBack(text, x);
    NoWord(t);
  }

  lemma ArrayOpens(t: Text, items: seq<Value>, x: Text)
    requires |t| > 1 && t[0] == 0x5B && t[1] != 0x5D && ReadItems(t[1..]) == Some(Reading(items, x))
    ensures ReadValue(t) == Some(Reading(Array(items), x))
  {
    NoWord(t);
  }

  lemma ObjectOpens(t: Text, fields: seq<Field>, x: Text)
    requires |t| > 1 && t[0] == 0x7B && t[1] != 0x7D && ReadMembers(t[1..]) == Some(Reading(fields, x))
    ensures ReadValue(t) == Some(Reading(Object(fields), x))
  {
    NoWord(t);
  }

  lemma EmptyBack(x: Text)
    ensures ReadValue(TextOf(Array([])) + x) == Some(Reading(Array([]), x))
    ensures ReadValue(TextOf(Object([])) + x) == Some(Reading(Object([]), x))
  {
    assert TextOf(Array([])) == [0x5B, 0x5D];
    assert FieldTexts([]) == [];
    assert TextOf(Object([])) == [0x7B, 0x7D];
    NoWord([0x5B, 0x5D] + x);
    NoWord([0x7B, 0x7D] + x);
    assert ([0x5B, 0x5D] + x)[2..] == x && ([0x7B, 0x7D] + x)[2..] == x;
  }

  /** Every canonical text reads back, whatever follows it in a larger text. */
  lemma {:induction false} ValueBack(v: Value, x: Text) returns (w: Value)
    requires IsJson(v) && Delimited(x)
    ensures ReadValue(TextOf(v) + x) == Some(Reading(w, x)) && SameValue(v, w)
    decreases v, 2, 0
  {
    w := v;
    match v
    case Null => NullBack(x);
    case Bool(b) => BoolBack(b, x);
    case Number(token) => NumberValueBack(token, x);
    case String(text) => StringValueBack(text, x);
    case Array(items) =>
      if items == [] {
        EmptyBack(x);
      } else {
        w := ArrayBack(v, x);
      }
    case Object(fields) =>
      if fields == [] {
        EmptyBack(x);
      } else {
        w := ObjectBack(v, x);
      }
  }

  lemma ArrayText(items: seq<Value>, x: Text)
    ensures var t := TextOf(Array(items)) + x;
      |t| > 1 && t[0] == 0x5B && t[1..] == Join(ItemTexts(items)) + ([0x5D] + x)
  {
    assert TextOf(Array(items)) == [0x5B] + Join(ItemTexts(items)) + [0x5D];
  }

  lemma SameItems(items: seq<Value>, ws: seq<Value>)
    requires AllSame(items, ws)
    ensures SameValue(Array(items), Array(ws))
  {
  }

  lemma {:induction false} ArrayBack(v: Value, x: Text) returns (w: Value)
    requires IsJson(v) && v.Array? && v.items != []
    ensures ReadValue(TextOf(v) + x) == Some(Reading(w, x)) && SameValue(v, w)
    decreases v, 1, |v.items| + 1
  {
    var t, z := TextOf(v) + x, [0x5D] + x;
    assert v.items[0..] == v.items;
    var ws := ItemsBack(v, 0, x);
    ArrayText(v.items, x);
    ItemsOpen(v.items, z);
    assert t[1] == t[1..][0];
    ArrayOpens(t, ws, x);
    SameItems(v.items, ws);
    w := Array(ws);
  }

  lemma ItemsOpen(items: seq<Value>, z: Text)
    requires items != [] && forall v | v in items :: IsJson(v)
    ensures var t := Join(ItemTexts(items)) + z; t != [] && t[0] != 0x5D
  {
    ValueIsItem(items[0]);
    JoinStep(ItemTexts(items), z);
  }

  lemma ItemTextsFrom(items: seq<Value>, i: nat)
    requires i < |items|
    ensures ItemTexts(items[i..]) != [] && ItemTexts(items[i..])[0] == TextOf(items[i])
    ensures ItemTexts(items[i..])[1..] == ItemTexts(items[i + 1..])
  {
    assert items[i..][1..] == items[i + 1..];
  }

  /** The items from a position on, up to the bracket that closes them. */
  lemma {:induction false} ItemsBack(v: Value, i: nat, x: Text) returns (ws: seq<Value>)
    requires IsJson(v) && v.Array? && i < |v.items|
    ensures ReadItems(Join(ItemTexts(v.items[i..])) + ([0x5D] + x)) == Some(Reading(ws, x))
    ensures AllSame(v.items[i..], ws)
    decreases v, 1, |v.items| - i
  {
    var items, z := v.items[i..], [0x5D] + x;
    var ts := ItemTexts(items);
    ItemTextsFrom(v.items, i);
    JoinStep(ts, z);
    var after := AfterFirst(ts, z);
    var w := ValueBack(v.items[i], after);
    if |items| == 1 {
      ws := [w];
      assert z[1..] == x;
    } else {
      var more := ItemsBack(v, i + 1, x);
      assert after[1..] == Join(ItemTexts(v.items[i + 1..])) + z;
      ws := [w] + more;
      assert items == [v.items[i]] + v.items[i + 1..];
    }
  }

  // ---------------------------------------------------------------- reading objects back

  ghost predicate PrintedFrom(fields: seq<Field>, p: Printed, f: Field) {
    f in fields && p == Printed(f.key, TextOf(f.value))
  }

  /** The member `g` was read from what a field was printed as. */
  ghost predicate ReadFrom(fields: seq<Field>, p: Printed, g: Field) {
    exists f :: PrintedFrom(fields, p, f) && f.key == g.key && SameValue(f.value, g.value)
  }

  ghost predicate AllRead(fields: seq<Field>, ps: seq<Printed>, gs: seq<Field>) {
    |ps| == |gs| && forall i | 0 <= i < |ps| :: ReadFrom(fields, ps[i], gs[i])
  }

  lemma MemberTextsFrom(ps: seq<Printed>, i: nat)
    requires i < |ps|
    ensures MemberTexts(ps[i..]) != [] && MemberTexts(ps[i..])[0] == MemberText(ps[i])
    ensures MemberTexts(ps[i..])[1..] == MemberTexts(ps[i + 1..])
  {
  }

  /** A member's text, taken apart the way it is read. */
  lemma MemberApart(p: Printed, z: Text)
    ensures var t := MemberText(p) + z;
      t != [] && t[0] == 0x22 && t[1..] == Escape(p.key) + ([0x22] + ([0x3A] + (p.text + z)))
  {
  }

  /** A member that reads back, and what follows it. */
  lemma MemberBack(p: Printed, w: Value, after: Text)
    requires ReadValue(p.text + after) == Some(Reading(w, after)) && after != []
    ensures var t := MemberText(p) + after;
      && (after[0] == 0x7D ==> ReadMembers(t) == Some(Reading([Field(p.key, w)], after[1..])))
      && (after[0] == 0x2C && ReadMembers(after[1..]).Some? ==>
            var more := ReadMembers(after[1..]).value;
            ReadMembers(t) == Some(Reading([Field(p.key, w)] + more.value, more.rest)))
  {
    MemberApart(p, after);
    StringBack(p.key, [0x3A] + (p.text + after));
    assert ([0x3A] + (p.text + after))[1..] == p.text + after;
  }

  lemma ReadCons(fields: seq<Field>, p: Printed, ps: seq<Printed>, g: Field, gs: seq<Field>)
    requires ReadFrom(fields, p, g) && AllRead(fields, ps, gs)
    ensures AllRead(fields, [p] + ps, [g] + gs)
  {
  }

  lemma AfterMember(ps: seq<Printed>, i: nat, z: Text) returns (after: Text)
    requires i < |ps|
    ensures Join(MemberTexts(ps[i..])) + z == MemberText(ps[i]) + after
    ensures i + 1 == |ps| ==> after == z
    ensures i + 1 < |ps| ==> after == [0x2C] + (Join(MemberTexts(ps[i + 1..])) + z)
  {
    MemberTextsFrom(ps, i);
    JoinStep(MemberTexts(ps[i..]), z);
    after := AfterFirst(MemberTexts(ps[i..]), z);
  }

  lemma {:induction false} MembersBack(v: Value, ps: seq<Printed>, i: nat, x: Text) returns (gs: seq<Field>)
    requires IsJson(v) && v.Object? && i < |ps|
    requires forall p | p in ps :: exists f :: PrintedFrom(v.fields, p, f)
    ensures ReadMembers(Join(MemberTexts(ps[i..])) + ([0x7D] + x)) == Some(Reading(gs, x))
    ensures AllRead(v.fields, ps[i..], gs)
    decreases v, 1, |ps| - i
  {
    var z, p := [0x7D] + x, ps[i];
    var after := AfterMember(ps, i, z);
    assert p in ps;
    var f :| PrintedFrom(v.fields, p, f);
    var w := ValueBack(f.value, after);
    var g := Field(p.key, w);
    MemberBack(p, w, after);
    assert ReadFrom(v.fields, p, g);
    assert ps[i..] == [p] + ps[i + 1..];
    if i + 1 == |ps| {
      gs := [g];
      ReadCons(v.fields, p, [], g, []);
      assert z[1..] == x && ps[i + 1..] == [];
    } else {
      var more := MembersBack(v, ps, i + 1, x);
      assert after[1..] == Join(MemberTexts(ps[i + 1..])) + z;
      ReadCons(v.fields, p, ps[i + 1..], g, more);
      gs := [g] + more;
    }
  }

  lemma AllPrinted(fields: seq<Field>, p: Printed)
    requires p in SortByKey(PrintFields(fields))
    ensures exists f :: PrintedFrom(fields, p, f)
  {
    SortHas(PrintFields(fields), p);
    PrintedIn(fields, p);
    var f :| f in fields && p == Printed(f.key, TextOf(f.value));
    assert PrintedFrom(fields, p, f);
  }

  lemma SameFields(fields: seq<Field>, gs: seq<Field>)
    requires DistinctKeys(fields) && AllRead(fields, SortByKey(PrintFields(fields)), gs)
    ensures SameValue(Object(fields), Object(gs))
  {
    var ps := SortByKey(PrintFields(fields));
    forall f | f in fields
      ensures MatchedIn(f, gs)
    {
      var p := Printed(f.key, TextOf(f.value));
      PrintedIn(fields, p);
      SortHas(PrintFields(fields), p);
      var i :| 0 <= i < |ps| && ps[i] == p;
      assert ReadFrom(fields, ps[i], gs[i]);
      var o :| PrintedFrom(fields, p, o) && o.key == gs[i].key && SameValue(o.value, gs[i].value);
      SameKeySameField(fields, f, o);
      assert gs[i] in gs;
    }
    forall g | g in gs
      ensures MatchedBy(fields, g)
    {
      var i :| 0 <= i < |gs| && gs[i] == g;
      assert ReadFrom(fields, ps[i], gs[i]);
    }
  }

  lemma SameKeySameField(fields: seq<Field>, f: Field, o: Field)
    requires DistinctKeys(fields) && f in fields && o in fields && f.key == o.key
    ensures f == o
  {
    var i :| 0 <= i < |fields| && fields[i] == f;
    var j :| 0 <= j < |fields| && fields[j] == o;
    assert i == j;
  }

  lemma SortedPrinted(fields: seq<Field>)
    ensures |SortByKey(PrintFields(fields))| == |fields|
    ensures forall p | p in SortByKey(PrintFields(fields)) :: exists f :: PrintedFrom(fields, p, f)
  {
    var ps := SortByKey(PrintFields(fields));
    SortKeeps(PrintFields(fields));
    assert |ps| == |multiset(ps)| == |multiset(PrintFields(fields))| == |fields|;
    forall p | p in ps
      ensures exists f :: PrintedFrom(fields, p, f)
    {
      AllPrinted(fields, p);
    }
  }

  lemma ObjectText(fields: seq<Field>, x: Text)
    ensures var t := TextOf(Object(fields)) + x;
      && |t| > 1 && t[0] == 0x7B
      && t[1..] == Join(MemberTexts(SortByKey(PrintFields(fields)))) + ([0x7D] + x)
  {
    assert TextOf(Object(fields)) == [0x7B] + Join(FieldTexts(fields)) + [0x7D];
  }

  lemma MembersOpen(ps: seq<Printed>, z: Text)
    requires ps != []
    ensures var t := Join(MemberTexts(ps)) + z; t != [] && t[0] == 0x22
  {
    MemberApart(ps[0], AfterFirst(MemberTexts(ps), z));
    JoinStep(MemberTexts(ps), z);
  }

  lemma {:induction false} ObjectBack(v: Value, x: Text) returns (w: Value)
    requires IsJson(v) && v.Object? && v.fields != []
    ensures ReadValue(TextOf(v) + x) == Some(Reading(w, x)) && SameValue(v, w)
    decreases v, 1, |v.fields| + 1
  {
    var t, ps := TextOf(v) + x, SortByKey(PrintFields(v.fields));
    SortedPrinted(v.fields);
    assert ps[0..] == ps;
    var gs := MembersBack(v, ps, 0, x);
    ObjectText(v.fields, x);
    MembersOpen(ps, [0x7D] + x);
    SameFields(v.fields, gs);
    ObjectOpens(t, gs, x);
    w := Object(gs);
  }

  /** The round trip: the canonical text of a value is JSON, and reads as that value. */
  lemma CanonicalReadsBack(v: Value) returns (w: Value)
    requires IsJson(v)
    ensures ReadValue(TextOf(v)) == Some(Reading(w, [])) && SameValue(v, w)
  {
    w := ValueBack(v, []);
    assert TextOf(v) + [] == TextOf(v);
  }

  // ---------------------------------------------------------------- the one spelling of a string

  /** A unit that needs no escape. */
  predicate Plain(c: CodeUnit) {
    c >= 0x20 && c != 0x22 && c != 0x5C && !(0xD800 <= c < 0xE000)
  }

  lemma PlainFirst(s: Text)
    requires s != [] && Plain(s[0])
    ensures EscapeFirst(s) == [s[0]] && Width(s) == 1
  {
  }

  /** Whatever needs no escape is written as it is. */
  lemma {:induction false} PlainIsVerbatim(s: Text)
    requires forall i | 0 <= i < |s| :: Plain(s[i])
    ensures Escape(s) == s
  {
    if s != [] {
      PlainFirst(s);
      PlainIsVerbatim(s[1..]);
    }
  }

  /** A surrogate pair is written as it is, and a surrogate that stands alone as its number. */
  lemma PairIsVerbatim(high: CodeUnit, low: CodeUnit)
    requires IsHigh(high) && IsLow(low)
    ensures Escape([high, low]) == [high, low]
    ensures |Escape([high])| == 6 && |Escape([low])| == 6
  {
    assert [high, low][2..] == [] && [high][1..] == [] && [low][1..] == [];
  }

  /** The short escapes: section 3.2.2.2 of RFC 8785. */
  lemma ShortEscapes()
    ensures Escape([0x22]) == [0x5C, 0x22] && Escape([0x5C]) == [0x5C, 0x5C]
    ensures Escape([0x08]) == [0x5C, 0x62] && Escape([0x09]) == [0x5C, 0x74] && Escape([0x0A]) == [0x5C, 0x6E]
    ensures Escape([0x0C]) == [0x5C, 0x66] && Escape([0x0D]) == [0x5C, 0x72]
  {
    OneUnit(0x22);
    OneUnit(0x5C);
    OneUnit(0x08);
    OneUnit(0x09);
    OneUnit(0x0A);
    OneUnit(0x0C);
    OneUnit(0x0D);
  }

  /** The long escapes: a control character without a short one, and a surrogate that stands alone, in lower case. */
  lemma LongEscapes(c: CodeUnit)
    requires IsHigh(c) || IsLow(c) || (c < 0x20 && c != 8 && c != 9 && c != 10 && c != 12 && c != 13)
    ensures var digits := Ascii("0123456789abcdef");
      Escape([c]) == [0x5C, 0x75, digits[c / 4096], digits[c / 256 % 16], digits[c / 16 % 16], digits[c % 16]]
  {
    OneUnit(c);
    assert c / 16 / 16 / 16 == c / 4096 && c / 16 / 16 == c / 256;
    DigitOf(c / 4096);
    DigitOf(c / 256 % 16);
    DigitOf(c / 16 % 16);
    DigitOf(c % 16);
  }

  lemma DigitOf(d: nat)
    requires d < 16
    ensures HexOf(d) == Ascii("0123456789abcdef")[d]
  {
  }

  lemma OneUnit(c: CodeUnit)
    ensures Escape([c]) == EscapeUnit(c)
  {
    var s: Text := [c];
    assert s[1..] == [];
  }
}
