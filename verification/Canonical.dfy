/**
 * The JSON Canonicalization Scheme, RFC 8785: members sorted by key in UTF-16 code
 * unit order (section 3.2.3), strings escaped as ECMAScript does (section 3.2.2.2),
 * no whitespace. The results say that the text identifies exactly the value.
 */
module Canonical {
  import opened Wrappers
  import opened Unicode
  import opened Json

  const QUOTE: CodeUnit := 0x22
  const COMMA: CodeUnit := 0x2C
  const COLON: CodeUnit := 0x3A
  const BACKSLASH: CodeUnit := 0x5C
  const OPEN_ARRAY: CodeUnit := 0x5B
  const CLOSE_ARRAY: CodeUnit := 0x5D
  const OPEN_OBJECT: CodeUnit := 0x7B
  const CLOSE_OBJECT: CodeUnit := 0x7D

  // ---------------------------------------------------------------- strings

  function HexEscape(c: CodeUnit): Text {
    [BACKSLASH, 117, HexOf(c / 16 / 16 / 16), HexOf(c / 16 / 16 % 16), HexOf(c / 16 % 16), HexOf(c % 16)]
  }

  /** One unit that does not belong to a surrogate pair. */
  function EscapeUnit(c: CodeUnit): Text {
    if c == QUOTE || c == BACKSLASH then [BACKSLASH, c]
    else if c == 8 then [BACKSLASH, 98]
    else if c == 9 then [BACKSLASH, 116]
    else if c == 10 then [BACKSLASH, 110]
    else if c == 12 then [BACKSLASH, 102]
    else if c == 13 then [BACKSLASH, 114]
    else if c < 0x20 || IsHigh(c) || IsLow(c) then HexEscape(c)
    else [c]
  }

  function EscapeFirst(s: Text): Text
    requires s != []
  {
    if StartsWithPair(s) then s[..2] else EscapeUnit(s[0])
  }

  function Escape(s: Text): Text {
    if s == [] then [] else EscapeFirst(s) + Escape(s[Width(s)..])
  }

  function Quote(s: Text): Text {
    [QUOTE] + Escape(s) + [QUOTE]
  }

  // ---------------------------------------------------------------- members

  /** One member of an object with its value already printed. */
  datatype Printed = Printed(key: Text, text: Text)

  /** Order of keys by UTF-16 code units. */
  predicate Before(a: Text, b: Text) {
    b != [] && (a == [] || a[0] < b[0] || (a[0] == b[0] && Before(a[1..], b[1..])))
  }

  function Insert(p: Printed, ps: seq<Printed>): seq<Printed> {
    if ps == [] || !Before(ps[0].key, p.key) then [p] + ps else [ps[0]] + Insert(p, ps[1..])
  }

  function SortByKey(ps: seq<Printed>): seq<Printed> {
    if ps == [] then [] else Insert(ps[0], SortByKey(ps[1..]))
  }

  function MemberText(p: Printed): Text {
    Quote(p.key) + [COLON] + p.text
  }

  function MemberTexts(ps: seq<Printed>): (ts: seq<Text>)
    ensures |ts| == |ps|
  {
    seq(|ps|, i requires 0 <= i < |ps| => MemberText(ps[i]))
  }

  function Join(ts: seq<Text>): Text {
    if ts == [] then []
    else if |ts| == 1 then ts[0]
    else ts[0] + [COMMA] + Join(ts[1..])
  }

  function Bracket(open: CodeUnit, ts: seq<Text>, close: CodeUnit): Text {
    [open] + Join(ts) + [close]
  }

  // ---------------------------------------------------------------- values

  /** The canonical text of a value. */
  function TextOf(v: Value): Text
    decreases v, 1
  {
    match v
    case Null => Ascii("null")
    case Bool(b) => if b then Ascii("true") else Ascii("false")
    case Number(token) => token
    case String(text) => Quote(text)
    case Array(items) => Bracket(OPEN_ARRAY, ItemTexts(items), CLOSE_ARRAY)
    case Object(fields) => Bracket(OPEN_OBJECT, FieldTexts(fields), CLOSE_OBJECT)
    case NonFinite(_) => []
    case NotJson => []
  }

  function ItemTexts(items: seq<Value>): (ts: seq<Text>)
    ensures |ts| == |items|
    ensures forall i | 0 <= i < |items| :: ts[i] == TextOf(items[i])
    decreases items, 0
  {
    if items == [] then [] else [TextOf(items[0])] + ItemTexts(items[1..])
  }

  function PrintFields(fields: seq<Field>): (ps: seq<Printed>)
    ensures |ps| == |fields|
    ensures forall i | 0 <= i < |fields| :: ps[i] == Printed(fields[i].key, TextOf(fields[i].value))
    decreases fields, 0
  {
    if fields == [] then []
    else [Printed(fields[0].key, TextOf(fields[0].value))] + PrintFields(fields[1..])
  }

  function FieldTexts(fields: seq<Field>): seq<Text>
    decreases fields, 1
  {
    MemberTexts(SortByKey(PrintFields(fields)))
  }

  /** The UTF-8 bytes of the canonical form, or `None` where the guard throws. */
  function CanonicalBytes(v: Value): Option<Bytes> {
    if AssertJsonValue(v, 0) then Some(Encode(TextOf(v))) else None
  }

  // ---------------------------------------------------------------- strings are self-delimiting

  lemma HexDigits(c: nat, d: nat)
    ensures c / 16 == d / 16 && c % 16 == d % 16 ==> c == d
  {
  }

  lemma HexEscapeInjective(c: CodeUnit, d: CodeUnit)
    requires HexEscape(c) == HexEscape(d)
    ensures c == d
  {
    var u, v := HexEscape(c), HexEscape(d);
    assert u[2] == v[2] && u[3] == v[3] && u[4] == v[4] && u[5] == v[5];
    HexDigits(c / 16 / 16, d / 16 / 16);
    HexDigits(c / 16, d / 16);
    HexDigits(c, d);
  }

  lemma EscapeFirstDetermined(s: Text, t: Text, x: Text, y: Text)
    requires s != [] && t != []
    requires EscapeFirst(s) + x == EscapeFirst(t) + y
    ensures Width(s) == Width(t) && s[..Width(s)] == t[..Width(t)] && x == y
  {
    var u, v := EscapeFirst(s), EscapeFirst(t);
    assert u[0] == (u + x)[0] == (v + y)[0] == v[0];
    if |u| >= 2 {
      assert |v| >= 2;
      assert u[1] == (u + x)[1] == (v + y)[1] == v[1];
    }
    assert |u| == |v|;
    assert u == (u + x)[..|u|] == (v + y)[..|u|] == v;
    assert x == (u + x)[|u|..] == (v + y)[|u|..] == y;
    if |u| == 6 {
      HexEscapeInjective(s[0], t[0]);
    }
  }

  lemma EscapeStep(s: Text, z: Text)
    requires s != []
    ensures Escape(s) + z == EscapeFirst(s) + (Escape(s[Width(s)..]) + z)
    ensures EscapeFirst(s) != [] && EscapeFirst(s)[0] != QUOTE
  {
    assert (EscapeFirst(s) + Escape(s[Width(s)..])) + z == EscapeFirst(s) + (Escape(s[Width(s)..]) + z);
  }

  lemma {:induction false} EscapeDetermined(s: Text, t: Text, x: Text, y: Text)
    requires Escape(s) + ([QUOTE] + x) == Escape(t) + ([QUOTE] + y)
    ensures s == t && x == y
  {
    if s == [] || t == [] {
      EscapeEndDetermined(s, t, x, y);
    } else {
      var s', t' := s[Width(s)..], t[Width(t)..];
      EscapeStep(s, [QUOTE] + x);
      EscapeStep(t, [QUOTE] + y);
      EscapeFirstDetermined(s, t, Escape(s') + ([QUOTE] + x), Escape(t') + ([QUOTE] + y));
      EscapeDetermined(s', t', x, y);
      assert s == s[..Width(s)] + s' && t == t[..Width(t)] + t';
    }
  }

  lemma EscapeEndDetermined(s: Text, t: Text, x: Text, y: Text)
    requires s == [] || t == []
    requires Escape(s) + ([QUOTE] + x) == Escape(t) + ([QUOTE] + y)
    ensures s == t && x == y
  {
    var l, r := Escape(s) + ([QUOTE] + x), Escape(t) + ([QUOTE] + y);
    assert l[0] == r[0];
    if s != [] {
      EscapeStep(s, [QUOTE] + x);
    }
    if t != [] {
      EscapeStep(t, [QUOTE] + y);
    }
    assert x == l[1..] == r[1..] == y;
  }

  lemma QuoteThen(s: Text, x: Text)
    ensures Quote(s) + x == [QUOTE] + (Escape(s) + ([QUOTE] + x))
  {
  }

  lemma QuoteDetermined(s: Text, t: Text, x: Text, y: Text)
    requires Quote(s) + x == Quote(t) + y
    ensures s == t && x == y
  {
    QuoteThen(s, x);
    QuoteThen(t, y);
    var l, r := Escape(s) + ([QUOTE] + x), Escape(t) + ([QUOTE] + y);
    assert l == ([QUOTE] + l)[1..] == ([QUOTE] + r)[1..] == r;
    EscapeDetermined(s, t, x, y);
  }

  // ---------------------------------------------------------------- values are self-delimiting

  /** What can follow a value inside a larger text. */
  predicate Delimited(x: Text) {
    x == [] || x[0] == COMMA || x[0] == CLOSE_ARRAY || x[0] == CLOSE_OBJECT
  }

  /** No text that starts with `t` and goes on can also start with another `u` and go on. */
  ghost predicate Unambiguous(t: Text, u: Text) {
    forall x, y :: Delimited(x) && Delimited(y) && t + x == u + y ==> t == u
  }

  /** A list item never looks like the end of its list. */
  predicate Item(t: Text) {
    t != [] && t[0] != CLOSE_ARRAY && t[0] != CLOSE_OBJECT
  }

  /** What follows the first item of a list, up to and including the closing unit. */
  function AfterFirst(ts: seq<Text>, z: Text): Text
    requires ts != []
  {
    if |ts| == 1 then z else [COMMA] + (Join(ts[1..]) + z)
  }

  lemma JoinStep(ts: seq<Text>, z: Text)
    requires ts != []
    ensures Join(ts) + z == ts[0] + AfterFirst(ts, z)
    ensures ts[0] != [] ==> (Join(ts) + z)[0] == ts[0][0]
  {
    if |ts| > 1 {
      assert ts[0] + [COMMA] + Join(ts[1..]) + z == ts[0] + ([COMMA] + (Join(ts[1..]) + z));
    }
  }

  lemma JoinEndDetermined(ts: seq<Text>, us: seq<Text>, close: CodeUnit, x: Text, y: Text)
    requires close == CLOSE_ARRAY || close == CLOSE_OBJECT
    requires ts == [] || us == []
    requires forall t | t in ts :: Item(t)
    requires forall u | u in us :: Item(u)
    requires Join(ts) + ([close] + x) == Join(us) + ([close] + y)
    ensures ts == us && x == y
  {
    var l, r := Join(ts) + ([close] + x), Join(us) + ([close] + y);
    assert ts != [] ==> Item(ts[0]);
    assert us != [] ==> Item(us[0]);
    if ts != [] {
      JoinStep(ts, [close] + x);
    }
    if us != [] {
      JoinStep(us, [close] + y);
    }
    assert l[0] == r[0];
    assert x == l[1..] == r[1..] == y;
  }

  lemma {:induction false} JoinDetermined(ts: seq<Text>, us: seq<Text>, close: CodeUnit, x: Text, y: Text)
    requires close == CLOSE_ARRAY || close == CLOSE_OBJECT
    requires forall t | t in ts :: Item(t)
    requires forall u | u in us :: Item(u)
    requires forall t, u | t in ts && u in us :: Unambiguous(t, u)
    requires Join(ts) + ([close] + x) == Join(us) + ([close] + y)
    ensures ts == us && x == y
  {
    if ts == [] || us == [] {
      JoinEndDetermined(ts, us, close, x, y);
    } else {
      var a, b := AfterFirst(ts, [close] + x), AfterFirst(us, [close] + y);
      JoinStep(ts, [close] + x);
      JoinStep(us, [close] + y);
      assert ts[0] in ts && us[0] in us;
      assert Unambiguous(ts[0], us[0]);
      assert a == (ts[0] + a)[|ts[0]|..] == (us[0] + b)[|us[0]|..] == b;
      assert a[0] == b[0] && a[1..] == b[1..];
      if |ts| > 1 {
        JoinDetermined(ts[1..], us[1..], close, x, y);
        assert ts == [ts[0]] + ts[1..] && us == [us[0]] + us[1..];
      } else {
        assert x == a[1..] && y == b[1..];
      }
    }
  }

  /** How many number units a text starts with. */
  function NumberRun(s: Text): nat {
    if s != [] && NumberUnit(s[0]) then 1 + NumberRun(s[1..]) else 0
  }

  lemma {:induction false} TokenIsWholeRun(t: Text, x: Text)
    requires forall i | 0 <= i < |t| :: NumberUnit(t[i])
    requires Delimited(x)
    ensures NumberRun(t + x) == |t|
  {
    if t == [] {
      assert t + x == x;
    } else {
      assert (t + x)[1..] == t[1..] + x;
      TokenIsWholeRun(t[1..], x);
    }
  }

  lemma NumberUnambiguous(t: Text, u: Text)
    requires NumberToken(t) && NumberToken(u)
    ensures Unambiguous(t, u)
  {
    forall x, y | Delimited(x) && Delimited(y) && t + x == u + y
      ensures t == u
    {
      TokenIsWholeRun(t, x);
      TokenIsWholeRun(u, y);
      assert t == (t + x)[..|t|] == (u + y)[..|u|] == u;
    }
  }

  lemma MemberTextDetermined(p: Printed, q: Printed, x: Text, y: Text)
    requires MemberText(p) + x == MemberText(q) + y
    ensures p.key == q.key && p.text + x == q.text + y
  {
    var s, t := [COLON] + (p.text + x), [COLON] + (q.text + y);
    assert MemberText(p) + x == Quote(p.key) + s;
    assert MemberText(q) + y == Quote(q.key) + t;
    QuoteDetermined(p.key, q.key, s, t);
    assert p.text + x == s[1..] == t[1..] == q.text + y;
  }

  lemma MemberUnambiguous(p: Printed, q: Printed)
    requires Unambiguous(p.text, q.text)
    ensures Unambiguous(MemberText(p), MemberText(q))
  {
    forall x, y | Delimited(x) && Delimited(y) && MemberText(p) + x == MemberText(q) + y
      ensures MemberText(p) == MemberText(q)
    {
      MemberTextDetermined(p, q, x, y);
    }
  }

  lemma {:induction false} InsertKeeps(p: Printed, ps: seq<Printed>)
    ensures multiset(Insert(p, ps)) == multiset(ps) + multiset{p}
  {
    if ps == [] || !Before(ps[0].key, p.key) {
    } else {
      InsertKeeps(p, ps[1..]);
      assert ps == [ps[0]] + ps[1..];
    }
  }

  lemma {:induction false} SortKeeps(ps: seq<Printed>)
    ensures multiset(SortByKey(ps)) == multiset(ps)
  {
    if ps != [] {
      SortKeeps(ps[1..]);
      InsertKeeps(ps[0], SortByKey(ps[1..]));
      assert ps == [ps[0]] + ps[1..];
    }
  }

  lemma SortHas(ps: seq<Printed>, p: Printed)
    ensures p in SortByKey(ps) <==> p in ps
  {
    SortKeeps(ps);
    assert p in SortByKey(ps) <==> p in multiset(SortByKey(ps));
    assert p in ps <==> p in multiset(ps);
  }

  /** A list opens with its items, so it is an item itself. */
  lemma ValueIsItem(v: Value)
    requires IsJson(v)
    ensures Item(TextOf(v))
  {
    if v.Number? {
      assert NumberUnit(v.token[0]);
    }
  }

  lemma MemberItem(p: Printed)
    ensures Item(MemberText(p))
  {
  }

  lemma FieldOf(fields: seq<Field>, t: Text) returns (f: Field)
    requires t in FieldTexts(fields)
    ensures f in fields && t == MemberText(Printed(f.key, TextOf(f.value)))
  {
    var sorted := SortByKey(PrintFields(fields));
    var i :| 0 <= i < |sorted| && MemberTexts(sorted)[i] == t;
    SortHas(PrintFields(fields), sorted[i]);
    var j :| 0 <= j < |fields| && PrintFields(fields)[j] == sorted[i];
    f := fields[j];
  }

  lemma BracketDetermined(ts: seq<Text>, us: seq<Text>, open: CodeUnit, close: CodeUnit, x: Text, y: Text)
    requires close == CLOSE_ARRAY || close == CLOSE_OBJECT
    requires forall t | t in ts :: Item(t)
    requires forall u | u in us :: Item(u)
    requires forall t, u | t in ts && u in us :: Unambiguous(t, u)
    requires Bracket(open, ts, close) + x == Bracket(open, us, close) + y
    ensures ts == us
  {
    assert Join(ts) + ([close] + x) == (Bracket(open, ts, close) + x)[1..];
    assert Join(us) + ([close] + y) == (Bracket(open, us, close) + y)[1..];
    JoinDetermined(ts, us, close, x, y);
  }

  lemma ItemTextsAreItems(items: seq<Value>)
    requires forall x | x in items :: IsJson(x)
    ensures forall t | t in ItemTexts(items) :: Item(t)
  {
    forall t | t in ItemTexts(items)
      ensures Item(t)
    {
      var i :| 0 <= i < |items| && ItemTexts(items)[i] == t;
      ValueIsItem(items[i]);
    }
  }

  lemma FieldTextsAreItems(fields: seq<Field>)
    ensures forall t | t in FieldTexts(fields) :: Item(t)
  {
    forall t | t in FieldTexts(fields)
      ensures Item(t)
    {
      var f := FieldOf(fields, t);
      MemberItem(Printed(f.key, TextOf(f.value)));
    }
  }

  lemma {:induction false} ItemsUnambiguous(v: Value, w: Value)
    requires IsJson(v) && IsJson(w) && v.Array? && w.Array?
    ensures forall t, u | t in ItemTexts(v.items) && u in ItemTexts(w.items) :: Unambiguous(t, u)
    decreases v, 0
  {
    forall t, u | t in ItemTexts(v.items) && u in ItemTexts(w.items)
      ensures Unambiguous(t, u)
    {
      var i :| 0 <= i < |v.items| && ItemTexts(v.items)[i] == t;
      var j :| 0 <= j < |w.items| && ItemTexts(w.items)[j] == u;
      ValueUnambiguous(v.items[i], w.items[j]);
    }
  }

  lemma {:induction false} FieldsUnambiguous(v: Value, w: Value)
    requires IsJson(v) && IsJson(w) && v.Object? && w.Object?
    ensures forall t, u | t in FieldTexts(v.fields) && u in FieldTexts(w.fields) :: Unambiguous(t, u)
    decreases v, 0
  {
    forall t, u | t in FieldTexts(v.fields) && u in FieldTexts(w.fields)
      ensures Unambiguous(t, u)
    {
      var f := FieldOf(v.fields, t);
      var g := FieldOf(w.fields, u);
      ValueUnambiguous(f.value, g.value);
      MemberUnambiguous(Printed(f.key, TextOf(f.value)), Printed(g.key, TextOf(g.value)));
    }
  }

  /** The first unit of a value's text tells which kind of value it is. */
  function Opening(v: Value): CodeUnit
    requires IsJson(v)
  {
    match v
    case Null => 110
    case Bool(b) => if b then 116 else 102
    case Number(token) => token[0]
    case String(_) => QUOTE
    case Array(_) => OPEN_ARRAY
    case Object(_) => OPEN_OBJECT
  }

  lemma OpeningIsFirst(v: Value, x: Text)
    requires IsJson(v)
    ensures TextOf(v) != [] && (TextOf(v) + x)[0] == Opening(v)
    ensures v.Number? ==> NumberUnit(Opening(v))
  {
  }

  /** Every canonical text is self-delimiting: no value's text is a proper beginning of another's. */
  lemma {:induction false} ValueUnambiguous(v: Value, w: Value)
    requires IsJson(v) && IsJson(w)
    ensures Unambiguous(TextOf(v), TextOf(w))
    decreases v, 1
  {
    if v.Number? && w.Number? {
      NumberUnambiguous(v.token, w.token);
    } else {
      forall x, y | Delimited(x) && Delimited(y) && TextOf(v) + x == TextOf(w) + y
        ensures TextOf(v) == TextOf(w)
      {
        OpeningIsFirst(v, x);
        OpeningIsFirst(w, y);
        if v.String? {
          QuoteDetermined(v.text, w.text, x, y);
        } else if v.Array? {
          ItemsUnambiguous(v, w);
          ItemTextsAreItems(v.items);
          ItemTextsAreItems(w.items);
          BracketDetermined(ItemTexts(v.items), ItemTexts(w.items), OPEN_ARRAY, CLOSE_ARRAY, x, y);
        } else if v.Object? {
          FieldsUnambiguous(v, w);
          FieldTextsAreItems(v.fields);
          FieldTextsAreItems(w.fields);
          BracketDetermined(FieldTexts(v.fields), FieldTexts(w.fields), OPEN_OBJECT, CLOSE_OBJECT, x, y);
        }
      }
    }
  }

  // ---------------------------------------------------------------- same text, same value

  /** The text of an object determines the printed members it was joined from. */
  lemma MemberTextsInjective(ps: seq<Printed>, qs: seq<Printed>)
    requires MemberTexts(ps) == MemberTexts(qs)
    ensures ps == qs
  {
    forall i | 0 <= i < |ps|
      ensures ps[i] == qs[i]
    {
      assert MemberTexts(ps)[i] == MemberTexts(qs)[i];
      MemberTextDetermined(ps[i], qs[i], [], []);
      assert ps[i].text + [] == ps[i].text && qs[i].text + [] == qs[i].text;
    }
  }

  lemma FieldTextsInjective(v: Value, w: Value)
    requires IsJson(v) && IsJson(w) && v.Object? && w.Object?
    requires TextOf(v) == TextOf(w)
    ensures SortByKey(PrintFields(v.fields)) == SortByKey(PrintFields(w.fields))
  {
    FieldsUnambiguous(v, w);
    FieldTextsAreItems(v.fields);
    FieldTextsAreItems(w.fields);
    assert Bracket(OPEN_OBJECT, FieldTexts(v.fields), CLOSE_OBJECT) + []
        == Bracket(OPEN_OBJECT, FieldTexts(w.fields), CLOSE_OBJECT) + [];
    BracketDetermined(FieldTexts(v.fields), FieldTexts(w.fields), OPEN_OBJECT, CLOSE_OBJECT, [], []);
    MemberTextsInjective(SortByKey(PrintFields(v.fields)), SortByKey(PrintFields(w.fields)));
  }

  /** A field of one object has its counterpart in the other when the sorted members are the same. */
  lemma Counterpart(fs: seq<Field>, gs: seq<Field>, f: Field) returns (g: Field)
    requires SortByKey(PrintFields(fs)) == SortByKey(PrintFields(gs))
    requires f in fs
    ensures g in gs && f.key == g.key && TextOf(f.value) == TextOf(g.value)
  {
    var i :| 0 <= i < |fs| && fs[i] == f;
    assert PrintFields(fs)[i] in PrintFields(fs);
    SortHas(PrintFields(fs), PrintFields(fs)[i]);
    SortHas(PrintFields(gs), PrintFields(fs)[i]);
    var j :| 0 <= j < |gs| && PrintFields(gs)[j] == PrintFields(fs)[i];
    g := gs[j];
  }

  lemma {:induction false} SameTextSameValue(v: Value, w: Value)
    requires IsJson(v) && IsJson(w)
    requires TextOf(v) == TextOf(w)
    ensures SameValue(v, w)
    decreases v
  {
    OpeningIsFirst(v, []);
    OpeningIsFirst(w, []);
    assert TextOf(v) + [] == TextOf(v) && TextOf(w) + [] == TextOf(w);
    match v
    case String(text) =>
      QuoteDetermined(text, w.text, [], []);
    case Array(items) =>
      ItemsUnambiguous(v, w);
      ItemTextsAreItems(items);
      ItemTextsAreItems(w.items);
      BracketDetermined(ItemTexts(items), ItemTexts(w.items), OPEN_ARRAY, CLOSE_ARRAY, [], []);
      forall i | 0 <= i < |items|
        ensures SameValue(items[i], w.items[i])
      {
        assert ItemTexts(items)[i] == ItemTexts(w.items)[i];
        SameTextSameValue(items[i], w.items[i]);
      }
    case Object(fields) =>
      FieldTextsInjective(v, w);
      forall f | f in fields
        ensures MatchedIn(f, w.fields)
      {
        var g := Counterpart(fields, w.fields, f);
        SameTextSameValue(f.value, g.value);
      }
      forall g | g in w.fields
        ensures MatchedBy(fields, g)
      {
        var f := Counterpart(w.fields, fields, g);
        SameTextSameValue(f.value, g.value);
      }
    case _ =>
  }

  // ---------------------------------------------------------------- same value, same text

  predicate SortedByKey(ps: seq<Printed>) {
    forall i, j | 0 <= i < j < |ps| :: Before(ps[i].key, ps[j].key)
  }

  predicate DistinctPrinted(ps: seq<Printed>) {
    forall i, j | 0 <= i < j < |ps| :: ps[i].key != ps[j].key
  }

  lemma {:induction false} BeforeIsTotal(a: Text, b: Text)
    ensures Before(a, b) || Before(b, a) || a == b
  {
    if a != [] && b != [] && a[0] == b[0] {
      BeforeIsTotal(a[1..], b[1..]);
      assert a == [a[0]] + a[1..] && b == [b[0]] + b[1..];
    }
  }

  lemma {:induction false} BeforeIsTransitive(a: Text, b: Text, c: Text)
    requires Before(a, b) && Before(b, c)
    ensures Before(a, c)
  {
    if a != [] && a[0] == b[0] == c[0] {
      BeforeIsTransitive(a[1..], b[1..], c[1..]);
    }
  }

  lemma {:induction false} BeforeIsStrict(a: Text, b: Text)
    requires Before(a, b)
    ensures a != b && !Before(b, a)
  {
    if a != [] && a[0] == b[0] {
      BeforeIsStrict(a[1..], b[1..]);
    }
  }

  lemma {:induction false} InsertSorted(p: Printed, ps: seq<Printed>)
    requires SortedByKey(ps)
    requires forall q | q in ps :: q.key != p.key
    ensures SortedByKey(Insert(p, ps))
  {
    var r := Insert(p, ps);
    if ps == [] {
    } else if !Before(ps[0].key, p.key) {
      BeforeIsTotal(ps[0].key, p.key);
      forall j | 0 <= j < |ps|
        ensures Before(p.key, ps[j].key)
      {
        if j > 0 {
          BeforeIsTransitive(p.key, ps[0].key, ps[j].key);
        }
      }
    } else {
      InsertSorted(p, ps[1..]);
      InsertKeeps(p, ps[1..]);
      forall q | q in Insert(p, ps[1..])
        ensures Before(ps[0].key, q.key)
      {
        assert q in multiset(Insert(p, ps[1..]));
        assert q == p || q in ps[1..];
      }
    }
  }

  lemma {:induction false} SortSorts(ps: seq<Printed>)
    requires DistinctPrinted(ps)
    ensures SortedByKey(SortByKey(ps))
  {
    if ps != [] {
      SortSorts(ps[1..]);
      forall q | q in SortByKey(ps[1..])
        ensures q.key != ps[0].key
      {
        SortHas(ps[1..], q);
      }
      InsertSorted(ps[0], SortByKey(ps[1..]));
    }
  }

  /** Two strictly sorted lists with the same members are the same list. */
  lemma {:induction false} SortedUnique(ps: seq<Printed>, qs: seq<Printed>)
    requires SortedByKey(ps) && SortedByKey(qs)
    requires forall p :: p in ps <==> p in qs
    ensures ps == qs
  {
    assert ps != [] ==> ps[0] in ps;
    assert qs != [] ==> qs[0] in qs;
    if ps != [] && qs != [] {
      assert ps[0] in qs && qs[0] in ps;
      if ps[0] != qs[0] {
        BeforeIsStrict(ps[0].key, qs[0].key);
        assert false;
      }
      forall p
        ensures p in ps[1..] <==> p in qs[1..]
      {
        if p in ps[1..] {
          BeforeIsStrict(ps[0].key, p.key);
          assert p in qs;
        }
        if p in qs[1..] {
          BeforeIsStrict(qs[0].key, p.key);
          assert p in ps;
        }
      }
      SortedUnique(ps[1..], qs[1..]);
    }
  }

  lemma PrintedIn(fs: seq<Field>, p: Printed)
    ensures p in PrintFields(fs) <==> exists f :: f in fs && p == Printed(f.key, TextOf(f.value))
  {
    if p in PrintFields(fs) {
      var i :| 0 <= i < |fs| && PrintFields(fs)[i] == p;
      assert fs[i] in fs;
    }
    if f :| f in fs && p == Printed(f.key, TextOf(f.value)) {
      var i :| 0 <= i < |fs| && fs[i] == f;
      assert PrintFields(fs)[i] == p;
    }
  }

  lemma SamePrintedSorted(ps: seq<Printed>, qs: seq<Printed>)
    requires DistinctPrinted(ps) && DistinctPrinted(qs)
    requires forall p :: p in ps <==> p in qs
    ensures SortByKey(ps) == SortByKey(qs)
  {
    forall p
      ensures p in SortByKey(ps) <==> p in SortByKey(qs)
    {
      SortHas(ps, p);
      SortHas(qs, p);
    }
    SortSorts(ps);
    SortSorts(qs);
    SortedUnique(SortByKey(ps), SortByKey(qs));
  }

  /** Each field of the first object has a field with the same key and text in the second. */
  ghost predicate TextsCarryOver(fs: seq<Field>, gs: seq<Field>) {
    forall f | f in fs :: exists g :: g in gs && f.key == g.key && TextOf(f.value) == TextOf(g.value)
  }

  lemma PrintedCarriesOver(fs: seq<Field>, gs: seq<Field>, p: Printed)
    requires TextsCarryOver(fs, gs)
    requires p in PrintFields(fs)
    ensures p in PrintFields(gs)
  {
    PrintedIn(fs, p);
    var f :| f in fs && p == Printed(f.key, TextOf(f.value));
    var g :| g in gs && f.key == g.key && TextOf(f.value) == TextOf(g.value);
    PrintedIn(gs, p);
  }

  lemma {:induction false} FieldsCarryOver(v: Value, w: Value)
    requires IsJson(v) && IsJson(w) && v.Object? && w.Object?
    requires SameValue(v, w)
    ensures TextsCarryOver(v.fields, w.fields)
    decreases v, 0
  {
    forall f | f in v.fields
      ensures exists g :: g in w.fields && f.key == g.key && TextOf(f.value) == TextOf(g.value)
    {
      assert MatchedIn(f, w.fields);
      var g :| g in w.fields && f.key == g.key && SameValue(f.value, g.value);
      SameValueSameText(f.value, g.value);
    }
  }

  lemma {:induction false} FieldsCarryBack(v: Value, w: Value)
    requires IsJson(v) && IsJson(w) && v.Object? && w.Object?
    requires SameValue(v, w)
    ensures TextsCarryOver(w.fields, v.fields)
    decreases v, 0
  {
    forall g | g in w.fields
      ensures exists f :: f in v.fields && g.key == f.key && TextOf(g.value) == TextOf(f.value)
    {
      assert MatchedBy(v.fields, g);
      var f :| f in v.fields && f.key == g.key && SameValue(f.value, g.value);
      SameValueSameText(f.value, g.value);
    }
  }

  lemma {:induction false} SameValueSameText(v: Value, w: Value)
    requires IsJson(v) && IsJson(w)
    requires SameValue(v, w)
    ensures TextOf(v) == TextOf(w)
    decreases v, 1
  {
    match v
    case Array(items) =>
      forall i | 0 <= i < |items|
        ensures TextOf(items[i]) == TextOf(w.items[i])
      {
        SameValueSameText(items[i], w.items[i]);
      }
      assert ItemTexts(items) == ItemTexts(w.items);
    case Object(fields) =>
      FieldsCarryOver(v, w);
      FieldsCarryBack(v, w);
      forall p
        ensures p in PrintFields(fields) <==> p in PrintFields(w.fields)
      {
        if p in PrintFields(fields) {
          PrintedCarriesOver(fields, w.fields, p);
        }
        if p in PrintFields(w.fields) {
          PrintedCarriesOver(w.fields, fields, p);
        }
      }
      SamePrintedSorted(PrintFields(fields), PrintFields(w.fields));
    case _ =>
  }

  /** The canonical text identifies exactly the value, up to the order of object members. */
  lemma TextIdentifiesValue(v: Value, w: Value)
    requires IsJson(v) && IsJson(w)
    ensures TextOf(v) == TextOf(w) <==> SameValue(v, w)
  {
    if TextOf(v) == TextOf(w) {
      SameTextSameValue(v, w);
    }
    if SameValue(v, w) {
      SameValueSameText(v, w);
    }
  }

  // ---------------------------------------------------------------- bytes

  lemma {:induction false} PlainUnitsWellFormed(s: Text)
    requires forall i | 0 <= i < |s| :: !IsHigh(s[i]) && !IsLow(s[i])
    ensures WellFormed(s)
  {
    if s != [] {
      PlainUnitsWellFormed(s[1..]);
    }
  }

  lemma {:induction false} EscapeWellFormed(s: Text)
    ensures WellFormed(Escape(s))
  {
    if s != [] {
      if StartsWithPair(s) {
        assert s[..2][2..] == [];
      } else {
        PlainUnitsWellFormed(EscapeUnit(s[0]));
      }
      EscapeWellFormed(s[Width(s)..]);
      WellFormedConcat(EscapeFirst(s), Escape(s[Width(s)..]));
    }
  }

  lemma WellFormedThree(a: Text, b: Text, c: Text)
    requires WellFormed(a) && WellFormed(b) && WellFormed(c)
    ensures WellFormed(a + b + c)
  {
    WellFormedConcat(a, b);
    WellFormedConcat(a + b, c);
  }

  lemma QuoteWellFormed(s: Text)
    ensures WellFormed(Quote(s))
  {
    EscapeWellFormed(s);
    PlainUnitsWellFormed([QUOTE]);
    WellFormedThree([QUOTE], Escape(s), [QUOTE]);
  }

  lemma {:induction false} JoinWellFormed(ts: seq<Text>)
    requires forall t | t in ts :: WellFormed(t)
    ensures WellFormed(Join(ts))
  {
    if |ts| > 1 {
      JoinWellFormed(ts[1..]);
      PlainUnitsWellFormed([COMMA]);
      WellFormedThree(ts[0], [COMMA], Join(ts[1..]));
    }
  }

  lemma BracketWellFormed(open: CodeUnit, ts: seq<Text>, close: CodeUnit)
    requires open < 0x80 && close < 0x80
    requires forall t | t in ts :: WellFormed(t)
    ensures WellFormed(Bracket(open, ts, close))
  {
    JoinWellFormed(ts);
    PlainUnitsWellFormed([open]);
    PlainUnitsWellFormed([close]);
    WellFormedThree([open], Join(ts), [close]);
  }

  /** Canonical text holds no lone surrogate, whatever the strings in the value hold. */
  lemma {:induction false} TextWellFormed(v: Value)
    requires IsJson(v)
    ensures WellFormed(TextOf(v))
  {
    match v
    case Number(token) =>
      forall i | 0 <= i < |token|
        ensures !IsHigh(token[i]) && !IsLow(token[i])
      {
        assert NumberUnit(token[i]);
      }
      PlainUnitsWellFormed(token);
    case String(text) =>
      QuoteWellFormed(text);
    case Array(items) =>
      forall t | t in ItemTexts(items)
        ensures WellFormed(t)
      {
        var i :| 0 <= i < |items| && ItemTexts(items)[i] == t;
        TextWellFormed(items[i]);
      }
      BracketWellFormed(OPEN_ARRAY, ItemTexts(items), CLOSE_ARRAY);
    case Object(fields) =>
      forall t | t in FieldTexts(fields)
        ensures WellFormed(t)
      {
        var f := FieldOf(fields, t);
        TextWellFormed(f.value);
        QuoteWellFormed(f.key);
        PlainUnitsWellFormed([COLON]);
        WellFormedThree(Quote(f.key), [COLON], TextOf(f.value));
      }
      BracketWellFormed(OPEN_OBJECT, FieldTexts(fields), CLOSE_OBJECT);
    case _ =>
      PlainUnitsWellFormed(TextOf(v));
  }

  /** The bytes that are hashed identify exactly the value, up to the order of object members. */
  lemma BytesIdentifyValue(v: JsValue, w: JsValue)
    requires CanonicalBytes(v).Some? && CanonicalBytes(w).Some?
    ensures CanonicalBytes(v) == CanonicalBytes(w) <==> SameValue(v, w)
  {
    GuardIsDepth(v, 0);
    GuardIsDepth(w, 0);
    TextIdentifiesValue(v, w);
    TextWellFormed(v);
    TextWellFormed(w);
    if CanonicalBytes(v) == CanonicalBytes(w) {
      EncodeInjective(TextOf(v), TextOf(w));
    }
  }
}
