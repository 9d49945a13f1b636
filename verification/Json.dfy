/**
 * The values the program passes around as `unknown`, and the two depth walks over
 * them: the guard of canonicalization and the guard of the reader.
 */
module Json {
  import opened Unicode

  /** The depth limit both walks share. */
  const MAX_JSON_DEPTH: nat := 200

  datatype Field = Field(key: Text, value: Value)

  /**
   * A JavaScript value. A finite number is identified by its canonical decimal text, so
   * the two zeros are one number, as RFC 8785 serializes them. `NonFinite` is an infinity,
   * which JSON cannot represent but a JSON text still parses to when it writes a number
   * beyond the double range, such as 1e400. `NotJson` is any value no JSON text parses to:
   * undefined, a function, NaN, a non-plain object.
   */
  datatype Value =
    | Null
    | Bool(b: bool)
    | Number(token: Text)
    | NonFinite(negative: bool)
    | String(text: Text)
    | Array(items: seq<Value>)
    | Object(fields: seq<Field>)
    | NotJson

  predicate DistinctKeys(fields: seq<Field>) {
    forall i, j | 0 <= i < j < |fields| :: fields[i].key != fields[j].key
  }

  /** A digit, a sign, the decimal point or an exponent mark. */
  predicate NumberUnit(c: CodeUnit) {
    48 <= c <= 57 || c == 43 || c == 45 || c == 46 || c == 69 || c == 101
  }

  predicate NumberToken(t: Text) {
    t != [] && forall i | 0 <= i < |t| :: NumberUnit(t[i])
  }

  /** What holds of every value by construction: an object never repeats a key. */
  predicate Representable(v: Value) {
    match v
    case Number(token) => NumberToken(token)
    case Array(items) => forall x | x in items :: Representable(x)
    case Object(fields) => DistinctKeys(fields) && forall f | f in fields :: Representable(f.value)
    case _ => true
  }

  /** Every value the program holds. */
  type JsValue = v: Value | Representable(v) witness Null

  /** A value some JSON text parses to. */
  predicate Parsed(v: Value) {
    match v
    case NotJson => false
    case Number(token) => NumberToken(token)
    case Array(items) => forall x | x in items :: Parsed(x)
    case Object(fields) => DistinctKeys(fields) && forall f | f in fields :: Parsed(f.value)
    case _ => true
  }

  /** Every number in the value is finite. */
  predicate Finite(v: Value) {
    match v
    case NonFinite(_) => false
    case Array(items) => forall x | x in items :: Finite(x)
    case Object(fields) => forall f | f in fields :: Finite(f.value)
    case _ => true
  }

  /** A value JSON can represent. */
  predicate IsJson(v: Value) {
    match v
    case NotJson => false
    case NonFinite(_) => false
    case Number(token) => NumberToken(token)
    case Array(items) => forall x | x in items :: IsJson(x)
    case Object(fields) => DistinctKeys(fields) && forall f | f in fields :: IsJson(f.value)
    case _ => true
  }

  /** What JSON can represent is what a text parses to when every number in it is finite. */
  lemma {:induction false} JsonIsFinite(v: Value)
    ensures IsJson(v) <==> Parsed(v) && Finite(v)
  {
    match v
    case Array(items) =>
      forall x | x in items
        ensures IsJson(x) <==> Parsed(x) && Finite(x)
      {
        JsonIsFinite(x);
      }
    case Object(fields) =>
      forall f | f in fields
        ensures IsJson(f.value) <==> Parsed(f.value) && Finite(f.value)
      {
        JsonIsFinite(f.value);
      }
    case _ =>
  }

  /** Equality of JSON values: the order of an object's members does not count. */
  ghost predicate SameValue(v: Value, w: Value)
    decreases v
  {
    match v
    case Array(items) =>
      w.Array? && |items| == |w.items| && forall i | 0 <= i < |items| :: SameValue(items[i], w.items[i])
    case Object(fields) =>
      && w.Object?
      && (forall f | f in fields :: MatchedIn(f, w.fields))
      && (forall g | g in w.fields :: MatchedBy(fields, g))
    case _ => v == w
  }

  ghost predicate MatchedIn(f: Field, gs: seq<Field>)
    decreases f
  {
    exists g :: g in gs && f.key == g.key && SameValue(f.value, g.value)
  }

  ghost predicate MatchedBy(fs: seq<Field>, g: Field)
    decreases fs
  {
    exists f :: f in fs && f.key == g.key && SameValue(f.value, g.value)
  }

  /** True when the canonicalization guard returns rather than throwing. */
  predicate AssertJsonValue(v: Value, depth: nat) {
    depth <= MAX_JSON_DEPTH &&
    match v
    case NonFinite(_) => false
    case NotJson => false
    case Array(items) => forall x | x in items :: AssertJsonValue(x, depth + 1)
    case Object(fields) => forall f | f in fields :: AssertJsonValue(f.value, depth + 1)
    case _ => true
  }

  predicate NestedTooDeep(v: Value, depth: nat) {
    depth > MAX_JSON_DEPTH ||
    match v
    case Array(items) => exists x | x in items :: NestedTooDeep(x, depth + 1)
    case Object(fields) => exists f | f in fields :: NestedTooDeep(f.value, depth + 1)
    case _ => false
  }

  lemma {:induction false} GuardIsDepth(v: Value, depth: nat)
    requires Representable(v)
    ensures AssertJsonValue(v, depth) <==> IsJson(v) && !NestedTooDeep(v, depth)
  {
    match v
    case Array(items) =>
      forall x | x in items
        ensures AssertJsonValue(x, depth + 1) <==> IsJson(x) && !NestedTooDeep(x, depth + 1)
      {
        GuardIsDepth(x, depth + 1);
      }
    case Object(fields) =>
      forall f | f in fields
        ensures AssertJsonValue(f.value, depth + 1) <==> IsJson(f.value) && !NestedTooDeep(f.value, depth + 1)
      {
        GuardIsDepth(f.value, depth + 1);
      }
    case _ =>
  }

  /** The two walks agree but for infinities: the guard accepts the finite values the depth walk lets through. */
  lemma GuardsAgree(v: Value, depth: nat)
    requires Representable(v)
    ensures AssertJsonValue(v, depth) <==> Parsed(v) && Finite(v) && !NestedTooDeep(v, depth)
  {
    GuardIsDepth(v, depth);
    JsonIsFinite(v);
  }

  /** A value nested this deep and no deeper. */
  function Nest(n: nat): Value {
    if n == 0 then Null else Array([Nest(n - 1)])
  }

  lemma {:induction false} NestDepth(n: nat, depth: nat)
    ensures NestedTooDeep(Nest(n), depth) <==> n + depth > 200
    ensures AssertJsonValue(Nest(n), depth) <==> n + depth <= 200
  {
    if n > 0 {
      NestDepth(n - 1, depth + 1);
      assert Nest(n).items == [Nest(n - 1)] && Nest(n - 1) in Nest(n).items;
    }
  }

  /** Both walks draw the line at two hundred levels. */
  lemma DepthLimit(n: nat)
    ensures NestedTooDeep(Nest(n), 0) <==> n > 200
    ensures AssertJsonValue(Nest(n), 0) <==> n <= 200
  {
    NestDepth(n, 0);
  }
}
