/** The entropy heuristic, over ideal reals: how concentrated the characters of a string are. */
module Entropy {
  import opened Wrappers
  import opened Unicode

  const MIN_ENTROPY_LENGTH: nat := 24
  const MAX_ENTROPY_LENGTH: nat := 4096
  const ENTROPY_THRESHOLD: real := 4.0
  const MIN_CHARACTER_CLASSES: nat := 3

  // ---------------------------------------------------------------- the logarithm

  ghost predicate ProductRule(log: real -> real, x: real, y: real) {
    x > 0.0 && y > 0.0 ==> log(x * y) == log(x) + log(y)
  }

  ghost predicate UnderTangent(log: real -> real, slope: real, x: real) {
    x > 0.0 ==> log(x) <= slope * (x - 1.0)
  }

  ghost predicate Increasing(log: real -> real, x: real, y: real) {
    0.0 < x < y ==> log(x) < log(y)
  }

  /**
   * What is used of the base-2 logarithm: it turns products into sums, it increases, and it
   * lies under its tangent at 1, whose slope is `slope`.
   */
  ghost predicate IsLog2(log: real -> real, slope: real) {
    && log(2.0) == 1.0
    && slope > 0.0
    && (forall x: real, y: real :: ProductRule(log, x, y))
    && (forall x: real, y: real :: Increasing(log, x, y))
    && (forall x: real :: UnderTangent(log, slope, x))
  }

  lemma LogOfProduct(log: real -> real, slope: real, x: real, y: real)
    requires IsLog2(log, slope) && x > 0.0 && y > 0.0
    ensures log(x * y) == log(x) + log(y)
  {
    assert ProductRule(log, x, y);
  }

  lemma LogUnderTangent(log: real -> real, slope: real, x: real)
    requires IsLog2(log, slope) && x > 0.0
    ensures log(x) <= slope * (x - 1.0)
  {
    assert UnderTangent(log, slope, x);
  }

  lemma LogOfOne(log: real -> real, slope: real)
    requires IsLog2(log, slope)
    ensures log(1.0) == 0.0
  {
    LogOfProduct(log, slope, 1.0, 1.0);
  }

  lemma Cancel(c: real, n: real)
    requires n > 0.0
    ensures (c / n) * n == c
  {
  }

  lemma LogOfSixteen(log: real -> real, slope: real)
    requires IsLog2(log, slope)
    ensures log(16.0) == 4.0
  {
    LogOfProduct(log, slope, 2.0, 2.0);
    LogOfProduct(log, slope, 4.0, 4.0);
  }

  // ---------------------------------------------------------------- characters

  /** The characters of a string, a surrogate pair being one. */
  function Characters(s: Text): (cs: seq<Text>)
    decreases |s|
    ensures |cs| <= |s|
  {
    if s == [] then [] else [s[..Width(s)]] + Characters(s[Width(s)..])
  }

  function CountOf(cs: seq<Text>, c: Text): nat {
    if cs == [] then 0 else CountOf(cs[..|cs| - 1], c) + if cs[|cs| - 1] == c then 1 else 0
  }

  /** The distinct characters in the order they first occur. */
  function Distinct(cs: seq<Text>): seq<Text> {
    if cs == [] then []
    else
      var ds, c := Distinct(cs[..|cs| - 1]), cs[|cs| - 1];
      if c in ds then ds else ds + [c]
  }

  function Sum(ds: seq<Text>, part: Text -> real): real {
    if ds == [] then 0.0 else Sum(ds[..|ds| - 1], part) + part(ds[|ds| - 1])
  }

  function ShareOf(count: nat, length: nat): real
    requires length > 0
  {
    count as real / length as real
  }

  function PartOf(log: real -> real, p: real): real {
    -(p * log(p))
  }

  /** What one character contributes. */
  function Part(log: real -> real, cs: seq<Text>, length: nat): Text -> real
    requires length > 0
  {
    (c: Text) => PartOf(log, ShareOf(CountOf(cs, c), length))
  }

  function Entropy(log: real -> real, s: Text): real {
    if s == [] then 0.0 else Sum(Distinct(Characters(s)), Part(log, Characters(s), |s|))
  }

  lemma SumNext(ds: seq<Text>, i: nat, part: Text -> real, term: real)
    requires i < |ds| && part(ds[i]) == -term
    ensures Sum(ds[..i + 1], part) == Sum(ds[..i], part) - term
  {
    assert ds[..i + 1][..i] == ds[..i];
  }

  ghost predicate IsPartAt(part: Text -> real, log: real -> real, count: nat, length: nat, d: Text) {
    length > 0 && part(d) == PartOf(log, ShareOf(count, length))
  }

  /** What each character contributes, as a function known only through `IsPartAt`. */
  lemma Parts(log: real -> real, s: Text) returns (part: Text -> real)
    requires s != []
    ensures forall d :: IsPartAt(part, log, CountOf(Characters(s), d), |s|, d)
    ensures Sum(Distinct(Characters(s)), part) == Entropy(log, s)
  {
    part := Part(log, Characters(s), |s|);
  }

  lemma PartIs(part: Text -> real, log: real -> real, count: nat, length: nat, d: Text, p: real, term: real)
    requires IsPartAt(part, log, count, length, d)
    requires p == ShareOf(count, length) && term == p * log(p)
    ensures part(d) == -term
  {
  }

  method ShannonEntropy(log: real -> real, value: Text) returns (entropy: real)
    ensures entropy == Entropy(log, value)
  {
    if |value| == 0 {
      return 0.0;
    }
    var characters := Characters(value);
    var counts, order := CountCharacters(characters);
    ghost var part := Parts(log, value);
    entropy := 0.0;
    for i := 0 to |order|
      invariant entropy == Sum(order[..i], part)
    {
      var count := counts[order[i]];
      var probability := ShareOf(count, |value|);
      var term := probability * log(probability);
      assert IsPartAt(part, log, CountOf(characters, order[i]), |value|, order[i]);
      PartIs(part, log, count, |value|, order[i], probability, term);
      SumNext(order, i, part, term);
      entropy := entropy - term;
    }
    assert order[..|order|] == order;
  }

  method CountCharacters(characters: seq<Text>) returns (counts: map<Text, nat>, order: seq<Text>)
    ensures order == Distinct(characters)
    ensures forall c :: c in counts <==> c in order
    ensures forall c | c in counts :: counts[c] == CountOf(characters, c)
  {
    counts, order := map[], [];
    for i := 0 to |characters|
      invariant order == Distinct(characters[..i])
      invariant forall c :: c in counts <==> c in order
      invariant forall c :: CountOf(characters[..i], c) == if c in counts then counts[c] else 0
    {
      assert characters[..i + 1][..i] == characters[..i];
      var c := characters[i];
      if c in counts {
        counts := counts[c := counts[c] + 1];
      } else {
        counts := counts[c := 1];
        order := order + [c];
      }
    }
    assert characters[..|characters|] == characters;
  }

  // ---------------------------------------------------------------- counting

  function CountSum(cs: seq<Text>, ds: seq<Text>): nat {
    if ds == [] then 0 else CountSum(cs, ds[..|ds| - 1]) + CountOf(cs, ds[|ds| - 1])
  }

  predicate NoRepeats(ds: seq<Text>) {
    forall i, j | 0 <= i < j < |ds| :: ds[i] != ds[j]
  }

  lemma {:induction false} CountSumGrows(cs: seq<Text>, ds: seq<Text>)
    requires cs != [] && NoRepeats(ds)
    ensures CountSum(cs, ds) == CountSum(cs[..|cs| - 1], ds) + if cs[|cs| - 1] in ds then 1 else 0
  {
    if ds != [] {
      CountSumGrows(cs, ds[..|ds| - 1]);
      assert ds == ds[..|ds| - 1] + [ds[|ds| - 1]];
    }
  }

  lemma {:induction false} DistinctHas(cs: seq<Text>, c: Text)
    ensures c in Distinct(cs) <==> c in cs
    ensures CountOf(cs, c) > 0 <==> c in cs
  {
    if cs != [] {
      DistinctHas(cs[..|cs| - 1], c);
      assert cs == cs[..|cs| - 1] + [cs[|cs| - 1]];
    }
  }

  lemma {:induction false} DistinctNoRepeats(cs: seq<Text>)
    ensures NoRepeats(Distinct(cs))
  {
    if cs != [] {
      DistinctNoRepeats(cs[..|cs| - 1]);
    }
  }

  lemma {:induction false} DistinctCountsAll(cs: seq<Text>)
    ensures CountSum(cs, Distinct(cs)) == |cs|
  {
    if cs != [] {
      var front, c, ds := cs[..|cs| - 1], cs[|cs| - 1], Distinct(cs[..|cs| - 1]);
      DistinctCountsAll(front);
      DistinctNoRepeats(cs);
      CountSumGrows(cs, Distinct(cs));
      DistinctHas(cs, c);
      if c !in ds {
        DistinctHas(front, c);
        assert Distinct(cs)[..|ds|] == ds;
      }
    }
  }

  lemma AllCounted(cs: seq<Text>)
    ensures CountSum(cs, Distinct(cs)) == |cs|
    ensures cs != [] ==> Distinct(cs) != []
  {
    DistinctCountsAll(cs);
    if cs != [] {
      DistinctHas(cs, cs[0]);
    }
  }

  // ---------------------------------------------------------------- adding up, by functions known only to be additive

  ghost predicate SharesAdd(share: nat -> real, a: nat, b: nat) {
    share(a) + share(b) == share(a + b)
  }

  /** The share of each character. */
  function ShareBy(share: nat -> real, cs: seq<Text>): Text -> real {
    (d: Text) => share(CountOf(cs, d))
  }

  lemma {:induction false} SharesAddUp(cs: seq<Text>, ds: seq<Text>, share: nat -> real)
    requires share(0) == 0.0 && forall a: nat, b: nat :: SharesAdd(share, a, b)
    ensures Sum(ds, ShareBy(share, cs)) == share(CountSum(cs, ds))
  {
    if ds != [] {
      var front, d := ds[..|ds| - 1], ds[|ds| - 1];
      SharesAddUp(cs, front, share);
      assert SharesAdd(share, CountSum(cs, front), CountOf(cs, d));
    }
  }

  ghost predicate ScaleAdds(scale: real -> real, x: real, y: real) {
    scale(x) + scale(y) == scale(x + y)
  }

  /** What one character contributes lies under a line. */
  ghost predicate UnderLine(part: Text -> real, share: Text -> real, scale: real -> real, e: real, d: Text) {
    part(d) <= scale(share(d)) + e
  }

  function Times(e: real, n: nat): real {
    if n == 0 then 0.0 else Times(e, n - 1) + e
  }

  /** What all contribute lies under the line of what they share. */
  lemma {:induction false} PartsAddUp(
    ds: seq<Text>, part: Text -> real, share: Text -> real, scale: real -> real, e: real)
    requires scale(0.0) == 0.0 && forall x: real, y: real :: ScaleAdds(scale, x, y)
    requires forall d | d in ds :: UnderLine(part, share, scale, e, d)
    ensures Sum(ds, part) <= scale(Sum(ds, share)) + Times(e, |ds|)
  {
    if ds != [] {
      var front, d := ds[..|ds| - 1], ds[|ds| - 1];
      PartsAddUp(front, part, share, scale, e);
      assert UnderLine(part, share, scale, e, d);
      assert ScaleAdds(scale, Sum(front, share), share(d));
    }
  }

  /** All together lie under the line at the share they add up to. */
  lemma BoundBy(cs: seq<Text>, part: Text -> real, share: nat -> real, scale: real -> real, e: real)
    requires share(0) == 0.0 && forall a: nat, b: nat :: SharesAdd(share, a, b)
    requires scale(0.0) == 0.0 && forall x: real, y: real :: ScaleAdds(scale, x, y)
    requires forall d | d in Distinct(cs) :: UnderLine(part, ShareBy(share, cs), scale, e, d)
    ensures Sum(Distinct(cs), part) <= scale(share(|cs|)) + Times(e, |Distinct(cs)|)
  {
    PartsAddUp(Distinct(cs), part, ShareBy(share, cs), scale, e);
    SharesAddUp(cs, Distinct(cs), share);
    DistinctCountsAll(cs);
  }

  // ---------------------------------------------------------------- the bound

  lemma Reciprocal(p: real, k: real, inverse: real) returns (q: real, r: real)
    requires p > 0.0 && k > 0.0 && k * inverse == 1.0
    ensures q == p * k && q > 0.0 && r > 0.0 && r * q == 1.0 && p * r == inverse
  {
    q := p * k;
    r := 1.0 / q;
    Cancel(1.0, q);
    assert (p * r) * k == r * q;
    Cancellation(p * r, inverse, k);
  }

  lemma Cancellation(x: real, y: real, k: real)
    requires k > 0.0 && x * k == y * k
    ensures x == y
  {
    assert (x - y) * k == 0.0;
  }

  lemma MultiplyThrough(p: real, x: real, y: real)
    requires p > 0.0 && x <= y
    ensures p * x <= p * y
  {
  }

  lemma Expand(p: real, a: real, b: real, slope: real, r: real)
    ensures p * (-a - b) == -(p * a) - p * b
    ensures p * (slope * (r - 1.0)) == slope * (p * r - p)
  {
  }

  lemma Distribute(a: real, b: real, l: real)
    ensures (a + b) * l == a * l + b * l
  {
  }

  lemma Weigh(p: real, lp: real, lk: real, lr: real, slope: real, r: real, inverse: real)
    requires p > 0.0 && lr == -lp - lk && lr <= slope * (r - 1.0) && p * r == inverse
    ensures -(p * lp) <= p * lk + slope * (inverse - p)
  {
    MultiplyThrough(p, lr, slope * (r - 1.0));
    Expand(p, lp, lk, slope, r);
  }

  /** The line under which one character's part lies. */
  lemma TermBound(log: real -> real, slope: real, p: real, k: real, inverse: real)
    requires IsLog2(log, slope) && p > 0.0 && k > 0.0 && k * inverse == 1.0
    ensures PartOf(log, p) <= p * log(k) + slope * (inverse - p)
  {
    var q, r := Reciprocal(p, k, inverse);
    LogOfProduct(log, slope, p, k);
    LogOfProduct(log, slope, r, q);
    LogOfOne(log, slope);
    LogUnderTangent(log, slope, r);
    Weigh(p, log(p), log(k), log(r), slope, r, inverse);
  }

  lemma Rearrange(p: real, l: real, slope: real, inverse: real)
    ensures p * l + slope * (inverse - p) == (l - slope) * p + slope * inverse
  {
    Distribute(l, -slope, p);
    Distribute(inverse, -p, slope);
  }

  function Scale(c: real): real -> real {
    (x: real) => c * x
  }

  lemma ScaleIsAdditive(c: real)
    ensures Scale(c)(0.0) == 0.0
    ensures forall x: real, y: real :: ScaleAdds(Scale(c), x, y)
  {
    forall x: real, y: real
      ensures ScaleAdds(Scale(c), x, y)
    {
      Distribute(x, y, c);
    }
  }

  function Quotient(n: nat): nat -> real
    requires n > 0
  {
    (m: nat) => ShareOf(m, n)
  }

  lemma QuotientAdds(x: real, y: real, n: real)
    requires n > 0.0
    ensures x / n + y / n == (x + y) / n
  {
    Cancel(x, n);
    Cancel(y, n);
    Cancel(x + y, n);
    Distribute(x / n, y / n, n);
    Cancellation(x / n + y / n, (x + y) / n, n);
  }

  lemma WholeQuotient(n: real)
    requires n > 0.0
    ensures n / n == 1.0 && 0.0 / n == 0.0
  {
    Cancel(n, n);
    Cancel(0.0, n);
    Cancellation(n / n, 1.0, n);
    Cancellation(0.0 / n, 0.0, n);
  }

  lemma QuotientIsAdditive(n: nat)
    requires n > 0
    ensures Quotient(n)(0) == 0.0
    ensures forall a: nat, b: nat :: SharesAdd(Quotient(n), a, b)
  {
    WholeQuotient(n as real);
    forall a: nat, b: nat
      ensures SharesAdd(Quotient(n), a, b)
    {
      QuotientAdds(a as real, b as real, n as real);
    }
  }

  lemma PositiveQuotient(c: real, n: real)
    requires c > 0.0 && n > 0.0
    ensures c / n > 0.0
  {
    Cancel(c, n);
    PositiveFactor(c / n, n);
  }

  lemma PositiveFactor(q: real, n: real)
    requires n > 0.0 && q * n > 0.0
    ensures q > 0.0
  {
    if q <= 0.0 {
      NotPositive(q, n);
    }
  }

  lemma NotPositive(q: real, n: real)
    requires q <= 0.0 && n > 0.0
    ensures q * n <= 0.0
  {
  }

  lemma Inverse(k: real) returns (inverse: real)
    requires k > 0.0
    ensures k * inverse == 1.0
  {
    inverse := 1.0 / k;
    Cancel(1.0, k);
  }

  lemma TermUnderLine(log: real -> real, slope: real, p: real, k: real, inverse: real)
    requires IsLog2(log, slope) && p > 0.0 && k > 0.0 && k * inverse == 1.0
    ensures PartOf(log, p) <= Scale(log(k) - slope)(p) + slope * inverse
  {
    TermBound(log, slope, p, k, inverse);
    Rearrange(p, log(k), slope, inverse);
  }

  lemma IsUnderLine(part: Text -> real, share: Text -> real, scale: real -> real, e: real, d: Text, p: real, x: real)
    requires share(d) == p && part(d) == x && x <= scale(p) + e
    ensures UnderLine(part, share, scale, e, d)
  {
  }

  lemma PartUnderLine(log: real -> real, slope: real, cs: seq<Text>, n: nat, d: Text, k: real, inverse: real)
    requires IsLog2(log, slope) && CountOf(cs, d) > 0 && n > 0 && k > 0.0 && k * inverse == 1.0
    ensures UnderLine(Part(log, cs, n), ShareBy(Quotient(n), cs), Scale(log(k) - slope), slope * inverse, d)
  {
    var p := ShareOf(CountOf(cs, d), n);
    PositiveQuotient(CountOf(cs, d) as real, n as real);
    TermUnderLine(log, slope, p, k, inverse);
    IsUnderLine(Part(log, cs, n), ShareBy(Quotient(n), cs), Scale(log(k) - slope), slope * inverse, d, p,
      PartOf(log, p));
  }

  lemma {:induction false} TimesIsProduct(slope: real, inverse: real, n: nat)
    ensures Times(slope * inverse, n) == slope * (n as real * inverse)
  {
    if n > 0 {
      TimesIsProduct(slope, inverse, n - 1);
      Distribute((n - 1) as real, 1.0, inverse);
      Distribute((n - 1) as real * inverse, inverse, slope);
    }
  }

  lemma PartsUnderLine(log: real -> real, slope: real, cs: seq<Text>, n: nat, k: real, inverse: real)
    requires IsLog2(log, slope) && n > 0 && k > 0.0 && k * inverse == 1.0
    ensures forall d | d in Distinct(cs) ::
      UnderLine(Part(log, cs, n), ShareBy(Quotient(n), cs), Scale(log(k) - slope), slope * inverse, d)
  {
    forall d | d in Distinct(cs)
      ensures UnderLine(Part(log, cs, n), ShareBy(Quotient(n), cs), Scale(log(k) - slope), slope * inverse, d)
    {
      DistinctHas(cs, d);
      PartUnderLine(log, slope, cs, n, d, k, inverse);
    }
  }

  ghost predicate IsProduct(a: real, b: real, x: real) {
    x == a * b
  }

  /** `x` is the product, said without writing it. */
  ghost predicate Multiplies(a: real, b: real, x: real) {
    forall u :: IsProduct(a, b, u) ==> u == x
  }

  lemma Product(a: real, b: real, x: real)
    requires Multiplies(a, b, x)
    ensures a * b == x
  {
    assert IsProduct(a, b, a * b);
  }

  ghost predicate OnLine(c: real, share: real, slope: real, x: real, value: real) {
    value == c * share + slope * x
  }

  /** The line through `slope * x` with gradient `c` is at most `bound` at `share`. */
  ghost predicate LineBelow(c: real, share: real, slope: real, x: real, bound: real) {
    forall value :: OnLine(c, share, slope, x, value) ==> value <= bound
  }

  lemma LineEnd(c: real, slope: real, inverse: real, n: nat, m: nat, count: nat, total: real, x: real, bound: real)
    requires n > 0 && total == ShareOf(m, n) && x == count as real * inverse
    requires LineBelow(c, total, slope, x, bound)
    ensures Scale(c)(Quotient(n)(m)) + Times(slope * inverse, count) <= bound
  {
    TimesIsProduct(slope, inverse, count);
    assert OnLine(c, total, slope, x, c * total + slope * x);
  }

  /** The line, handed on by what is known of it alone. */
  lemma Line(
    log: real -> real, slope: real, cs: seq<Text>, n: nat, k: real, inverse: real, total: real, x: real,
    bound: real)
    returns (share: nat -> real, scale: real -> real, e: real)
    requires IsLog2(log, slope) && n > 0 && k > 0.0 && Multiplies(k, inverse, 1.0)
    requires total == ShareOf(|cs|, n) && Multiplies(|Distinct(cs)| as real, inverse, x)
    requires LineBelow(log(k) - slope, total, slope, x, bound)
    ensures share(0) == 0.0 && forall a: nat, b: nat :: SharesAdd(share, a, b)
    ensures scale(0.0) == 0.0 && forall x: real, y: real :: ScaleAdds(scale, x, y)
    ensures forall d | d in Distinct(cs) :: UnderLine(Part(log, cs, n), ShareBy(share, cs), scale, e, d)
    ensures scale(share(|cs|)) + Times(e, |Distinct(cs)|) <= bound
  {
    Product(k, inverse, 1.0);
    Product(|Distinct(cs)| as real, inverse, x);
    share, scale, e := Quotient(n), Scale(log(k) - slope), slope * inverse;
    QuotientIsAdditive(n);
    ScaleIsAdditive(log(k) - slope);
    PartsUnderLine(log, slope, cs, n, k, inverse);
    LineEnd(log(k) - slope, slope, inverse, n, |cs|, |Distinct(cs)|, total, x, bound);
  }

  /** The bound the tangent at `1 / k` gives, whatever the shares add up to. */
  lemma SumUnderLine(log: real -> real, slope: real, cs: seq<Text>, n: nat, k: real, inverse: real,
                     total: real, x: real, bound: real)
    requires IsLog2(log, slope) && n > 0 && k > 0.0 && Multiplies(k, inverse, 1.0)
    requires total == ShareOf(|cs|, n) && Multiplies(|Distinct(cs)| as real, inverse, x)
    requires LineBelow(log(k) - slope, total, slope, x, bound)
    ensures Sum(Distinct(cs), Part(log, cs, n)) <= bound
  {
    var share, scale, e := Line(log, slope, cs, n, k, inverse, total, x, bound);
    BoundBy(cs, Part(log, cs, n), share, scale, e);
  }

  // ---------------------------------------------------------------- where the bound holds

  /** The logarithm from below: how much it grows at least from `x` to `y`. */
  lemma LogStep(log: real -> real, slope: real, x: real, y: real, r: real)
    requires IsLog2(log, slope) && x > 0.0 && y > 0.0 && r > 0.0 && r * y == x
    ensures log(y) >= log(x) + slope * (1.0 - r)
  {
    LogOfProduct(log, slope, r, y);
    LogUnderTangent(log, slope, r);
    assert slope * (r - 1.0) == -(slope * (1.0 - r));
  }

  /** Eight steps from 4 to 12 add up to more than the slope. */
  lemma SlopeAtMostLogOfThree(log: real -> real, slope: real)
    requires IsLog2(log, slope)
    ensures slope <= log(3.0)
  {
    LogStep(log, slope, 4.0, 5.0, 4.0 / 5.0);
    LogStep(log, slope, 5.0, 6.0, 5.0 / 6.0);
    LogStep(log, slope, 6.0, 7.0, 6.0 / 7.0);
    LogStep(log, slope, 7.0, 8.0, 7.0 / 8.0);
    LogStep(log, slope, 8.0, 9.0, 8.0 / 9.0);
    LogStep(log, slope, 9.0, 10.0, 9.0 / 10.0);
    LogStep(log, slope, 10.0, 11.0, 10.0 / 11.0);
    LogStep(log, slope, 11.0, 12.0, 11.0 / 12.0);
    LogOfProduct(log, slope, 3.0, 4.0);
  }

  lemma SlopeAtMostLog(log: real -> real, slope: real, k: real)
    requires IsLog2(log, slope) && k >= 3.0
    ensures slope <= log(k)
  {
    SlopeAtMostLogOfThree(log, slope);
    assert Increasing(log, 3.0, k);
  }

  lemma PositiveDifference(q: real, n: real)
    requires n > 0.0
    ensures q > 1.0 ==> q * n > n
  {
    if q > 1.0 {
      PositiveProduct(q - 1.0, n);
    }
  }

  lemma AtMostWhole(q: real, m: real, n: real)
    requires q * n == m && m <= n && n > 0.0
    ensures q <= 1.0
  {
    PositiveDifference(q, n);
  }

  lemma QuotientAtMostOne(m: real, n: real) returns (q: real)
    requires n > 0.0 && m <= n
    ensures q == m / n && q <= 1.0 && (m == n ==> q == 1.0)
  {
    q := m / n;
    Cancel(m, n);
    AtMostWhole(q, m, n);
    if m == n {
      Cancellation(q, 1.0, n);
    }
  }

  lemma ShareAtMostOne(m: nat, n: nat) returns (share: real)
    requires 0 < n && m <= n
    ensures share == ShareOf(m, n) && share <= 1.0 && (m == n ==> share == 1.0)
  {
    share := QuotientAtMostOne(m as real, n as real);
  }

  lemma HalfShare(m: nat, n: nat)
    requires 0 < m && n == 2 * m
    ensures ShareOf(m, n) == 0.5
  {
    Cancel(m as real, n as real);
    Cancellation(m as real / n as real, 0.5, n as real);
  }

  lemma BelowAtOne(c: real, share: real, slope: real, x: real)
    requires x == 1.0 && (share == 1.0 || (c >= 0.0 && share <= 1.0))
    ensures LineBelow(c, share, slope, x, c + slope)
  {
    if share != 1.0 {
      assert c * (1.0 - share) >= 0.0;
    }
  }

  lemma BelowAtHalf(c: real, slope: real, share: real, x: real)
    requires c == 2.0 - slope && share == 0.5 && x == 0.5
    ensures LineBelow(c, share, slope, x, 1.0)
  {
  }

  lemma InverseOf(k: real) returns (inverse: real)
    requires k > 0.0
    ensures Multiplies(k, inverse, 1.0)
  {
    inverse := Inverse(k);
  }

  lemma BelowLog(log: real -> real, slope: real, k: real, share: real, x: real)
    requires IsLog2(log, slope) && share <= 1.0 && x == 1.0 && (share == 1.0 || k >= 3.0)
    ensures LineBelow(log(k) - slope, share, slope, x, log(k))
  {
    if k >= 3.0 {
      SlopeAtMostLog(log, slope, k);
    }
    BelowAtOne(log(k) - slope, share, slope, x);
  }

  /** Shares that add up to one, or three characters or more: missing shares only lower the sum. */
  lemma ManyOrWholeBound(log: real -> real, slope: real, cs: seq<Text>, n: nat)
    requires IsLog2(log, slope) && 0 < |cs| <= n && (|cs| == n || |Distinct(cs)| >= 3)
    ensures Sum(Distinct(cs), Part(log, cs, n)) <= log(|Distinct(cs)| as real)
  {
    AllCounted(cs);
    var k := |Distinct(cs)| as real;
    var inverse := InverseOf(k);
    var share := ShareAtMostOne(|cs|, n);
    BelowLog(log, slope, k, share, 1.0);
    SumUnderLine(log, slope, cs, n, k, inverse, share, 1.0, log(k));
  }

  lemma QuarterAndHalf(two: real)
    requires two == 2.0
    ensures Multiplies(4.0, 0.25, 1.0) && Multiplies(two, 0.25, 0.5)
  {
  }

  lemma LogOfFour(log: real -> real, slope: real) returns (l: real)
    requires IsLog2(log, slope)
    ensures l == log(4.0) && l == 2.0
  {
    LogOfProduct(log, slope, 2.0, 2.0);
    l := log(4.0);
  }

  /** Two characters that are both pairs: their shares add up to a half. */
  lemma PairsBound(log: real -> real, slope: real, cs: seq<Text>, n: nat)
    requires IsLog2(log, slope) && cs != [] && n == 2 * |cs| && |Distinct(cs)| == 2
    ensures Sum(Distinct(cs), Part(log, cs, n)) <= log(2.0)
  {
    var l := LogOfFour(log, slope);
    QuarterAndHalf(|Distinct(cs)| as real);
    HalfShare(|cs|, n);
    BelowAtHalf(l - slope, slope, 0.5, 0.5);
    SumUnderLine(log, slope, cs, n, 4.0, 0.25, 0.5, 0.5, 1.0);
  }

  /** One character, written as a pair: its entropy is above the logarithm of one. */
  lemma OnePairExceeds(log: real -> real, slope: real, cs: seq<Text>, n: nat)
    requires IsLog2(log, slope) && 0 < |cs| < n && |Distinct(cs)| == 1
    ensures Sum(Distinct(cs), Part(log, cs, n)) > log(1.0)
  {
    var ds := Distinct(cs);
    SumOfOne(ds, Part(log, cs, n));
    DistinctCountsAll(cs);
    CountSumOfOne(cs, ds);
    ShareExceeds(log, slope, |cs| as real, n as real);
  }

  lemma SumOfOne(ds: seq<Text>, part: Text -> real)
    requires |ds| == 1
    ensures Sum(ds, part) == part(ds[0])
  {
    assert ds[..0] == [];
  }

  lemma CountSumOfOne(cs: seq<Text>, ds: seq<Text>)
    requires |ds| == 1
    ensures CountSum(cs, ds) == CountOf(cs, ds[0])
  {
    assert ds[..0] == [];
  }

  lemma BelowOne(p: real, m: real, n: real)
    requires p * n == m && m < n && n > 0.0
    ensures p < 1.0
  {
    PositiveDifference(p, n);
  }

  lemma ShareExceeds(log: real -> real, slope: real, m: real, n: real)
    requires IsLog2(log, slope) && 0.0 < m < n
    ensures PartOf(log, m / n) > log(1.0)
  {
    var p := m / n;
    Cancel(m, n);
    PositiveQuotient(m, n);
    BelowOne(p, m, n);
    LogOfOne(log, slope);
    assert Increasing(log, p, 1.0);
    PositiveProduct(p, -log(p));
  }

  lemma PositiveProduct(x: real, y: real)
    requires x > 0.0 && y > 0.0
    ensures x * y > 0.0
  {
  }

  // ---------------------------------------------------------------- two characters

  function Power(x: nat, e: nat): nat {
    if e == 0 then 1 else x * Power(x, e - 1)
  }

  /** When two characters occurring `a` and `b` times in `n` units keep the bound: a test in whole numbers. */
  predicate Fits(a: nat, b: nat, n: nat) {
    Power(n, a + b) <= Power(2, n) * (Power(a, a) * Power(b, b))
  }

  lemma ProductOfNats(x: nat, y: nat)
    ensures (x * y) as real == x as real * y as real
    ensures x > 0 && y > 0 ==> x * y > 0
  {
  }

  lemma OneMore(e: real, l: real, rest: real, total: real)
    requires rest == (e - 1.0) * l && total == l + rest
    ensures total == e * l
  {
    Distribute(e - 1.0, 1.0, l);
  }

  lemma {:induction false} LogOfPower(log: real -> real, slope: real, x: nat, e: nat) returns (power: nat)
    requires IsLog2(log, slope) && x > 0
    ensures power == Power(x, e) && power > 0 && log(power as real) == e as real * log(x as real)
  {
    if e == 0 {
      power := 1;
      LogOfOne(log, slope);
      assert 0.0 * log(x as real) == 0.0;
    } else {
      var rest := LogOfPower(log, slope, x, e - 1);
      LogOfNats(log, slope, x, rest);
      power := x * rest;
      assert (e - 1) as real == e as real - 1.0;
      OneMore(e as real, log(x as real), log(rest as real), log(power as real));
    }
  }

  lemma LogOfNats(log: real -> real, slope: real, x: nat, y: nat)
    requires IsLog2(log, slope) && x > 0 && y > 0
    ensures x * y > 0 && log((x * y) as real) == log(x as real) + log(y as real)
  {
    ProductOfNats(x, y);
    LogOfProduct(log, slope, x as real, y as real);
  }

  lemma LogOrder(log: real -> real, slope: real, x: nat, y: nat)
    requires IsLog2(log, slope) && x > 0 && y > 0
    ensures x <= y <==> log(x as real) <= log(y as real)
  {
    assert Increasing(log, x as real, y as real);
    assert Increasing(log, y as real, x as real);
  }

  ghost predicate LogsFit(log: real -> real, a: real, b: real, n: real) {
    (a + b) * log(n) <= n + (a * log(a) + b * log(b))
  }

  lemma TimesOne(n: real, l: real)
    requires l == 1.0
    ensures n * l == n
  {
  }

  /** The test, in logarithms. */
  lemma FitsInLogs(log: real -> real, slope: real, a: nat, b: nat, n: nat)
    requires IsLog2(log, slope) && a > 0 && b > 0 && n > 0
    ensures Fits(a, b, n) <==> LogsFit(log, a as real, b as real, n as real)
  {
    var whole := LogOfPower(log, slope, n, a + b);
    var twos := LogOfPower(log, slope, 2, n);
    var x := LogOfPower(log, slope, a, a);
    var y := LogOfPower(log, slope, b, b);
    LogOfNats(log, slope, x, y);
    LogOfNats(log, slope, twos, x * y);
    TimesOne(n as real, log(2.0));
    LogOrder(log, slope, whole, twos * (x * y));
  }

  lemma TermTimes(p: real, n: real, a: real, lp: real, ln: real, la: real)
    requires p * n == a && la == lp + ln
    ensures -(p * lp) * n == a * ln - a * la
  {
    assert -(p * lp) * n == -(p * n * lp);
    Distribute(lp, ln, a);
  }

  /** What a character contributes, times the length. */
  lemma PartTimes(log: real -> real, slope: real, a: real, n: real)
    requires IsLog2(log, slope) && a > 0.0 && n > 0.0
    ensures PartOf(log, a / n) * n == a * log(n) - a * log(a)
  {
    var p := a / n;
    Cancel(a, n);
    PositiveQuotient(a, n);
    LogOfProduct(log, slope, p, n);
    TermTimes(p, n, a, log(p), log(n), log(a));
  }

  lemma AtMostOne(total: real, n: real, product: real)
    requires n > 0.0 && product == total * n
    ensures total <= 1.0 <==> product <= n
  {
    PositiveDifference(total, n);
    if total <= 1.0 {
      MultiplyThrough(n, total, 1.0);
    }
  }

  lemma Products(x: real, y: real, n: real) returns (xn: real, yn: real, total: real)
    ensures xn == x * n && yn == y * n && total == (x + y) * n && total == xn + yn
  {
    Distribute(x, y, n);
    xn, yn, total := x * n, y * n, (x + y) * n;
  }

  lemma TwoTerms(x: real, y: real, a: real, b: real, n: real, ln: real, ala: real, blb: real)
    requires n > 0.0
    requires x * n == a * ln - ala && y * n == b * ln - blb
    ensures x + y <= 1.0 <==> (a + b) * ln <= n + (ala + blb)
  {
    var xn, yn, total := Products(x, y, n);
    var al, bl, both := Products(a, b, ln);
    AtMostOne(x + y, n, total);
    assert total == both - (ala + blb);
  }

  /** Two contributions against one, in logarithms. */
  lemma TwoParts(log: real -> real, slope: real, a: real, b: real, n: real, total: real)
    requires IsLog2(log, slope) && a > 0.0 && b > 0.0 && n > 0.0
    requires total == PartOf(log, a / n) + PartOf(log, b / n)
    ensures total <= 1.0 <==> LogsFit(log, a, b, n)
  {
    PartTimes(log, slope, a, n);
    PartTimes(log, slope, b, n);
    TwoTerms(PartOf(log, a / n), PartOf(log, b / n), a, b, n, log(n), a * log(a), b * log(b));
  }

  lemma SumOfTwo(ds: seq<Text>, part: Text -> real)
    requires |ds| == 2
    ensures Sum(ds, part) == part(ds[0]) + part(ds[1])
  {
    assert ds[..|ds| - 1] == ds[..1];
    SumOfOne(ds[..1], part);
  }

  lemma TwoCharacters(log: real -> real, slope: real, cs: seq<Text>, n: nat)
    requires IsLog2(log, slope) && n > 0 && |Distinct(cs)| == 2
    ensures var ds := Distinct(cs);
      Sum(ds, Part(log, cs, n)) <= log(2.0) <==> Fits(CountOf(cs, ds[0]), CountOf(cs, ds[1]), n)
  {
    var ds := Distinct(cs);
    DistinctHas(cs, ds[0]);
    DistinctHas(cs, ds[1]);
    var a, b, total := CountOf(cs, ds[0]), CountOf(cs, ds[1]), Sum(ds, Part(log, cs, n));
    SumOfTwo(ds, Part(log, cs, n));
    FitsInLogs(log, slope, a, b, n);
    TwoParts(log, slope, a as real, b as real, n as real, total);
  }

  // ---------------------------------------------------------------- widths

  /** A character takes one unit or, as a pair, two. */
  lemma {:induction false} CharacterWidths(s: Text)
    ensures forall c | c in Characters(s) :: |c| == 1 || |c| == 2
    decreases |s|
  {
    if s != [] {
      CharacterWidths(s[Width(s)..]);
    }
  }

  /** The units of a list of characters. */
  function Units(cs: seq<Text>): nat {
    if cs == [] then 0 else |cs[0]| + Units(cs[1..])
  }

  lemma {:induction false} UnitsOfCharacters(s: Text)
    ensures Units(Characters(s)) == |s|
    decreases |s|
  {
    if s != [] {
      var first, rest := s[..Width(s)], s[Width(s)..];
      UnitsOfCharacters(rest);
      assert ([first] + Characters(rest))[1..] == Characters(rest);
    }
  }

  lemma {:induction false} CountOfCons(c: Text, cs: seq<Text>, d: Text)
    ensures CountOf([c] + cs, d) == (if c == d then 1 else 0) + CountOf(cs, d)
  {
    if cs == [] {
      assert [c] + cs == [c] && [c][..0] == [];
    } else {
      assert ([c] + cs)[..|cs|] == [c] + cs[..|cs| - 1];
      CountOfCons(c, cs[..|cs| - 1], d);
    }
  }

  lemma OneMoreTimes(a: nat, w: nat)
    ensures (a + 1) * w == a * w + w
  {
  }

  lemma {:induction false} CountsOfTwo(cs: seq<Text>, x: Text, y: Text)
    requires x != y && forall c | c in cs :: c == x || c == y
    ensures |cs| == CountOf(cs, x) + CountOf(cs, y)
  {
    if cs != [] {
      var front := cs[..|cs| - 1];
      assert forall c | c in front :: c in cs;
      CountsOfTwo(front, x, y);
      assert cs[|cs| - 1] in cs;
    }
  }

  /** Two characters: the units in the two counts. */
  lemma {:induction false} UnitsOfTwo(cs: seq<Text>, x: Text, y: Text)
    requires x != y && forall c | c in cs :: c == x || c == y
    ensures Units(cs) == CountOf(cs, x) * |x| + CountOf(cs, y) * |y|
  {
    if cs != [] {
      var c, rest := cs[0], cs[1..];
      assert cs == [c] + rest && c in cs;
      assert forall d | d in rest :: d in cs;
      UnitsOfTwo(rest, x, y);
      CountOfCons(c, rest, x);
      CountOfCons(c, rest, y);
      OneMoreTimes(CountOf(rest, x), |x|);
      OneMoreTimes(CountOf(rest, y), |y|);
    }
  }

  lemma OnlyTwo(cs: seq<Text>)
    requires |Distinct(cs)| == 2
    ensures Distinct(cs)[0] != Distinct(cs)[1] && Distinct(cs)[0] in cs && Distinct(cs)[1] in cs
    ensures forall c | c in cs :: c == Distinct(cs)[0] || c == Distinct(cs)[1]
  {
    DistinctNoRepeats(cs);
    DistinctHas(cs, Distinct(cs)[0]);
    DistinctHas(cs, Distinct(cs)[1]);
    forall c | c in cs
      ensures c == Distinct(cs)[0] || c == Distinct(cs)[1]
    {
      DistinctHas(cs, c);
    }
  }

  /** The length of a string of two distinct characters, in their counts and widths. */
  lemma LengthOfTwo(s: Text) returns (v: nat, w: nat, a: nat, b: nat)
    requires |Distinct(Characters(s))| == 2
    ensures var cs := Characters(s);
      var x, y := Distinct(cs)[0], Distinct(cs)[1];
      v == |x| && w == |y| && a == CountOf(cs, x) && b == CountOf(cs, y) && |cs| == a + b
    ensures 1 <= v <= 2 && 1 <= w <= 2 && a > 0 && b > 0
    ensures |s| == a * v + b * w
  {
    var cs := Characters(s);
    var x, y := Distinct(cs)[0], Distinct(cs)[1];
    v, w, a, b := |x|, |y|, CountOf(cs, x), CountOf(cs, y);
    OnlyTwo(cs);
    CharacterWidths(s);
    DistinctHas(cs, x);
    DistinctHas(cs, y);
    CountsOfTwo(cs, x, y);
    UnitsOfCharacters(s);
    UnitsOfTwo(cs, x, y);
  }

  lemma SameWidthLength(s: Text)
    requires |Distinct(Characters(s))| == 2
    requires |Distinct(Characters(s))[0]| == |Distinct(Characters(s))[1]|
    ensures |Characters(s)| == |s| || (s != [] && 2 * |Characters(s)| == |s|)
  {
    var v, w, a, b := LengthOfTwo(s);
    EqualWidths(v, a, b);
  }

  lemma EqualWidths(v: nat, a: nat, b: nat)
    requires v == 1 || v == 2
    ensures a * v + b * v == if v == 1 then a + b else 2 * (a + b)
  {
  }

  lemma SameWidthBound(log: real -> real, slope: real, s: Text)
    requires IsLog2(log, slope) && |Distinct(Characters(s))| == 2
    requires |Distinct(Characters(s))[0]| == |Distinct(Characters(s))[1]|
    ensures Entropy(log, s) <= log(2.0)
  {
    var cs := Characters(s);
    SameWidthLength(s);
    if |cs| == |s| {
      ManyOrWholeBound(log, slope, cs, |s|);
    } else {
      PairsBound(log, slope, cs, |s|);
    }
  }

  // ---------------------------------------------------------------- exactly where

  /**
   * The strings whose entropy is at most the logarithm of their number of distinct
   * characters: three characters or more, no surrogate pair, or two characters that are
   * both pairs or, of one letter and one pair, differ enough in how often they occur.
   */
  predicate BoundHolds(s: Text) {
    var cs := Characters(s);
    var ds := Distinct(cs);
    || |ds| >= 3
    || |cs| == |s|
    || (|ds| == 2 && (|ds[0]| == |ds[1]| || Fits(CountOf(cs, ds[0]), CountOf(cs, ds[1]), |s|)))
  }

  /** The bound, and exactly where it holds. */
  lemma EntropyBound(log: real -> real, slope: real, s: Text)
    requires IsLog2(log, slope) && s != []
    ensures Entropy(log, s) <= log(|Distinct(Characters(s))| as real) <==> BoundHolds(s)
  {
    var cs := Characters(s);
    AllCounted(cs);
    if |cs| == |s| || |Distinct(cs)| >= 3 {
      ManyOrWholeBound(log, slope, cs, |s|);
    } else if |Distinct(cs)| == 1 {
      OnePairExceeds(log, slope, cs, |s|);
    } else {
      TwoCharacters(log, slope, cs, |s|);
      if |Distinct(cs)[0]| == |Distinct(cs)[1]| {
        SameWidthBound(log, slope, s);
      }
    }
  }

  /** One letter and one pair: the bound is an inequality in their two counts. */
  lemma LetterAndPairBound(log: real -> real, slope: real, s: Text) returns (a: nat, b: nat)
    requires IsLog2(log, slope) && |Distinct(Characters(s))| == 2
    requires |Distinct(Characters(s))[0]| != |Distinct(Characters(s))[1]|
    ensures a > 0 && b > 0 && |Characters(s)| == a + b && |s| == a + 2 * b
    ensures Entropy(log, s) <= log(2.0) <==> Fits(a, b, a + 2 * b)
  {
    var v, w, x, y := LengthOfTwo(s);
    MixedWidths(v, w, x, y);
    TwoCharacters(log, slope, Characters(s), |s|);
    FitsEitherWay(x, y, |s|);
    a, b := if v == 1 then x else y, if v == 1 then y else x;
  }

  lemma MixedWidths(v: nat, w: nat, x: nat, y: nat)
    requires 1 <= v <= 2 && 1 <= w <= 2 && v != w
    ensures x * v + y * w == if v == 1 then x + 2 * y else y + 2 * x
  {
  }

  lemma FitsEitherWay(a: nat, b: nat, n: nat)
    ensures Fits(a, b, n) <==> Fits(b, a, n)
  {
    assert Power(a, a) * Power(b, b) == Power(b, b) * Power(a, a);
  }

  /** One character that is a pair: half a bit, above the logarithm of one. */
  lemma PairExceedsBound(log: real -> real, slope: real)
    requires IsLog2(log, slope)
    ensures var s: Text := [0xD83D, 0xDE00];
      |Distinct(Characters(s))| == 1 && Entropy(log, s) == 0.5 && log(1.0) == 0.0
  {
    var s: Text := [0xD83D, 0xDE00];
    var part := Part(log, [s], 2);
    LogOfOne(log, slope);
    LogOfProduct(log, slope, 2.0, 0.5);
    assert s[..2] == s && s[2..] == [];
    assert Characters(s) == [s] + Characters([]);
    assert [s][..0] == [];
    assert CountOf([s], s) == 1;
    assert Distinct([s]) == [s];
    assert Sum([s], part) == part(s);
  }

  /** One letter and one pair: three units cubed are more than two cubed. */
  lemma LetterAndPairExceedBound(log: real -> real, slope: real)
    requires IsLog2(log, slope)
    ensures var s: Text := [97, 0xD83D, 0xDE00];
      |Distinct(Characters(s))| == 2 && Entropy(log, s) > log(2.0)
  {
    var s: Text := [97, 0xD83D, 0xDE00];
    var x: Text, y: Text := [97], [0xD83D, 0xDE00];
    var cs := [x, y];
    assert Characters(y) == [y] + Characters([]) by {
      assert y[..2] == y && y[2..] == [];
    }
    assert Characters(s) == cs by {
      assert s[..1] == x && s[1..] == y;
    }
    var xs: seq<Text> := [x];
    assert cs[..1] == xs && xs[..0] == [];
    assert Distinct([x]) == [x] && Distinct(cs) == [x, y];
    assert CountOf([x], x) == 1 && CountOf([x], y) == 0;
    assert CountOf(cs, x) == 1 && CountOf(cs, y) == 1;
    FitAndMisfit();
    EntropyBound(log, slope, s);
  }

  /** One letter and one pair do not fit; three letters and one pair do. */
  lemma FitAndMisfit()
    ensures !Fits(1, 1, 3) && Fits(3, 1, 5)
  {
    assert Power(3, 2) == 9 && Power(2, 3) == 8 && Power(1, 1) == 1;
    assert Power(5, 4) == 625 && Power(2, 5) == 32 && Power(3, 3) == 27;
  }

  // ---------------------------------------------------------------- order does not matter

  lemma {:induction false} CountOfIsMultiplicity(cs: seq<Text>, c: Text)
    ensures CountOf(cs, c) == multiset(cs)[c]
  {
    if cs != [] {
      CountOfIsMultiplicity(cs[..|cs| - 1], c);
      assert cs == cs[..|cs| - 1] + [cs[|cs| - 1]];
    }
  }

  lemma {:induction false} SumPointwise(ds: seq<Text>, f: Text -> real, g: Text -> real)
    requires forall d | d in ds :: f(d) == g(d)
    ensures Sum(ds, f) == Sum(ds, g)
  {
    if ds != [] {
      SumPointwise(ds[..|ds| - 1], f, g);
    }
  }

  /** Taking one character out of the sum takes out its own part. */
  lemma {:induction false} SumWithout(ds: seq<Text>, i: nat, part: Text -> real)
    requires i < |ds|
    ensures Sum(ds, part) == Sum(ds[..i] + ds[i + 1..], part) + part(ds[i])
  {
    var front := ds[..|ds| - 1];
    if i == |ds| - 1 {
      assert ds[..i] + ds[i + 1..] == front;
    } else {
      SumWithout(front, i, part);
      var rest := ds[..i] + ds[i + 1..];
      assert rest[..|rest| - 1] == front[..i] + front[i + 1..];
      assert rest[|rest| - 1] == ds[|ds| - 1];
    }
  }

  lemma {:induction false} SumPermuted(ds: seq<Text>, es: seq<Text>, part: Text -> real)
    requires multiset(ds) == multiset(es)
    ensures Sum(ds, part) == Sum(es, part)
    decreases |ds|
  {
    assert |ds| == |multiset(ds)| == |multiset(es)| == |es|;
    if ds != [] {
      var i := PermutedRest(ds, es);
      SumPermuted(ds[..|ds| - 1], es[..i] + es[i + 1..], part);
      SumWithout(es, i, part);
    }
  }

  lemma {:induction false} NoRepeatsOnce(ds: seq<Text>, d: Text)
    requires NoRepeats(ds)
    ensures multiset(ds)[d] == if d in ds then 1 else 0
  {
    if ds != [] {
      NoRepeatsOnce(ds[..|ds| - 1], d);
      assert ds == ds[..|ds| - 1] + [ds[|ds| - 1]];
    }
  }

  lemma SamePart(log: real -> real, cs: seq<Text>, cs': seq<Text>, length: nat, d: Text)
    requires length > 0 && multiset(cs) == multiset(cs')
    ensures Part(log, cs, length)(d) == Part(log, cs', length)(d)
  {
    CountOfIsMultiplicity(cs, d);
    CountOfIsMultiplicity(cs', d);
  }

  lemma SameDistinct(cs: seq<Text>, cs': seq<Text>)
    requires multiset(cs) == multiset(cs')
    ensures multiset(Distinct(cs)) == multiset(Distinct(cs'))
  {
    DistinctNoRepeats(cs);
    DistinctNoRepeats(cs');
    forall d
      ensures multiset(Distinct(cs))[d] == multiset(Distinct(cs'))[d]
    {
      DistinctHas(cs, d);
      DistinctHas(cs', d);
      NoRepeatsOnce(Distinct(cs), d);
      NoRepeatsOnce(Distinct(cs'), d);
      assert d in cs <==> d in multiset(cs);
      assert d in cs' <==> d in multiset(cs');
    }
  }

  /** The value depends only on how often each character occurs, not on where. */
  lemma EntropyOrderIndependent(log: real -> real, s: Text, t: Text)
    requires |s| == |t| && multiset(Characters(s)) == multiset(Characters(t))
    ensures Entropy(log, s) == Entropy(log, t)
  {
    if s != [] {
      var cs, cs' := Characters(s), Characters(t);
      SameDistinct(cs, cs');
      SumPermuted(Distinct(cs), Distinct(cs'), Part(log, cs, |s|));
      var part, part' := Part(log, cs, |s|), Part(log, cs', |s|);
      forall d | d in Distinct(cs')
        ensures part(d) == part'(d)
      {
        SamePart(log, cs, cs', |s|, d);
      }
      SumPointwise(Distinct(cs'), part, part');
    }
  }

  // ---------------------------------------------------------------- the heuristic

  predicate Lower(c: CodeUnit) { 97 <= c <= 122 }

  predicate Upper(c: CodeUnit) { 65 <= c <= 90 }

  predicate Digit(c: CodeUnit) { 48 <= c <= 57 }

  /** Letters, digits and `+ / = _ . -`. */
  predicate TokenUnit(c: CodeUnit) {
    Lower(c) || Upper(c) || Digit(c) || c == 43 || c == 47 || c == 61 || c == 95 || c == 46 || c == 45
  }

  predicate Whitespace(c: CodeUnit) {
    9 <= c <= 13 || c == 32 || c == 0xA0 || c == 0x1680 || 0x2000 <= c <= 0x200A ||
    c == 0x2028 || c == 0x2029 || c == 0x202F || c == 0x205F || c == 0x3000 || c == 0xFEFF
  }

  function CharacterClassCount(s: Text): nat {
    (if exists c | c in s :: Lower(c) then 1 else 0) +
    (if exists c | c in s :: Upper(c) then 1 else 0) +
    (if exists c | c in s :: Digit(c) then 1 else 0) +
    (if exists c | c in s :: !(Lower(c) || Upper(c) || Digit(c)) then 1 else 0)
  }

  predicate IsHighEntropyTokenCandidate(log: real -> real, knownSafe: Text -> bool, s: Text) {
    && MIN_ENTROPY_LENGTH <= |s| <= MAX_ENTROPY_LENGTH
    && !(exists c | c in s :: Whitespace(c))
    && (forall c | c in s :: TokenUnit(c))
    && CharacterClassCount(s) >= MIN_CHARACTER_CLASSES
    && !knownSafe(s)
    && Entropy(log, s) >= ENTROPY_THRESHOLD
  }

  /** In a string of token characters every unit is a character. */
  lemma {:induction false} TokenCharacters(s: Text)
    requires forall c | c in s :: TokenUnit(c)
    ensures |Characters(s)| == |s|
    decreases |s|
  {
    if s != [] {
      assert s[0] in s;
      TokenCharacters(s[Width(s)..]);
    }
  }

  /** Whatever the heuristic reports has at least sixteen distinct characters. */
  lemma CandidatesAreDiverse(log: real -> real, slope: real, knownSafe: Text -> bool, s: Text)
    requires IsLog2(log, slope)
    requires IsHighEntropyTokenCandidate(log, knownSafe, s)
    ensures |Distinct(Characters(s))| >= 16
  {
    TokenCharacters(s);
    EntropyBound(log, slope, s);
    LogOfSixteen(log, slope);
    AllCounted(Characters(s));
    assert Increasing(log, |Distinct(Characters(s))| as real, 16.0);
  }

  predicate AnyLower(s: Text) {
    exists c | c in s :: 0x61 <= c <= 0x7A
  }

  predicate AnyUpper(s: Text) {
    exists c | c in s :: 0x41 <= c <= 0x5A
  }

  predicate AnyDigit(s: Text) {
    exists c | c in s :: 0x30 <= c <= 0x39
  }

  /** Whether the string uses one of `+ / = _ . -`, all that the alphabet holds besides letters and digits. */
  predicate AnySymbol(s: Text) {
    exists c | c in s :: c in {0x2B, 0x2F, 0x3D, 0x5F, 0x2E, 0x2D}
  }

  predicate InAlphabet(c: CodeUnit) {
    || 0x61 <= c <= 0x7A || 0x41 <= c <= 0x5A || 0x30 <= c <= 0x39
    || c in {0x2B, 0x2F, 0x3D, 0x5F, 0x2E, 0x2D}
  }

  /** Exactly which strings are reported. */
  lemma CandidateExactly(log: real -> real, knownSafe: Text -> bool, s: Text)
    ensures IsHighEntropyTokenCandidate(log, knownSafe, s) <==>
      && 24 <= |s| <= 4096
      && (forall c | c in s :: InAlphabet(c))
      && (|| (AnyLower(s) && AnyUpper(s) && (AnyDigit(s) || AnySymbol(s)))
          || (AnyDigit(s) && AnySymbol(s) && (AnyLower(s) || AnyUpper(s))))
      && !knownSafe(s)
      && Entropy(log, s) >= 4.0
  {
    forall c: CodeUnit
      ensures TokenUnit(c) <==> InAlphabet(c)
      ensures InAlphabet(c) ==> !Whitespace(c)
    {
    }
    if forall c | c in s :: InAlphabet(c) {
      forall c | c in s
        ensures !(Lower(c) || Upper(c) || Digit(c)) <==> c in {0x2B, 0x2F, 0x3D, 0x5F, 0x2E, 0x2D}
      {
        assert InAlphabet(c);
      }
    }
  }

  function Joined(cs: seq<Text>): Text {
    if cs == [] then [] else cs[0] + Joined(cs[1..])
  }

  /** The characters of a string are its code points in order: joined they are the string,
    and each is one unit or one pair. */
  lemma {:induction false} CharactersJoin(s: Text)
    ensures Joined(Characters(s)) == s
    ensures forall c | c in Characters(s) :: |c| == 1 || (|c| == 2 && IsHigh(c[0]) && IsLow(c[1]))
    ensures |Characters(s)| == |CodePoints(s)|
    decreases |s|
  {
    if s != [] {
      var first, rest := s[..Width(s)], s[Width(s)..];
      CharactersJoin(rest);
      assert ([first] + Characters(rest))[1..] == Characters(rest);
      assert s == first + rest;
    }
  }
}
