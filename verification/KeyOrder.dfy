/** The order of an object's members in its canonical text, told without the comparison that sorts them. */
module KeyOrder {
  import opened Unicode
  import opened Json
  import opened Canonical

  /** The two texts agree before `k`, where `a` ends first or has the lower unit. */
  ghost predicate LowerAt(a: Text, b: Text, k: nat) {
    k <= |a| && k < |b| && a[..k] == b[..k] && (k == |a| || a[k] < b[k])
  }

  /** Order by UTF-16 code units, as section 3.2.3 of RFC 8785 asks. */
  ghost predicate Lower(a: Text, b: Text) {
    exists k: nat :: LowerAt(a, b, k)
  }

  lemma {:induction false} BeforeIsLower(a: Text, b: Text)
    ensures Before(a, b) <==> Lower(a, b)
  {
    if b != [] {
      if a == [] {
        assert LowerAt(a, b, 0);
      } else if a[0] != b[0] {
        assert a[0] < b[0] ==> LowerAt(a, b, 0);
        if k: nat :| LowerAt(a, b, k) {
          FirstUnits(a, b, k);
        }
      } else {
        BeforeIsLower(a[1..], b[1..]);
        if k: nat :| LowerAt(a[1..], b[1..], k) {
          LaterUnit(a, b, k);
        }
        if k: nat :| LowerAt(a, b, k) {
          EarlierUnit(a, b, k);
        }
      }
    }
  }

  lemma FirstUnits(a: Text, b: Text, k: nat)
    requires a != [] && b != [] && LowerAt(a, b, k)
    ensures if k == 0 then a[0] < b[0] else a[0] == b[0]
  {
    if k > 0 {
      assert a[..k][0] == a[0] && b[..k][0] == b[0];
    }
  }

  lemma LaterUnit(a: Text, b: Text, k: nat)
    requires a != [] && b != [] && a[0] == b[0] && LowerAt(a[1..], b[1..], k)
    ensures LowerAt(a, b, k + 1)
  {
    assert a[..k + 1] == [a[0]] + a[1..][..k] && b[..k + 1] == [b[0]] + b[1..][..k];
  }

  lemma EarlierUnit(a: Text, b: Text, k: nat)
    requires a != [] && b != [] && a[0] == b[0] && LowerAt(a, b, k)
    ensures k > 0 && LowerAt(a[1..], b[1..], k - 1)
  {
    assert a[1..][..k - 1] == a[..k][1..] && b[1..][..k - 1] == b[..k][1..];
  }

  /** Members in the order of their keys. */
  ghost predicate Arranged(ps: seq<Printed>) {
    forall i, j | 0 <= i < j < |ps| :: Lower(ps[i].key, ps[j].key)
  }

  /** What one member is printed as: its quoted key, a colon, and the text of its value. */
  function Line(p: Printed): Text {
    [0x22] + Escape(p.key) + [0x22, 0x3A] + p.text
  }

  /**
   * The members of a printed object are its fields, each once, in the order of their keys
   * by code units.
   */
  lemma MembersInOrder(fields: seq<Field>) returns (ps: seq<Printed>)
    requires DistinctKeys(fields)
    ensures multiset(ps) == multiset(PrintFields(fields)) && Arranged(ps)
    ensures |FieldTexts(fields)| == |ps| && forall i | 0 <= i < |ps| :: FieldTexts(fields)[i] == Line(ps[i])
  {
    ps := SortByKey(PrintFields(fields));
    SortKeeps(PrintFields(fields));
    SortSorts(PrintFields(fields));
    forall i, j | 0 <= i < j < |ps|
      ensures Lower(ps[i].key, ps[j].key)
    {
      BeforeIsLower(ps[i].key, ps[j].key);
    }
    forall i | 0 <= i < |ps|
      ensures FieldTexts(fields)[i] == Line(ps[i])
    {
      LineIs(ps[i]);
    }
  }

  lemma LineIs(p: Printed)
    ensures MemberText(p) == Line(p)
  {
  }

  /** Of two fields the one with the lower key comes first in the text. */
  lemma TwoMembers(k: Text, v: Value, l: Text, w: Value)
    requires Lower(k, l)
    ensures TextOf(Object([Field(k, v), Field(l, w)]))
         == [0x7B] + Line(Printed(k, TextOf(v))) + [0x2C] + Line(Printed(l, TextOf(w))) + [0x7D]
    ensures TextOf(Object([Field(l, w), Field(k, v)])) == TextOf(Object([Field(k, v), Field(l, w)]))
  {
    var p, q := Printed(k, TextOf(v)), Printed(l, TextOf(w));
    BeforeIsLower(k, l);
    BeforeIsStrict(k, l);
    PrintTwo(k, v, l, w);
    PrintTwo(l, w, k, v);
    SortTwo(p, q);
    TextOfTwo([Field(k, v), Field(l, w)], p, q);
    TextOfTwo([Field(l, w), Field(k, v)], p, q);
  }

  lemma TextOfTwo(fields: seq<Field>, p: Printed, q: Printed)
    requires SortByKey(PrintFields(fields)) == [p, q]
    ensures TextOf(Object(fields)) == [0x7B] + Line(p) + [0x2C] + Line(q) + [0x7D]
  {
    LineIs(p);
    LineIs(q);
    JoinTwo(p, q);
    assert TextOf(Object(fields)) == [0x7B] + Join(MemberTexts([p, q])) + [0x7D];
  }

  lemma PrintTwo(k: Text, v: Value, l: Text, w: Value)
    ensures PrintFields([Field(k, v), Field(l, w)]) == [Printed(k, TextOf(v)), Printed(l, TextOf(w))]
  {
  }

  lemma SortTwo(p: Printed, q: Printed)
    requires Before(p.key, q.key) && !Before(q.key, p.key)
    ensures SortByKey([p, q]) == [p, q] && SortByKey([q, p]) == [p, q]
  {
    assert [p, q][1..] == [q] && [q, p][1..] == [p] && [p][1..] == [] && [q][1..] == [];
    assert SortByKey([q]) == [q] && SortByKey([p]) == [p];
  }

  lemma JoinTwo(p: Printed, q: Printed)
    ensures Join(MemberTexts([p, q])) == MemberText(p) + [0x2C] + MemberText(q)
  {
    var ts := MemberTexts([p, q]);
    assert ts == [MemberText(p), MemberText(q)];
    assert ts[1..] == [MemberText(q)];
  }
}
