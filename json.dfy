/** JSON values as Python's `json` module produces and consumes them.
    An object is the sequence of its entries in insertion order, the order
    a Python `dict` keeps and `json.dumps` writes unless `sort_keys=True`. */
module JsonValue {
  import opened Common

  datatype Json =
    | JNull
    | JBool(b: bool)
    | JNum(n: int)
    | JStr(s: string)
    | JArr(items: seq<Json>)
    | JObj(entries: Dict)

  type Dict = seq<(string, Json)>

  function Keys(d: Dict): set<string> {
    set i | 0 <= i < |d| :: d[i].0
  }

  /** A Python `dict` never holds a key twice. */
  predicate DistinctKeys(d: Dict) {
    forall i, j :: 0 <= i < j < |d| ==> d[i].0 != d[j].0
  }

  // ---------------------------------------------------------------------
  // CPython's limit on converting an `int` to decimal text (the default of
  // `sys.set_int_max_str_digits`): `json.dumps` raises `ValueError` on an
  // integer with more digits, and `json.loads` on such a literal.

  const INT_MAX_STR_DIGITS: nat := 4300

  /** The number of decimal digits `str(n)` writes for `n >= 0`. */
  function DigitCount(n: nat): (r: nat)
    ensures r >= 1
  {
    if n < 10 then 1 else 1 + DigitCount(n / 10)
  }

  function Pow10(k: nat): (r: nat)
    ensures r >= 1
  {
    if k == 0 then 1 else 10 * Pow10(k - 1)
  }

  /** `n` has at most `k` digits exactly when it is below `10^k`. */
  lemma {:induction false} DigitCountBelow(n: nat, k: nat)
    requires k >= 1
    ensures DigitCount(n) <= k <==> n < Pow10(k)
    decreases k
  {
    if n >= 10 && k >= 2 {
      DigitCountBelow(n / 10, k - 1);
    } else if n >= 10 {
      assert Pow10(1) == 10;
    }
  }

  /** `int.__repr__` accepts `n`: its digits, the sign not counted, are
      within the limit. */
  predicate WritableInt(n: int) {
    DigitCount(if n < 0 then -n else n) <= INT_MAX_STR_DIGITS
  }

  /** `json.dumps(j)` returns instead of raising: every integer, at every
      depth, is writable. */
  predicate Serialisable(j: Json) {
    match j
    case JNum(n) => WritableInt(n)
    case JArr(items) => forall i :: 0 <= i < |items| ==> Serialisable(items[i])
    case JObj(es) => forall i :: 0 <= i < |es| ==> Serialisable(es[i].1)
    case _ => true
  }

  /** What `json.loads` can produce: every object, at every depth, has
      distinct keys, and every integer is writable. */
  predicate WellFormed(j: Json) {
    match j
    case JNum(n) => WritableInt(n)
    case JArr(items) => forall i :: 0 <= i < |items| ==> WellFormed(items[i])
    case JObj(es) => DistinctKeys(es) && forall i :: 0 <= i < |es| ==> WellFormed(es[i].1)
    case _ => true
  }

  /** A value `json.loads` can produce can be written back. */
  lemma {:induction false} WellFormedSerialisable(j: Json)
    requires WellFormed(j)
    ensures Serialisable(j)
  {
    match j
    case JArr(items) =>
      forall i | 0 <= i < |items| ensures Serialisable(items[i]) { WellFormedSerialisable(items[i]); }
    case JObj(es) =>
      forall i | 0 <= i < |es| ensures Serialisable(es[i].1) { WellFormedSerialisable(es[i].1); }
    case _ =>
  }

  /** `d[k]` when `k in d`. */
  function Lookup(d: Dict, k: string): (r: Option<Json>)
    ensures r.Some? <==> k in Keys(d)
    ensures r.Some? ==> (k, r.value) in d
    ensures DistinctKeys(d) ==> forall i :: 0 <= i < |d| && d[i].0 == k ==> r == Some(d[i].1)
  {
    if d == [] then None
    else if d[0].0 == k then Some(d[0].1)
    else
      var r := Lookup(d[1..], k);
      assert Keys(d) == {d[0].0} + Keys(d[1..]) by {
        forall x | x in Keys(d) ensures x in {d[0].0} + Keys(d[1..]) {
          var i :| 0 <= i < |d| && d[i].0 == x;
          if i > 0 { assert d[1..][i - 1].0 == x; }
        }
        forall x | x in Keys(d[1..]) ensures x in Keys(d) {
          var i :| 0 <= i < |d[1..]| && d[1..][i].0 == x;
          assert d[i + 1].0 == x;
        }
      }
      assert DistinctKeys(d) ==> DistinctKeys(d[1..]) by {
        if DistinctKeys(d) {
          forall i, j | 0 <= i < j < |d[1..]| ensures d[1..][i].0 != d[1..][j].0 {
            assert d[1..][i] == d[i + 1] && d[1..][j] == d[j + 1];
          }
        }
      }
      assert forall i :: 1 <= i < |d| ==> d[i] == d[1..][i - 1];
      r
  }

  // ---------------------------------------------------------------------
  // The order `sorted()` puts `str` keys in: code point by code point, a
  // proper prefix first.

  predicate Less(a: string, b: string) {
    if |a| == 0 then |b| > 0
    else if |b| == 0 then false
    else if a[0] != b[0] then a[0] < b[0]
    else Less(a[1..], b[1..])
  }

  lemma {:induction false} LessIrreflexive(a: string)
    ensures !Less(a, a)
  {
    if |a| > 0 { LessIrreflexive(a[1..]); }
  }

  lemma {:induction false} LessTransitive(a: string, b: string, c: string)
    requires Less(a, b) && Less(b, c)
    ensures Less(a, c)
  {
    if |a| > 0 && |b| > 0 && |c| > 0 && a[0] == b[0] && b[0] == c[0] {
      LessTransitive(a[1..], b[1..], c[1..]);
    }
  }

  lemma {:induction false} LessTotal(a: string, b: string)
    requires a != b
    ensures Less(a, b) || Less(b, a)
  {
    if |a| > 0 && |b| > 0 && a[0] == b[0] {
      assert a == [a[0]] + a[1..] && b == [b[0]] + b[1..];
      LessTotal(a[1..], b[1..]);
    }
  }

  // ---------------------------------------------------------------------
  // `sort_keys=True`: the entries of every object, at every depth, in key
  // order.

  predicate SortedByKey(d: Dict) {
    forall i, j :: 0 <= i < j < |d| ==> Less(d[i].0, d[j].0)
  }

  function Insert(e: (string, Json), d: Dict): (r: Dict)
    ensures multiset(r) == multiset(d) + multiset{e}
    ensures SortedByKey(d) && e.0 !in Keys(d) ==> SortedByKey(r)
  {
    if d == [] then [e]
    else if Less(e.0, d[0].0) then
      InsertFront(e, d);
      [e] + d
    else
      var rest := Insert(e, d[1..]);
      assert d == [d[0]] + d[1..];
      InsertSorted(e, d, rest);
      [d[0]] + rest
  }

  lemma InsertFront(e: (string, Json), d: Dict)
    requires d != [] && Less(e.0, d[0].0)
    ensures SortedByKey(d) ==> SortedByKey([e] + d)
  {
    if SortedByKey(d) {
      forall j | 0 < j < |[e] + d| ensures Less(e.0, ([e] + d)[j].0) {
        if j > 1 { LessTransitive(e.0, d[0].0, d[j - 1].0); }
      }
    }
  }

  lemma InsertSorted(e: (string, Json), d: Dict, rest: Dict)
    requires d != [] && !Less(e.0, d[0].0)
    requires multiset(rest) == multiset(d[1..]) + multiset{e}
    requires SortedByKey(d) && e.0 !in Keys(d) ==> SortedByKey(rest)
    ensures SortedByKey(d) && e.0 !in Keys(d) ==> SortedByKey([d[0]] + rest)
  {
    if SortedByKey(d) && e.0 !in Keys(d) {
      assert e.0 != d[0].0;
      LessTotal(e.0, d[0].0);
      forall j | 0 <= j < |rest| ensures Less(d[0].0, rest[j].0) {
        assert rest[j] in multiset(rest);
        if rest[j] != e {
          assert rest[j] in multiset(d[1..]);
          var k :| 0 <= k < |d[1..]| && d[1..][k] == rest[j];
          assert d[k + 1] == rest[j];
        }
      }
      var r := [d[0]] + rest;
      forall i, j | 0 <= i < j < |r| ensures Less(r[i].0, r[j].0) {
        if i > 0 { assert r[i] == rest[i - 1] && r[j] == rest[j - 1]; }
      }
    }
  }

  function SortByKey(d: Dict): (r: Dict)
    ensures multiset(r) == multiset(d)
    ensures DistinctKeys(d) ==> SortedByKey(r)
  {
    if d == [] then []
    else
      var rest := SortByKey(d[1..]);
      assert d == [d[0]] + d[1..];
      assert DistinctKeys(d) ==> DistinctKeys(d[1..]) && d[0].0 !in Keys(rest) by {
        if DistinctKeys(d) {
          forall i, j | 0 <= i < j < |d[1..]| ensures d[1..][i].0 != d[1..][j].0 {
            assert d[1..][i] == d[i + 1] && d[1..][j] == d[j + 1];
          }
          forall k | 0 <= k < |rest| ensures rest[k].0 != d[0].0 {
            assert rest[k] in multiset(d[1..]);
            var m :| 0 <= m < |d[1..]| && d[1..][m] == rest[k];
            assert d[m + 1] == rest[k];
          }
        }
      }
      Insert(d[0], rest)
  }

  /** The value `json.dumps(j, sort_keys=True)` writes out as `json.dumps`
      would write this one. */
  function Canonical(j: Json): Json {
    match j
    case JArr(items) => JArr(seq(|items|, i requires 0 <= i < |items| => Canonical(items[i])))
    case JObj(es) => JObj(SortByKey(seq(|es|, i requires 0 <= i < |es| => (es[i].0, Canonical(es[i].1)))))
    case _ => j
  }

  /** The entries of `JObj(es)` with their values canonical, before the
      keys are sorted. */
  function CanonicalEntries(es: Dict): (r: Dict)
    ensures |r| == |es|
    ensures forall i :: 0 <= i < |es| ==> r[i] == (es[i].0, Canonical(es[i].1))
  {
    seq(|es|, i requires 0 <= i < |es| => (es[i].0, Canonical(es[i].1)))
  }

  /** Two sequences sorted by strictly increasing key that hold the same
      entries are the same sequence. */
  lemma {:induction false} SortedUnique(a: Dict, b: Dict)
    requires SortedByKey(a) && SortedByKey(b)
    requires forall x :: x in a <==> x in b
    ensures a == b
  {
    assert a == [] <==> b == [] by {
      if a != [] { assert a[0] in a; }
      if b != [] { assert b[0] in b; }
    }
    if a != [] {
      assert b[0] in b && a[0] in a;
      var k :| 0 <= k < |a| && a[k] == b[0];
      var m :| 0 <= m < |b| && b[m] == a[0];
      LessAsymmetric(a[0].0, b[0].0);
      assert k == 0 || m == 0;
      assert a[0] == b[0];
      forall x ensures x in a[1..] <==> x in b[1..] {
        if x in a[1..] {
          var i :| 0 <= i < |a[1..]| && a[1..][i] == x;
          assert Less(a[0].0, a[i + 1].0);
          LessIrreflexive(x.0);
          assert x in b;
        }
        if x in b[1..] {
          var i :| 0 <= i < |b[1..]| && b[1..][i] == x;
          assert Less(b[0].0, b[i + 1].0);
          LessIrreflexive(x.0);
          assert x in a;
        }
      }
      SortedUnique(a[1..], b[1..]);
      assert a == [a[0]] + a[1..] && b == [b[0]] + b[1..];
    }
  }

  lemma {:induction false} LessAsymmetric(a: string, b: string)
    ensures !(Less(a, b) && Less(b, a))
  {
    if |a| > 0 && |b| > 0 && a[0] == b[0] {
      LessAsymmetric(a[1..], b[1..]);
    }
  }

  /** `sort_keys=True` forgets the order the keys were inserted in: a dict
      and any rearrangement of its entries serialise alike. */
  lemma CanonicalIgnoresOrder(d1: Dict, d2: Dict)
    requires DistinctKeys(d1)
    requires multiset(d1) == multiset(d2)
    ensures Canonical(JObj(d1)) == Canonical(JObj(d2))
  {
    var c1, c2 := CanonicalEntries(d1), CanonicalEntries(d2);
    CanonicalObject(d1);
    CanonicalObject(d2);
    SameCanonicalEntries(d1, d2);
    SameCanonicalEntries(d2, d1);
    DistinctCanonicalEntries(d1, d2);
    var s1, s2 := SortByKey(c1), SortByKey(c2);
    SortKeepsMembers(c1);
    SortKeepsMembers(c2);
    SortedUnique(s1, s2);
  }

  lemma SortKeepsMembers(d: Dict)
    ensures forall x :: x in SortByKey(d) <==> x in d
  {
    var s := SortByKey(d);
    forall x ensures x in s <==> x in d {
      assert x in s <==> x in multiset(s);
      assert x in d <==> x in multiset(d);
    }
  }

  lemma CanonicalObject(es: Dict)
    ensures Canonical(JObj(es)) == JObj(SortByKey(CanonicalEntries(es)))
  {
    assert CanonicalEntries(es) == seq(|es|, i requires 0 <= i < |es| => (es[i].0, Canonical(es[i].1)));
  }

  lemma DistinctCanonicalEntries(d1: Dict, d2: Dict)
    requires DistinctKeys(d1)
    requires multiset(d1) == multiset(d2)
    ensures DistinctKeys(CanonicalEntries(d1)) && DistinctKeys(CanonicalEntries(d2))
  {
    var c1, c2 := CanonicalEntries(d1), CanonicalEntries(d2);
    assert |d2| == |d1| by {
      assert |multiset(d2)| == |multiset(d1)|;
    }
    forall i, j | 0 <= i < j < |c2| ensures c2[i].0 != c2[j].0 {
      DistinctAfterPermutation(d1, d2, i, j);
    }
  }

  lemma SameCanonicalEntries(d1: Dict, d2: Dict)
    requires multiset(d1) == multiset(d2)
    ensures forall x :: x in CanonicalEntries(d1) ==> x in CanonicalEntries(d2)
  {
    var c1, c2 := CanonicalEntries(d1), CanonicalEntries(d2);
    forall x | x in c1 ensures x in c2 {
      var i :| 0 <= i < |c1| && c1[i] == x;
      assert d1[i] in multiset(d2);
      var j :| 0 <= j < |d2| && d2[j] == d1[i];
      assert c2[j] == x;
    }
  }

  /** A rearrangement of a dict's entries still has distinct keys. */
  lemma DistinctAfterPermutation(d1: Dict, d2: Dict, i: int, j: int)
    requires DistinctKeys(d1)
    requires multiset(d1) == multiset(d2)
    requires 0 <= i < j < |d2|
    ensures d2[i].0 != d2[j].0
  {
    assert d2[i] in multiset(d1) && d2[j] in multiset(d1);
    var p :| 0 <= p < |d1| && d1[p] == d2[i];
    var q :| 0 <= q < |d1| && d1[q] == d2[j];
    MultiplicityOne(d1, p);
    assert d2 == d2[..j] + [d2[j]] + d2[j + 1..];
    assert d2[i] in d2[..j];
    assert multiset(d2)[d2[i]] >= 1 + (if d2[i] == d2[j] then 1 else 0);
    assert d2[i] != d2[j];
  }

  /** In a dict each entry occurs once. */
  lemma MultiplicityOne(d: Dict, p: int)
    requires DistinctKeys(d)
    requires 0 <= p < |d|
    ensures multiset(d)[d[p]] == 1
  {
    assert d == d[..p] + [d[p]] + d[p + 1..];
    assert d[p] !in d[..p] by {
      forall k | 0 <= k < p ensures d[..p][k] != d[p] { assert d[..p][k].0 == d[k].0; }
    }
    var tail := d[p + 1..];
    assert d[p] !in tail by {
      forall k | 0 <= k < |tail| ensures tail[k] != d[p] { assert tail[k] == d[p + 1 + k]; }
    }
    assert multiset(d) == multiset(d[..p]) + multiset{d[p]} + multiset(tail);
  }

  /** Sorting the keys does not change which integers are written:
      `json.dumps(j, sort_keys=True)` raises exactly when `json.dumps(j)`
      does. */
  lemma {:induction false} CanonicalSerialisable(j: Json)
    ensures Serialisable(Canonical(j)) <==> Serialisable(j)
    decreases j, 1
  {
    match j
    case JArr(items) =>
      var c := Canonical(j).items;
      assert |c| == |items|;
      forall i | 0 <= i < |items| ensures Serialisable(c[i]) <==> Serialisable(items[i]) {
        assert c[i] == Canonical(items[i]);
        CanonicalSerialisable(items[i]);
      }
    case JObj(es) => CanonicalObjectSerialisable(j);
    case _ =>
  }

  lemma {:induction false} CanonicalObjectSerialisable(j: Json)
    requires j.JObj?
    ensures Serialisable(Canonical(j)) <==> Serialisable(j)
    decreases j, 0
  {
    var es := j.entries;
    var c := CanonicalEntries(es);
    forall i | 0 <= i < |es| ensures Serialisable(c[i].1) <==> Serialisable(es[i].1) {
      CanonicalSerialisable(es[i].1);
    }
    CanonicalObject(es);
    SortKeepsMembers(c);
    SerialisableSameEntries(SortByKey(c), c);
  }

  /** Whether every value of a dict is serialisable depends only on which
      entries it holds. */
  lemma SerialisableSameEntries(a: Dict, b: Dict)
    requires forall x :: x in a <==> x in b
    ensures Serialisable(JObj(a)) <==> Serialisable(JObj(b))
  {
    if Serialisable(JObj(b)) {
      forall i | 0 <= i < |a| ensures Serialisable(a[i].1) { assert a[i] in b; }
    }
    if Serialisable(JObj(a)) {
      forall i | 0 <= i < |b| ensures Serialisable(b[i].1) { assert b[i] in a; }
    }
  }
}
