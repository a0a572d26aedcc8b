/** `Array.prototype.sort` on strings. The specification requires a stable sort; for a
    consistent comparator its result is therefore unique, and insertion sort computes it.
    Without a comparator, strings are compared code unit by code unit. */
module JsArraySort {

  /** A comparator in the sense of `compareFn(a, b)`: negative puts `a` first, positive `b`. */
  type Comparator = (string, string) -> int

  /** `cmp` puts `a` strictly before `b`. */
  predicate Before(cmp: Comparator, a: string, b: string) {
    cmp(a, b) < 0
  }

  /** `cmp` puts `a` strictly after `b`. */
  predicate After(cmp: Comparator, a: string, b: string) {
    cmp(a, b) > 0
  }

  /** `cmp` does not put `a` after `b`. */
  predicate NotAfter(cmp: Comparator, a: string, b: string) {
    cmp(a, b) <= 0
  }

  /** The conditions ECMAScript puts on a "consistent comparator": `a < b` exactly when
      `b > a`, and "not after" is transitive. */
  ghost predicate Consistent(cmp: Comparator) {
    && (forall a, b :: Before(cmp, a, b) <==> After(cmp, b, a))
    && (forall a, b, c :: NotAfter(cmp, a, b) && NotAfter(cmp, b, c) ==> NotAfter(cmp, a, c))
  }

  lemma Flip(cmp: Comparator, a: string, b: string)
    requires Consistent(cmp)
    ensures cmp(a, b) < 0 <==> cmp(b, a) > 0
  {
    assert Before(cmp, a, b) <==> After(cmp, b, a);
  }

  lemma Chain(cmp: Comparator, a: string, b: string, c: string)
    requires Consistent(cmp) && cmp(a, b) <= 0 && cmp(b, c) <= 0
    ensures cmp(a, c) <= 0
  {
    assert NotAfter(cmp, a, b) && NotAfter(cmp, b, c);
  }

  /** The default order: lexicographic on code units, a proper prefix first. */
  function CompareCodeUnits(a: string, b: string): (r: int)
    ensures -1 <= r <= 1
    ensures r == 0 <==> a == b
  {
    if a == [] then (if b == [] then 0 else -1)
    else if b == [] then 1
    else if a[0] < b[0] then -1
    else if a[0] > b[0] then 1
    else
      var r := CompareCodeUnits(a[1..], b[1..]);
      assert a == [a[0]] + a[1..] && b == [b[0]] + b[1..];
      r
  }

  lemma {:induction false} CompareCodeUnitsAntisymmetric(a: string, b: string)
    ensures CompareCodeUnits(a, b) == -CompareCodeUnits(b, a)
  {
    if a != [] && b != [] && a[0] == b[0] {
      CompareCodeUnitsAntisymmetric(a[1..], b[1..]);
    }
  }

  lemma {:induction false} CompareCodeUnitsTransitive(a: string, b: string, c: string)
    requires CompareCodeUnits(a, b) <= 0 && CompareCodeUnits(b, c) <= 0
    ensures CompareCodeUnits(a, c) <= 0
  {
    if a != [] && b != [] && c != [] && a[0] == b[0] == c[0] {
      CompareCodeUnitsTransitive(a[1..], b[1..], c[1..]);
    }
  }

  /** The default comparator is consistent, so sorting without one is well defined. */
  lemma CodeUnitOrderConsistent()
    ensures Consistent(CompareCodeUnits)
  {
    forall a, b ensures CompareCodeUnits(a, b) < 0 <==> CompareCodeUnits(b, a) > 0 {
      CompareCodeUnitsAntisymmetric(a, b);
    }
    forall a, b, c | CompareCodeUnits(a, b) <= 0 && CompareCodeUnits(b, c) <= 0
      ensures CompareCodeUnits(a, c) <= 0
    {
      CompareCodeUnitsTransitive(a, b, c);
    }
  }

  ghost predicate Sorted(s: seq<string>, cmp: Comparator) {
    forall i, j :: 0 <= i < j < |s| ==> cmp(s[i], s[j]) <= 0
  }

  predicate Distinct(s: seq<string>) {
    forall i, j :: 0 <= i < j < |s| ==> s[i] != s[j]
  }

  /** Position of the first occurrence of `x` in `s`. */
  function IndexOf(s: seq<string>, x: string): (i: nat)
    requires x in s
    ensures i < |s| && s[i] == x
    ensures forall j :: 0 <= j < i ==> s[j] != x
  {
    if s[0] == x then 0 else 1 + IndexOf(s[1..], x)
  }

  /** Elements that compare equal keep their relative order from `original`. */
  ghost predicate StableFrom(s: seq<string>, original: seq<string>, cmp: Comparator) {
    forall i, j :: 0 <= i < j < |s| && s[i] in original && s[j] in original && cmp(s[i], s[j]) == 0 ==>
      IndexOf(original, s[i]) < IndexOf(original, s[j])
  }

  /** Where `x` goes among the sorted `s`: after every leading element that may precede it. */
  function InsertionPoint(x: string, s: seq<string>, cmp: Comparator): (m: nat)
    ensures m <= |s|
    ensures forall k :: 0 <= k < m ==> cmp(s[k], x) <= 0
    ensures m < |s| ==> cmp(s[m], x) > 0
  {
    if s == [] || cmp(s[0], x) > 0 then 0 else InsertionPoint(x, s[1..], cmp) + 1
  }

  /** `x` placed before the first element that must come after it. */
  function Insert(x: string, s: seq<string>, cmp: Comparator): (r: seq<string>)
    ensures multiset(r) == multiset(s) + multiset{x}
    ensures forall y :: y in r <==> y in s || y == x
  {
    var m := InsertionPoint(x, s, cmp);
    assert s == s[..m] + s[m..];
    s[..m] + [x] + s[m..]
  }

  /** `s.sort(cmp)`: each element in turn inserted into the sorted prefix before it. */
  function SortBy(s: seq<string>, cmp: Comparator): (r: seq<string>)
    ensures multiset(r) == multiset(s)
  {
    if s == [] then []
    else
      var r := Insert(s[|s| - 1], SortBy(s[..|s| - 1], cmp), cmp);
      assert s == s[..|s| - 1] + [s[|s| - 1]];
      r
  }

  lemma InsertSorted(x: string, s: seq<string>, cmp: Comparator)
    requires Consistent(cmp) && Sorted(s, cmp)
    ensures Sorted(Insert(x, s, cmp), cmp)
  {
    var m := InsertionPoint(x, s, cmp);
    var r := Insert(x, s, cmp);
    assert r == s[..m] + [x] + s[m..];
    forall i, j | 0 <= i < j < |r| ensures cmp(r[i], r[j]) <= 0 {
      InsertedIndex(x, s, m, i);
      InsertedIndex(x, s, m, j);
      if i == m {
        Flip(cmp, x, s[m]);
        if j - 1 > m {
          assert cmp(s[m], s[j - 1]) <= 0;
          Chain(cmp, x, s[m], s[j - 1]);
        }
      } else if j != m {
        var i', j' := if i < m then i else i - 1, if j < m then j else j - 1;
        assert cmp(s[i'], s[j']) <= 0;
      }
    }
  }

  /** Sorting with a consistent comparator yields a sorted permutation. */
  lemma {:induction false} SortBySorted(s: seq<string>, cmp: Comparator)
    requires Consistent(cmp)
    ensures Sorted(SortBy(s, cmp), cmp)
  {
    if s != [] {
      SortBySorted(s[..|s| - 1], cmp);
      InsertSorted(s[|s| - 1], SortBy(s[..|s| - 1], cmp), cmp);
    }
  }

  lemma {:induction false} IndexOfPrefix(p: seq<string>, x: string, y: string)
    requires y in p
    ensures IndexOf(p + [x], y) == IndexOf(p, y)
  {
    if p[0] != y {
      assert (p + [x])[1..] == p[1..] + [x];
      IndexOfPrefix(p[1..], x, y);
    }
  }

  lemma IndexOfAppended(p: seq<string>, x: string)
    requires x !in p
    ensures IndexOf(p + [x], x) == |p|
  {
  }

  /** Nothing at or after the insertion point `m` compares equal to the inserted element. */
  lemma AfterInsertionPoint(x: string, t: seq<string>, cmp: Comparator, m: nat, k: nat)
    requires Consistent(cmp) && Sorted(t, cmp)
    requires m <= k < |t| && cmp(t[m], x) > 0
    ensures cmp(x, t[k]) != 0
  {
    if cmp(x, t[k]) == 0 {
      Flip(cmp, x, t[k]);
      if m < k {
        Chain(cmp, t[m], t[k], x);
      }
    }
  }

  lemma InsertAtStable(x: string, t: seq<string>, p: seq<string>, cmp: Comparator, m: nat)
    requires Consistent(cmp) && Sorted(t, cmp) && StableFrom(t, p, cmp)
    requires forall y :: y in t <==> y in p
    requires x !in p
    requires m <= |t| && (m < |t| ==> cmp(t[m], x) > 0)
    ensures StableFrom(t[..m] + [x] + t[m..], p + [x], cmp)
  {
    var s := p + [x];
    var r := t[..m] + [x] + t[m..];
    IndexOfAppended(p, x);
    forall i, j | 0 <= i < j < |r| && r[i] in s && r[j] in s && cmp(r[i], r[j]) == 0
      ensures IndexOf(s, r[i]) < IndexOf(s, r[j])
    {
      InsertedIndex(x, t, m, i);
      InsertedIndex(x, t, m, j);
      if j == m {
        IndexOfPrefix(p, x, r[i]);
      } else if i == m {
        AfterInsertionPoint(x, t, cmp, m, j - 1);
      } else {
        var i', j' := if i < m then i else i - 1, if j < m then j else j - 1;
        IndexOfPrefix(p, x, t[i']);
        IndexOfPrefix(p, x, t[j']);
      }
    }
  }

  /** The element at `k` after inserting `x` at `m`. */
  lemma InsertedIndex(x: string, t: seq<string>, m: nat, k: nat)
    requires m <= |t| && k <= |t|
    ensures |t[..m] + [x] + t[m..]| == |t| + 1
    ensures (t[..m] + [x] + t[m..])[k] == if k < m then t[k] else if k == m then x else t[k - 1]
  {
  }

  /** Inserting an element that comes last in the original order keeps the sort stable. */
  lemma InsertStable(x: string, t: seq<string>, p: seq<string>, cmp: Comparator)
    requires Consistent(cmp) && Sorted(t, cmp) && StableFrom(t, p, cmp)
    requires forall y :: y in t <==> y in p
    requires x !in p
    ensures StableFrom(Insert(x, t, cmp), p + [x], cmp)
  {
    InsertAtStable(x, t, p, cmp, InsertionPoint(x, t, cmp));
  }

  /** The sort is stable: elements that compare equal keep their original order. */
  lemma {:induction false} SortByStable(s: seq<string>, cmp: Comparator)
    requires Consistent(cmp) && Distinct(s)
    ensures StableFrom(SortBy(s, cmp), s, cmp)
  {
    if s != [] {
      var p, x := s[..|s| - 1], s[|s| - 1];
      assert s == p + [x];
      assert x !in p;
      SortByStable(p, cmp);
      SortBySorted(p, cmp);
      var t := SortBy(p, cmp);
      forall y ensures y in t <==> y in p {
        assert y in t <==> y in multiset(t);
        assert y in p <==> y in multiset(p);
      }
      InsertStable(x, t, p, cmp);
    }
  }

  lemma InsertAtDistinct(x: string, t: seq<string>, m: nat)
    requires Distinct(t) && x !in t && m <= |t|
    ensures Distinct(t[..m] + [x] + t[m..])
  {
    var r := t[..m] + [x] + t[m..];
    forall i, j | 0 <= i < j < |r| ensures r[i] != r[j] {
      if i != m && j != m {
        var i', j' := if i < m then i else i - 1, if j < m then j else j - 1;
        assert r[i] == t[i'] && r[j] == t[j'] && i' < j';
      } else if i == m {
        assert r[j] == t[j - 1];
      } else {
        assert r[i] == t[i];
      }
    }
  }

  /** Sorting neither duplicates nor merges elements. */
  lemma {:induction false} SortByDistinct(s: seq<string>, cmp: Comparator)
    requires Distinct(s)
    ensures Distinct(SortBy(s, cmp))
  {
    if s != [] {
      var p, x := s[..|s| - 1], s[|s| - 1];
      assert s == p + [x];
      SortByDistinct(p, cmp);
      var t := SortBy(p, cmp);
      assert x !in t by {
        assert x in t <==> x in multiset(t);
        assert x !in p;
      }
      InsertAtDistinct(x, t, InsertionPoint(x, t, cmp));
    }
  }
}
