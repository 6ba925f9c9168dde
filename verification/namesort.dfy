/**
 * Ordering a listing by entry name (the sort.Slice call in ServeHTTP,
 * pkg/server/server.go).  Go's sort.Slice is not stable and its tie order is
 * unspecified, so the model sorts by insertion and proves that, when no two
 * entries share a name, every sorted permutation is the same sequence: any
 * correct sort gives the page the model gives.
 */
module NameSort {
  import opened GoStrings
  import opened Index

  /** `a` may come before `b`: `b.Name < a.Name` does not hold. */
  predicate NameLe(a: Entry, b: Entry) {
    !Less(b.name, a.name)
  }

  /** Sorted by name, as the comparator `masked[i].Name < masked[j].Name` orders. */
  ghost predicate SortedByName(es: seq<Entry>) {
    forall i, j :: 0 <= i < j < |es| ==> NameLe(es[i], es[j])
  }

  lemma NameLeTotal(a: Entry, b: Entry)
    ensures NameLe(a, b) || NameLe(b, a)
  {
    if Less(a.name, b.name) && Less(b.name, a.name) {
      LessTransitive(a.name, b.name, a.name);
      LessIrreflexive(a.name);
    }
  }

  lemma NameLeTransitive(a: Entry, b: Entry, c: Entry)
    requires NameLe(a, b) && NameLe(b, c)
    ensures NameLe(a, c)
  {
    LessTrichotomy(a.name, b.name);
    if Less(c.name, a.name) && Less(a.name, b.name) {
      LessTransitive(c.name, a.name, b.name);
    }
  }

  /** Two entries each allowed before the other have the same name. */
  lemma NameLeAntisymmetric(a: Entry, b: Entry)
    requires NameLe(a, b) && NameLe(b, a)
    ensures a.name == b.name
  {
    LessTrichotomy(a.name, b.name);
  }

  /** `e` inserted at its place in the sorted sequence `es`. */
  function Insert(e: Entry, es: seq<Entry>): (r: seq<Entry>)
    ensures multiset(r) == multiset(es) + multiset{e}
    ensures |r| == |es| + 1
    decreases |es|
  {
    if |es| == 0 then [e]
    else if NameLe(e, es[0]) then [e] + es
    else
      assert es == [es[0]] + es[1..];
      [es[0]] + Insert(e, es[1..])
  }

  /** The first entry of a sorted sequence comes no later than any of them. */
  lemma SortedHeadIsLeast(es: seq<Entry>, x: Entry)
    requires SortedByName(es) && |es| > 0 && x in es
    ensures NameLe(es[0], x)
  {
    var k :| 0 <= k < |es| && es[k] == x;
    if k == 0 { LessIrreflexive(x.name); }
  }

  /** An entry no later than every entry of a sorted sequence may go in front. */
  lemma ConsKeepsSorted(h: Entry, t: seq<Entry>)
    requires SortedByName(t)
    requires forall x :: x in t ==> NameLe(h, x)
    ensures SortedByName([h] + t)
  {
    var r := [h] + t;
    forall i, j | 0 <= i < j < |r| ensures NameLe(r[i], r[j]) {
      assert r[j] == t[j - 1];
      if i > 0 { assert r[i] == t[i - 1]; }
    }
  }

  /** Every entry of `Insert(e, es)` is `e` or an entry of `es`. */
  lemma InsertedFrom(e: Entry, es: seq<Entry>, x: Entry)
    requires x in Insert(e, es)
    ensures x == e || x in es
  {
    assert x in multiset(Insert(e, es));
  }

  lemma {:induction false} InsertKeepsSorted(e: Entry, es: seq<Entry>)
    requires SortedByName(es)
    ensures SortedByName(Insert(e, es))
    decreases |es|
  {
    if |es| == 0 {
    } else if NameLe(e, es[0]) {
      forall x | x in es ensures NameLe(e, x) {
        SortedHeadIsLeast(es, x);
        NameLeTransitive(e, es[0], x);
      }
      ConsKeepsSorted(e, es);
    } else {
      NameLeTotal(e, es[0]);
      var tail := es[1..];
      InsertKeepsSorted(e, tail);
      forall x | x in Insert(e, tail) ensures NameLe(es[0], x) {
        InsertedFrom(e, tail, x);
        if x != e { SortedHeadIsLeast(es, x); }
      }
      ConsKeepsSorted(es[0], Insert(e, tail));
    }
  }

  /** Insertion sort by name. */
  function SortByName(es: seq<Entry>): (r: seq<Entry>)
    ensures SortedByName(r)
    ensures multiset(r) == multiset(es)
    ensures |r| == |es|
    decreases |es|
  {
    if |es| == 0 then []
    else
      var rest := SortByName(es[1..]);
      InsertKeepsSorted(es[0], rest);
      assert multiset(es) == multiset(es[1..]) + multiset{es[0]} by {
        assert es == [es[0]] + es[1..];
      }
      Insert(es[0], rest)
  }

  lemma SameHeadSameTails(a: seq<Entry>, b: seq<Entry>)
    requires |a| > 0 && |b| > 0 && a[0] == b[0]
    requires multiset(a) == multiset(b)
    ensures multiset(a[1..]) == multiset(b[1..])
  {
    assert a == [a[0]] + a[1..] && b == [b[0]] + b[1..];
    assert multiset(a) == multiset{a[0]} + multiset(a[1..]);
    assert multiset(b) == multiset{a[0]} + multiset(b[1..]);
    calc {
      multiset(a[1..]);
      multiset(a) - multiset{a[0]};
      multiset(b) - multiset{a[0]};
      multiset(b[1..]);
    }
  }

  /** Two sorted sequences holding the same entries, distinct by name,
      start with the same entry. */
  lemma SameLeast(a: seq<Entry>, b: seq<Entry>)
    requires SortedByName(a) && SortedByName(b) && |a| > 0 && |b| > 0
    requires multiset(a) == multiset(b)
    requires DistinctNames(a)
    ensures a[0] == b[0]
  {
    assert a[0] in multiset(b) && b[0] in multiset(a);
    SortedHeadIsLeast(a, b[0]);
    SortedHeadIsLeast(b, a[0]);
    NameLeAntisymmetric(a[0], b[0]);
    var k :| 0 <= k < |a| && a[k] == b[0];
    assert k == 0;
  }

  lemma TailKeepsDistinctNames(a: seq<Entry>)
    requires |a| > 0 && DistinctNames(a)
    ensures DistinctNames(a[1..])
  {
    forall i, j | 0 <= i < j < |a[1..]| ensures a[1..][i].name != a[1..][j].name {
      assert a[1..][i] == a[i + 1] && a[1..][j] == a[j + 1];
    }
  }

  /** `a` with position `k` taken out. */
  function Without(a: seq<Entry>, k: int): (r: seq<Entry>)
    requires 0 <= k < |a|
    ensures |r| == |a| - 1
    ensures forall m :: 0 <= m < |r| ==> r[m] == a[if m < k then m else m + 1]
  {
    a[..k] + a[k + 1..]
  }

  /** Removing one entry keeps the names of the others distinct, and none of
      them carries the removed entry's name. */
  lemma DistinctNamesWithout(a: seq<Entry>, k: int)
    requires 0 <= k < |a| && DistinctNames(a)
    ensures DistinctNames(Without(a, k))
    ensures forall m :: 0 <= m < |Without(a, k)| ==> Without(a, k)[m].name != a[k].name
  {
  }

  /** The multiset of a sequence with one position removed. */
  lemma MultisetWithout(a: seq<Entry>, k: int)
    requires 0 <= k < |a|
    ensures multiset(Without(a, k)) == multiset(a) - multiset{a[k]}
  {
    assert a == a[..k] + [a[k]] + a[k + 1..];
  }

  /** A sequence whose tail has distinct names and whose head's name is not in
      the tail has distinct names. */
  lemma ConsDistinctNames(b: seq<Entry>)
    requires |b| > 0 && DistinctNames(b[1..])
    requires forall m :: 0 <= m < |b[1..]| ==> b[1..][m].name != b[0].name
    ensures DistinctNames(b)
  {
    forall i, j | 0 <= i < j < |b| ensures b[i].name != b[j].name {
      assert b[j] == b[1..][j - 1];
      if i > 0 { assert b[i] == b[1..][i - 1]; }
    }
  }

  /** A name absent from `rest` is absent from any rearrangement of it. */
  lemma NameAbsentFromPermutation(rest: seq<Entry>, c: seq<Entry>, x: Entry)
    requires multiset(rest) == multiset(c)
    requires forall m :: 0 <= m < |rest| ==> rest[m].name != x.name
    ensures forall m :: 0 <= m < |c| ==> c[m].name != x.name
  {
    forall m | 0 <= m < |c| ensures c[m].name != x.name {
      assert c[m] in multiset(rest);
    }
  }

  /** Rearranging entries keeps their names distinct. */
  lemma {:induction false} DistinctNamesOfPermutation(a: seq<Entry>, b: seq<Entry>)
    requires DistinctNames(a) && multiset(a) == multiset(b)
    ensures DistinctNames(b)
    decreases |b|
  {
    if |b| > 0 {
      assert b[0] in multiset(a);
      var k :| 0 <= k < |a| && a[k] == b[0];
      var rest := Without(a, k);
      MultisetWithout(a, k);
      MultisetWithout(b, 0);
      assert Without(b, 0) == b[1..];
      DistinctNamesWithout(a, k);
      DistinctNamesOfPermutation(rest, b[1..]);
      NameAbsentFromPermutation(rest, b[1..], b[0]);
      ConsDistinctNames(b);
    }
  }

  /** With distinct names there is only one sorted order: two sorted
      sequences holding the same entries are equal.  So the unstable
      sort.Slice and this sort render the same page. */
  lemma {:induction false} SortedOrderIsUnique(a: seq<Entry>, b: seq<Entry>)
    requires SortedByName(a) && SortedByName(b)
    requires multiset(a) == multiset(b)
    requires DistinctNames(a)
    ensures a == b
    decreases |a|
  {
    assert |a| == |multiset(a)| == |multiset(b)| == |b|;
    if |a| > 0 {
      SameLeast(a, b);
      SameHeadSameTails(a, b);
      TailKeepsDistinctNames(a);
      assert SortedByName(a[1..]) && SortedByName(b[1..]);
      SortedOrderIsUnique(a[1..], b[1..]);
      assert a == [a[0]] + a[1..] && b == [b[0]] + b[1..];
    }
  }
}
