/** Order-preserving filtering of sequences, the shape of every "skip it and
    continue" loop in the core. */
module Seqs {

  /** The elements of `s` that `keep` accepts, in their original order. */
  function Filter<T(==)>(keep: T -> bool, s: seq<T>): (r: seq<T>)
    ensures |r| <= |s|
    ensures forall i :: 0 <= i < |r| ==> keep(r[i])
    ensures forall i :: 0 <= i < |s| && keep(s[i]) ==> s[i] in r
    decreases |s|
  {
    if |s| == 0 then []
    else (if keep(s[0]) then [s[0]] else []) + Filter(keep, s[1..])
  }

  /** `idx` lists, in increasing order, positions of `b` that spell out `a`. */
  ghost predicate Embeds<T>(idx: seq<nat>, a: seq<T>, b: seq<T>) {
    && |idx| == |a|
    && (forall k :: 0 <= k < |idx| ==> idx[k] < |b| && a[k] == b[idx[k]])
    && (forall k, l :: 0 <= k < l < |idx| ==> idx[k] < idx[l])
  }

  /** Every position moved one place to the right. */
  function Shift(idx: seq<nat>): (r: seq<nat>)
    ensures |r| == |idx|
    ensures forall k :: 0 <= k < |r| ==> r[k] == idx[k] + 1
  {
    seq(|idx|, k requires 0 <= k < |idx| => idx[k] + 1)
  }

  lemma EmbedsInTail<T>(idx: seq<nat>, a: seq<T>, b: seq<T>)
    requires |b| > 0 && Embeds(idx, a, b[1..])
    ensures Embeds(Shift(idx), a, b)
  {
    forall k | 0 <= k < |idx| ensures a[k] == b[Shift(idx)[k]] {
      assert b[Shift(idx)[k]] == b[1..][idx[k]];
    }
  }

  lemma EmbedsWithHead<T>(idx: seq<nat>, a: seq<T>, b: seq<T>)
    requires |b| > 0 && Embeds(idx, a, b[1..])
    ensures Embeds([0] + Shift(idx), [b[0]] + a, b)
  {
    EmbedsInTail(idx, a, b);
  }

  /** The positions of `s` that `keep` accepts, in increasing order. */
  ghost function KeptPositions<T>(keep: T -> bool, s: seq<T>): (idx: seq<nat>)
    ensures forall k :: 0 <= k < |idx| ==> idx[k] < |s|
    decreases |s|
  {
    if |s| == 0 then []
    else (if keep(s[0]) then [0] else []) + Shift(KeptPositions(keep, s[1..]))
  }

  lemma {:induction false} KeptPositionsEmbedFilter<T>(keep: T -> bool, s: seq<T>)
    ensures Embeds(KeptPositions(keep, s), Filter(keep, s), s)
    decreases |s|
  {
    if |s| > 0 {
      var rest := KeptPositions(keep, s[1..]);
      KeptPositionsEmbedFilter(keep, s[1..]);
      EmbedsInTail(rest, Filter(keep, s[1..]), s);
      if keep(s[0]) {
        EmbedsWithHead(rest, Filter(keep, s[1..]), s);
      }
    }
  }

  lemma {:induction false} KeptPositionsAreAccepted<T>(keep: T -> bool, s: seq<T>)
    ensures forall k :: 0 <= k < |KeptPositions(keep, s)| ==> keep(s[KeptPositions(keep, s)[k]])
    decreases |s|
  {
    if |s| > 0 {
      var rest := KeptPositions(keep, s[1..]);
      KeptPositionsAreAccepted(keep, s[1..]);
      forall k | 0 <= k < |rest| ensures keep(s[Shift(rest)[k]]) {
        assert s[Shift(rest)[k]] == s[1..][rest[k]];
      }
    }
  }

  lemma {:induction false} AcceptedPositionsAreKept<T>(keep: T -> bool, s: seq<T>)
    ensures forall i :: 0 <= i < |s| && keep(s[i]) ==> i in KeptPositions(keep, s)
    decreases |s|
  {
    if |s| > 0 {
      var rest := KeptPositions(keep, s[1..]);
      AcceptedPositionsAreKept(keep, s[1..]);
      forall i | 0 <= i < |s| && keep(s[i])
        ensures i in KeptPositions(keep, s)
      {
        if i > 0 {
          assert s[1..][i - 1] == s[i];
          ShiftKeepsMembers(rest, i - 1);
        }
      }
    }
  }

  lemma ShiftKeepsMembers(idx: seq<nat>, i: nat)
    requires i in idx
    ensures i + 1 in Shift(idx) && i + 1 in [0] + Shift(idx)
  {
    var k :| 0 <= k < |idx| && idx[k] == i;
    assert Shift(idx)[k] == i + 1;
    assert ([0] + Shift(idx))[k + 1] == i + 1;
  }

  /** Filtering is order-preserving and exact: its result is the subsequence
      of `s` at the accepted positions, and every accepted position is used. */
  lemma FilterPicksAcceptedPositions<T>(keep: T -> bool, s: seq<T>) returns (idx: seq<nat>)
    ensures Embeds(idx, Filter(keep, s), s)
    ensures forall k :: 0 <= k < |idx| ==> keep(s[idx[k]])
    ensures forall i :: 0 <= i < |s| && keep(s[i]) ==> i in idx
  {
    idx := KeptPositions(keep, s);
    KeptPositionsEmbedFilter(keep, s);
    KeptPositionsAreAccepted(keep, s);
    AcceptedPositionsAreKept(keep, s);
  }

  /** Filtering distributes over concatenation. */
  lemma {:induction false} FilterAppend<T>(keep: T -> bool, a: seq<T>, b: seq<T>)
    ensures Filter(keep, a + b) == Filter(keep, a) + Filter(keep, b)
    decreases |a|
  {
    if |a| == 0 {
      assert a + b == b;
    } else {
      assert (a + b)[1..] == a[1..] + b;
      FilterAppend(keep, a[1..], b);
    }
  }

  /** A filter that accepts everything changes nothing. */
  lemma {:induction false} FilterAcceptingAll<T>(keep: T -> bool, s: seq<T>)
    requires forall i :: 0 <= i < |s| ==> keep(s[i])
    ensures Filter(keep, s) == s
    decreases |s|
  {
    if |s| > 0 {
      FilterAcceptingAll(keep, s[1..]);
    }
  }

  /** Every element of a filter's result is an accepted element of its input. */
  lemma FilterIsSubset<T>(keep: T -> bool, s: seq<T>)
    ensures forall k :: 0 <= k < |Filter(keep, s)| ==> Filter(keep, s)[k] in s && keep(Filter(keep, s)[k])
  {
    var idx := FilterPicksAcceptedPositions(keep, s);
    forall k | 0 <= k < |Filter(keep, s)| ensures Filter(keep, s)[k] in s {
      assert Filter(keep, s)[k] == s[idx[k]];
    }
  }

  /** A rejected element makes no difference to the filter's result. */
  lemma FilterDropsRejected<T>(keep: T -> bool, a: seq<T>, x: T, b: seq<T>)
    requires !keep(x)
    ensures Filter(keep, a + [x] + b) == Filter(keep, a + b)
  {
    FilterAppend(keep, a + [x], b);
    FilterAppend(keep, a, [x]);
    FilterAppend(keep, a, b);
    assert [x][1..] == [];
    assert Filter(keep, [x]) == [];
    assert Filter(keep, a) + [] == Filter(keep, a);
  }
}
