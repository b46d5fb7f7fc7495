/** Ranks of a list of values: ascending by value, ties broken by original
    index, exactly as sorting `(value, index)` pairs orders them. */
module Ranking {
  import opened TupleSort

  /** Row `j` comes before row `i`: the pair `(v[j], j)` is less than `(v[i], i)`. */
  predicate Precedes(v: seq<real>, j: int, i: int)
    requires 0 <= j < |v| && 0 <= i < |v|
  {
    PairLess((v[j], j), (v[i], i))
  }

  /** `pos` lists every row position `0..n-1` exactly once. */
  predicate IsPermutation(pos: seq<int>, n: nat) {
    && |pos| == n
    && (forall k :: 0 <= k < n ==> 0 <= pos[k] < n)
    && Distinct(pos)
    && (forall i :: 0 <= i < n ==> i in pos)
  }

  /** The rank of row `i`: how many rows come before it. */
  function Rank(v: seq<real>, i: int): (r: nat)
    requires 0 <= i < |v|
    ensures r < |v|
  {
    PredecessorsBound(v, i);
    |set j | 0 <= j < |v| && Precedes(v, j, i)|
  }

  /** A row never comes before itself, so fewer than |v| rows come before it. */
  lemma PredecessorsBound(v: seq<real>, i: int)
    requires 0 <= i < |v|
    ensures |set j | 0 <= j < |v| && Precedes(v, j, i)| < |v|
  {
    var before := set j | 0 <= j < |v| && Precedes(v, j, i);
    var others := IndexSet(|v|) - {i};
    IndexSetSize(|v|);
    assert before <= others;
    assert |others| == |v| - 1;
    SubsetSize(before, others);
  }

  /** The row positions 0..n-1 as a set. */
  function IndexSet(n: nat): (r: set<int>)
    ensures forall j :: j in r <==> 0 <= j < n
  {
    if n == 0 then {} else IndexSet(n - 1) + {n - 1}
  }

  lemma {:induction false} IndexSetSize(n: nat)
    ensures |IndexSet(n)| == n
  {
    if n > 0 {
      IndexSetSize(n - 1);
    }
  }

  lemma SubsetSize(a: set<int>, b: set<int>)
    requires a <= b
    ensures |a| <= |b|
  {
    assert b == a + (b - a);
  }

  /** The original positions of `v`'s entries in ascending order:
      `[index for _, index in sorted([(value, index) for index, value in enumerate(v)])]`. */
  function SortedPositions(v: seq<real>): (r: seq<int>)
    ensures |r| == |v|
  {
    Seconds(SortPairs(Enumerate(v)))
  }

  /** The k-th pair of the sorted enumeration is the row at SortedPositions(v)[k] with its value. */
  lemma SortedEntry(v: seq<real>, k: int)
    requires 0 <= k < |SortPairs(Enumerate(v))|
    ensures 0 <= SortedPositions(v)[k] < |v|
    ensures SortPairs(Enumerate(v))[k] == (v[SortedPositions(v)[k]], SortedPositions(v)[k])
  {
    var e := Enumerate(v);
    var x := SortPairs(e)[k];
    SortPairsMembers(e, x);
    var i :| 0 <= i < |e| && e[i] == x;
  }

  /** SortedPositions(v) is a permutation of the rows, listed in rank order. */
  lemma {:induction false} SortedPositionsSpec(v: seq<real>)
    ensures IsPermutation(SortedPositions(v), |v|)
    ensures forall m, n :: 0 <= m < n < |v| ==>
      Precedes(v, SortedPositions(v)[m], SortedPositions(v)[n])
  {
    var e := Enumerate(v);
    var sp := SortPairs(e);
    var s := SortedPositions(v);
    assert Distinct(e) by {
      forall i, j | 0 <= i < j < |e| ensures e[i] != e[j] {
        assert e[i].1 == i && e[j].1 == j;
      }
    }
    SortDistinctIsStrict(e);
    forall k | 0 <= k < |v| ensures 0 <= s[k] < |v| && sp[k] == (v[s[k]], s[k]) {
      SortedEntry(v, k);
    }
    forall m, n | 0 <= m < n < |v| ensures Precedes(v, s[m], s[n]) && s[m] != s[n] {
      assert PairLess(sp[m], sp[n]);
    }
    forall i | 0 <= i < |v| ensures i in s {
      assert e[i] in e;
      SortPairsMembers(e, e[i]);
      var k :| 0 <= k < |sp| && sp[k] == e[i];
      assert s[k] == i;
    }
  }

  /** The first k entries of a list without repeats form a set of k elements. */
  lemma {:induction false} PrefixSetSize(s: seq<int>, k: nat)
    requires Distinct(s) && k <= |s|
    ensures |set m | 0 <= m < k :: s[m]| == k
  {
    if k > 0 {
      PrefixSetSize(s, k - 1);
      var smaller := set m | 0 <= m < k - 1 :: s[m];
      assert (set m | 0 <= m < k :: s[m]) == smaller + {s[k - 1]};
      assert s[k - 1] !in smaller;
    }
  }

  /** The row listed k-th by SortedPositions has rank k. */
  lemma RankOfSortedPosition(v: seq<real>, k: int)
    requires 0 <= k < |v|
    ensures 0 <= SortedPositions(v)[k] < |v| && Rank(v, SortedPositions(v)[k]) == k
  {
    var s := SortedPositions(v);
    SortedPositionsSpec(v);
    var before := set j | 0 <= j < |v| && Precedes(v, j, s[k]);
    var prefix := set m | 0 <= m < k :: s[m];
    forall j | j in before ensures j in prefix {
      assert j in s;
      var m :| 0 <= m < |s| && s[m] == j;
    }
    PrefixSetSize(s, k);
    assert before == prefix;
  }

  /** Every row occurs in SortedPositions at the index given by its rank. */
  lemma RankLocatesRow(v: seq<real>, i: int)
    requires 0 <= i < |v|
    ensures Rank(v, i) < |v| && SortedPositions(v)[Rank(v, i)] == i
  {
    var s := SortedPositions(v);
    SortedPositionsSpec(v);
    assert i in s;
    var k :| 0 <= k < |s| && s[k] == i;
    RankOfSortedPosition(v, k);
  }

  /** Ranks order the rows exactly as the pair comparison does. */
  lemma RankOrder(v: seq<real>, i: int, j: int)
    requires 0 <= i < |v| && 0 <= j < |v|
    ensures Precedes(v, i, j) <==> Rank(v, i) < Rank(v, j)
  {
    var s := SortedPositions(v);
    SortedPositionsSpec(v);
    RankLocatesRow(v, i);
    RankLocatesRow(v, j);
    var k, k' := Rank(v, i), Rank(v, j);
    if k > k' {
      assert Precedes(v, s[k'], s[k]);
    }
  }

  /** A strictly increasing list of n positions drawn from 0..n-1 is 0, 1, ..., n-1. */
  lemma StrictlyIncreasingIsIdentity(f: seq<int>, n: nat)
    requires |f| == n
    requires forall p :: 0 <= p < n ==> 0 <= f[p] < n
    requires forall p, q :: 0 <= p < q < n ==> f[p] < f[q]
    ensures forall p :: 0 <= p < n ==> f[p] == p
  {
    forall p | 0 <= p < n ensures f[p] == p {
      AtLeastIndex(f, n, p);
      AtMostIndex(f, n, p);
    }
  }

  lemma {:induction false} AtLeastIndex(f: seq<int>, n: nat, p: nat)
    requires |f| == n && p < n
    requires forall p :: 0 <= p < n ==> 0 <= f[p] < n
    requires forall p, q :: 0 <= p < q < n ==> f[p] < f[q]
    ensures f[p] >= p
  {
    if p > 0 {
      AtLeastIndex(f, n, p - 1);
    }
  }

  lemma {:induction false} AtMostIndex(f: seq<int>, n: nat, p: nat)
    requires |f| == n && p < n
    requires forall p :: 0 <= p < n ==> 0 <= f[p] < n
    requires forall p, q :: 0 <= p < q < n ==> f[p] < f[q]
    ensures f[p] <= p
    decreases n - p
  {
    if p < n - 1 {
      AtMostIndex(f, n, p + 1);
    }
  }

  /** When the rows are already in rank order, every row's rank is its index. */
  lemma RanksOfAscendingRows(v: seq<real>)
    requires forall i, j :: 0 <= i < |v| && 0 <= j < |v| ==> (Precedes(v, i, j) <==> i < j)
    ensures forall i :: 0 <= i < |v| ==> Rank(v, i) == i
  {
    var s := SortedPositions(v);
    SortedPositionsSpec(v);
    StrictlyIncreasingIsIdentity(s, |v|);
    forall i | 0 <= i < |v| ensures Rank(v, i) == i {
      RankOfSortedPosition(v, i);
    }
  }

  /** When the rows are in reverse rank order, row i has rank |v| - 1 - i. */
  lemma RanksOfDescendingRows(v: seq<real>)
    requires forall i, j :: 0 <= i < |v| && 0 <= j < |v| ==> (Precedes(v, i, j) <==> j < i)
    ensures forall i :: 0 <= i < |v| ==> Rank(v, i) == |v| - 1 - i
  {
    var n := |v|;
    var s := SortedPositions(v);
    SortedPositionsSpec(v);
    var f := seq(n, k requires 0 <= k < n => n - 1 - s[k]);
    forall p, q | 0 <= p < q < n ensures f[p] < f[q] {
      assert Precedes(v, s[p], s[q]);
    }
    StrictlyIncreasingIsIdentity(f, n);
    forall i | 0 <= i < n ensures Rank(v, i) == n - 1 - i {
      RankOfSortedPosition(v, n - 1 - i);
      assert f[n - 1 - i] == n - 1 - i;
    }
  }
}
