/** Python's built-ins `enumerate`, `zip` and `sorted`, as `rearrange_to_shape`
    uses them: on lists of pairs `(key, index)` compared lexicographically.
    Keys are Python floats modelled as exact reals; the index is an int.
    The `(int, int)` pairs of the last sort embed in this type, since an int
    compares with ints exactly as its real value does. */
module TupleSort {

  type Pair = (real, int)

  /** Python's `<` on tuples: the keys decide, equal keys fall back on the index. */
  predicate PairLess(p: Pair, q: Pair) {
    p.0 < q.0 || (p.0 == q.0 && p.1 < q.1)
  }

  predicate PairLessEq(p: Pair, q: Pair) {
    PairLess(p, q) || p == q
  }

  predicate Sorted(s: seq<Pair>) {
    forall i, j :: 0 <= i < j < |s| ==> PairLessEq(s[i], s[j])
  }

  predicate StrictlySorted(s: seq<Pair>) {
    forall i, j :: 0 <= i < j < |s| ==> PairLess(s[i], s[j])
  }

  predicate Distinct<T(==)>(s: seq<T>) {
    forall i, j :: 0 <= i < j < |s| ==> s[i] != s[j]
  }

  /** `enumerate(v)` with the pair flipped, as in `[(value, index) for index, value in enumerate(v)]`. */
  function Enumerate(v: seq<real>): (r: seq<Pair>)
    ensures |r| == |v|
    ensures Distinct(r)
  {
    seq(|v|, i requires 0 <= i < |v| => (v[i], i))
  }

  /** `zip(xs, ys)`: stops at the end of the shorter list. */
  function Zip(xs: seq<int>, ys: seq<int>): (r: seq<Pair>)
    ensures |r| <= |xs| && |r| <= |ys|
    ensures |xs| == |ys| ==> |r| == |xs|
    ensures Distinct(xs) ==> Distinct(r)
  {
    var n := if |xs| <= |ys| then |xs| else |ys|;
    seq(n, k requires 0 <= k < n => (xs[k] as real, ys[k]))
  }

  /** `[index for _, index in pairs]`. */
  function Seconds(s: seq<Pair>): (r: seq<int>)
    ensures |r| == |s|
  {
    seq(|s|, k requires 0 <= k < |s| => s[k].1)
  }

  /** Places `x` in front of the first element it does not exceed. */
  function Insert(x: Pair, s: seq<Pair>): (r: seq<Pair>)
    requires Sorted(s)
    ensures Sorted(r)
    ensures multiset(r) == multiset(s) + multiset{x}
    ensures |r| == |s| + 1
  {
    if s == [] || PairLessEq(x, s[0]) then
      SmallestInFront(x, s);
      [x] + s
    else
      var rest := Insert(x, s[1..]);
      LowerBoundAfterInsert(x, s[1..], rest, s[0]);
      ConsSorted(s[0], rest);
      assert s == [s[0]] + s[1..];
      [s[0]] + rest
  }

  /** A pair no greater than the head of a sorted list may go in front of it. */
  lemma SmallestInFront(x: Pair, s: seq<Pair>)
    requires Sorted(s) && (s == [] || PairLessEq(x, s[0]))
    ensures Sorted([x] + s)
  {
    forall k | 0 <= k < |s| ensures PairLessEq(x, s[k]) {
      assert PairLessEq(s[0], s[k]);
    }
    ConsSorted(x, s);
  }

  lemma ConsSorted(h: Pair, s: seq<Pair>)
    requires Sorted(s) && forall k :: 0 <= k < |s| ==> PairLessEq(h, s[k])
    ensures Sorted([h] + s)
  {
    var r := [h] + s;
    forall i, j | 0 <= i < j < |r| ensures PairLessEq(r[i], r[j]) {
      if i > 0 {
        assert r[i] == s[i - 1] && r[j] == s[j - 1];
      }
    }
  }

  /** A lower bound of `x` and of all of `s` is a lower bound of `rest`. */
  lemma LowerBoundAfterInsert(x: Pair, s: seq<Pair>, rest: seq<Pair>, low: Pair)
    requires multiset(rest) == multiset(s) + multiset{x}
    requires PairLessEq(low, x) && forall k :: 0 <= k < |s| ==> PairLessEq(low, s[k])
    ensures forall k :: 0 <= k < |rest| ==> PairLessEq(low, rest[k])
  {
    forall k | 0 <= k < |rest| ensures PairLessEq(low, rest[k]) {
      assert rest[k] in multiset(rest);
      if rest[k] != x {
        assert rest[k] in s;
      }
    }
  }

  /** `sorted(s)`. Python uses Timsort; any algorithm that returns a sorted
      permutation gives the same list (see SortedIsUnique), so insertion sort
      stands in for it. */
  function SortPairs(s: seq<Pair>): (r: seq<Pair>)
    ensures Sorted(r)
    ensures multiset(r) == multiset(s)
    ensures |r| == |s|
  {
    if s == [] then []
    else
      assert s == [s[0]] + s[1..];
      Insert(s[0], SortPairs(s[1..]))
  }

  /** Membership is kept by sorting. */
  lemma SortPairsMembers(s: seq<Pair>, x: Pair)
    ensures x in SortPairs(s) <==> x in s
  {
    assert x in SortPairs(s) <==> x in multiset(SortPairs(s));
  }

  /** A sorted permutation of a list is unique: whatever sorting algorithm
      Python runs, its result is SortPairs(s). */
  lemma {:induction false} SortedIsUnique(s: seq<Pair>, t: seq<Pair>)
    requires Sorted(t) && multiset(t) == multiset(s)
    ensures t == SortPairs(s)
  {
    SortedPermutationsEqual(t, SortPairs(s));
  }

  lemma {:induction false} SortedPermutationsEqual(r: seq<Pair>, t: seq<Pair>)
    requires Sorted(r) && Sorted(t) && multiset(r) == multiset(t)
    ensures r == t
  {
    assert |r| == |multiset(r)| == |multiset(t)| == |t|;
    if r != [] {
      SameHead(r, t);
      SameTails(r, t);
      SortedPermutationsEqual(r[1..], t[1..]);
      assert r == [r[0]] + r[1..] && t == [t[0]] + t[1..];
    }
  }

  /** Removing an equal head from two permutations of one another leaves two permutations. */
  lemma SameTails(r: seq<Pair>, t: seq<Pair>)
    requires multiset(r) == multiset(t) && r != [] && t != [] && r[0] == t[0]
    ensures multiset(r[1..]) == multiset(t[1..])
  {
    assert r == [r[0]] + r[1..] && t == [t[0]] + t[1..];
    assert multiset(r[1..]) == multiset(r) - multiset{r[0]};
    assert multiset(t[1..]) == multiset(t) - multiset{t[0]};
  }

  /** Two sorted permutations of one another start with the same (least) pair. */
  lemma SameHead(r: seq<Pair>, t: seq<Pair>)
    requires Sorted(r) && Sorted(t) && multiset(r) == multiset(t) && r != [] && t != []
    ensures r[0] == t[0]
  {
    assert r[0] in multiset(t) && t[0] in multiset(r);
    var i :| 0 <= i < |t| && t[i] == r[0];
    var j :| 0 <= j < |r| && r[j] == t[0];
    assert PairLessEq(t[0], t[i]) && PairLessEq(r[0], r[j]);
  }

  lemma {:induction false} InsertKeepsDistinct(x: Pair, s: seq<Pair>)
    requires Sorted(s) && Distinct(s) && x !in s
    ensures Distinct(Insert(x, s))
  {
    if s == [] || PairLessEq(x, s[0]) {
    } else {
      InsertKeepsDistinct(x, s[1..]);
      var rest := Insert(x, s[1..]);
      forall k | 0 <= k < |rest| ensures rest[k] != s[0] {
        assert rest[k] in multiset(s[1..]) + multiset{x};
      }
    }
  }

  /** Sorting a list without repeated pairs gives a strictly increasing list. */
  lemma {:induction false} SortDistinctIsStrict(s: seq<Pair>)
    requires Distinct(s)
    ensures StrictlySorted(SortPairs(s))
  {
    SortKeepsDistinct(s);
  }

  lemma {:induction false} SortKeepsDistinct(s: seq<Pair>)
    requires Distinct(s)
    ensures Distinct(SortPairs(s))
  {
    if s != [] {
      SortKeepsDistinct(s[1..]);
      SortPairsMembers(s[1..], s[0]);
      InsertKeepsDistinct(s[0], SortPairs(s[1..]));
    }
  }
}
