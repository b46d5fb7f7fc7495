/** The "uplifting shape" reorder of a playlist: `rearrange_to_shape`.
    The frame is a list of tracks whose index is 0..n-1, as `read_csv` gives it. */
module PlaylistAnalysis {
  import opened TupleSort
  import opened Ranking
  import opened Curves

  /** One row of playlist.csv. */
  datatype Track = Track(name: string, artist: string, id: string, dateAdded: string, compositeValue: real)

  /** The choices `choose_equation` accepts. */
  predicate IsEquationNumber(n: int) {
    0 < n < 7
  }

  /** `df['Composite Value'].values`. */
  function CompositeValues(df: seq<Track>): (r: seq<real>)
    ensures |r| == |df|
  {
    seq(|df|, i requires 0 <= i < |df| => df[i].compositeValue)
  }

  /** The list `a`: the curve at (x + 1) / n for every row x of an n-row frame. */
  function TargetValues(n: nat, equationNumber: int): (r: seq<real>)
    ensures |r| == n
  {
    seq(n, x requires 0 <= x < n => EquationY((x + 1) as real, equationNumber, n as real))
  }

  /** `targeted_positions`: sort the target values and the scores with their
      indices, zip the two index lists, sort the zipped pairs and keep the
      score-side index of each. */
  function TargetedPositions(b: seq<real>, equationNumber: int): (r: seq<int>)
    ensures |r| == |b|
  {
    var aOriginalPosition := SortedPositions(TargetValues(|b|, equationNumber));
    var bOriginalPosition := SortedPositions(b);
    Seconds(SortPairs(Zip(aOriginalPosition, bOriginalPosition)))
  }

  /** `df.iloc[positions]`. */
  function Iloc<T>(df: seq<T>, positions: seq<int>): (r: seq<T>)
    requires forall k :: 0 <= k < |positions| ==> 0 <= positions[k] < |df|
    ensures |r| == |positions|
    ensures forall x :: x in r ==> x in df
  {
    seq(|positions|, k requires 0 <= k < |positions| => df[positions[k]])
  }

  /** `rearrange_to_shape(df, equation_number)`: the same tracks, each once,
      in the order `targeted_positions` gives. */
  function RearrangeToShape(df: seq<Track>, equationNumber: int): (r: seq<Track>)
    ensures |r| == |df|
    ensures multiset(r) == multiset(df)
  {
    var positions := TargetedPositions(CompositeValues(df), equationNumber);
    TargetedPositionsIsPermutation(CompositeValues(df), equationNumber);
    IlocOfPermutation(df, positions);
    Iloc(df, positions)
  }

  // ---------------------------------------------------------------------------
  // The zip-and-sort step.

  /** Sorting `zip(a_original_position, b_original_position)` lists the pairs by
      their target-side index, so the pair whose first component is p lands
      at index p. */
  lemma SortedZipByTarget(aPos: seq<int>, bPos: seq<int>, n: nat)
    requires IsPermutation(aPos, n) && |bPos| == n
    ensures |SortPairs(Zip(aPos, bPos))| == n
    ensures forall k :: 0 <= k < n ==> SortPairs(Zip(aPos, bPos))[aPos[k]] == (aPos[k] as real, bPos[k])
  {
    var z := Zip(aPos, bPos);
    var s := SortPairs(z);
    SortedZipFirsts(aPos, bPos, n);
    forall k | 0 <= k < n ensures s[aPos[k]] == z[k] {
      var p := aPos[k];
      var k' := SortedZipSource(aPos, bPos, n, p);
      assert aPos[k'] == aPos[k];
    }
  }

  /** Every pair of the sorted zip comes from some index k of the two lists. */
  lemma SortedZipSource(aPos: seq<int>, bPos: seq<int>, n: nat, p: int) returns (k: int)
    requires IsPermutation(aPos, n) && |bPos| == n && 0 <= p < n
    ensures |SortPairs(Zip(aPos, bPos))| == n
    ensures 0 <= k < n && SortPairs(Zip(aPos, bPos))[p] == Zip(aPos, bPos)[k]
  {
    var z := Zip(aPos, bPos);
    SortPairsMembers(z, SortPairs(z)[p]);
    k :| 0 <= k < n && SortPairs(z)[p] == z[k];
  }

  /** The first components of the sorted zip are 0, 1, ..., n - 1. */
  lemma SortedZipFirsts(aPos: seq<int>, bPos: seq<int>, n: nat)
    requires IsPermutation(aPos, n) && |bPos| == n
    ensures |SortPairs(Zip(aPos, bPos))| == n
    ensures forall p :: 0 <= p < n ==> SortPairs(Zip(aPos, bPos))[p].0 == p as real
  {
    var s := SortPairs(Zip(aPos, bPos));
    var f := seq(n, p requires 0 <= p < n => s[p].0.Floor);
    forall p | 0 <= p < n ensures 0 <= f[p] < n && s[p].0 == f[p] as real {
      var k := SortedZipSource(aPos, bPos, n, p);
    }
    forall p, q | 0 <= p < q < n ensures f[p] < f[q] {
      SortedZipFirstsIncrease(aPos, bPos, n, p, q);
    }
    StrictlyIncreasingIsIdentity(f, n);
  }

  /** The first components of the sorted zip increase strictly. */
  lemma SortedZipFirstsIncrease(aPos: seq<int>, bPos: seq<int>, n: nat, p: int, q: int)
    requires IsPermutation(aPos, n) && |bPos| == n && 0 <= p < q < n
    ensures |SortPairs(Zip(aPos, bPos))| == n
    ensures SortPairs(Zip(aPos, bPos))[p].0 < SortPairs(Zip(aPos, bPos))[q].0
  {
    var z := Zip(aPos, bPos);
    var s := SortPairs(z);
    assert Distinct(z) by {
      forall i, j | 0 <= i < j < n ensures z[i] != z[j] {
        assert aPos[i] != aPos[j];
      }
    }
    SortDistinctIsStrict(z);
    var k := SortedZipSource(aPos, bPos, n, p);
    var k' := SortedZipSource(aPos, bPos, n, q);
    assert PairLess(s[p], s[q]);
    assert k != k';
  }

  /** The row of score rank k is placed at the position of target rank k:
      `targeted_positions[a_original_position[k]] == b_original_position[k]`. */
  lemma TargetedPositionsPairing(b: seq<real>, equationNumber: int)
    ensures |TargetedPositions(b, equationNumber)| == |b|
    ensures forall k :: 0 <= k < |b| ==>
      0 <= SortedPositions(TargetValues(|b|, equationNumber))[k] < |b| &&
      TargetedPositions(b, equationNumber)[SortedPositions(TargetValues(|b|, equationNumber))[k]] == SortedPositions(b)[k]
  {
    SortedPositionsSpec(TargetValues(|b|, equationNumber));
    SortedPositionsSpec(b);
    SortedZipByTarget(SortedPositions(TargetValues(|b|, equationNumber)), SortedPositions(b), |b|);
  }

  // ---------------------------------------------------------------------------
  // What the reorder promises.

  /** The row placed at position p is the one whose score rank is p's target rank. */
  lemma TargetedPositionAt(b: seq<real>, equationNumber: int, p: int)
    requires 0 <= p < |b|
    ensures |TargetedPositions(b, equationNumber)| == |b|
    ensures Rank(TargetValues(|b|, equationNumber), p) < |b|
    ensures TargetedPositions(b, equationNumber)[p] == SortedPositions(b)[Rank(TargetValues(|b|, equationNumber), p)]
  {
    TargetedPositionsPairing(b, equationNumber);
    RankLocatesRow(TargetValues(|b|, equationNumber), p);
  }

  /** `targeted_positions` lists every row exactly once: no row is dropped or duplicated. */
  lemma TargetedPositionsIsPermutation(b: seq<real>, equationNumber: int)
    ensures IsPermutation(TargetedPositions(b, equationNumber), |b|)
  {
    var out := TargetedPositions(b, equationNumber);
    TargetedPositionsPairing(b, equationNumber);
    forall p | 0 <= p < |b| ensures 0 <= out[p] < |b| {
      TargetedPositionAt(b, equationNumber, p);
      SortedPositionsSpec(b);
    }
    forall p, q | 0 <= p < q < |b| ensures out[p] != out[q] {
      TargetedPositionsAreDistinct(b, equationNumber, p, q);
    }
    forall i | 0 <= i < |b| ensures i in out {
      TargetedPositionsCover(b, equationNumber, i);
    }
  }

  lemma TargetedPositionsAreDistinct(b: seq<real>, equationNumber: int, p: int, q: int)
    requires 0 <= p < q < |b|
    ensures |TargetedPositions(b, equationNumber)| == |b|
    ensures TargetedPositions(b, equationNumber)[p] != TargetedPositions(b, equationNumber)[q]
  {
    var a := TargetValues(|b|, equationNumber);
    TargetedPositionAt(b, equationNumber, p);
    TargetedPositionAt(b, equationNumber, q);
    RankOrder(a, p, q);
    RankOrder(a, q, p);
    SortedPositionsSpec(b);
  }

  lemma TargetedPositionsCover(b: seq<real>, equationNumber: int, i: int)
    requires 0 <= i < |b|
    ensures i in TargetedPositions(b, equationNumber)
  {
    var a := TargetValues(|b|, equationNumber);
    RankLocatesRow(b, i);
    var k := Rank(b, i);
    RankOfSortedPosition(a, k);
    var p := SortedPositions(a)[k];
    TargetedPositionAt(b, equationNumber, p);
    assert TargetedPositions(b, equationNumber)[p] == i;
  }

  /** Rank matching: the row placed at position p has the same score rank as
      p has target rank. */
  lemma RankMatching(b: seq<real>, equationNumber: int, p: int)
    requires 0 <= p < |b|
    ensures |TargetedPositions(b, equationNumber)| == |b|
    ensures 0 <= TargetedPositions(b, equationNumber)[p] < |b|
    ensures Rank(b, TargetedPositions(b, equationNumber)[p]) == Rank(TargetValues(|b|, equationNumber), p)
  {
    var a := TargetValues(|b|, equationNumber);
    TargetedPositionsPairing(b, equationNumber);
    RankLocatesRow(a, p);
    RankOfSortedPosition(b, Rank(a, p));
  }

  /** Rank matching determines the output: any arrangement that puts at each
      position p a row whose score rank is p's target rank is `targeted_positions`. */
  lemma RankMatchingIsUnique(b: seq<real>, equationNumber: int, r: seq<int>)
    requires |r| == |b| && forall p :: 0 <= p < |r| ==> 0 <= r[p] < |b|
    requires forall p :: 0 <= p < |r| ==> Rank(b, r[p]) == Rank(TargetValues(|b|, equationNumber), p)
    ensures r == TargetedPositions(b, equationNumber)
  {
    var out := TargetedPositions(b, equationNumber);
    TargetedPositionsPairing(b, equationNumber);
    forall p | 0 <= p < |b| ensures r[p] == out[p] {
      RankMatching(b, equationNumber, p);
      RankLocatesRow(b, r[p]);
      RankLocatesRow(b, out[p]);
    }
  }

  /** Seen pairwise: the rows at positions p and q compare by score (ties by
      index) exactly as p and q compare by target value (ties by index). */
  lemma ScoreOrderFollowsTargetOrder(b: seq<real>, equationNumber: int, p: int, q: int)
    requires 0 <= p < |b| && 0 <= q < |b|
    ensures |TargetedPositions(b, equationNumber)| == |b|
    ensures 0 <= TargetedPositions(b, equationNumber)[p] < |b| && 0 <= TargetedPositions(b, equationNumber)[q] < |b|
    ensures Precedes(b, TargetedPositions(b, equationNumber)[p], TargetedPositions(b, equationNumber)[q])
        <==> Precedes(TargetValues(|b|, equationNumber), p, q)
  {
    var out := TargetedPositions(b, equationNumber);
    RankMatching(b, equationNumber, p);
    RankMatching(b, equationNumber, q);
    RankOrder(b, out[p], out[q]);
    RankOrder(TargetValues(|b|, equationNumber), p, q);
  }

  /** Among tied scores, the row with the smaller original index goes to the
      position whose target value ranks lower. */
  lemma TiedRowsFollowTargetRank(b: seq<real>, equationNumber: int, p: int, q: int)
    requires 0 <= p < |b| && 0 <= q < |b|
    requires |TargetedPositions(b, equationNumber)| == |b|
    requires 0 <= TargetedPositions(b, equationNumber)[p] < TargetedPositions(b, equationNumber)[q] < |b|
    requires b[TargetedPositions(b, equationNumber)[p]] == b[TargetedPositions(b, equationNumber)[q]]
    ensures Rank(TargetValues(|b|, equationNumber), p) < Rank(TargetValues(|b|, equationNumber), q)
  {
    ScoreOrderFollowsTargetOrder(b, equationNumber, p, q);
    RankOrder(TargetValues(|b|, equationNumber), p, q);
  }

  // ---------------------------------------------------------------------------
  // The two straight lines.

  /** Selector 1: the targets rise strictly from row to row. */
  lemma PositiveLineTargetsAscend(n: nat)
    ensures forall i, j :: 0 <= i < n && 0 <= j < n ==> (Precedes(TargetValues(n, 1), i, j) <==> i < j)
  {
    var a := TargetValues(n, 1);
    forall i, j | 0 <= i < n && 0 <= j < n ensures Precedes(a, i, j) <==> i < j {
      if i < j {
        LinearCurvesAreStrictlyMonotone((i + 1) as real, (j + 1) as real, n as real);
      } else if j < i {
        LinearCurvesAreStrictlyMonotone((j + 1) as real, (i + 1) as real, n as real);
      }
    }
  }

  /** Selector 2: the targets fall strictly from row to row. */
  lemma NegativeLineTargetsDescend(n: nat)
    ensures forall i, j :: 0 <= i < n && 0 <= j < n ==> (Precedes(TargetValues(n, 2), i, j) <==> j < i)
  {
    var a := TargetValues(n, 2);
    forall i, j | 0 <= i < n && 0 <= j < n ensures Precedes(a, i, j) <==> j < i {
      if i < j {
        LinearCurvesAreStrictlyMonotone((i + 1) as real, (j + 1) as real, n as real);
      } else if j < i {
        LinearCurvesAreStrictlyMonotone((j + 1) as real, (i + 1) as real, n as real);
      }
    }
  }

  /** With the positive line the output is the scores' ascending order: the
      row at position p has score rank p, so the scores come out non-decreasing. */
  lemma PositiveLineSortsAscending(b: seq<real>)
    ensures TargetedPositions(b, 1) == SortedPositions(b)
    ensures |TargetedPositions(b, 1)| == |b|
    ensures forall p :: 0 <= p < |b| ==>
      0 <= TargetedPositions(b, 1)[p] < |b| && Rank(b, TargetedPositions(b, 1)[p]) == p
    ensures forall p, q :: 0 <= p < q < |b| ==> b[TargetedPositions(b, 1)[p]] <= b[TargetedPositions(b, 1)[q]]
  {
    var out := TargetedPositions(b, 1);
    PositiveLineTargetsAscend(|b|);
    RanksOfAscendingRows(TargetValues(|b|, 1));
    forall p | 0 <= p < |b| ensures 0 <= out[p] < |b| && Rank(b, out[p]) == p {
      RankMatching(b, 1, p);
    }
    forall p, q | 0 <= p < q < |b| ensures b[out[p]] <= b[out[q]] {
      RankOrder(b, out[p], out[q]);
    }
    SortedPositionsSpec(b);
    forall p | 0 <= p < |b| ensures out[p] == SortedPositions(b)[p] {
      RankLocatesRow(b, out[p]);
    }
  }

  /** With the negative line the row at position p has score rank |b| - 1 - p,
      so the scores come out non-increasing. */
  lemma NegativeLineSortsDescending(b: seq<real>)
    ensures |TargetedPositions(b, 2)| == |b|
    ensures forall p :: 0 <= p < |b| ==>
      0 <= TargetedPositions(b, 2)[p] < |b| && Rank(b, TargetedPositions(b, 2)[p]) == |b| - 1 - p
    ensures forall p, q :: 0 <= p < q < |b| ==> b[TargetedPositions(b, 2)[p]] >= b[TargetedPositions(b, 2)[q]]
  {
    var out := TargetedPositions(b, 2);
    NegativeLineTargetsDescend(|b|);
    RanksOfDescendingRows(TargetValues(|b|, 2));
    forall p | 0 <= p < |b| ensures 0 <= out[p] < |b| && Rank(b, out[p]) == |b| - 1 - p {
      RankMatching(b, 2, p);
    }
    forall p, q | 0 <= p < q < |b| ensures b[out[p]] >= b[out[q]] {
      RankOrder(b, out[q], out[p]);
    }
  }

  /** Tied scores keep their original order under the positive line and are
      reversed under the negative line. */
  lemma TiesUnderStraightLines(b: seq<real>, p: int, q: int)
    requires 0 <= p < q < |b|
    ensures |TargetedPositions(b, 1)| == |b| && |TargetedPositions(b, 2)| == |b|
    ensures 0 <= TargetedPositions(b, 1)[p] < |b| && 0 <= TargetedPositions(b, 1)[q] < |b|
    ensures 0 <= TargetedPositions(b, 2)[p] < |b| && 0 <= TargetedPositions(b, 2)[q] < |b|
    ensures b[TargetedPositions(b, 1)[p]] == b[TargetedPositions(b, 1)[q]] ==>
      TargetedPositions(b, 1)[p] < TargetedPositions(b, 1)[q]
    ensures b[TargetedPositions(b, 2)[p]] == b[TargetedPositions(b, 2)[q]] ==>
      TargetedPositions(b, 2)[p] > TargetedPositions(b, 2)[q]
  {
    PositiveLineTargetsAscend(|b|);
    NegativeLineTargetsDescend(|b|);
    ScoreOrderFollowsTargetOrder(b, 1, p, q);
    ScoreOrderFollowsTargetOrder(b, 2, q, p);
  }

  /** Applied to a frame, the positive line orders the tracks by composite
      value, lowest first. */
  lemma PositiveLineOrdersTracks(df: seq<Track>)
    ensures forall p, q :: 0 <= p < q < |df| ==>
      RearrangeToShape(df, 1)[p].compositeValue <= RearrangeToShape(df, 1)[q].compositeValue
  {
    var b := CompositeValues(df);
    PositiveLineSortsAscending(b);
    TargetedPositionsIsPermutation(b, 1);
    CompositeValuesOfIloc(df, TargetedPositions(b, 1));
  }

  /** Applied to a frame, the negative line orders the tracks by composite
      value, highest first. */
  lemma NegativeLineOrdersTracks(df: seq<Track>)
    ensures forall p, q :: 0 <= p < q < |df| ==>
      RearrangeToShape(df, 2)[p].compositeValue >= RearrangeToShape(df, 2)[q].compositeValue
  {
    var b := CompositeValues(df);
    NegativeLineSortsDescending(b);
    TargetedPositionsIsPermutation(b, 2);
    CompositeValuesOfIloc(df, TargetedPositions(b, 2));
  }

  /** `rearrange_to_shape` itself does not check the selector: a number that
      `choose_equation` would refuse gets the targets of the negative cubic. */
  lemma UncheckedSelectorsActAsNegativeCubic(n: nat, equationNumber: int)
    requires !IsEquationNumber(equationNumber)
    ensures TargetValues(n, equationNumber) == TargetValues(n, 6)
    ensures forall b :: |b| == n ==> TargetedPositions(b, equationNumber) == TargetedPositions(b, 6)
  {
    forall x | 0 <= x < n ensures TargetValues(n, equationNumber)[x] == TargetValues(n, 6)[x] {
      OtherSelectorsAreNegativeCubic((x + 1) as real, equationNumber, n as real);
    }
  }

  // ---------------------------------------------------------------------------
  // Small frames and examples.

  /** A one-row frame comes back unchanged, whatever the curve. */
  lemma SingleRowIsUnchanged(df: seq<Track>, equationNumber: int)
    requires |df| == 1
    ensures TargetedPositions(CompositeValues(df), equationNumber) == [0]
    ensures RearrangeToShape(df, equationNumber) == df
  {
    var out := TargetedPositions(CompositeValues(df), equationNumber);
    TargetedPositionsIsPermutation(CompositeValues(df), equationNumber);
    assert 0 in out;
  }

  /** Three scores such as [10, 30, 20] under the positive line: rows 0, 2, 1,
      i.e. the scores 10, 20, 30. */
  lemma AscendingExample(b: seq<real>)
    requires |b| == 3 && b[0] < b[2] < b[1]
    ensures TargetedPositions(b, 1) == [0, 2, 1]
  {
    PositiveLineSortsAscending(b);
    RankOrder(b, 0, 2);
    RankOrder(b, 2, 1);
    RankLocatesRow(b, 0);
    RankLocatesRow(b, 1);
    RankLocatesRow(b, 2);
    ThreeEntries(TargetedPositions(b, 1), 0, 2, 1);
  }

  /** All scores tied: the positive line keeps rows 0, 1, ..., n - 1 in place
      and the negative line reverses them. */
  lemma AllTiedScores(b: seq<real>)
    requires forall i, j :: 0 <= i < |b| && 0 <= j < |b| ==> b[i] == b[j]
    ensures |TargetedPositions(b, 1)| == |b| && |TargetedPositions(b, 2)| == |b|
    ensures forall p :: 0 <= p < |b| ==> TargetedPositions(b, 1)[p] == p
    ensures forall p :: 0 <= p < |b| ==> TargetedPositions(b, 2)[p] == |b| - 1 - p
  {
    var up, down := TargetedPositions(b, 1), TargetedPositions(b, 2);
    forall i, j | 0 <= i < |b| && 0 <= j < |b| ensures Precedes(b, i, j) <==> i < j {
      assert b[i] == b[j];
    }
    RanksOfAscendingRows(b);
    PositiveLineSortsAscending(b);
    NegativeLineSortsDescending(b);
    forall p | 0 <= p < |b| ensures up[p] == p && down[p] == |b| - 1 - p {
      assert Rank(b, up[p]) == up[p] && Rank(b, down[p]) == down[p];
    }
  }

  /** Three tied scores: the positive line keeps rows 0, 1, 2 and the negative
      line reverses them to 2, 1, 0. */
  lemma TiedExample(b: seq<real>)
    requires |b| == 3 && b[0] == b[1] == b[2]
    ensures TargetedPositions(b, 1) == [0, 1, 2]
    ensures TargetedPositions(b, 2) == [2, 1, 0]
  {
    forall i, j | 0 <= i < |b| && 0 <= j < |b| ensures b[i] == b[j] { }
    AllTiedScores(b);
    ThreeEntries(TargetedPositions(b, 1), 0, 1, 2);
    ThreeEntries(TargetedPositions(b, 2), 2, 1, 0);
  }

  lemma ThreeEntries(s: seq<int>, x: int, y: int, z: int)
    requires |s| == 3 && s[0] == x && s[1] == y && s[2] == z
    ensures s == [x, y, z]
  {
  }

  /** The target values all lie in [0, 1]. */
  lemma TargetValuesInUnitInterval(n: nat, equationNumber: int)
    ensures forall x :: 0 <= x < n ==> 0.0 <= TargetValues(n, equationNumber)[x] <= 1.0
  {
    forall x | 0 <= x < n ensures 0.0 <= TargetValues(n, equationNumber)[x] <= 1.0 {
      CurvesStayInUnitInterval((x + 1) as real, equationNumber, n as real);
    }
  }

  /** The scores are conserved as a multiset: only their positions change. */
  lemma ScoresConserved(df: seq<Track>, equationNumber: int)
    ensures multiset(CompositeValues(RearrangeToShape(df, equationNumber))) == multiset(CompositeValues(df))
  {
    var b := CompositeValues(df);
    var positions := TargetedPositions(b, equationNumber);
    TargetedPositionsIsPermutation(b, equationNumber);
    CompositeValuesOfIloc(df, positions);
    IlocOfPermutation(b, positions);
  }

  lemma CompositeValuesOfIloc(df: seq<Track>, pos: seq<int>)
    requires forall k :: 0 <= k < |pos| ==> 0 <= pos[k] < |df|
    ensures CompositeValues(Iloc(df, pos)) == Iloc(CompositeValues(df), pos)
  {
  }

  // ---------------------------------------------------------------------------
  // Selecting rows by a permutation keeps the multiset of rows.

  function Range(n: nat): seq<int> {
    seq(n, i requires 0 <= i < n => i)
  }

  lemma {:induction false} DistinctMultiplicity<T>(s: seq<T>)
    requires Distinct(s)
    ensures forall x :: multiset(s)[x] == if x in s then 1 else 0
  {
    if s != [] {
      DistinctMultiplicity(s[1..]);
      assert s == [s[0]] + s[1..];
      assert s[0] !in s[1..];
    }
  }

  lemma PermutationMultiset(pos: seq<int>, n: nat)
    requires IsPermutation(pos, n)
    ensures multiset(pos) == multiset(Range(n))
  {
    DistinctMultiplicity(pos);
    DistinctMultiplicity(Range(n));
    forall x ensures multiset(pos)[x] == multiset(Range(n))[x] {
      if 0 <= x < n {
        assert x in pos && Range(n)[x] == x;
      }
    }
  }

  lemma IlocConcat<T>(df: seq<T>, a: seq<int>, b: seq<int>)
    requires forall k :: 0 <= k < |a| ==> 0 <= a[k] < |df|
    requires forall k :: 0 <= k < |b| ==> 0 <= b[k] < |df|
    ensures Iloc(df, a + b) == Iloc(df, a) + Iloc(df, b)
  {
  }

  /** Removing the first entry of `pos` and an equal entry `pos'[j]` of a
      rearrangement `pos'` leaves two rearrangements of each other. */
  lemma RemoveMatching(pos: seq<int>, pos': seq<int>, j: int)
    requires multiset(pos) == multiset(pos') && pos != [] && 0 <= j < |pos'| && pos'[j] == pos[0]
    ensures multiset(pos[1..]) == multiset(pos'[..j] + pos'[j + 1..])
  {
    var x, left, right := pos[0], pos'[..j], pos'[j + 1..];
    assert pos == [x] + pos[1..];
    assert pos' == left + [x] + right;
    calc {
      multiset(pos[1..]);
    ==
      multiset(pos) - multiset{x};
    ==
      multiset(pos') - multiset{x};
    ==
      multiset(left) + multiset(right);
    ==
      multiset(left + right);
    }
  }

  /** Selecting by `pos` gives the row at `pos[j]` plus the rows selected by
      `pos` with its j-th entry removed. */
  lemma IlocSplitAt<T>(df: seq<T>, pos: seq<int>, j: int)
    requires forall k :: 0 <= k < |pos| ==> 0 <= pos[k] < |df|
    requires 0 <= j < |pos|
    ensures multiset(Iloc(df, pos)) == multiset{df[pos[j]]} + multiset(Iloc(df, pos[..j] + pos[j + 1..]))
  {
    var left, right := pos[..j], pos[j + 1..];
    assert pos == left + [pos[j]] + right;
    IlocConcat(df, left + [pos[j]], right);
    IlocConcat(df, left, [pos[j]]);
    IlocConcat(df, left, right);
    assert Iloc(df, [pos[j]]) == [df[pos[j]]];
  }

  lemma {:induction false} IlocRespectsMultiset<T>(df: seq<T>, pos: seq<int>, pos': seq<int>)
    requires forall k :: 0 <= k < |pos| ==> 0 <= pos[k] < |df|
    requires forall k :: 0 <= k < |pos'| ==> 0 <= pos'[k] < |df|
    requires multiset(pos) == multiset(pos')
    ensures multiset(Iloc(df, pos)) == multiset(Iloc(df, pos'))
  {
    if pos != [] {
      assert pos[0] in multiset(pos');
      var j :| 0 <= j < |pos'| && pos'[j] == pos[0];
      RemoveMatching(pos, pos', j);
      assert pos[..0] + pos[1..] == pos[1..];
      IlocRespectsMultiset(df, pos[1..], pos'[..j] + pos'[j + 1..]);
      IlocSplitAt(df, pos, 0);
      IlocSplitAt(df, pos', j);
    } else {
      assert |pos'| == |multiset(pos')| == 0;
    }
  }

  /** Selecting the rows of a frame by a permutation of its positions keeps every row. */
  lemma IlocOfPermutation<T>(df: seq<T>, pos: seq<int>)
    requires IsPermutation(pos, |df|)
    ensures multiset(Iloc(df, pos)) == multiset(df)
  {
    PermutationMultiset(pos, |df|);
    IlocRespectsMultiset(df, pos, Range(|df|));
    assert Iloc(df, Range(|df|)) == df;
  }
}
