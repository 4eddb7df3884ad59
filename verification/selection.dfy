/**
 The selection primitive of col_parser.rs: a three-way-partition quickselect
 with an injectable pivot chooser, and the wrapper that turns a quantile level
 into a rank.
 */
module Selection {
  import opened Order

  /** A pivot chooser returns a position inside any non-empty list it is given. */
  ghost predicate PivotInRange<T(!new)>(pivot: seq<T> -> nat) {
    forall s :: |s| > 0 ==> pivot(s) < |s|
  }

  /**
   `_quick_select`: partition around `list[pivot(list)]` into the lows, the
   pivots and the highs, and recurse into the group that holds rank `index`.
   The result is the element of rank `index`, whatever pivots are chosen.
   */
  function QuickSelect<T(==,!new)>(list: seq<T>, index: nat, lt: (T, T) -> bool, pivot: seq<T> -> nat): (r: T)
    requires StrictTotalOrder(lt)
    requires PivotInRange(pivot)
    requires index < |list|
    ensures HasRank(list, r, index, lt)
    decreases |list|
  {
    if |list| == 1 then
      list[0]
    else
      var p := list[pivot(list)];
      var lows := Lows(list, p, lt);
      var pivots := Pivots(list, p);
      var highs := Highs(list, p, lt);
      PivotGroupNonEmpty(list, p, lt);
      PartitionSizes(list, p, lt);
      if index < |lows| then
        var r := QuickSelect(lows, index, lt, pivot);
        LowsMember(list, p, r, lt);
        LowsOfLows(list, p, r, lt);
        r
      else if index < |lows| + |pivots| then
        PivotsMember(list, p, pivots[0]);
        pivots[0]
      else
        var r := QuickSelect(highs, index - |lows| - |pivots|, lt, pivot);
        HighsMember(list, p, r, lt);
        LowsOfHighs(list, p, r, lt);
        r
  }

  /** The pivot chooser does not matter: any two choosers select the same element. */
  lemma QuickSelectPivotIndependent<T(!new)>(list: seq<T>, index: nat, lt: (T, T) -> bool,
                                              pivot1: seq<T> -> nat, pivot2: seq<T> -> nat)
    requires StrictTotalOrder(lt)
    requires PivotInRange(pivot1) && PivotInRange(pivot2)
    requires index < |list|
    ensures QuickSelect(list, index, lt, pivot1) == QuickSelect(list, index, lt, pivot2)
  {
    RankUnique(list, QuickSelect(list, index, lt, pivot1), QuickSelect(list, index, lt, pivot2), index, lt);
  }

  /** Quickselect agrees with reading position `index` of the sorted list. */
  lemma QuickSelectIsKthSmallest<T(!new)>(list: seq<T>, index: nat, lt: (T, T) -> bool, pivot: seq<T> -> nat)
    requires StrictTotalOrder(lt)
    requires PivotInRange(pivot)
    requires index < |list|
    ensures QuickSelect(list, index, lt, pivot) == KthSmallest(list, index, lt)
  {
    RankUnique(list, QuickSelect(list, index, lt, pivot), KthSmallest(list, index, lt), index, lt);
  }

  /** The rank `_select_quantile` reads for level `q`: `(1.0 / q) as usize`, a truncation toward zero. */
  function QuantileRank(q: real): (k: nat)
    requires 0.0 < q < 1.0
    ensures k >= 1
    ensures k as real <= 1.0 / q < (k + 1) as real
  {
    (1.0 / q).Floor
  }

  /**
   `_select_quantile`: asserts `0 < q < 1` and selects rank `floor(1 / q)`.
   The selection is only defined when the list has more elements than that rank.
   */
  function SelectQuantile<T(==,!new)>(list: seq<T>, q: real, lt: (T, T) -> bool, pivot: seq<T> -> nat): (r: T)
    requires StrictTotalOrder(lt)
    requires PivotInRange(pivot)
    requires 0.0 < q < 1.0
    requires QuantileRank(q) < |list|
    ensures HasRank(list, r, QuantileRank(q), lt)
    ensures r == KthSmallest(list, QuantileRank(q), lt)
  {
    var r := QuickSelect(list, QuantileRank(q), lt, pivot);
    QuickSelectIsKthSmallest(list, QuantileRank(q), lt, pivot);
    r
  }

  /** The median level 0.5 selects rank 2, the third smallest element, not the middle one. */
  lemma MedianLevelSelectsRankTwo()
    ensures QuantileRank(0.5) == 2
  {
  }

  /**
   The rank a quantile level evidently means: `floor(q * n)`, which lies inside
   any non-empty list for every level in [0, 1) and is the middle for `q = 0.5`
   and odd `n`.
   */
  function CorrectedQuantileRank(q: real, n: nat): (k: nat)
    requires 0.0 <= q < 1.0
    requires n >= 1
    ensures k < n
    ensures k as real <= q * n as real < (k + 1) as real
  {
    (q * n as real).Floor
  }

  lemma CorrectedMedianRankIsMiddle(n: nat)
    requires n >= 1
    ensures CorrectedQuantileRank(0.5, n) == n / 2
  {
    if n % 2 == 0 {
      assert 0.5 * n as real == (n / 2) as real;
    } else {
      assert 0.5 * n as real == (n / 2) as real + 0.5;
    }
  }

  /** `_select_quantile` with the evidently intended rank: defined for every non-empty list. */
  function SelectQuantileCorrected<T(==,!new)>(list: seq<T>, q: real, lt: (T, T) -> bool, pivot: seq<T> -> nat): (r: T)
    requires StrictTotalOrder(lt)
    requires PivotInRange(pivot)
    requires 0.0 <= q < 1.0
    requires |list| >= 1
    ensures HasRank(list, r, CorrectedQuantileRank(q, |list|), lt)
  {
    QuickSelect(list, CorrectedQuantileRank(q, |list|), lt, pivot)
  }
}
