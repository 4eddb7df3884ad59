/**
 The per-type statistics of statistics.rs for `CsvCol<f64>` and `CsvCol<i64>`.

 Floating-point values are idealised as reals: sums, the interpolated quantile
 and the float median average are exact here. Index arithmetic, parity and
 clamping follow the source, including the integer quantile's wrapping
 `usize` subtraction.
 */
module Statistics {
  import opened Wrappers
  import opened Errors
  import opened Order
  import opened ColParser
  import opened Means

  /** The largest `usize` of a 64-bit target. */
  const USIZE_MAX: int := 0xFFFF_FFFF_FFFF_FFFF

  /** `(0.0..1.0).contains(&q)`: the half-open range [0, 1). */
  predicate ValidQuantile(q: real) {
    0.0 <= q < 1.0
  }

  /** `f64::ceil`. */
  function Ceil(x: real): (c: int)
    ensures c as real - 1.0 < x <= c as real
  {
    -((-x).Floor)
  }

  /** `x / 2` on `i64`: division truncating toward zero. */
  function TruncHalf(x: int): (h: int)
    ensures 0 <= x ==> 0 <= 2 * h <= x < 2 * h + 2
    ensures x < 0 ==> 2 * h - 2 < x <= 2 * h <= 0
  {
    if x >= 0 then x / 2 else -((-x) / 2)
  }

  // ---------------------------------------------------------------------------
  // CsvCol<f64>

  /** `mean` of a float column: `EmptyColumn` without rows, else the average, which lies within the column's range. */
  function FloatMean(col: Column<real>): (r: Result<DataValue, Error>)
    requires col.Valid()
    ensures r.Err? <==> col.nElements == 0
    ensures r.Err? ==> r.error == EmptyColumn
    ensures r.Ok? ==> r.value.Float? && WithinRange(col.values, r.value.f)
  {
    if col.nElements == 0 then Err(EmptyColumn)
    else
      MeanWithinRange(col.values);
      Ok(DataValue.Float(Sum(col.values) / |col.values| as real))
  }

  /**
   `median` of a float column as written: an even count reads the upper middle
   alone, an odd count averages ranks `n/2` and `n/2 - 1`. For one element the
   second index is `0 - 1` on `usize`, which panics; that is a precondition here.
   */
  function FloatMedian(col: Column<real>): (r: Result<DataValue, Error>)
    requires col.Valid()
    requires col.nElements != 1
    ensures r.Err? <==> col.nElements == 0
    ensures r.Err? ==> r.error == EmptyColumn
    ensures var n := col.nElements;
      n > 0 && n % 2 == 0 ==> r == Ok(DataValue.Float(RealKth(col.values, n / 2)))
    ensures var n := col.nElements;
      n % 2 == 1 ==> r == Ok(DataValue.Float(0.5 * (RealKth(col.values, n / 2) + RealKth(col.values, n / 2 - 1))))
  {
    if col.nElements == 0 then Err(EmptyColumn)
    else
      var sorted := SortReals(col.values);
      var m := |sorted| / 2;
      RealKthReadsSorted(col.values, m);
      if col.nElements % 2 == 0 then Ok(DataValue.Float(sorted[m]))
      else
        RealKthReadsSorted(col.values, m - 1);
        Ok(DataValue.Float(0.5 * (sorted[m] + sorted[m - 1])))
  }

  /**
   For an odd count of at least three, the float median of the source lies
   strictly below the middle value whenever the value just below the middle is
   smaller, e.g. 1.5 instead of 2.0 on `[1.0, 2.0, 3.0]`; the corrected median
   returns the middle value itself.
   */
  lemma FloatMedianMissesMiddle(col: Column<real>)
    requires col.Valid()
    requires col.nElements % 2 == 1 && col.nElements > 1
    requires RealKth(col.values, col.nElements / 2 - 1) < RealKth(col.values, col.nElements / 2)
    ensures FloatMedian(col).value.f < RealKth(col.values, col.nElements / 2)
    ensures FloatMedianCorrected(col) == Ok(DataValue.Float(RealKth(col.values, col.nElements / 2)))
  {
    var v, m := col.values, col.nElements / 2;
    RealLtIsTotal();
    RankUnique(v, FloatMedianCorrected(col).value.f, RealKth(v, m), m, RealLt);
  }

  /** The evidently intended float median: the middle for odd counts, the mean of the two middles for even ones. */
  function FloatMedianCorrected(col: Column<real>): (r: Result<DataValue, Error>)
    requires col.Valid()
    ensures r.Err? <==> col.nElements == 0
    ensures r.Err? ==> r.error == EmptyColumn
    ensures col.nElements % 2 == 1 ==> r.Ok? && r.value.Float? && HasRank(col.values, r.value.f, col.nElements / 2, RealLt)
    ensures col.nElements >= 2 && col.nElements % 2 == 0 ==>
      r.Ok? && r.value.Float? &&
      RealKth(col.values, col.nElements / 2 - 1) <= r.value.f <= RealKth(col.values, col.nElements / 2)
    ensures col.nElements == 1 ==> r == Ok(DataValue.Float(col.values[0]))
  {
    var n := col.nElements;
    var m := n / 2;
    if n == 0 then Err(EmptyColumn)
    else if n % 2 == 1 then Ok(DataValue.Float(RealKth(col.values, m)))
    else
      RealKthMonotone(col.values, m - 1, m);
      Ok(DataValue.Float(0.5 * (RealKth(col.values, m - 1) + RealKth(col.values, m))))
  }

  /** `x` forced into `[lo, hi]`; a value already inside is returned unchanged. */
  function Clamp(x: real, lo: real, hi: real): (c: real)
    requires lo <= hi
    ensures lo <= c <= hi
    ensures lo <= x <= hi ==> c == x
  {
    if x < lo then lo else if x > hi then hi else x
  }

  /** The position `q * (n - 1)`, clamped to `[0, n - 1]`; for a level in [0, 1) the clamp never fires. */
  function QuantilePosition(q: real, n: nat): (pos: real)
    requires ValidQuantile(q)
    requires n >= 1
    ensures pos == q * (n - 1) as real
    ensures 0.0 <= pos <= (n - 1) as real
  {
    Clamp(q * (n - 1) as real, 0.0, (n - 1) as real)
  }

  /** With two or more values the upper neighbour always exists and the fraction lies in [0, 1). */
  lemma PositionBracket(q: real, n: nat)
    requires ValidQuantile(q)
    requires n >= 2
    ensures QuantilePosition(q, n).Floor + 1 < n
    ensures 0.0 <= QuantilePosition(q, n) - QuantilePosition(q, n).Floor as real < 1.0
  {
    var pos := QuantilePosition(q, n);
    assert pos < (n - 1) as real;
  }

  /** Every position of the sorted copy holds an element of the column. */
  lemma SortedElementIn(s: seq<real>, i: nat)
    requires i < |s|
    ensures SortReals(s)[i] in s
  {
    assert SortReals(s)[i] in multiset(s);
  }

  /** Linear interpolation from `a` to `b` with weight `frac`. */
  function Lerp(a: real, b: real, frac: real): real {
    a * (1.0 - frac) + b * frac
  }

  /** With a weight in [0, 1], interpolation stays between its two ends. */
  lemma LerpBetween(a: real, b: real, frac: real)
    requires a <= b
    requires 0.0 <= frac <= 1.0
    ensures a <= Lerp(a, b, frac) <= b
  {
    assert Lerp(a, b, frac) == a + (b - a) * frac;
    ProductOfNonNegatives(b - a, frac);
    ProductOfNonNegatives(b - a, 1.0 - frac);
    assert (b - a) - (b - a) * frac == (b - a) * (1.0 - frac);
  }

  lemma ProductOfNonNegatives(x: real, y: real)
    requires 0.0 <= x && 0.0 <= y
    ensures 0.0 <= x * y
  {
  }

  /**
   `quantile` of a float column: `InvalidQuantile` outside [0, 1), else linear
   interpolation between the two sorted neighbours of position `q * (n - 1)`.
   The source does not guard against an empty column: `n - 1` underflows, so a
   valid level needs at least one value.
   */
  function FloatQuantile(col: Column<real>, q: real): (r: Result<DataValue, Error>)
    requires col.Valid()
    requires ValidQuantile(q) ==> col.nElements >= 1
    ensures r.Err? <==> !ValidQuantile(q)
    ensures r.Err? ==> r.error == InvalidQuantile(q)
    ensures r.Ok? ==> r.value.Float? && WithinRange(col.values, r.value.f)
    ensures r.Ok? && col.nElements == 1 ==> r.value.f == col.values[0]
  {
    if !ValidQuantile(q) then Err(InvalidQuantile(q))
    else
      var sorted := SortReals(col.values);
      var n := |sorted|;
      var pos := QuantilePosition(q, n);
      var lo: nat := pos.Floor;
      var hi := lo + 1;
      SortedElementIn(col.values, lo);
      if hi >= n then
        BetweenElementsWithinRange(col.values, sorted[lo], sorted[lo], sorted[lo]);
        Ok(DataValue.Float(sorted[lo]))
      else
        var frac := pos - lo as real;
        SortedElementIn(col.values, hi);
        var v := Lerp(sorted[lo], sorted[hi], frac);
        LerpBetween(sorted[lo], sorted[hi], frac);
        BetweenElementsWithinRange(col.values, sorted[lo], sorted[hi], v);
        Ok(DataValue.Float(v))
  }

  /**
   For two or more values the float quantile interpolates between the values of
   rank `lo` and `lo + 1`, `lo = floor(q * (n - 1))`, with weight in [0, 1).
   */
  lemma FloatQuantileInterpolates(col: Column<real>, q: real)
    requires col.Valid()
    requires ValidQuantile(q)
    requires col.nElements >= 2
    ensures var n := col.nElements;
      var pos := QuantilePosition(q, n);
      var lo := pos.Floor;
      var frac := pos - lo as real;
      && 0 <= lo && lo + 1 < n
      && 0.0 <= frac < 1.0
      && FloatQuantile(col, q) == Ok(DataValue.Float(Lerp(RealKth(col.values, lo), RealKth(col.values, lo + 1), frac)))
  {
    var n, v := col.nElements, col.values;
    PositionBracket(q, n);
    var pos := QuantilePosition(q, n);
    var lo := pos.Floor;
    var frac := pos - lo as real;
    RealKthReadsSorted(v, lo);
    RealKthReadsSorted(v, lo + 1);
  }

  // ---------------------------------------------------------------------------
  // CsvCol<i64>

  /** `mean` of an integer column: a float average, `EmptyColumn` without rows. */
  function IntMean(col: Column<int>): (r: Result<DataValue, Error>)
    requires col.Valid()
    ensures r.Err? <==> col.nElements == 0
    ensures r.Err? ==> r.error == EmptyColumn
    ensures r.Ok? ==> r.value.Float? && WithinRange(AsReals(col.values), r.value.f)
  {
    if col.nElements == 0 then Err(EmptyColumn)
    else
      MeanWithinRange(AsReals(col.values));
      Ok(DataValue.Float(Sum(AsReals(col.values)) / col.nElements as real))
  }

  /** The column-level mean of a non-empty column agrees with the per-type mean of its values. */
  lemma ColMeanAgreesWithTypedMean(col: ColType)
    requires col.Valid()
    requires col.Float? || col.Integer?
    requires col.Len() >= 1
    ensures col.Float? ==> FloatMean(col.floats) == Ok(ColMean(col).value)
    ensures col.Integer? ==> IntMean(col.ints) == Ok(ColMean(col).value)
  {
  }

  /** The mean of the integer column `[1, 2, 3, 4]` is the float 2.5. */
  lemma IntMeanExample()
    ensures IntMean(Column("c", [1, 2, 3, 4], 4)) == Ok(DataValue.Float(2.5))
  {
    var r := AsReals([1, 2, 3, 4]);
    assert r == [1.0, 2.0, 3.0, 4.0];
    assert r[1..] == [2.0, 3.0, 4.0];
    assert r[1..][1..] == [3.0, 4.0];
    assert r[1..][1..][1..] == [4.0];
    assert Sum(r) == 10.0;
  }

  /**
   `median` of an integer column as written: the middle for an odd count; for an
   even count the upper middle halved (truncating) plus the lower middle.
   */
  function IntMedian(col: Column<int>): (r: Result<DataValue, Error>)
    requires col.Valid()
    ensures r.Err? <==> col.nElements == 0
    ensures r.Err? ==> r.error == EmptyColumn
    ensures col.nElements % 2 == 1 ==> r.Ok? && r.value.Integer? && HasRank(col.values, r.value.i, col.nElements / 2, IntLt)
    ensures var n := col.nElements;
      n > 0 && n % 2 == 0 ==>
      r == Ok(DataValue.Integer(TruncHalf(IntKth(col.values, n / 2)) + IntKth(col.values, n / 2 - 1)))
  {
    if col.nElements == 0 then Err(EmptyColumn)
    else
      var sorted := SortInts(col.values);
      var m := |sorted| / 2;
      IntKthReadsSorted(col.values, m);
      if col.nElements % 2 != 0 then Ok(DataValue.Integer(sorted[m]))
      else
        IntKthReadsSorted(col.values, m - 1);
        Ok(DataValue.Integer(TruncHalf(sorted[m]) + sorted[m - 1]))
  }

  /**
   For an even count the integer median of the source is half the upper middle
   plus the whole lower middle, which lands above the upper middle whenever the
   lower middle exceeds about half of it: 35 on `[10, 20, 30, 40]`, where the
   middles are 20 and 30.
   */
  lemma IntMedianAboveMiddles(col: Column<int>)
    requires col.Valid()
    requires col.nElements % 2 == 0 && col.nElements >= 2
    requires var lo, hi := IntKth(col.values, col.nElements / 2 - 1), IntKth(col.values, col.nElements / 2);
      0 <= hi && hi + 1 < 2 * lo
    ensures IntMedian(col).value.i > IntKth(col.values, col.nElements / 2)
  {
  }

  /** The evidently intended integer median: the two middles averaged with `i64` division. */
  function IntMedianCorrected(col: Column<int>): (r: Result<DataValue, Error>)
    requires col.Valid()
    ensures r.Err? <==> col.nElements == 0
    ensures r.Err? ==> r.error == EmptyColumn
    ensures col.nElements % 2 == 1 ==> r.Ok? && r.value.Integer? && HasRank(col.values, r.value.i, col.nElements / 2, IntLt)
    ensures col.nElements >= 2 && col.nElements % 2 == 0 ==>
      r.Ok? && r.value.Integer? &&
      IntKth(col.values, col.nElements / 2 - 1) <= r.value.i <= IntKth(col.values, col.nElements / 2)
  {
    var n := col.nElements;
    var m := n / 2;
    if n == 0 then Err(EmptyColumn)
    else if n % 2 == 1 then Ok(DataValue.Integer(IntKth(col.values, m)))
    else
      MiddlesMidpointBetween(col.values, m);
      Ok(DataValue.Integer(TruncHalf(IntKth(col.values, m - 1) + IntKth(col.values, m))))
  }

  /** The truncated mean of the two middle order statistics lies between them. */
  lemma MiddlesMidpointBetween(s: seq<int>, m: nat)
    requires 1 <= m < |s|
    ensures var lo, hi := IntKth(s, m - 1), IntKth(s, m);
      lo <= TruncHalf(lo + hi) <= hi
  {
    IntKthMonotone(s, m - 1, m);
  }

  /** A level in [0, 1) scales a count `n` into [0, n). */
  lemma ScaledLevel(q: real, n: nat)
    requires ValidQuantile(q)
    requires n >= 1
    ensures 0.0 <= q * n as real < n as real
  {
    assert n as real - q * n as real == (1.0 - q) * n as real;
  }

  /** The ceiling of `q * n` for a level in [0, 1) is a count between 0 and `n`. */
  lemma CeilOfScaledLevel(q: real, n: nat)
    requires ValidQuantile(q)
    requires n >= 1
    ensures 0 <= Ceil(q * n as real) <= n
  {
    ScaledLevel(q, n);
    var c := Ceil(q * n as real);
    assert c as real < n as real + 1.0;
  }

  /** `usize` subtraction of one, wrapping below zero as a release build does. */
  function WrappingDecrement(c: nat): (r: nat)
    requires c <= USIZE_MAX
    ensures r <= USIZE_MAX
    ensures r == (c - 1) % (USIZE_MAX + 1)
  {
    if c == 0 then USIZE_MAX else c - 1
  }

  /** An index clamped to the last position of a list of length `n`; one already inside is unchanged. */
  function LastIndexAtMost(i: nat, n: nat): (c: nat)
    requires n >= 1
    ensures c < n
    ensures i < n ==> c == i
  {
    if i >= n then n - 1 else i
  }

  /**
   The nearest-rank index of the integer quantile: `ceil(q * n) as usize - 1`,
   a wrapped `usize::MAX` read as 0 and anything past the end clamped to `n - 1`.
   It is the smallest index `i` with `q * n <= i + 1`.
   */
  function NearestRankIndex(q: real, n: nat): (idx: nat)
    requires ValidQuantile(q)
    requires 1 <= n <= USIZE_MAX
    ensures idx < n
    ensures q * n as real <= (idx + 1) as real
    ensures idx == 0 || idx as real < q * n as real
  {
    var c := Ceil(q * n as real);
    CeilOfScaledLevel(q, n);
    var raw := WrappingDecrement(c);
    assert raw != USIZE_MAX ==> raw < n;
    if raw == USIZE_MAX then 0 else LastIndexAtMost(raw, n)
  }

  /**
   `quantile` of an integer column: `InvalidQuantile` outside [0, 1), else the
   sorted value at the nearest-rank index, always an element of the column.
   An empty column is not guarded and panics on `col[0]`.
   */
  function IntQuantile(col: Column<int>, q: real): (r: Result<DataValue, Error>)
    requires col.Valid()
    requires col.nElements <= USIZE_MAX
    requires ValidQuantile(q) ==> col.nElements >= 1
    ensures r.Err? <==> !ValidQuantile(q)
    ensures r.Err? ==> r.error == InvalidQuantile(q)
    ensures r.Ok? ==> r.value.Integer? && r.value.i in col.values
    ensures r.Ok? ==> r.value == DataValue.Integer(IntKth(col.values, NearestRankIndex(q, col.nElements)))
  {
    if !ValidQuantile(q) then Err(InvalidQuantile(q))
    else
      var sorted := SortInts(col.values);
      var idx := NearestRankIndex(q, |sorted|);
      IntKthReadsSorted(col.values, idx);
      assert sorted[idx] in multiset(col.values);
      Ok(DataValue.Integer(sorted[idx]))
  }

  /** A larger level never gives a smaller integer quantile. */
  lemma IntQuantileMonotone(col: Column<int>, q1: real, q2: real)
    requires col.Valid()
    requires 1 <= col.nElements <= USIZE_MAX
    requires 0.0 <= q1 <= q2 < 1.0
    ensures IntQuantile(col, q1).value.i <= IntQuantile(col, q2).value.i
  {
    var n := col.nElements;
    NearestRankIndexMonotone(q1, q2, n);
    IntKthMonotone(col.values, NearestRankIndex(q1, n), NearestRankIndex(q2, n));
  }

  /** A larger level never gives a smaller nearest-rank index. */
  lemma NearestRankIndexMonotone(q1: real, q2: real, n: nat)
    requires 0.0 <= q1 <= q2 < 1.0
    requires 1 <= n <= USIZE_MAX
    ensures NearestRankIndex(q1, n) <= NearestRankIndex(q2, n)
  {
    var i1, i2 := NearestRankIndex(q1, n), NearestRankIndex(q2, n);
    ProductOfNonNegatives(q2 - q1, n as real);
    assert q2 * n as real - q1 * n as real == (q2 - q1) * n as real;
    assert i1 == 0 || i1 as real < i2 as real + 1.0;
  }

  /**
   At level 0.5 on an even count `2m` the integer quantile is the lower middle
   (nearest rank), while the float quantile interpolates halfway between the two
   middles: 20 and 25.0 on `[10, 20, 30, 40]`.
   */
  lemma IntQuantileAtHalf(col: Column<int>, m: nat)
    requires col.Valid()
    requires col.nElements == 2 * m && 1 <= m
    requires col.nElements <= USIZE_MAX
    ensures IntQuantile(col, 0.5) == Ok(DataValue.Integer(IntKth(col.values, m - 1)))
  {
    assert 0.5 * col.nElements as real == m as real;
    assert Ceil(m as real) == m;
  }

  lemma FloatQuantileAtHalf(col: Column<real>, m: nat)
    requires col.Valid()
    requires col.nElements == 2 * m && 1 <= m
    ensures FloatQuantile(col, 0.5) == Ok(DataValue.Float(0.5 * (RealKth(col.values, m - 1) + RealKth(col.values, m))))
  {
    HalfPosition(col.nElements, m);
    FloatQuantileInterpolates(col, 0.5);
    var pos := QuantilePosition(0.5, col.nElements);
    var frac := pos - pos.Floor as real;
    assert frac == 0.5;
    var a, b := RealKth(col.values, m - 1), RealKth(col.values, m);
    assert FloatQuantile(col, 0.5) == Ok(DataValue.Float(Lerp(a, b, frac)));
    LerpHalfway(a, b);
  }

  lemma LerpHalfway(a: real, b: real)
    ensures Lerp(a, b, 0.5) == 0.5 * (a + b)
  {
  }

  /** At level 0.5 on `2m` values the position is halfway between ranks `m - 1` and `m`. */
  lemma HalfPosition(n: nat, m: nat)
    requires n == 2 * m && 1 <= m
    ensures QuantilePosition(0.5, n).Floor == m - 1
    ensures QuantilePosition(0.5, n) - (m - 1) as real == 0.5
  {
    assert QuantilePosition(0.5, n) == (m - 1) as real + 0.5;
  }
}
