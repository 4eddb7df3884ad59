/**
 Columns and their type inference (col_parser.rs).

 A column is a name, its parsed values and an element count. A raw column of
 text cells becomes a Datetime column when the caller forces it, and otherwise
 the first of Integer, Float and String whose parser accepts every cell.

 The text parsers of the source (`i64` and `f64` `FromStr`, `Datetime::from_str`
 and `Datetime::try_guess`) belong to other libraries; they are parameters here,
 gathered in `Parsers`. Floating-point values are modelled as reals.
 */
module ColParser {
  import opened Wrappers
  import opened Errors
  import opened Order
  import opened Selection
  import opened Means

  /** An instant, kept abstract as a count of ticks; its parsers and its rendering are parameters. */
  datatype Datetime = At(ticks: int)

  /** `CsvCol<T>`: the name, the values and the recorded element count. */
  datatype Column<T> = Column(name: string, values: seq<T>, nElements: nat) {
    /** Every constructor of the source records `values.len()` as the count. */
    predicate Valid() {
      nElements == |values|
    }
  }

  /** `ColType`: the four concrete column kinds. */
  datatype ColType =
    | Float(floats: Column<real>)
    | Integer(ints: Column<int>)
    | String(strings: Column<string>)
    | Datetime(dates: Column<Datetime>)
  {
    /** `ColType::name`: the name of the wrapped column, whatever its kind. */
    function Name(): string {
      match this
      case Float(c) => c.name
      case Integer(c) => c.name
      case String(c) => c.name
      case Datetime(c) => c.name
    }

    /** The number of stored values. */
    function Len(): nat {
      match this
      case Float(c) => |c.values|
      case Integer(c) => |c.values|
      case String(c) => |c.values|
      case Datetime(c) => |c.values|
    }

    predicate Valid() {
      match this
      case Float(c) => c.Valid()
      case Integer(c) => c.Valid()
      case String(c) => c.Valid()
      case Datetime(c) => c.Valid()
    }
  }

  /** `DataValue`: the uniform cell value every accessor returns. */
  datatype DataValue =
    | Float(f: real)
    | Integer(i: int)
    | String(s: string)
    | Datetime(d: Datetime)
    | Null

  /** The value has the kind of the column it was read from. */
  predicate KindMatches(col: ColType, v: DataValue) {
    match col
    case Float(_) => v.Float?
    case Integer(_) => v.Integer?
    case String(_) => v.String?
    case Datetime(_) => v.Datetime?
  }

  /** `ColConfig`: whether a column is forced to dates, and with which format. */
  datatype ColConfig = ColConfig(dateFormat: Option<string>, asDate: bool)

  /** The foreign text parsers, each answering `None` where the source's parser fails. */
  datatype Parsers = Parsers(
    integer: string -> Option<int>,
    float: string -> Option<real>,
    dateWithFormat: (string, string) -> Option<Datetime>,
    dateGuess: string -> Option<Datetime>)

  // ---------------------------------------------------------------------------
  // The orders of the comparable kinds

  function IntLt(a: int, b: int): bool { a < b }
  function RealLt(a: real, b: real): bool { a < b }
  function DatetimeLt(a: Datetime, b: Datetime): bool { a.ticks < b.ticks }

  lemma IntLtIsTotal()
    ensures StrictTotalOrder(IntLt)
  {
  }

  lemma RealLtIsTotal()
    ensures StrictTotalOrder(RealLt)
  {
  }

  lemma DatetimeLtIsTotal()
    ensures StrictTotalOrder(DatetimeLt)
  {
  }

  /** `sort_unstable` on integers: an ascending permutation. */
  function SortInts(s: seq<int>): (r: seq<int>)
    ensures |r| == |s| && multiset(r) == multiset(s)
    ensures SortedBy(r, IntLt)
  {
    IntLtIsTotal();
    SortBy(s, IntLt)
  }

  /** The sorted copy of a float column: an ascending permutation. */
  function SortReals(s: seq<real>): (r: seq<real>)
    ensures |r| == |s| && multiset(r) == multiset(s)
    ensures SortedBy(r, RealLt)
  {
    RealLtIsTotal();
    SortBy(s, RealLt)
  }

  /** The `k`-th smallest integer of `s`, counting from 0. */
  function IntKth(s: seq<int>, k: nat): (r: int)
    requires k < |s|
    ensures HasRank(s, r, k, IntLt)
  {
    IntLtIsTotal();
    KthSmallest(s, k, IntLt)
  }

  /** The `k`-th smallest real of `s`, counting from 0. */
  function RealKth(s: seq<real>, k: nat): (r: real)
    requires k < |s|
    ensures HasRank(s, r, k, RealLt)
  {
    RealLtIsTotal();
    KthSmallest(s, k, RealLt)
  }

  lemma IntKthReadsSorted(s: seq<int>, k: nat)
    requires k < |s|
    ensures IntKth(s, k) == SortInts(s)[k]
  {
    IntLtIsTotal();
    KthSmallestReadsSorted(s, k, IntLt);
  }

  lemma RealKthReadsSorted(s: seq<real>, k: nat)
    requires k < |s|
    ensures RealKth(s, k) == SortReals(s)[k]
  {
    RealLtIsTotal();
    KthSmallestReadsSorted(s, k, RealLt);
  }

  lemma IntKthMonotone(s: seq<int>, i: nat, j: nat)
    requires i <= j < |s|
    ensures IntKth(s, i) <= IntKth(s, j)
  {
    IntLtIsTotal();
    KthSmallestMonotone(s, i, j, IntLt);
  }

  lemma RealKthMonotone(s: seq<real>, i: nat, j: nat)
    requires i <= j < |s|
    ensures RealKth(s, i) <= RealKth(s, j)
  {
    RealLtIsTotal();
    KthSmallestMonotone(s, i, j, RealLt);
  }

  // ---------------------------------------------------------------------------
  // Parsing a list of cells

  /** Every cell is accepted by `parse`. */
  ghost predicate AllParse<T>(cells: seq<string>, parse: string -> Option<T>) {
    forall i :: 0 <= i < |cells| ==> parse(cells[i]).Some?
  }

  /** Cell `k` is the first one `parse` rejects. */
  ghost predicate FirstUnparsable<T>(cells: seq<string>, parse: string -> Option<T>, k: int) {
    && 0 <= k < |cells|
    && parse(cells[k]).None?
    && forall j :: 0 <= j < k ==> parse(cells[j]).Some?
  }

  /** A first failure in the tail, after an accepted head, is the first failure of the whole list. */
  lemma FirstUnparsableShift<T>(cells: seq<string>, parse: string -> Option<T>, e: Error)
    requires |cells| > 0 && parse(cells[0]).Some?
    requires exists k :: FirstUnparsable(cells[1..], parse, k) && e == BadValue(cells[1..][k])
    ensures exists k :: FirstUnparsable(cells, parse, k) && e == BadValue(cells[k])
  {
    var k :| FirstUnparsable(cells[1..], parse, k) && e == BadValue(cells[1..][k]);
    assert FirstUnparsable(cells, parse, k + 1);
  }

  /** The loop of `from_str_list`: parse the cells in order, stopping at the first failure. */
  function ParseCells<T>(cells: seq<string>, parse: string -> Option<T>): (r: Result<seq<T>, Error>)
    ensures r.Ok? <==> AllParse(cells, parse)
    ensures r.Ok? ==> |r.value| == |cells| && forall i :: 0 <= i < |cells| ==> r.value[i] == parse(cells[i]).value
    ensures r.Err? ==> exists k :: FirstUnparsable(cells, parse, k) && r.error == BadValue(cells[k])
  {
    if |cells| == 0 then Ok([])
    else
      match parse(cells[0])
      case None =>
        assert FirstUnparsable(cells, parse, 0);
        Err(BadValue(cells[0]))
      case Some(v) =>
        match ParseCells(cells[1..], parse)
        case Err(e) =>
          FirstUnparsableShift(cells, parse, e);
          Err(e)
        case Ok(vs) =>
          Ok([v] + vs)
  }

  /**
   `CsvCol::from_str_list`: a column of the parsed cells in order, counted, or
   the error for the first cell that does not parse.
   */
  function FromStrList<T>(cells: seq<string>, name: string, parse: string -> Option<T>): (r: Result<Column<T>, Error>)
    ensures r.Ok? <==> AllParse(cells, parse)
    ensures r.Ok? ==> r.value.name == name && r.value.Valid() && r.value.nElements == |cells|
    ensures r.Ok? ==> forall i :: 0 <= i < |cells| ==> r.value.values[i] == parse(cells[i]).value
    ensures r.Err? ==> exists k :: FirstUnparsable(cells, parse, k) && r.error == BadValue(cells[k])
  {
    match ParseCells(cells, parse)
    case Err(e) => Err(e)
    case Ok(vs) => Ok(Column(name, vs, |vs|))
  }

  /** Rust's `String: FromStr` cannot fail. */
  function ParseString(s: string): Option<string> {
    Some(s)
  }

  /** `as_datetime`'s parser: the explicit format when one is given, else the guessing routine. */
  function DateParser(format: Option<string>, parsers: Parsers): string -> Option<Datetime> {
    match format
    case Some(f) => (s: string) => parsers.dateWithFormat(s, f)
    case None => parsers.dateGuess
  }

  /** The cell is a date under the chosen format, or under the guess when there is none. */
  ghost predicate ParsesAsDate(cell: string, format: Option<string>, parsers: Parsers) {
    match format
    case Some(f) => parsers.dateWithFormat(cell, f).Some?
    case None => parsers.dateGuess(cell).Some?
  }

  /** `CsvCol::as_datetime`: every cell parsed with the same date parser. */
  function AsDatetime(cells: seq<string>, name: string, format: Option<string>, parsers: Parsers): (r: Result<Column<Datetime>, Error>)
    ensures r.Ok? <==> forall i :: 0 <= i < |cells| ==> ParsesAsDate(cells[i], format, parsers)
    ensures r.Ok? ==> r.value.name == name && r.value.Valid() && r.value.nElements == |cells|
    ensures r.Ok? ==> forall i :: 0 <= i < |cells| ==> r.value.values[i] == DateParser(format, parsers)(cells[i]).value
    ensures r.Err? ==> exists k :: FirstUnparsable(cells, DateParser(format, parsers), k) && r.error == BadValue(cells[k])
  {
    FromStrList(cells, name, DateParser(format, parsers))
  }

  /**
   `ColType::as_date`: a date column attempt exactly when the configuration
   forces dates. The attempt succeeds iff every cell is a date under the
   configured format (or the guess without one), holds the dates in order, and
   otherwise reports the first cell that is not a date.
   */
  function AsDate(cells: seq<string>, name: string, config: ColConfig, parsers: Parsers): (r: Option<Result<Column<Datetime>, Error>>)
    ensures r.Some? <==> config.asDate
    ensures r.Some? ==> (r.value.Ok? <==> forall i :: 0 <= i < |cells| ==> ParsesAsDate(cells[i], config.dateFormat, parsers))
    ensures r.Some? && r.value.Ok? ==>
      && r.value.value.name == name && r.value.value.Valid() && r.value.value.nElements == |cells|
      && forall i :: 0 <= i < |cells| ==> r.value.value.values[i] == DateParser(config.dateFormat, parsers)(cells[i]).value
    ensures r.Some? && r.value.Err? ==>
      exists k :: FirstUnparsable(cells, DateParser(config.dateFormat, parsers), k) && r.value.error == BadValue(cells[k])
  {
    if config.asDate then Some(AsDatetime(cells, name, config.dateFormat, parsers)) else None
  }

  /** The configuration forces a Datetime column. */
  predicate ForcedDate(config: Option<ColConfig>) {
    config.Some? && config.value.asDate
  }

  /**
   `ColType::from_values`: Datetime (or its parse error) when forced, else the
   first of Integer, Float and String that accepts every cell. The trailing
   `InvalidColType` of the source is kept but cannot be reached, because String
   parsing never fails.
   */
  function FromValues(cells: seq<string>, name: string, config: Option<ColConfig>, parsers: Parsers): (r: Result<ColType, Error>)
    // Forced dates: a Datetime column or the first bad cell, never another kind.
    ensures ForcedDate(config) ==> (r.Ok? ==> r.value.Datetime?)
    ensures ForcedDate(config) ==>
      (r.Ok? <==> forall i :: 0 <= i < |cells| ==> ParsesAsDate(cells[i], config.value.dateFormat, parsers))
    ensures ForcedDate(config) && r.Err? ==> r.error.BadValue?
    ensures ForcedDate(config) && r.Err? ==>
      exists k :: FirstUnparsable(cells, DateParser(config.value.dateFormat, parsers), k) && r.error == BadValue(cells[k])
    // The cascade: Integer before Float before String, and it always succeeds.
    ensures !ForcedDate(config) ==> r.Ok?
    ensures !ForcedDate(config) && r.Ok? ==> (r.value.Integer? <==> AllParse(cells, parsers.integer))
    ensures !ForcedDate(config) && r.Ok? ==>
      (r.value.Float? <==> !AllParse(cells, parsers.integer) && AllParse(cells, parsers.float))
    ensures !ForcedDate(config) && r.Ok? ==>
      (r.value.String? <==> !AllParse(cells, parsers.integer) && !AllParse(cells, parsers.float))
    // Whatever the kind: named, counted, and holding the parsed cells.
    ensures r.Ok? ==> r.value.Name() == name && r.value.Valid() && r.value.Len() == |cells|
    ensures r.Ok? && r.value.Integer? ==>
      forall i :: 0 <= i < |cells| ==> r.value.ints.values[i] == parsers.integer(cells[i]).value
    ensures r.Ok? && r.value.Float? ==>
      forall i :: 0 <= i < |cells| ==> r.value.floats.values[i] == parsers.float(cells[i]).value
    ensures r.Ok? && r.value.String? ==> r.value.strings.values == cells
    ensures r.Ok? && r.value.Datetime? ==> ForcedDate(config)
    ensures r.Ok? && r.value.Datetime? && ForcedDate(config) ==>
      forall i :: 0 <= i < |cells| ==> r.value.dates.values[i] == DateParser(config.value.dateFormat, parsers)(cells[i]).value
  {
    if config.Some? && AsDate(cells, name, config.value, parsers).Some? then
      match AsDate(cells, name, config.value, parsers).value
      case Err(e) => Err(e)
      case Ok(col) => Ok(ColType.Datetime(col))
    else
      match FromStrList(cells, name, parsers.integer)
      case Ok(col) => Ok(ColType.Integer(col))
      case Err(_) =>
        match FromStrList(cells, name, parsers.float)
        case Ok(col) => Ok(ColType.Float(col))
        case Err(_) =>
          match FromStrList(cells, name, ParseString)
          case Ok(col) => Ok(ColType.String(col))
          case Err(_) => Err(InvalidColType(name))
  }

  // ---------------------------------------------------------------------------
  // Access

  /** `ColType::data_as_value`: the value at `index` with the column's kind, or `None` past the end. */
  function DataAsValue(col: ColType, index: nat): (r: Option<DataValue>)
    ensures r.Some? <==> index < col.Len()
    ensures r.Some? ==> KindMatches(col, r.value)
  {
    match col
    case Float(c) => if index < |c.values| then Some(DataValue.Float(c.values[index])) else None
    case Integer(c) => if index < |c.values| then Some(DataValue.Integer(c.values[index])) else None
    case String(c) => if index < |c.values| then Some(DataValue.String(c.values[index])) else None
    case Datetime(c) => if index < |c.values| then Some(DataValue.Datetime(c.values[index])) else None
  }

  /** Reading a cell of an inferred column gives back what the winning parser made of that cell. */
  lemma DataAsValueReadsParsedCell(cells: seq<string>, name: string, config: Option<ColConfig>, parsers: Parsers, index: nat)
    requires FromValues(cells, name, config, parsers).Ok?
    requires index < |cells|
    ensures var col := FromValues(cells, name, config, parsers).value;
      && (col.Integer? ==> DataAsValue(col, index) == Some(DataValue.Integer(parsers.integer(cells[index]).value)))
      && (col.Float? ==> DataAsValue(col, index) == Some(DataValue.Float(parsers.float(cells[index]).value)))
      && (col.String? ==> DataAsValue(col, index) == Some(DataValue.String(cells[index])))
      && (col.Datetime? ==> config.Some?)
      && (col.Datetime? && config.Some? ==> DataAsValue(col, index) == Some(DataValue.Datetime(DateParser(config.value.dateFormat, parsers)(cells[index]).value)))
  {
  }

  // ---------------------------------------------------------------------------
  // Display ranges

  /**
   `get_range_as_strings`: the rendered values `beg..end` and the widest
   rendering, or an error when the range leaves the column. Widths count
   characters.
   */
  method GetRangeAsStrings<T>(col: Column<T>, beg: nat, end: nat, render: T -> string)
    returns (r: Result<(seq<string>, nat), Error>)
    requires col.Valid()
    ensures r.Err? <==> end > col.nElements || beg > end
    ensures r.Err? ==> r.error == RangeTooLarge
    ensures r.Ok? ==> |r.value.0| == end - beg
    ensures r.Ok? ==> forall i :: 0 <= i < end - beg ==> r.value.0[i] == render(col.values[beg + i])
    ensures r.Ok? ==> forall i :: 0 <= i < |r.value.0| ==> |r.value.0[i]| <= r.value.1
    ensures r.Ok? && beg == end ==> r.value.1 == 0
    ensures r.Ok? && beg < end ==> exists i :: 0 <= i < |r.value.0| && |r.value.0[i]| == r.value.1
  {
    if end > col.nElements || beg > end {
      return Err(RangeTooLarge);
    }
    var maxWidth: nat := 0;
    var strings: seq<string> := [];
    ghost var widest: nat := 0;  // a position whose rendering is maxWidth long
    var i := beg;
    while i < end
      invariant beg <= i <= end
      invariant |strings| == i - beg
      invariant forall k :: 0 <= k < |strings| ==> strings[k] == render(col.values[beg + k])
      invariant forall k :: 0 <= k < |strings| ==> |strings[k]| <= maxWidth
      invariant |strings| == 0 ==> maxWidth == 0 && widest == 0
      invariant |strings| > 0 ==> widest < |strings| && |strings[widest]| == maxWidth
    {
      var s := render(col.values[i]);
      if |s| > maxWidth {
        maxWidth := |s|;
        widest := |strings|;
      }
      assert (strings + [s])[|strings|] == s;
      assert widest < |strings| ==> (strings + [s])[widest] == strings[widest];
      strings := strings + [s];
      i := i + 1;
    }
    return Ok((strings, maxWidth));
  }

  /** The `Display` renderings of the kinds; a String column shows its text unchanged. */
  datatype Renderers = Renderers(float: real -> string, integer: int -> string, datetime: Datetime -> string)

  /** The rendering of value `i` of a column. */
  function RenderAt(col: ColType, i: nat, renderers: Renderers): string
    requires i < col.Len()
  {
    match col
    case Float(c) => renderers.float(c.values[i])
    case Integer(c) => renderers.integer(c.values[i])
    case String(c) => c.values[i]
    case Datetime(c) => renderers.datetime(c.values[i])
  }

  function Identity(s: string): string { s }

  /** `ColType::print_range_lines`: `get_range_as_strings` of whichever column kind this is. */
  method PrintRangeLines(col: ColType, beg: nat, end: nat, renderers: Renderers)
    returns (r: Result<(seq<string>, nat), Error>)
    requires col.Valid()
    ensures r.Err? <==> end > col.Len() || beg > end
    ensures r.Err? ==> r.error == RangeTooLarge
    ensures r.Ok? ==> |r.value.0| == end - beg
    ensures r.Ok? ==> forall i :: 0 <= i < end - beg ==> r.value.0[i] == RenderAt(col, beg + i, renderers)
    ensures r.Ok? ==> forall i :: 0 <= i < |r.value.0| ==> |r.value.0[i]| <= r.value.1
    ensures r.Ok? && beg == end ==> r.value.1 == 0
    ensures r.Ok? && beg < end ==> exists i :: 0 <= i < |r.value.0| && |r.value.0[i]| == r.value.1
  {
    match col
    case Float(c) => r := GetRangeAsStrings(c, beg, end, renderers.float);
    case Integer(c) => r := GetRangeAsStrings(c, beg, end, renderers.integer);
    case String(c) => r := GetRangeAsStrings(c, beg, end, Identity);
    case Datetime(c) => r := GetRangeAsStrings(c, beg, end, renderers.datetime);
  }

  // ---------------------------------------------------------------------------
  // Mean

  /**
   `ColType::mean`: the sum of a float or integer column, as floats, over its
   length. Other kinds reach `unreachable!`, a precondition here, and so does
   an empty column, whose `0.0 / 0.0` is a NaN that reals cannot hold.
   */
  function ColMean(col: ColType): (r: Option<DataValue>)
    requires col.Float? || col.Integer?
    requires col.Len() >= 1
    ensures r.Some? && r.value.Float?
    ensures col.Float? ==> WithinRange(col.floats.values, r.value.f)
    ensures col.Integer? ==> WithinRange(AsReals(col.ints.values), r.value.f)
  {
    match col
    case Float(c) =>
      MeanWithinRange(c.values);
      Some(DataValue.Float(Sum(c.values) / |c.values| as real))
    case Integer(c) =>
      MeanWithinRange(AsReals(c.values));
      Some(DataValue.Float(Sum(AsReals(c.values)) / |c.values| as real))
  }

  // ---------------------------------------------------------------------------
  // Quantiles by selection

  /** The random draw `random_range(0..len)`, seen as a function of the length. */
  ghost predicate PickInRange(pick: nat -> nat) {
    forall n: nat :: n > 0 ==> pick(n) < n
  }

  /** The element of rank `k` of a comparable column, with the column's kind. */
  function OrderStatistic(col: ColType, k: nat): (v: DataValue)
    requires !col.String?
    requires k < col.Len()
    ensures KindMatches(col, v)
  {
    IntLtIsTotal();
    RealLtIsTotal();
    DatetimeLtIsTotal();
    match col
    case Float(c) => DataValue.Float(KthSmallest(c.values, k, RealLt))
    case Integer(c) => DataValue.Integer(KthSmallest(c.values, k, IntLt))
    case Datetime(c) => DataValue.Datetime(KthSmallest(c.values, k, DatetimeLt))
  }

  /**
   `ColType::quantile` (through `CsvCol::quantiles`): quickselect with a random
   pivot at rank `floor(1 / q)`. A String column reaches `unreachable!`, and
   `_select_quantile` asserts `0 < q < 1`; both are preconditions here.
   */
  function ColQuantile(col: ColType, q: real, pick: nat -> nat): (r: Option<DataValue>)
    requires !col.String?
    requires PickInRange(pick)
    requires 0.0 < q < 1.0
    requires QuantileRank(q) < col.Len()
    ensures r == Some(OrderStatistic(col, QuantileRank(q)))
  {
    IntLtIsTotal();
    RealLtIsTotal();
    DatetimeLtIsTotal();
    match col
    case Float(c) =>
      var pivot := (s: seq<real>) => pick(|s|);
      assert PivotInRange(pivot);
      Some(DataValue.Float(SelectQuantile(c.values, q, RealLt, pivot)))
    case Integer(c) =>
      var pivot := (s: seq<int>) => pick(|s|);
      assert PivotInRange(pivot);
      Some(DataValue.Integer(SelectQuantile(c.values, q, IntLt, pivot)))
    case Datetime(c) =>
      var pivot := (s: seq<Datetime>) => pick(|s|);
      assert PivotInRange(pivot);
      Some(DataValue.Datetime(SelectQuantile(c.values, q, DatetimeLt, pivot)))
  }

  /** `ColType::median`: the quantile at level 0.5, which is rank 2 and needs three values. */
  function ColMedian(col: ColType, pick: nat -> nat): (r: Option<DataValue>)
    requires !col.String?
    requires PickInRange(pick)
    requires col.Len() >= 3
    ensures r == Some(OrderStatistic(col, 2))
  {
    MedianLevelSelectsRankTwo();
    ColQuantile(col, 0.5, pick)
  }

  /** On three ascending values, e.g. `[1, 2, 3]`, the median of the source is the largest one, whatever pivots are drawn. */
  lemma ColMedianOfThree(x: int, y: int, z: int, pick: nat -> nat)
    requires x <= y <= z
    requires PickInRange(pick)
    ensures ColMedian(ColType.Integer(Column("c", [x, y, z], 3)), pick) == Some(DataValue.Integer(z))
  {
    IntLtIsTotal();
    SortedKthSmallest([x, y, z], 2, IntLt);
  }

  /** The median with the evidently intended rank `floor(n / 2)`: the middle, for any non-empty column. */
  function ColMedianCorrected(col: ColType, pick: nat -> nat): (r: Option<DataValue>)
    requires !col.String?
    requires PickInRange(pick)
    requires col.Len() >= 1
    ensures r == Some(OrderStatistic(col, col.Len() / 2))
  {
    IntLtIsTotal();
    RealLtIsTotal();
    DatetimeLtIsTotal();
    CorrectedMedianRankIsMiddle(col.Len());
    match col
    case Float(c) =>
      var pivot := (s: seq<real>) => pick(|s|);
      var v := SelectQuantileCorrected(c.values, 0.5, RealLt, pivot);
      RankUnique(c.values, v, KthSmallest(c.values, |c.values| / 2, RealLt), |c.values| / 2, RealLt);
      Some(DataValue.Float(v))
    case Integer(c) =>
      var pivot := (s: seq<int>) => pick(|s|);
      var v := SelectQuantileCorrected(c.values, 0.5, IntLt, pivot);
      RankUnique(c.values, v, KthSmallest(c.values, |c.values| / 2, IntLt), |c.values| / 2, IntLt);
      Some(DataValue.Integer(v))
    case Datetime(c) =>
      var pivot := (s: seq<Datetime>) => pick(|s|);
      var v := SelectQuantileCorrected(c.values, 0.5, DatetimeLt, pivot);
      RankUnique(c.values, v, KthSmallest(c.values, |c.values| / 2, DatetimeLt), |c.values| / 2, DatetimeLt);
      Some(DataValue.Datetime(v))
  }

  /** On three ascending values, e.g. `[1, 2, 3]`, the corrected median is the middle one. */
  lemma ColMedianCorrectedOfThree(x: int, y: int, z: int, pick: nat -> nat)
    requires x <= y <= z
    requires PickInRange(pick)
    ensures ColMedianCorrected(ColType.Integer(Column("c", [x, y, z], 3)), pick) == Some(DataValue.Integer(y))
  {
    var col := ColType.Integer(Column("c", [x, y, z], 3));
    assert col.Len() / 2 == 1;
    IntLtIsTotal();
    SortedKthSmallest([x, y, z], 1, IntLt);
  }
}
