/**
 The frame of csv_parser.rs: a list of inferred columns with a header, built
 from lines already split into fields, with first-match column lookup, the
 memoised statistics of the `statistics!` macro and the `head` views.

 Reading the file and splitting lines at the separator are left to the
 caller; a frame is built here from the resulting fields.
 */
module CsvParser {
  import opened Wrappers
  import opened Errors
  import opened ColParser
  import opened Selection

  // ---------------------------------------------------------------------------
  // The frame

  /** The private `Statistics` record: one memo slot per metric, empty until computed. */
  datatype Slots = Slots(mean: Option<DataValue>, median: Option<DataValue>, stdDev: Option<DataValue>)

  /** `Statistics::default()`. */
  const NoSlots: Slots := Slots(None, None, None)

  /** The metrics the `statistics!` macro is instantiated with. */
  datatype Metric = Mean | Median

  function Slot(s: Slots, m: Metric): Option<DataValue> {
    match m
    case Mean => s.mean
    case Median => s.median
  }

  /** Fill the slot of `m`; the other slots keep their contents. */
  function WithSlot(s: Slots, m: Metric, v: DataValue): (r: Slots)
    ensures Slot(r, m) == Some(v)
    ensures forall other: Metric :: other != m ==> Slot(r, other) == Slot(s, other)
    ensures r.stdDev == s.stdDev
  {
    match m
    case Mean => s.(mean := Some(v))
    case Median => s.(median := Some(v))
  }

  /** `Csv`: the columns, their count, the row count, the header and the statistics cache. */
  datatype Csv = Csv(cols: seq<ColType>, nCols: nat, nRows: nat, header: seq<string>, cache: map<string, Slots>) {
    /**
     What `Csv::new` establishes: at least one column, one per header field,
     each counted, named after its header field and as long as the frame.
     */
    ghost predicate Valid() {
      && nCols == |cols| == |header|
      && nCols >= 1
      && forall i :: 0 <= i < |cols| ==> cols[i].Valid() && cols[i].Len() == nRows && cols[i].Name() == header[i]
    }
  }

  // ---------------------------------------------------------------------------
  // Column lookup

  /** Column `i` is the first one named `name`. */
  ghost predicate FirstNamed(cols: seq<ColType>, name: string, i: int) {
    && 0 <= i < |cols|
    && cols[i].Name() == name
    && forall j :: 0 <= j < i ==> cols[j].Name() != name
  }

  /** The position of the first column named `name`. */
  function FindCol(cols: seq<ColType>, name: string): (r: Option<nat>)
    ensures r.None? <==> forall j :: 0 <= j < |cols| ==> cols[j].Name() != name
    ensures r.Some? ==> FirstNamed(cols, name, r.value)
  {
    if |cols| == 0 then None
    else if cols[0].Name() == name then Some(0)
    else
      match FindCol(cols[1..], name)
      case None => None
      case Some(i) => Some(i + 1)
  }

  /** `Csv::get_col`: the first column with that name, or `None` when no column has it. */
  function GetCol(csv: Csv, name: string): (r: Option<ColType>)
    ensures r.None? <==> forall j :: 0 <= j < |csv.cols| ==> csv.cols[j].Name() != name
    ensures r.Some? ==> exists i :: FirstNamed(csv.cols, name, i) && r.value == csv.cols[i]
  {
    match FindCol(csv.cols, name)
    case None => None
    case Some(i) => Some(csv.cols[i])
  }

  /** The first column of a name is the one `get_col` finds, even when later columns share the name. */
  lemma GetColFindsFirst(csv: Csv, name: string, i: nat)
    requires FirstNamed(csv.cols, name, i)
    ensures GetCol(csv, name) == Some(csv.cols[i])
  {
    var k := FindCol(csv.cols, name);
    assert k.Some? by {
      assert csv.cols[i].Name() == name;
    }
    assert FirstNamed(csv.cols, name, k.value);
    assert csv.cols[k.value].Name() == name;
  }

  // ---------------------------------------------------------------------------
  // Memoised statistics

  /** The cache entry of `name`, or the default entry `or_default` would insert. */
  function EntryOf(cache: map<string, Slots>, name: string): Slots {
    if name in cache then cache[name] else NoSlots
  }

  /** The slot of `m` for `name` already holds a value. */
  predicate Cached(cache: map<string, Slots>, name: string, m: Metric) {
    name in cache && Slot(cache[name], m).Some?
  }

  /**
   `after` is `before` with `v` stored in the slot of `m` under `name`: that
   entry's other slots and every other entry are as they were.
   */
  ghost predicate StoredOnly(before: map<string, Slots>, after: map<string, Slots>, name: string, m: Metric, v: DataValue) {
    && name in after
    && Slot(after[name], m) == Some(v)
    && (forall other: Metric :: other != m ==> Slot(after[name], other) == Slot(EntryOf(before, name), other))
    && after[name].stdDev == EntryOf(before, name).stdDev
    && (forall k :: k != name ==> (k in after <==> k in before))
    && (forall k :: k != name && k in before ==> after[k] == before[k])
  }

  /**
   The statistic without the cache: the metric of the first column of that
   name, `MissingCol` without such a column, and `InvalidMetric` when the
   column's kind has no such metric. The metric name is the literal text
   "$t", since the macro does not substitute inside a string literal.
   */
  function Uncached(csv: Csv, name: string, m: Metric, compute: (Metric, ColType) -> Option<DataValue>): (r: Result<DataValue, Error>)
    ensures r.Ok? <==> exists i :: FirstNamed(csv.cols, name, i) && compute(m, csv.cols[i]).Some?
    ensures r.Ok? ==> exists i :: FirstNamed(csv.cols, name, i) && compute(m, csv.cols[i]) == Some(r.value)
    ensures r.Err? ==> r.error == MissingCol(name) || r.error == InvalidMetric(name, "$t")
    ensures r == Err(MissingCol(name)) <==> forall j :: 0 <= j < |csv.cols| ==> csv.cols[j].Name() != name
  {
    match GetCol(csv, name)
    case None => Err(MissingCol(name))
    case Some(col) =>
      match compute(m, col)
      case None => Err(InvalidMetric(name, "$t"))
      case Some(v) => Ok(v)
  }

  /**
   The methods `mean` and `median` generated by `statistics!`: answer from the
   cache when the slot is filled; otherwise look the column up, compute the
   metric, and store it under the column's name. The metric itself is the
   parameter `compute`. Errors leave the frame unchanged.
   */
  function CachedStatistic(csv: Csv, name: string, m: Metric, compute: (Metric, ColType) -> Option<DataValue>)
    : (r: (Result<DataValue, Error>, Csv))
    // A hit answers from the cache, whatever the columns hold, and changes nothing.
    ensures Cached(csv.cache, name, m) ==> r == (Ok(Slot(csv.cache[name], m).value), csv)
    // A miss answers what the columns give.
    ensures !Cached(csv.cache, name, m) ==> r.0 == Uncached(csv, name, m, compute)
    // A failed miss changes nothing.
    ensures r.0.Err? ==> r.1 == csv
    // A successful miss stores its value in one slot and changes nothing else.
    ensures !Cached(csv.cache, name, m) && r.0.Ok? ==>
      && r.1 == csv.(cache := r.1.cache)
      && StoredOnly(csv.cache, r.1.cache, name, m, r.0.value)
  {
    if Cached(csv.cache, name, m) then
      (Ok(Slot(csv.cache[name], m).value), csv)
    else
      match GetCol(csv, name)
      case None => (Err(MissingCol(name)), csv)
      case Some(col) =>
        match compute(m, col)
        case None => (Err(InvalidMetric(name, "$t")), csv)
        case Some(v) =>
          var key := col.Name();
          (Ok(v), csv.(cache := csv.cache[key := WithSlot(EntryOf(csv.cache, key), m, v)]))
  }

  /** Asking twice gives the same answer, and the second call leaves the frame as the first left it. */
  lemma CachedStatisticIdempotent(csv: Csv, name: string, m: Metric, compute: (Metric, ColType) -> Option<DataValue>)
    ensures var (r1, c1) := CachedStatistic(csv, name, m, compute);
      CachedStatistic(c1, name, m, compute) == (r1, c1)
  {
    var (r1, c1) := CachedStatistic(csv, name, m, compute);
    if !Cached(csv.cache, name, m) && r1.Ok? {
      assert Cached(c1.cache, name, m);
    }
  }

  /** Every filled slot holds what the columns give for that name and metric. */
  ghost predicate Coherent(csv: Csv, compute: (Metric, ColType) -> Option<DataValue>) {
    forall k, m :: Cached(csv.cache, k, m) ==> Uncached(csv, k, m, compute) == Ok(Slot(csv.cache[k], m).value)
  }

  /**
   Memoisation is invisible: from a coherent cache (such as the empty one a
   new frame starts with) the cached answer is the uncached one, and the
   cache stays coherent.
   */
  lemma CachedStatisticTransparent(csv: Csv, name: string, m: Metric, compute: (Metric, ColType) -> Option<DataValue>)
    requires Coherent(csv, compute)
    ensures CachedStatistic(csv, name, m, compute).0 == Uncached(csv, name, m, compute)
    ensures Coherent(CachedStatistic(csv, name, m, compute).1, compute)
  {
    var (r, c) := CachedStatistic(csv, name, m, compute);
    if !Cached(csv.cache, name, m) && r.Ok? {
      forall k, m' | Cached(c.cache, k, m')
        ensures Uncached(c, k, m', compute) == Ok(Slot(c.cache[k], m').value)
      {
        assert Uncached(c, k, m', compute) == Uncached(csv, k, m', compute);
        if k != name || m' != m {
          assert Cached(csv.cache, k, m');
        }
      }
    }
  }

  /**
   `Csv::quantile`: the quantile of the first column of that name. The
   `unwrap` on a missing column and the panics of `ColType::quantile` are
   preconditions.
   */
  function Quantile(csv: Csv, name: string, q: real, pick: nat -> nat): (r: Option<DataValue>)
    requires GetCol(csv, name).Some?
    requires !GetCol(csv, name).value.String?
    requires PickInRange(pick)
    requires 0.0 < q < 1.0
    requires QuantileRank(q) < GetCol(csv, name).value.Len()
    ensures exists i :: FirstNamed(csv.cols, name, i) && r == Some(OrderStatistic(csv.cols[i], QuantileRank(q)))
  {
    ColQuantile(GetCol(csv, name).value, q, pick)
  }

  // ---------------------------------------------------------------------------
  // Printing the first rows

  /**
   What `print_n_lines` lays out before padding and joining: the header, the
   width of each column, and for each printed row the rendered cell of every
   column.
   */
  datatype Table = Table(header: seq<string>, widths: seq<nat>, rows: seq<seq<string>>)

  /** The rendered cells of one column over `beg..end`, with their greatest width. */
  ghost predicate RenderedRange(col: ColType, beg: nat, end: nat, renderers: Renderers, range: (seq<string>, nat)) {
    && beg <= end <= col.Len()
    && |range.0| == end - beg
    && (forall t :: 0 <= t < end - beg ==> range.0[t] == RenderAt(col, beg + t, renderers))
    && (forall t :: 0 <= t < |range.0| ==> |range.0[t]| <= range.1)
    && (range.1 == 0 || exists t :: 0 <= t < |range.0| && |range.0[t]| == range.1)
  }

  /**
   `print_n_lines` without the padding: an error when `beg` is past the last
   row or the range does not fit the columns; otherwise every cell of rows
   `beg..end`, and for each column the width of its header or of its widest
   cell, whichever is larger.
   */
  method PrintNLines(csv: Csv, beg: nat, end: nat, renderers: Renderers) returns (r: Result<Table, Error>)
    requires csv.Valid()
    ensures r.Err? <==> beg > csv.nRows || end > csv.nRows || beg > end
    ensures beg > csv.nRows ==> r == Err(RowsOutOfRange)
    ensures beg <= csv.nRows && r.Err? ==> r.error == RangeTooLarge
    ensures r.Ok? ==> r.value.header == csv.header && |r.value.widths| == csv.nCols && |r.value.rows| == end - beg
    ensures r.Ok? ==> forall j :: 0 <= j < |r.value.rows| ==> |r.value.rows[j]| == csv.nCols
    ensures r.Ok? ==> forall j, i :: 0 <= j < end - beg && 0 <= i < csv.nCols ==>
      r.value.rows[j][i] == RenderAt(csv.cols[i], beg + j, renderers)
    ensures r.Ok? ==> forall i :: 0 <= i < csv.nCols ==> |csv.header[i]| <= r.value.widths[i]
    ensures r.Ok? ==> forall j, i :: 0 <= j < end - beg && 0 <= i < csv.nCols ==> |r.value.rows[j][i]| <= r.value.widths[i]
    ensures r.Ok? ==> forall i :: 0 <= i < csv.nCols ==>
      r.value.widths[i] == |csv.header[i]| || exists j :: 0 <= j < end - beg && r.value.widths[i] == |r.value.rows[j][i]|
  {
    if beg > csv.nRows {
      return Err(RowsOutOfRange);
    }
    var ranges: seq<(seq<string>, nat)> := [];
    var i := 0;
    while i < |csv.cols|
      invariant 0 <= i <= |csv.cols|
      invariant |ranges| == i
      invariant i > 0 ==> beg <= end <= csv.nRows
      invariant forall k :: 0 <= k < i ==> RenderedRange(csv.cols[k], beg, end, renderers, ranges[k])
    {
      var rc := PrintRangeLines(csv.cols[i], beg, end, renderers);
      if rc.Err? {
        return Err(rc.error);
      }
      ranges := ranges + [rc.value];
      i := i + 1;
    }
    var widths := seq(|ranges|, k requires 0 <= k < |ranges| => Max(ranges[k].1, |csv.header[k]|));
    var rows := seq(end - beg, j requires 0 <= j < end - beg =>
      seq(|ranges|, k requires 0 <= k < |ranges| && RenderedRange(csv.cols[k], beg, end, renderers, ranges[k]) => ranges[k].0[j]));
    WidthsAreAttained(csv, beg, end, renderers, ranges, widths, rows);
    return Ok(Table(csv.header, widths, rows));
  }

  function Max(a: nat, b: nat): nat {
    if a < b then b else a
  }

  /** Each column's width is its header's width or that of one of its cells. */
  lemma WidthsAreAttained(csv: Csv, beg: nat, end: nat, renderers: Renderers, ranges: seq<(seq<string>, nat)>,
                          widths: seq<nat>, rows: seq<seq<string>>)
    requires csv.Valid()
    requires |ranges| == |widths| == csv.nCols
    requires forall k :: 0 <= k < |ranges| ==> RenderedRange(csv.cols[k], beg, end, renderers, ranges[k])
    requires forall k :: 0 <= k < |ranges| ==> widths[k] == Max(ranges[k].1, |csv.header[k]|)
    requires forall k :: 0 <= k < |ranges| ==> |ranges[k].0| == end - beg
    requires |rows| == end - beg
    requires forall j :: 0 <= j < |rows| ==> |rows[j]| == |ranges| && forall k :: 0 <= k < |ranges| ==> rows[j][k] == ranges[k].0[j]
    ensures forall i :: 0 <= i < csv.nCols ==>
      widths[i] == |csv.header[i]| || exists j :: 0 <= j < end - beg && widths[i] == |rows[j][i]|
  {
    forall i | 0 <= i < csv.nCols && widths[i] != |csv.header[i]|
      ensures exists j :: 0 <= j < end - beg && widths[i] == |rows[j][i]|
    {
      assert RenderedRange(csv.cols[i], beg, end, renderers, ranges[i]);
      var t :| 0 <= t < |ranges[i].0| && |ranges[i].0[t]| == ranges[i].1;
      assert rows[t][i] == ranges[i].0[t];
    }
  }

  /**
   `Csv::head_n`: `OutOfLines` when the frame has fewer than `n` rows, else the
   table of the first `n` rows, which the source prints.
   */
  method HeadN(csv: Csv, n: nat, renderers: Renderers) returns (r: Result<Table, Error>)
    requires csv.Valid()
    ensures r.Err? <==> csv.nRows < n
    ensures r.Err? ==> r.error == OutOfLines(n, csv.nRows)
    ensures r.Ok? ==> r.value.header == csv.header && |r.value.rows| == n
    ensures r.Ok? ==> forall j :: 0 <= j < n ==> |r.value.rows[j]| == csv.nCols
    ensures r.Ok? ==> forall j, i :: 0 <= j < n && 0 <= i < csv.nCols ==> r.value.rows[j][i] == RenderAt(csv.cols[i], j, renderers)
  {
    if csv.nRows < n {
      return Err(OutOfLines(n, csv.nRows));
    }
    r := PrintNLines(csv, 0, n, renderers);
  }

  /** `Csv::head`: the first five rows. */
  method Head(csv: Csv, renderers: Renderers) returns (r: Result<Table, Error>)
    requires csv.Valid()
    ensures r.Err? <==> csv.nRows < 5
    ensures r.Err? ==> r.error == OutOfLines(5, csv.nRows)
    ensures r.Ok? ==> r.value.header == csv.header
    ensures r.Ok? ==> |r.value.rows| == 5 && forall j :: 0 <= j < 5 ==> |r.value.rows[j]| == csv.nCols
    ensures r.Ok? ==> forall j, i :: 0 <= j < 5 && 0 <= i < csv.nCols ==> r.value.rows[j][i] == RenderAt(csv.cols[i], j, renderers)
  {
    r := HeadN(csv, 5, renderers);
  }

  // ---------------------------------------------------------------------------
  // Building a frame

  /** How many lines `Csv::new` drops before the header. */
  function SkipCount(skip: Option<nat>): nat {
    if skip.Some? then skip.value else 0
  }

  /** The header line after the skipped ones, and the data lines after it; `None` when the input ends first. */
  function SplitHeader(lines: seq<seq<string>>, skip: Option<nat>): (r: Option<(seq<string>, seq<seq<string>>)>)
    ensures r.None? <==> |lines| <= SkipCount(skip)
    ensures r.Some? ==> [r.value.0] + r.value.1 == lines[SkipCount(skip)..]
  {
    var k := SkipCount(skip);
    if |lines| <= k then None else Some((lines[k], lines[k + 1..]))
  }

  /**
   The transposition in `Csv::new`: column `i` takes the `i`-th field of every
   row, in row order; fields past `nCols` are dropped.
   */
  function Transpose(rows: seq<seq<string>>, nCols: nat): (cols: seq<seq<string>>)
    requires forall j :: 0 <= j < |rows| ==> |rows[j]| >= nCols
    ensures |cols| == nCols
    ensures forall i :: 0 <= i < nCols ==> |cols[i]| == |rows|
    ensures forall i, j :: 0 <= i < nCols && 0 <= j < |rows| ==> cols[i][j] == rows[j][i]
  {
    seq(nCols, i requires 0 <= i < nCols => seq(|rows|, j requires 0 <= j < |rows| => rows[j][i]))
  }

  /** Transposing twice gives back rows that have exactly `nCols` fields. */
  lemma TransposeRoundTrip(rows: seq<seq<string>>, nCols: nat)
    requires forall j :: 0 <= j < |rows| ==> |rows[j]| == nCols
    ensures Transpose(Transpose(rows, nCols), |rows|) == rows
  {
    var cols := Transpose(rows, nCols);
    var back := Transpose(cols, |rows|);
    assert |back| == |rows|;
    forall j | 0 <= j < |rows|
      ensures back[j] == rows[j]
    {
      assert |back[j]| == |rows[j]|;
      forall i | 0 <= i < nCols
        ensures back[j][i] == rows[j][i]
      {
        assert back[j][i] == cols[i][j];
      }
    }
  }

  /** A decimal numeral. */
  function NatToString(n: nat): (s: string)
    ensures |s| >= 1
  {
    var digit := ['0', '1', '2', '3', '4', '5', '6', '7', '8', '9'][n % 10];
    if n < 10 then [digit] else NatToString(n / 10) + [digit]
  }

  /** The name of column `i`: its header field, or `Unnamed: i` past the header. */
  function ColName(header: seq<string>, i: nat): (r: string)
    ensures i < |header| ==> r == header[i]
    ensures i >= |header| ==> |r| > 9 && r[..9] == "Unnamed: "
  {
    if i < |header| then header[i] else "Unnamed: " + NatToString(i)
  }

  /** Whether `Csv::new` forces the column of that name to dates, and with which format. */
  function ConfigFor(parserAsDate: Option<map<string, Option<string>>>, name: string): (r: Option<ColConfig>)
    ensures ForcedDate(r) <==> parserAsDate.Some? && name in parserAsDate.value
    ensures r.Some? ==> ForcedDate(r) && r.value.dateFormat == parserAsDate.value[name]
  {
    match parserAsDate
    case None => None
    case Some(asDate) =>
      if name in asDate then Some(ColConfig(asDate[name], true)) else None
  }

  /** Column `i` as `Csv::new` builds it from its cells. */
  function BuildCol(cells: seq<string>, header: seq<string>, i: nat, parserAsDate: Option<map<string, Option<string>>>,
                    parsers: Parsers): Result<ColType, Error>
  {
    FromValues(cells, ColName(header, i), ConfigFor(parserAsDate, ColName(header, i)), parsers)
  }

  /** The per-column step of `Csv::new` as a function value, for the column loop. */
  function Builder(header: seq<string>, parserAsDate: Option<map<string, Option<string>>>, parsers: Parsers)
    : (seq<string>, nat) -> Result<ColType, Error>
  {
    (cells: seq<string>, k: nat) => BuildCol(cells, header, k, parserAsDate, parsers)
  }

  /**
   The column loop of `Csv::new`, from column `i` on: `build` column `k` from
   its cells and its position, in order, stopping at the first failure.
   */
  function BuildCols(columns: seq<seq<string>>, build: (seq<string>, nat) -> Result<ColType, Error>, i: nat)
    : (r: Result<seq<ColType>, Error>)
    requires i <= |columns|
    ensures r.Ok? <==> forall k :: i <= k < |columns| ==> build(columns[k], k).Ok?
    ensures r.Ok? ==> |r.value| == |columns| - i
    ensures r.Ok? ==> forall k :: i <= k < |columns| ==> r.value[k - i] == build(columns[k], k).value
    ensures r.Err? ==> exists k ::
      && i <= k < |columns|
      && build(columns[k], k) == Err(r.error)
      && forall k' :: i <= k' < k ==> build(columns[k'], k').Ok?
    decreases |columns| - i
  {
    if i == |columns| then Ok([])
    else
      match build(columns[i], i)
      case Err(e) => Err(e)
      case Ok(col) =>
        match BuildCols(columns, build, i + 1)
        case Err(e) => Err(e)
        case Ok(rest) => Ok([col] + rest)
  }

  /** Every line splits into at least one field, and every data line has a field for each header field. */
  ghost predicate WellShaped(lines: seq<seq<string>>, skip: Option<nat>) {
    && (forall j :: SkipCount(skip) <= j < |lines| ==> |lines[j]| >= 1)
    && (forall j :: SkipCount(skip) < j < |lines| ==> |lines[j]| >= |lines[SkipCount(skip)]|)
  }

  /** The stored value `j` of a column is what the column's parser makes of `cell`. */
  ghost predicate HoldsCell(col: ColType, j: nat, cell: string, format: Option<string>, parsers: Parsers) {
    j < col.Len() &&
    match col
    case Integer(c) => parsers.integer(cell) == Some(c.values[j])
    case Float(c) => parsers.float(cell) == Some(c.values[j])
    case String(c) => c.values[j] == cell
    case Datetime(c) => DateParser(format, parsers)(cell) == Some(c.values[j])
  }

  /** The date format configured for a column name, if any. */
  function FormatFor(parserAsDate: Option<map<string, Option<string>>>, name: string): Option<string> {
    match ConfigFor(parserAsDate, name)
    case Some(config) => config.dateFormat
    case None => None
  }

  /**
   `cols` are the columns `Csv::new` makes of `rows` under `header`: one per
   header field, named after it, as long as `rows`, forced to dates exactly
   for the configured names, and holding at row `j` the parsed field `i` of
   line `j`.
   */
  ghost predicate BuiltFrom(cols: seq<ColType>, header: seq<string>, rows: seq<seq<string>>,
                            parserAsDate: Option<map<string, Option<string>>>, parsers: Parsers) {
    && |cols| == |header|
    && (forall j :: 0 <= j < |rows| ==> |rows[j]| >= |header|)
    && (forall i :: 0 <= i < |header| ==>
          && cols[i].Valid() && cols[i].Len() == |rows| && cols[i].Name() == header[i]
          && (cols[i].Datetime? <==> parserAsDate.Some? && header[i] in parserAsDate.value))
    && (forall i, j :: 0 <= i < |header| && 0 <= j < |rows| ==>
          HoldsCell(cols[i], j, rows[j][i], FormatFor(parserAsDate, header[i]), parsers))
  }

  /** One built column: named, counted, forced to dates iff configured, and holding its parsed cells. */
  lemma BuildColHolds(cells: seq<string>, header: seq<string>, i: nat, parserAsDate: Option<map<string, Option<string>>>,
                      parsers: Parsers)
    requires i < |header|
    requires BuildCol(cells, header, i, parserAsDate, parsers).Ok?
    ensures var col := BuildCol(cells, header, i, parserAsDate, parsers).value;
      && col.Valid() && col.Len() == |cells| && col.Name() == header[i]
      && (col.Datetime? <==> parserAsDate.Some? && header[i] in parserAsDate.value)
      && forall j :: 0 <= j < |cells| ==> HoldsCell(col, j, cells[j], FormatFor(parserAsDate, header[i]), parsers)
  {
    var config := ConfigFor(parserAsDate, header[i]);
    var col := BuildCol(cells, header, i, parserAsDate, parsers).value;
    assert col == FromValues(cells, header[i], config, parsers).value;
    forall j | 0 <= j < |cells|
      ensures HoldsCell(col, j, cells[j], FormatFor(parserAsDate, header[i]), parsers)
    {
      if col.Integer? {
        assert parsers.integer(cells[j]).Some?;
      } else if col.Float? {
        assert parsers.float(cells[j]).Some?;
      } else if col.Datetime? {
        assert config.value.dateFormat == FormatFor(parserAsDate, header[i]);
        assert DateParser(config.value.dateFormat, parsers)(cells[j]).Some?;
      }
    }
  }

  /** The column loop over the transposed rows builds the columns `BuiltFrom` describes. */
  lemma BuildColsBuiltFrom(header: seq<string>, rows: seq<seq<string>>, parserAsDate: Option<map<string, Option<string>>>,
                           parsers: Parsers)
    requires forall j :: 0 <= j < |rows| ==> |rows[j]| >= |header|
    requires BuildCols(Transpose(rows, |header|), Builder(header, parserAsDate, parsers), 0).Ok?
    ensures BuiltFrom(BuildCols(Transpose(rows, |header|), Builder(header, parserAsDate, parsers), 0).value, header, rows, parserAsDate, parsers)
  {
    var columns := Transpose(rows, |header|);
    var cols := BuildCols(columns, Builder(header, parserAsDate, parsers), 0).value;
    forall i | 0 <= i < |header|
      ensures && cols[i].Valid() && cols[i].Len() == |rows| && cols[i].Name() == header[i]
              && (cols[i].Datetime? <==> parserAsDate.Some? && header[i] in parserAsDate.value)
              && forall j :: 0 <= j < |rows| ==> HoldsCell(cols[i], j, rows[j][i], FormatFor(parserAsDate, header[i]), parsers)
    {
      assert cols[i] == Builder(header, parserAsDate, parsers)(columns[i], i).value;
      BuildColHolds(columns[i], header, i, parserAsDate, parsers);
      forall j | 0 <= j < |rows|
        ensures HoldsCell(cols[i], j, rows[j][i], FormatFor(parserAsDate, header[i]), parsers)
      {
        assert columns[i][j] == rows[j][i];
      }
    }
  }

  /**
   `Csv::new` from the fields of each line: skip the requested lines, take the
   header, transpose the data lines into columns and infer each column's kind,
   forcing dates for the names listed in `parserAsDate`. A short data line is
   the `expect` panic of the source and a precondition here.
   */
  function NewCsv(lines: seq<seq<string>>, skip: Option<nat>, parserAsDate: Option<map<string, Option<string>>>,
                  parsers: Parsers): (r: Result<Csv, Error>)
    requires WellShaped(lines, skip)
    ensures r == Err(UnexpectedEof) <==> |lines| <= SkipCount(skip)
    ensures r.Err? && |lines| > SkipCount(skip) ==> r.error.BadValue?
    ensures |lines| > SkipCount(skip) ==>
      var header := lines[SkipCount(skip)];
      var columns := Transpose(lines[SkipCount(skip) + 1..], |header|);
      (r.Ok? <==> forall i :: 0 <= i < |header| ==> BuildCol(columns[i], header, i, parserAsDate, parsers).Ok?)
    ensures r.Ok? ==>
      && r.value.Valid()
      && r.value.header == lines[SkipCount(skip)]
      && r.value.nRows == |lines| - SkipCount(skip) - 1
      && r.value.cache == map[]
      && BuiltFrom(r.value.cols, r.value.header, lines[SkipCount(skip) + 1..], parserAsDate, parsers)
  {
    match SplitHeader(lines, skip)
    case None => Err(UnexpectedEof)
    case Some((header, rows)) =>
      assert header == lines[SkipCount(skip)] && rows == lines[SkipCount(skip) + 1..];
      assert forall j :: 0 <= j < |rows| ==> |rows[j]| >= |header| by {
        forall j | 0 <= j < |rows| ensures |rows[j]| >= |header| {
          assert rows[j] == lines[SkipCount(skip) + 1 + j];
        }
      }
      var columns := Transpose(rows, |header|);
      var nRows := |columns[0]|;
      match BuildCols(columns, Builder(header, parserAsDate, parsers), 0)
      case Err(e) =>
        var k :| 0 <= k < |columns| && Builder(header, parserAsDate, parsers)(columns[k], k) == Err(e);
        Err(e)
      case Ok(cols) =>
        BuildColsBuiltFrom(header, rows, parserAsDate, parsers);
        Ok(Csv(cols, |header|, nRows, header, map[]))
  }
}
