# coala core in Dafny

A model of the core of `coala`, a small Rust library that loads delimited text
into a columnar frame and computes statistics on it. The model covers:

- **Columns** (`src/col_parser.rs`). The model covers the type-inference
  cascade that turns a list of text cells into a Datetime, Integer, Float or
  String column. It also covers indexed access, rendering of a range of
  values, and the column mean. Finally it covers the quantile and median,
  which use a three-way-partition quickselect with a random pivot.
- **Per-type statistics** (`src/statistics.rs`). These are the mean, median
  and quantile of `f64` and `i64` columns: the nearest-rank integer
  quantile, the interpolated float quantile and their guards.
- **The frame** (`src/csv_parser.rs`). This covers building a frame from
  header and data lines: transposition, naming and per-column date
  configuration. It also covers first-match column lookup, the memoised
  `mean`/`median` methods with their map of per-column slots, and the
  `head`/`head_n` views.

Modules, one per file:

| module | file | models |
|---|---|---|
| `Wrappers` | wrappers.dfy | `Option` and `Result` |
| `Errors` | errors.dfy | every error the three files raise, as one datatype |
| `Order` | order.dfy | strict total orders, filters, the lows/pivots/highs partition, ranks, insertion sort |
| `Selection` | selection.dfy | `_quick_select` and `_select_quantile` |
| `Means` | means.dfy | sums and means of real sequences |
| `ColParser` | col_parser.dfy | `CsvCol`, `ColType`, `DataValue` and their operations |
| `Statistics` | statistics.dfy | the `Statistics` impls for `CsvCol<f64>` and `CsvCol<i64>` |
| `CsvParser` | csv_parser.dfy | `Csv` and its memoised statistics |

The model makes these choices:

- `f64` values are Dafny `real`. This is an idealisation: no NaN, no
  infinities, no rounding.
- `i64` is an unbounded `int`.
- `usize` arithmetic is written out where it matters. The integer quantile's
  `ceil(..) as usize - 1` wraps to `usize::MAX` (`Statistics.WrappingDecrement`).
- The foreign text parsers are function values in `ColParser.Parsers`. These
  are `i64`/`f64` `FromStr`, `Datetime::from_str` and `Datetime::try_guess`.
  A `Datetime` is an abstract tick count.
- The random pivot is a function from list length to index, required to stay
  in range (`ColParser.PickInRange`).
- Each panic of the source is a precondition. These are `unreachable!`, an
  `unwrap` on a missing column, `assert!` in `_select_quantile`, `expect` on
  a short row, and out-of-range indexing. Every error the source returns is
  modelled as a `Result` value.
- Where the source computes a value and prints it, the model returns the
  value. `head_n` returns the table it would print.

The model follows these behaviours of the code:

- `ColType::mean` reaches `unreachable!` for String and Datetime columns.
  `ColType::quantile` accepts Datetime columns and reaches `unreachable!` only
  for String.
- The frame-level statistics go through `ColType`, which has no
  `EmptyColumn` guard.
- When a forced date column fails, the cell's parse error is returned
  (`BadValue` here). The `InvalidColType` branch after the String attempt
  cannot be reached, because parsing as a string never fails.
- `get_sorted` is not part of this model. The sorted view is a pure ascending
  sort (`Order.SortBy`).

## Model

| member | source | states |
|---|---|---|
| Order.PartitionSizes | src/col_parser.rs:206-216 | under a strict total order the lows, pivots and highs of any pivot together have exactly as many elements as the list |
| Order.PivotGroupNonEmpty | src/col_parser.rs:206-209 | a pivot taken from the list has a non-empty equal group, so the lows and the highs are each strictly shorter than the list, which makes the recursion terminate |
| Order.SortBy | src/statistics.rs:87-88 | the sorted copy is an ascending permutation of the values, of the same length |
| Order.KthSmallest | src/statistics.rs:36-41 | reading position `k` of the sorted copy gives an element of rank `k` |
| Order.RankUnique | src/col_parser.rs:197-217 | under a total order at most one value has a given rank, so every rank-correct selection agrees |
| Selection.QuickSelect | src/col_parser.rs:197-217 | for any in-range pivot chooser and `index < len`, the result is an element of the list of rank `index`: at most `index` elements lie strictly below it and more than `index` lie at or below it |
| Selection.QuickSelectPivotIndependent | src/col_parser.rs:206-207 | two in-range pivot choosers always select the same element |
| Selection.QuickSelectIsKthSmallest | src/col_parser.rs:197-217 | quickselect equals reading position `index` of the sorted list |
| Selection.QuantileRank | src/col_parser.rs:193 | `(1.0 / q) as usize` is the integer `k >= 1` with `k <= 1/q < k + 1` for `0 < q < 1` |
| Selection.SelectQuantile | src/col_parser.rs:187-195 | for `0 < q < 1` and a list longer than `floor(1/q)`, the result has rank `floor(1/q)` |
| Selection.MedianLevelSelectsRankTwo | src/col_parser.rs:173-175 | level 0.5 selects rank 2 |
| Selection.CorrectedQuantileRank | src/col_parser.rs:193 | the rank `floor(q * n)` lies inside every non-empty list for `0 <= q < 1` |
| Selection.CorrectedMedianRankIsMiddle | src/col_parser.rs:173-175 | at level 0.5 the corrected rank is `n / 2`, the middle |
| Selection.SelectQuantileCorrected | src/col_parser.rs:187-195 | with the corrected rank, selection is defined on every non-empty list and returns the element of rank `floor(q * n)` |
| ColParser.SortInts | src/statistics.rs:87-88 | `sort_unstable` of an `i64` list gives an ascending permutation |
| ColParser.SortReals | src/statistics.rs:36 | the sorted view of an `f64` list is an ascending permutation |
| ColParser.ParseCells | src/col_parser.rs:240-250 | the loop succeeds iff every cell parses; the values are the parsed cells in order; a failure reports the first cell that does not parse |
| ColParser.FromStrList | src/col_parser.rs:238-256 | the column is named as asked, holds the parsed cells in order and counts them, and exists iff every cell parses; otherwise the error names the first bad cell |
| ColParser.AsDatetime | src/col_parser.rs:260-290 | with the format's parser, or the guessing parser without a format, the column succeeds iff every cell parses and holds the parsed cells in order; otherwise the error names the first cell the date parser rejects |
| ColParser.AsDate | src/col_parser.rs:103-115 | a date column is attempted iff the configuration sets `as_date`. The attempt succeeds iff every cell is a date under the configured format, holds the dates in order, and otherwise reports the first cell that is not a date |
| ColParser.FromValues | src/col_parser.rs:74-102 | forced dates give a Datetime column or the error for the first cell that is not a date, and nothing else. Otherwise the result is Integer iff every cell parses as `i64`, else Float iff every cell parses as `f64`, else String, and never an error. The result is named and counted and holds the parsed cells |
| ColParser.DataAsValue | src/col_parser.rs:152-164 | `Some` iff the index is inside the column, with the column's kind |
| ColParser.DataAsValueReadsParsedCell | src/col_parser.rs:152-164 | reading cell `i` of a built column gives what the winning parser made of input cell `i`, for every kind: the `i64` or `f64` parse, the cell itself, or the configured date parse of a forced date column |
| ColParser.GetRangeAsStrings | src/col_parser.rs:220-234 | an error iff `end > n_elements` or `beg > end`. Otherwise `end - beg` strings, the `i`-th rendering value `beg + i`, and a width that bounds every string and is attained by one (0 for an empty range) |
| ColParser.PrintRangeLines | src/col_parser.rs:116-127 | the same contract for every column kind, through that kind's renderer |
| ColParser.ColMean | src/col_parser.rs:136-151 | a float or integer column of at least one value gives `Some(Float(m))` with `m` between its least and greatest value |
| ColParser.ColQuantile | src/col_parser.rs:165-185 | for a non-String column, `0 < q < 1` and more than `floor(1/q)` values, the result is the column's element of rank `floor(1/q)`, with the column's kind, whatever pivots are drawn |
| ColParser.ColMedian | src/col_parser.rs:173-175 | the median of a non-String column with at least three values is its element of rank 2 |
| ColParser.ColMedianOfThree | src/col_parser.rs:173-175 | on three ascending values the median is the largest |
| ColParser.ColMedianCorrected | src/col_parser.rs:173-175 | the corrected median of a non-empty column is its element of rank `n / 2` |
| ColParser.ColMedianCorrectedOfThree | src/col_parser.rs:173-175 | on three ascending values the corrected median is the middle one |
| Means.MeanWithinRange | src/statistics.rs:28-30 | the sum over the length of a non-empty list lies between its least and greatest element |
| Statistics.TruncHalf | src/statistics.rs:93 | `i64` division by 2 truncates toward zero, for negative values too |
| Statistics.FloatMean | src/statistics.rs:24-31 | `EmptyColumn` iff the column is empty; otherwise a float between the least and greatest value |
| Statistics.FloatMedian | src/statistics.rs:32-43 | `EmptyColumn` iff empty. An even count gives the value of rank `n/2` alone; an odd count averages ranks `n/2` and `n/2 - 1` |
| Statistics.FloatMedianMissesMiddle | src/statistics.rs:37-42 | for an odd count of at least three, with rank `n/2 - 1` below rank `n/2`, the median as written lies strictly below the middle value, and the corrected median is the middle value |
| Statistics.FloatMedianCorrected | src/statistics.rs:32-43 | the middle value for an odd count, including one value; for an even count a value between the two middles |
| Statistics.QuantilePosition | src/statistics.rs:50-57 | for `0 <= q < 1` the clamp never fires: the position is `q * (n - 1)`, inside `[0, n - 1]` |
| Statistics.PositionBracket | src/statistics.rs:58-63 | with two or more values the upper neighbour `floor(pos) + 1` is inside the list, and the fraction lies in `[0, 1)` |
| Statistics.LerpBetween | src/statistics.rs:66 | interpolation with a weight in `[0, 1]` stays between its two ends |
| Statistics.FloatQuantile | src/statistics.rs:44-68 | `InvalidQuantile` iff `q` is outside `[0, 1)`. Otherwise a float between the least and greatest value; a single value is returned unchanged |
| Statistics.FloatQuantileInterpolates | src/statistics.rs:58-67 | with two or more values, the quantile interpolates between ranks `lo` and `lo + 1`, where `lo = floor(q * (n - 1))`, with a fraction in `[0, 1)` |
| Statistics.FloatQuantileAtHalf | src/statistics.rs:44-68 | on `2m` values, level 0.5 gives the mean of ranks `m - 1` and `m` |
| Statistics.IntMean | src/statistics.rs:75-81 | `EmptyColumn` iff empty; otherwise a float between the least and greatest value |
| Statistics.IntMeanExample | src/statistics.rs:79-80 | the mean of `[1, 2, 3, 4]` is 2.5 |
| Statistics.ColMeanAgreesWithTypedMean | src/col_parser.rs:136-151 | the column-level mean and the per-type mean agree on every non-empty float or integer column |
| Statistics.IntMedian | src/statistics.rs:83-95 | `EmptyColumn` iff empty. An odd count gives the element of rank `n/2`; an even count gives the truncated half of rank `n/2` plus rank `n/2 - 1` |
| Statistics.IntMedianAboveMiddles | src/statistics.rs:92-94 | for an even count whose middles `lo <= hi` satisfy `hi >= 0` and `2 * lo > hi + 1`, the median as written, `hi / 2 + lo`, is above both middles |
| Statistics.IntMedianCorrected | src/statistics.rs:83-95 | the middle for an odd count; for an even count a value between the two middles |
| Statistics.CeilOfScaledLevel | src/statistics.rs:103 | `ceil(q * n)` lies in `[0, n]` for `0 <= q < 1` |
| Statistics.WrappingDecrement | src/statistics.rs:103 | subtracting one on `usize` wraps modulo `2^64` |
| Statistics.LastIndexAtMost | src/statistics.rs:104-110 | the clamp gives an index inside the list and leaves an index already inside unchanged |
| Statistics.NearestRankIndex | src/statistics.rs:103-110 | the index is inside the list, and it is the smallest `i` with `q * n <= i + 1` (0 when `q * n` is 0) |
| Statistics.NearestRankIndexMonotone | src/statistics.rs:103-110 | a larger level never gives a smaller index |
| Statistics.IntQuantile | src/statistics.rs:97-112 | `InvalidQuantile` iff `q` is outside `[0, 1)`. Otherwise the sorted value at the nearest-rank index, which is an element of the column |
| Statistics.IntQuantileMonotone | src/statistics.rs:101-111 | a larger level never gives a smaller integer quantile |
| Statistics.IntQuantileAtHalf | src/statistics.rs:103-111 | on `2m` values, level 0.5 gives the element of rank `m - 1`, the lower middle |
| CsvParser.WithSlot | src/csv_parser.rs:96 | storing a metric fills its slot and leaves the other slots as they were |
| CsvParser.FindCol | src/csv_parser.rs:228-233 | `None` iff no column has the name; otherwise the position of the first column that does |
| CsvParser.GetCol | src/csv_parser.rs:228-233 | `None` iff no column has the name; otherwise the first column with that name |
| CsvParser.GetColFindsFirst | src/csv_parser.rs:228-233 | when column `i` is the first of its name, lookup returns column `i`, whatever later columns share the name |
| CsvParser.Uncached | src/csv_parser.rs:87-95 | without the cache a statistic is `Ok` iff the first column of that name exists and has the metric. Otherwise the error is `MissingCol` iff no column has the name, and `InvalidMetric` with the literal metric text `$t` when the column lacks the metric |
| CsvParser.CachedStatistic | src/csv_parser.rs:78-100 | a filled slot answers without consulting the columns and changes nothing. A miss answers what the columns give; a failed miss changes nothing; a successful miss stores its value in that one slot of that one entry and changes nothing else |
| CsvParser.CachedStatisticIdempotent | src/csv_parser.rs:78-100 | a second identical call returns the same result and leaves the frame as the first call left it |
| CsvParser.CachedStatisticTransparent | src/csv_parser.rs:78-100 | from a coherent cache, such as a new frame's empty one, the memoised answer equals the uncached one, and the cache stays coherent |
| CsvParser.Quantile | src/csv_parser.rs:236-238 | the quantile of the first column of that name, of rank `floor(1/q)` |
| CsvParser.PrintNLines | src/csv_parser.rs:179-212 | an error iff `beg` is past the last row or the range leaves the columns. Otherwise the cells of rows `beg..end` in column order, each column's width bounding its header and cells and equal to one of them |
| CsvParser.WidthsAreAttained | src/csv_parser.rs:193-195 | each column's width is the width of its header or of one of its cells |
| CsvParser.HeadN | src/csv_parser.rs:216-227 | `OutOfLines(n, n_rows)` iff the frame has fewer than `n` rows; otherwise the first `n` rows rendered |
| CsvParser.Head | src/csv_parser.rs:213-215 | `head_n` with 5 |
| CsvParser.SplitHeader | src/csv_parser.rs:105-123 | `None` iff the input ends within the skipped lines; otherwise the header line and the data lines make up the rest of the input |
| CsvParser.Transpose | src/csv_parser.rs:137-146 | one column per header field, each as long as the row list, holding field `i` of row `j` at position `j` |
| CsvParser.TransposeRoundTrip | src/csv_parser.rs:137-146 | transposing twice restores rows that have exactly one field per header field |
| CsvParser.ColName | src/csv_parser.rs:149-152 | inside the header the name is the header field; the `Unnamed: i` fallback applies only past it |
| CsvParser.ConfigFor | src/csv_parser.rs:153-168 | a column is forced to dates iff its name is a key of `parser_as_date`, with that key's format |
| CsvParser.BuildCols | src/csv_parser.rs:147-170 | the column loop succeeds iff every column builds, keeping them in order; otherwise it returns the error of the first column that fails |
| CsvParser.BuildColHolds | src/csv_parser.rs:169 | a built column is named after its header field, as long as its cells, and Datetime iff its name is configured as a date. It holds each cell as parsed |
| CsvParser.BuildColsBuiltFrom | src/csv_parser.rs:137-170 | the loop over the transposed rows gives columns holding field `i` of every data line in column `i` |
| CsvParser.NewCsv | src/csv_parser.rs:102-178 | `UnexpectedEof` iff the input ends before the header. A failed build is a bad-cell error. On success the frame is valid (one column per header field, all `n_rows` long, named after the header) with an empty cache. Exactly the configured names are Datetime, and every cell holds its parsed field |

## Left out

- Reading the file, buffered line reading and splitting at the separator in `Csv::new` (src/csv_parser.rs:102-136) are I/O. The model starts from each line already split into fields, plus the optional number of lines to skip.
- Padding, joining and `println!` in `print_n_lines` and `head_n` (src/csv_parser.rs:195-210, 225) are presentation. The model returns the table of cells and widths that would be laid out.
- `Display` for `ColType` (src/col_parser.rs:38-71) is presentation. Rendering is a parameter (`ColParser.Renderers`).
- Widths are counted in characters. The source counts UTF-8 bytes (`String::len`), which differs for non-ASCII text.
- Floating point is idealised as exact reals. NaN, infinities and rounding in sums, divisions and interpolation are not modelled.
- ColParser.ColMean: requires a non-empty column, because an empty one yields a `0.0 / 0.0` NaN in the source.
- `stddev` is `todo!()` in the source (src/statistics.rs:69-71, 114-116). Its cache slot exists (`CsvParser.Slots.stdDev`) and is never written.
- `ColViewer` (src/csv_parser.rs:28-51) only delegates to `ColType`. Its methods are the `ColParser` members themselves.
- CsvParser.CachedStatistic: the metric is a parameter `compute`. `ColType::mean` and `ColType::median` panic on the kinds and sizes they do not support, and in the source they otherwise always return `Some`. So `InvalidMetric` is reachable only for a parameter that answers `None`.
- Statistics.IntMedian: the sum is not wrapped to `i64`; overflow is not modelled. The same holds for the parsed `i64` values in general.
- Statistics.NearestRankIndex: models the release build, where `0 - 1` wraps to `usize::MAX`. A debug build panics at `q == 0` instead.
- The random pivot of `CsvCol::quantiles` (src/col_parser.rs:180-183) is any in-range function of the list length. The model proves the result does not depend on it.
- Logging (`info!`, `dbg!`) has no effect on results and is left out.
- Incomparable floats (NaN) in `_quick_select` fall into no group in the source. Only total orders are modelled.
- `get_sorted` (the cached sorted view of `CsvCol`) is not part of this model. It is taken to return an ascending sort of the values.

## Findings

| source | as written | input that shows it | evidently intended | confidence | as-written member | corrected member |
|---|---|---|---|---|---|---|
| src/statistics.rs:92-94 | even integer median is `col[n/2] / 2 + col[n/2 - 1]` | `[10, 20, 30, 40]` gives 35, above both middles 20 and 30 | the mean of the two middles, `(col[n/2 - 1] + col[n/2]) / 2`, which lies between them | high (not executed) | Statistics.IntMedianAboveMiddles | Statistics.IntMedianCorrected |
| src/statistics.rs:37-42 | float median averages for odd counts and reads one value for even counts; for one value `n/2 - 1` underflows | `[1.0, 2.0, 3.0]` gives 1.5 instead of 2.0; `[5.0]` panics | the middle value for odd counts, the mean of the two middles for even counts | high (not executed) | Statistics.FloatMedianMissesMiddle | Statistics.FloatMedianCorrected |
| src/col_parser.rs:173-175, 193 | `ColType::median` selects rank `floor(1 / 0.5) = 2` | `[1, 2, 3]` gives 3; any column of fewer than three values panics in `_quick_select` | rank `floor(q * n)`, the middle `n / 2` at level 0.5 | high (not executed) | ColParser.ColMedianOfThree | ColParser.ColMedianCorrected |
