/**
 The error taxonomy of the library. In the source every error is boxed into one
 diagnostic type; here the three files' error enums and ad-hoc messages become
 the constructors of a single datatype.
 */
module Errors {

  datatype Error =
      /** A cell that the column's parser rejected (col_parser.rs, `from_str_list`, `as_datetime`). */
    | BadValue(line: string)
      /** No candidate type fitted a column (col_parser.rs, `ColParseError::InvalidColType`). */
    | InvalidColType(name: string)
      /** A display range outside the column (col_parser.rs, `get_range_as_strings`). */
    | RangeTooLarge
      /** A quantile level outside [0, 1) (statistics.rs, `StatisticsError::InvalidQuantile`). */
    | InvalidQuantile(q: real)
      /** A statistic of a column with no rows (statistics.rs, `StatisticsError::EmptyColumn`). */
    | EmptyColumn
      /** Printing starts past the last row (csv_parser.rs, `print_n_lines`). */
    | RowsOutOfRange
      /** The input ended before the header line (csv_parser.rs, `UnexpectedEOF`). */
    | UnexpectedEof
      /** More lines requested than the frame holds (csv_parser.rs, `OutOfLines`). */
    | OutOfLines(n: nat, len: nat)
      /** No column of that name (csv_parser.rs, `MissingCol`). */
    | MissingCol(name: string)
      /** The column's type has no such statistic (csv_parser.rs, `InvalidMetric`). */
    | InvalidMetric(name: string, metric: string)
}
