# ml-data-validation: the validation and cleaning pipeline in Dafny

This project models `run_validation` from `src/validate_data.py` without its file I/O, together with the three helpers it calls. It starts from a loaded table (named columns, rows of cells, null cells as `None`) and produces two things:

- the cleaned table;
- the five-section report: `missing_values`, `duplicate_rows`, `inferred_schema`, `outliers` and `categorical_cardinality`.

The DataFrame `df` becomes the class `Pipeline.Frame`. Its stages update `df` in place: counting and dropping duplicate rows, and replacing one column (`df[col] = ...`). The two column loops are methods with loop invariants. Each method is proved against a specification function: `Dedup.KeepFirst`, `Table.WithColumn`, `Pipeline.CleanedTable` and `Pipeline.ExpectedReport`. Lemmas then state what those functions promise.

Modules, one file each:

- `table.dfy`: cells, rows and columns, plus the `missing_values` section.
- `dedup.dfy`: `duplicated()` and `drop_duplicates()` with keep-first semantics. Null equals null.
- `schema.dfy`: `infer_column_types`. `pd.to_numeric` on a whole column is a scan that stops at the first cell it cannot parse.
- `stats.dfy`: sorting, pandas' linear-interpolation quantile, the median and `detect_outliers` (the 1.5 × IQR fences). The arithmetic is exact over reals.
- `cleaning.dfy`: the two per-column stages.
  - Numeric: coercion, the outlier count, then the median fill.
  - Categorical: cast to text, fill with `"UNKNOWN"`, then `nunique`.
- `convert.dfy`: `to_python`, which replaces numpy scalars with plain values wherever it descends: into list items and dict values.
- `pipeline.dfy`: the `Frame` class, the report, the two loops, `RunValidation` and the end-to-end lemmas.

Two abstractions stand in for behaviour that depends on the text grammar:

- `parseNum: string -> Option<real>` is what `pd.to_numeric` makes of one text cell.
- `toText: Option<Cell> -> string` is what `astype(str)` writes for a cell, null included. This is the cast on an object-dtype column, the pandas default before 3.0.

Two behaviours of the code are easy to misread:

- **Categorical columns never receive `"UNKNOWN"`, for an object-dtype column (pandas before 3.0).** The `fillna("UNKNOWN")` on line 63 suggests that nulls were meant to become the sentinel. But `astype(str)` runs first. On such a column it already turns a null into the text rendering of null, so the fill has nothing left to replace. `Cleaning.SentinelNeverWritten` proves that the fill is a no-op.
- **An all-null numeric column is left as it is.** Its median is NaN, and `fillna(NaN)` changes nothing. Its outlier count is 0, because every comparison with a NaN fence is false. The code records nothing else for such a column. `Cleaning.NumericStageSpec` and `Cleaning.ParsedColumnStage` state this behaviour.

## Model

| member | source | states |
|---|---|---|
| Table.MissingValues | src/validate_data.py:44 | `missing_values` has exactly the column names as keys, and each maps to the number of null cells in that column of the table as loaded |
| Table.MissingValuesConserveNulls | src/validate_data.py:44 | the counts in `missing_values` add up to the number of null cells in the loaded table, counted row by row |
| Table.NullCount | src/validate_data.py:44 | a column's null count never exceeds its length |
| Table.NullCountZero | src/validate_data.py:44 | a column's null count is 0 exactly when no cell is null |
| Table.NullCountFull | src/validate_data.py:44 | a column's null count equals its length exactly when every cell is null |
| Table.WithColumn | src/validate_data.py:54 | assigning `df[col]` gives the same number of rows and row widths, column `c` equal to the new column, and every other cell unchanged |
| Table.WithColumnOther | src/validate_data.py:54 | assigning one column leaves every other column equal to what it was |
| Table.TableExtensionality | src/validate_data.py:54 | two rectangular tables with the same row count and the same columns are equal |
| Pipeline.Frame.constructor | src/validate_data.py:40 | the loaded DataFrame holds the given distinct column names and rows of matching width |
| Pipeline.Frame.CountDuplicated | src/validate_data.py:45 | the loop counts exactly the rows equal to an earlier row (`DuplicateCount`) |
| Pipeline.Frame.DropDuplicates | src/validate_data.py:46 | the rows become the keep-first deduplication of the old rows, and the names and width are kept |
| Pipeline.Frame.SetColumn | src/validate_data.py:54 | the row-by-row update leaves the table equal to `WithColumn` of the old table |
| Dedup.KeepFirst | src/validate_data.py:46 | deduplication never lengthens the table, is empty only when the input is empty, and keeps exactly the rows of the input |
| Dedup.KeepFirstDistinct | src/validate_data.py:46 | after deduplication no two rows are equal, with null equal to null |
| Dedup.KeepFirstOrder | src/validate_data.py:46 | survivors keep the order of their first occurrences |
| Dedup.KeepFirstSize | src/validate_data.py:46 | the deduplicated table has one row per distinct loaded row |
| Dedup.DuplicateCountIsRemoved | src/validate_data.py:45-46 | `duplicate_rows` equals the number of rows before deduplication minus the number after it |
| Dedup.DuplicateCount | src/validate_data.py:45 | the duplicate count never exceeds the row count |
| Dedup.FirstIndex | src/validate_data.py:46 | the first occurrence of a row is at an index holding that row with no earlier copy |
| Schema.ToNumericSucceeds | src/validate_data.py:24 | the scan succeeds exactly when every cell is null or parses as a number |
| Schema.KindOfSpec | src/validate_data.py:23-27 | a column is categorical exactly when some non-null cell does not parse, the cell at which `pd.to_numeric` raises; an all-null column is numeric |
| Schema.InferredSchema | src/validate_data.py:20-28 | the schema has exactly the column names as keys, each mapped to the kind of its column |
| Schema.InferColumnTypes | src/validate_data.py:20-28 | the loop builds `InferredSchema`. A column is numeric exactly when each of its cells is null or parses, so an all-null column is numeric |
| Schema.InferredSchemaKinds | src/validate_data.py:20-28 | in the inferred schema a column is numeric exactly when every cell of it parses, so in particular when it holds only nulls |
| Schema.InferredSchemaUnique | src/validate_data.py:20-28 | a map with exactly the column names as keys, each mapped to its column's kind, is the inferred schema |
| Stats.Insert | src/validate_data.py:31 | inserting into a sorted sequence keeps it sorted and adds exactly one element |
| Stats.Sort | src/validate_data.py:31-32 | the result is sorted and is a permutation of the input |
| Stats.Scale | src/validate_data.py:31-32 | a fraction in [0, 1] of a non-negative length lies between 0 and that length |
| Stats.ScaleMonotone | src/validate_data.py:31-32 | a larger fraction of the same length is at least as large |
| Stats.Rank | src/validate_data.py:31-32 | the lower order statistic floor((n − 1)·p) is a valid index and within one of (n − 1)·p |
| Stats.Lerp | src/validate_data.py:31-32 | interpolating a fraction in [0, 1] of the way from a to b stays within [a, b] |
| Stats.Quantile | src/validate_data.py:31-32 | the linear quantile lies between the order statistic at its rank and the next one, and between the minimum and the maximum |
| Stats.Interpolate | src/validate_data.py:31-32 | a larger interpolation weight gives an equal or larger point |
| Stats.RankMonotone | src/validate_data.py:31-32 | the rank does not decrease as p grows |
| Stats.SameRankMonotone | src/validate_data.py:31-32 | within one rank, the quantile does not decrease as p grows |
| Stats.QuantileMonotone | src/validate_data.py:31-33 | the quantile does not decrease as p grows, so q1 ≤ q3 and the IQR is non-negative |
| Stats.FencesOf | src/validate_data.py:31-35 | lower ≤ q1 ≤ q3 ≤ upper and the IQR is non-negative |
| Stats.Flagged | src/validate_data.py:36 | a value is flagged exactly when it is in the column and strictly below `lower` or strictly above `upper`; each value outside the fences is flagged as many times as it occurs, and no value inside them is flagged |
| Stats.FlaggedCountsCells | src/validate_data.py:36 | the number of flagged values equals the number of positions whose cell is strictly outside `[lower, upper]`, the true entries of the mask that `.sum()` counts |
| Stats.DetectOutliers | src/validate_data.py:30-36 | the outlier count is at most the number of values, and 0 when there are none |
| Stats.OutlierCountIsCells | src/validate_data.py:30-36 | on a non-empty column the outlier count is the number of cells strictly outside the 1.5 × IQR fences computed from that column |
| Stats.InterquartileNotFlagged | src/validate_data.py:30-36 | no value between q1 and q3 is an outlier |
| Stats.SortSorted | src/validate_data.py:31 | sorting values already in order leaves them unchanged |
| Stats.ExampleQuartiles | src/validate_data.py:31-32 | on six sorted values with 2, 3, 4, 5 in the middle, q1 = 2.25 and q3 = 4.75 |
| Stats.WorkedExample | src/validate_data.py:30-36 | on [1, 2, 3, 4, 5, 100] the fences are [−1.5, 8.5] and exactly one outlier is counted |
| Stats.Median | src/validate_data.py:56 | the median of sorted values lies between the minimum and the maximum |
| Stats.MedianIsMidQuantile | src/validate_data.py:56 | the median equals the linear quantile at 0.5 |
| Stats.MedianOf | src/validate_data.py:56 | the median of unsorted values is bounded below and above by values of the column |
| Cleaning.Coerce | src/validate_data.py:54 | a coerced cell is null exactly when the cell is null or does not parse; otherwise it is the cell's parsed number |
| Cleaning.CoerceColumn | src/validate_data.py:54 | a coerced cell is null exactly when the original is null or does not parse; otherwise it is the parsed number |
| Cleaning.Values | src/validate_data.py:55 | the values pandas aggregates are exactly the numbers in the non-null cells; with the nulls they make up the whole column when every non-null cell is numeric |
| Cleaning.ValuesKeepMultiplicity | src/validate_data.py:55-56 | each number occurs among the values as many times as a cell holding it occurs in the column |
| Cleaning.CoercionOnlyAddsNulls | src/validate_data.py:54 | after coercion every non-null cell is numeric, numbers are kept, and the null count does not decrease |
| Cleaning.NullsOnlyGrow | src/validate_data.py:54 | a column that nulls every cell the original had null has at least as many nulls |
| Cleaning.CoercionKeepsParsedColumn | src/validate_data.py:54 | on a column inference called numeric, coercion creates no null, and the column has no values exactly when it is all-null |
| Cleaning.NoValuesAllNull | src/validate_data.py:55-56 | a coerced column with no values is entirely null |
| Cleaning.FillNull | src/validate_data.py:56 | `fillna(v)` replaces exactly the null cells with `v` |
| Cleaning.ImputeMedian | src/validate_data.py:56 | non-null cells are kept. With no values the column is unchanged; otherwise every null becomes the median of the values |
| Cleaning.NumericStage | src/validate_data.py:54-56 | the numeric stage keeps the column's length, and its outlier count is at most the row count |
| Cleaning.NumericStageSpec | src/validate_data.py:54-56 | outliers plus coerced nulls are at most the row count. Coerced cells are kept. When some value exists no null remains, and each former null holds the median of the values. Otherwise the column stays all-null with 0 outliers |
| Cleaning.ParsedColumnStage | src/validate_data.py:54-56 | on a column inference called numeric, every non-null cell becomes its parsed number. No null remains unless the column was all-null, in which case it is unchanged |
| Cleaning.FillValueInRange | src/validate_data.py:56 | a filled cell holds a number bounded below and above by values of the coerced column |
| Cleaning.CastText | src/validate_data.py:63 | on an object-dtype column, `astype(str)` turns every cell, null included, into non-null text |
| Cleaning.CategoricalStage | src/validate_data.py:63 | after cast and fill, every cell is non-null text and the length is kept |
| Cleaning.SentinelNeverWritten | src/validate_data.py:63 | on an object-dtype column, cast-then-fill equals the cast alone, so `"UNKNOWN"` is never written |
| Cleaning.DistinctValues | src/validate_data.py:64 | the distinct values are exactly the non-null cells, and there are at most as many as non-null cells |
| Cleaning.Cardinality | src/validate_data.py:64 | `nunique` plus the nulls is at most the column's length, and it is at least 1 when some cell is non-null |
| Cleaning.CategoricalStageSpec | src/validate_data.py:63-64 | the categorical stage leaves no null and only text. Its cardinality is at most the row count, and at least 1 when there are rows |
| Convert.ToPython | src/validate_data.py:6-18 | no numpy wrapper is reachable in the result through list items or dict values. A wrapper becomes the plain value. Lists and dicts are rebuilt element by element with their keys kept, and anything else, tuples and dict keys included, is returned as is |
| Convert.ConvertedUnchanged | src/validate_data.py:6-18 | a value without reachable wrappers is returned unchanged |
| Convert.ToPythonIdempotent | src/validate_data.py:6-18 | converting twice is the same as converting once |
| Pipeline.AfterNumeric | src/validate_data.py:53-56 | the numeric loop keeps every column's length |
| Pipeline.AfterCategorical | src/validate_data.py:62-63 | the categorical loop keeps every column's length |
| Pipeline.TallySpec | src/validate_data.py:51-55 | with distinct names, a dict filled column by column has exactly the selected columns as keys, each mapped to its own count |
| Pipeline.TallyAgrees | src/validate_data.py:60-64 | two fills whose selected counts agree give the same dict |
| Pipeline.OutlierReport | src/validate_data.py:51-55 | the `outliers` dict, the fill over the numeric columns of their outlier counts, has only column names as keys |
| Pipeline.CardinalityReport | src/validate_data.py:60-64 | the `category_info` dict, the fill over the categorical columns of their cardinalities, has only column names as keys |
| Pipeline.OutlierReportStep | src/validate_data.py:52-55 | one turn of the numeric loop adds column `c`'s outlier count when the column is numeric and changes nothing otherwise |
| Pipeline.CardinalityReportStep | src/validate_data.py:61-64 | one turn of the categorical loop adds column `c`'s cardinality when the column is categorical and changes nothing otherwise |
| Pipeline.CleanColumn | src/validate_data.py:52-64 | cleaning a column by its kind keeps its length |
| Pipeline.CleanNumericColumn | src/validate_data.py:54-56 | column `c` is replaced by its numeric stage, and the count returned is its outlier count |
| Pipeline.NumericTurn | src/validate_data.py:52-56 | one loop turn cleans column `c` if it is numeric and adds its count to `outliers`; the columns before `c` are cleaned and the rest are untouched |
| Pipeline.CleanNumericColumns | src/validate_data.py:51-58 | after the loop each column is cleaned by its kind and `outliers` is the expected dict |
| Pipeline.CleanCategoricalColumn | src/validate_data.py:63-64 | column `c` is replaced by its categorical stage, and the count returned is its cardinality |
| Pipeline.CategoricalTurn | src/validate_data.py:61-64 | one loop turn normalizes column `c` if it is categorical and records its cardinality |
| Pipeline.CleanCategoricalColumns | src/validate_data.py:60-66 | after the loop each categorical column is normalized and `category_info` is the expected dict |
| Pipeline.CardinalityReportAgrees | src/validate_data.py:60-66 | the cardinality section depends only on the categorical columns, so the numeric loop does not change it |
| Pipeline.CleanedTable | src/validate_data.py:46-64 | the cleaned table has one row per deduplicated row and one cell per column name |
| Pipeline.ExpectedReport | src/validate_data.py:42-66 | the report's duplicate count is at most the loaded row count, and its schema has exactly the column names as keys |
| Pipeline.RunValidation | src/validate_data.py:42-66 | one run leaves `df` equal to `CleanedTable` of the loaded table, with the names kept, and returns `ExpectedReport` of the loaded table |
| Pipeline.ReportCounts | src/validate_data.py:44-49 | `missing_values` is taken before deduplication and sums to all loaded nulls; `duplicate_rows` is the number of rows the cleaned table lacks; every column has a kind |
| Pipeline.CleanedRowCount | src/validate_data.py:45-46 | the cleaned table has one row per distinct loaded row |
| Pipeline.OutlierReportSpec | src/validate_data.py:51-58 | `outliers` has exactly the numeric columns as keys. Each column's entry is the outlier count of its numeric stage, and each count plus the nulls of its coerced column is at most the row count |
| Pipeline.CardinalityReportSpec | src/validate_data.py:60-66 | `categorical_cardinality` has exactly the categorical columns as keys. Each column's entry is `nunique` of its categorical stage; each count is at most the row count, and at least 1 when there are rows |
| Pipeline.ReportOutliers | src/validate_data.py:51-58 | in the report, `outliers` has exactly the columns inferred numeric as keys, and no count exceeds the deduplicated row count |
| Pipeline.ReportCardinality | src/validate_data.py:60-66 | in the report, `categorical_cardinality` has exactly the columns inferred categorical as keys; each count is between 1 (when rows remain) and the deduplicated row count |
| Pipeline.CleanColumnSpec | src/validate_data.py:52-64 | a column cleaned by its inferred kind: a categorical column holds only non-null text. A numeric one holds its cells' parsed numbers and no null, unless it was all-null, in which case it is unchanged |
| Pipeline.CleanedColumnSpec | src/validate_data.py:46-64 | the deduplicated table keeps the shape of the loaded one, and each column of the cleaned table is the deduplicated column cleaned by its inferred kind |

## Left out

- File system and process:
  - creating the output directory (lines 39, 68-69);
  - reading the CSV (line 40);
  - building the output paths (lines 71-72);
  - writing the cleaned CSV (line 74);
  - writing the JSON report (lines 76-77);
  - the returned status dict (lines 79-83);
  - the command-line entry (lines 85-87).

  These are I/O. `RunValidation` starts from a loaded `Frame` and returns the report and the cleaned table.
- The JSON serialisation itself is left out as I/O. `to_python`, which prepares the report for it, is modelled.
- CSV parsing and `read_csv`'s dtype inference: the table arrives as cells that are already text or numbers.
- The number grammar of `pd.to_numeric` and the rendering of `astype(str)` are parameters, `parseNum` and `toText`.
- Floating point: numbers are exact reals.
  - NaN appears only as a null cell.
  - Infinities, rounding, and the int64/float64 distinction after a fill are not modelled.
- Duplicate column names: `read_csv` renames them, so the model requires distinct names (`Table.WellFormed`).
- The bare `except:` on line 26 catches every exception. The model treats only a failed parse as the failing case.
- Cleaning.CastText: models `astype(str)` on an object-dtype column, where a null is rendered as text. Under pandas 3's default string dtype, nulls survive the cast and `fillna("UNKNOWN")` turns them into the sentinel; that dtype is not modelled.
- Cleaning.SentinelNeverWritten: holds for the object-dtype cast only. Under the pandas-3 string dtype the sentinel is written and `nunique` counts it, which the model does not capture.
- `app.py`, a Gradio front end that uploads a file and displays the results, is not part of this model.
- Pipeline.ReportOutliers: bounds each count only by the deduplicated row count. The sharper bound, count plus coerced nulls at most the row count, is stated column by column in Pipeline.OutlierReportSpec.
