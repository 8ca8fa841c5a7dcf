# Music-track pipeline: a Dafny model of loading, cleaning and analysis

The pipeline reads a CSV of music tracks, cleans it, and computes the series
its charts are drawn from plus a small metrics map. This project models that
core over an abstract data frame and proves what each stage promises.

- **Loading** (`preprocess.py`, `try_read_csv` and `load_data`). An ordered
  chain of encodings is tried, and the first successful read wins. If every
  encoding fails, one permissive read is made. If that fails too, the error
  raised is the encoding loop's last error. A missing path is reported before
  any read is attempted.
- **Cleaning** (`preprocess.py`, `clean_data`). Header names are stripped.
  `artists` is renamed to `artist_name` when `artist_name` is not already a
  column. `year` is derived from `release_date`, and `duration_min` from
  `duration_ms`. Rows are then deduplicated, keeping the first, on whichever
  of `track_name`, `artist_name` and `year` exist.
- **Analysis** (`analyze.py`). Each chart has a presence gate that returns
  absence instead of failing. The top-artist counts, the per-year mean
  popularity and the correlation column selection are modelled. So are the
  `summarize` metrics map and the `imgs` map that `main` builds.

A frame is a `Tables.Table`: an ordered header plus rows of optional cells.
`None` stands for pandas' missing value. A cell value is a number (`real`), a
string or a datetime. Means and the division by 60000 use Dafny `real`.

The decoder, the date parser (`pd.to_datetime(..., errors="coerce")`) and the
path-existence check are parameters of the model, not parts of it:

- `Loader.Reader` is the decoder;
- the `permissive` argument is the outcome of the permissive read;
- `Clean.DateParser` is the date parser;
- `pathExists` is the path check.

Files:

- `wrappers.dfy`: `Option` and `Result`.
- `seqs.dfy`: sequence helpers.
- `text.dfy`: Python's `str.strip`, `str(int)` and the year-range text.
- `tables.dfy`: the frame.
- `duplicates.dfy`: keep-first deduplication.
- `stats.dfy`: sums, means, extrema and ranking.
- `loader.dfy`, `clean.dfy` and `analyze.dfy`: the three stages.

In a few places the code does less than a reader might expect, and the model follows the code:

- On an empty or all-missing column, `avg_popularity` and `avg_duration_min`
  are the float NaN (`Analyze.Metric.NaN`), not `"N/A"`.
- `years_covered` raises on a `year` column with no value in it, including
  the empty table. This is a precondition (`Analyze.SomePresent`).
- When the permissive read also fails, the error raised is the last error of
  the encoding loop, not the permissive read's own. With an empty encoding
  list there is no such error: the code then executes `raise None`, which
  raises a `TypeError`. This is `Loader.RaisedNothing`.
- The correlation gate counts the candidate columns that are present, not
  the numeric ones.

## Model

| member | source | states |
|---|---|---|
| Loader.TryReadCsv | preprocess.py:12-34 | Attempts are made strictly in the order of the encoding list (the default list when none is given), with at most the permissive read after them. |
| Loader.TryFrom | preprocess.py:16-34 | From any point of the loop on, the remaining encodings are tried in order, then the permissive read. |
| Loader.FirstSuccessFrom | preprocess.py:16-24 | If the encodings from position `i` to `w - 1` fail and `w` succeeds, the read at `w` is the result and exactly `w - i + 1` attempts are made. |
| Loader.FirstSuccessWins | preprocess.py:16-22 | The first encoding whose read succeeds gives the result: its table and its exact label. Every earlier encoding was tried, and nothing after it is tried. |
| Loader.AllFailFrom | preprocess.py:15-34 | If every remaining encoding fails, all of them are tried and then the permissive read. The outcome is its table, or else the last encoding's error. |
| Loader.AllFailFallsBack | preprocess.py:15-34 | When every encoding fails, the permissive read's table comes back labelled `utf-8 (errors=replace, python engine)`. If that read fails too, the raised error is the last encoding's error, not the permissive read's. An empty list gives `RaisedNothing`. |
| Loader.LoadData | preprocess.py:37-42 | A missing path fails with `NotFound` before any attempt. Otherwise the default chain decides: its table on success, its failure wrapped otherwise, and the same attempts. |
| Text.Strip | preprocess.py:47 | A stripped name is no longer than the original and has no whitespace at either end. |
| Text.StripIsInfix | preprocess.py:47 | A stripped name is a contiguous piece of the original, and everything cut from either side is whitespace. |
| Text.StripIdempotent | preprocess.py:47 | Stripping a stripped name changes nothing. |
| Text.StripOfTrimmed | preprocess.py:47 | A name with no edge whitespace strips to itself. |
| Clean.StripColumns | preprocess.py:47 | Each header name is replaced by its stripped form in its own position. The rows are untouched. |
| Tables.RenameColumn | preprocess.py:51 | Renaming changes only that one header label, keeps labels distinct, and moves the cells unchanged to the new name. |
| Clean.UnifyArtist | preprocess.py:49-51 | `artist_name` is present afterwards iff `artist_name` or `artists` was. `artists` survives iff both were present. When the alias applies, `artist_name` holds exactly the old `artists` cells and every other column is unchanged. Otherwise the frame is unchanged. |
| Tables.SetColumn | preprocess.py:55-60 | Assigning a column overwrites it in place if it exists and appends it otherwise. No other column changes, and labels stay distinct. |
| Clean.ParseDate | preprocess.py:55 | A parsed date is present iff the cell is present and the parser accepts it, and it is then that datetime. |
| Clean.YearOf | preprocess.py:56 | The year cell is present iff the date is a datetime, and it is then that datetime's calendar year. |
| Clean.DeriveYear | preprocess.py:53-56 | Without `release_date` the frame is unchanged. Otherwise `release_date` holds the parsed dates and `year` is their years, overwritten in place or appended. No other column changes. |
| Clean.ToMinutes | preprocess.py:60 | A minute value is present iff the milliseconds are a number, and it times 60000 gives those milliseconds. Missing stays missing. |
| Clean.DeriveDuration | preprocess.py:58-60 | Without `duration_ms` the frame is unchanged. Otherwise `duration_min` is its row-by-row conversion to minutes, overwritten in place or appended. No other column changes. |
| Clean.DedupSubset | preprocess.py:63 | The key subset is exactly those of `track_name`, `artist_name`, `year` that are columns, each once, in that order. |
| Duplicates.KeepFirst | preprocess.py:65 | Keep-first deduplication never grows the rows, keeps every key that occurs, and leaves no key twice. |
| Duplicates.KeepFirstIsMaskSelection | preprocess.py:65 | Keep-first deduplication equals selecting the rows whose key has not occurred earlier, as the mask `~duplicated(keep='first')` does. |
| Duplicates.KeepFirstRowsFromInput | preprocess.py:65 | Every kept row is a row of the input. |
| Duplicates.KeepFirstIdempotent | preprocess.py:65 | Deduplicating a second time changes nothing. |
| Clean.DropDuplicates | preprocess.py:62-65 | With an empty subset the frame is unchanged. Otherwise the header stays and the rows are the keep-first selection on the subset cells, never more than before. |
| Clean.DropDuplicatesLeavesNoTwins | preprocess.py:63-65 | After deduplication on a non-empty subset, any two rows differ in some subset column. |
| Clean.DropDuplicatesKeepsFirst | preprocess.py:63-65 | The surviving rows are, in order, the rows whose subset values did not occur in an earlier row. |
| Clean.DropDuplicatesIdempotent | preprocess.py:62-65 | Deduplicating a deduplicated frame changes nothing. |
| Clean.Derived | preprocess.py:45-60 | The steps before deduplication keep the frame well formed and keep every row. |
| Clean.CleanData | preprocess.py:45-67 | Cleaning keeps the frame well formed and never adds rows. |
| Clean.CleanHeader | preprocess.py:45-67 | The cleaned header starts with the stripped original names, in their original order, with `artists` renamed when the alias applies. It is followed by `year` exactly when `release_date` is a column and `year` is not, and then by `duration_min` exactly when `duration_ms` is a column and `duration_min` is not. |
| Clean.DerivedSettled | preprocess.py:45-60 | Before deduplication the header is trimmed and the alias rule cannot fire again. `release_date` holds datetimes with `year` their years, and `duration_min` holds `duration_ms` in minutes. |
| Clean.DropDuplicatesKeepsSettled | preprocess.py:62-65 | Dropping rows keeps those relations between columns. |
| Clean.SettledIsFixedPoint | preprocess.py:45-61 | On a settled frame the steps before deduplication change nothing, given a date parser that returns a datetime unchanged. |
| Clean.CleanIdempotent | preprocess.py:45-67 | Cleaning a cleaned frame changes nothing, given a date parser that returns a datetime unchanged. |
| Analyze.ArtistColumn | analyze.py:19 | The chart reads `artist_name` if present, else `artists`, and has no column iff neither is present. |
| Analyze.TopCountsPrefix | analyze.py:22 | `value_counts().head(n)` is an initial segment of the full `value_counts()`, for every `n`. |
| Stats.RankedIsRanking | analyze.py:22 | A ranking has `min(k, pool size)` entries. Each is a distinct pool member with its exact count, counts never increase, and no member left out outnumbers an entry. |
| Stats.RankedPrefix | analyze.py:22 | Asking for fewer entries gives an initial segment of the longer ranking. |
| Analyze.TopCounts | analyze.py:22 | The top counts have `head(n)` of the number-of-distinct-values entries. Each is a distinct present value paired with how many cells hold it. Counts never increase, and no value left out occurs more often than an entry. |
| Analyze.TopOfTwo | analyze.py:22 | When `a` is more frequent than `b` and every other value is rarer than `b`, `head(2)` is `a` then `b`, each with its count. |
| Analyze.TopCountsExample | analyze.py:22 | On the column A, B, A, C, B, A with `n = 2`, the result is A with 3, then B with 2, and C is cut. |
| Analyze.TopArtists | analyze.py:18-22 | The result is absent iff neither artist column exists. Otherwise it is the top counts of the column the chart reads. |
| Analyze.GroupMembers | analyze.py:36 | A year's group holds exactly the popularity numbers of the rows with that year. |
| Analyze.GroupIsMaskedNumbers | analyze.py:36 | A year's group is the list of popularity numbers of the rows with that year, with repeats and in row order. |
| Stats.Insert | analyze.py:36 | Inserting into an ascending sequence of distinct keys keeps it ascending and adds exactly that key. |
| Stats.SortedKeys | analyze.py:36 | The group keys are the distinct present years, in strictly ascending order. |
| Analyze.TrendOver | analyze.py:36 | Each point is a candidate year whose group holds a popularity number, paired with that group's mean. |
| Analyze.TrendOverCovers | analyze.py:36 | Every candidate year whose group holds a popularity number gets a point. |
| Analyze.TrendOverIncreasing | analyze.py:36 | Ascending candidate years give points in ascending year order. |
| Analyze.TrendKeys | analyze.py:36 | The sorted keys of a numeric year column are exactly the years that occur in it. |
| Analyze.PopularityTrend | analyze.py:33-36 | The trend is absent iff `popularity` or `year` is missing. Otherwise it has one point per year, in ascending order, for exactly the years that occur and whose group holds a popularity number. Each point's value is that group's mean. Years with no popularity number are dropped. |
| Stats.MeanBounds | analyze.py:36 | A mean lies between any lower and any upper bound of its values. |
| Stats.MeanOfConstant | analyze.py:36 | The mean of equal values is that value. |
| Analyze.TrendWithinBounds | analyze.py:36 | Every point of the trend lies within any bounds of the popularity numbers. |
| Analyze.TrendExample | analyze.py:33-36 | Years 2000, 2000, 2001 with popularity 10, 20, 40 give the trend 2000 at a mean of 15, then 2001 at 40. |
| Analyze.FeatureCorr | analyze.py:49-54 | When not absent, the selection has at least two columns. They are exactly the candidate features present as columns. |
| Analyze.FeatureCorrSelection | analyze.py:50-54 | The result is absent iff fewer than two candidate columns are present, whatever their types. The selection has no repeats and keeps candidate-list order. |
| Analyze.Average | analyze.py:72-73 | A column's mean is NaN iff it holds no number. Otherwise it is a float equal to the mean of the column's numbers. |
| Analyze.AverageWithinBounds | analyze.py:72-73 | A float average lies within any bounds of the column's numbers. |
| Analyze.Trunc | analyze.py:71 | `int()` of a float truncates toward zero. |
| Analyze.TruncMonotone | analyze.py:71 | Truncation keeps order. |
| Stats.MinOf | analyze.py:71 | `min()` of a non-empty column is one of its numbers, and no number is smaller. |
| Stats.MaxOf | analyze.py:71 | `max()` of a non-empty column is one of its numbers, and no number is larger. |
| Text.IntToDecimal | analyze.py:71 | `str()` of an integer is non-empty and begins with `-` iff the integer is negative. |
| Text.IntDecimalRoundTrip | analyze.py:71 | `str()` of an integer reads back as the same integer. |
| Text.SpanRoundTrip | analyze.py:71 | The text `"<lo> - <hi>"` reads back as the same two integers. |
| Analyze.YearsCovered | analyze.py:71 | A numeric year column with a value in it gives a year-range text. |
| Analyze.YearExtremes | analyze.py:71 | The smallest and largest year of a numeric column both occur in it, and every present year lies between them. |
| Analyze.YearsCoveredText | analyze.py:71 | The year-range text of a numeric column with a year in it reads back as an ordered pair of truncated years that occur in the column and bound all of its years. |
| Analyze.YearsCoveredSpan | analyze.py:71 | `years_covered` reads back as two truncated years that occur in the column, the first no later than the second. Every year's truncation lies between them. |
| Analyze.Summarize | analyze.py:67-74 | The map has exactly the five metric keys. `total_tracks` is the row count. Each other metric is `"N/A"` exactly when its own column is missing, independently of the rest. When present, `avg_popularity` and `avg_duration_min` are the averages of their columns. |
| Analyze.UniqueArtistsCount | analyze.py:70 | `unique_artists` is the number of distinct present `artist_name` values. |
| Analyze.Images | analyze.py:80-84 | The image map has exactly the three chart keys. An entry is absent iff its chart's gate fails, and otherwise it is the chart's path under the output directory. It needs only a numeric `popularity` column once `year` is also present. |
| Analyze.ImagesGates | analyze.py:80-84 | `top_artists` is absent iff neither artist column exists. `popularity_trend` is absent iff `popularity` or `year` is missing. `feature_corr` is absent iff fewer than two candidate columns exist. |
| Analyze.ImagesTrend | analyze.py:80-84 | Where the trend itself is modelled, the trend entry of the map is absent exactly when `PopularityTrend` is. |

## Left out

- File I/O is not modelled: `pd.read_csv`, `to_csv`, `mkdir` and the path check. The decoder, the permissive read and the existence check are parameters instead. `save_clean` and `load_clean` (preprocess.py:70-73, analyze.py:11-15) are only I/O, and their round trip depends on pandas' CSV serialisation, which is not part of this model.
- The permissive read's own arguments (`engine="python"`, `error_bad_lines=False`) are not modelled. Its outcome is the parameter `permissive`. pandas 2.0 removed `error_bad_lines`, so under pandas 2 or later the call at preprocess.py:29 always raises `TypeError` and `permissive` is always a `Failure`: the program then re-raises the encoding loop's last error (`Loader.AllFailFallsBack`). The success label's `errors=replace` names no argument that is actually passed.
- Logging (`print`) is not modelled.
- Rendering (matplotlib/seaborn figures, `savefig`) is not modelled. Each chart function is modelled up to the series it hands to the renderer, and the `imgs` map records the path the figure is saved under.
- `feature_corr`'s `select_dtypes` filter and the Pearson correlation itself are left out: they are dtype inference and floating-point numerics. The model stops at the selected candidate columns.
- Floating point is not modelled: numbers are Dafny `real`, and the NaN of an empty mean is `Analyze.Metric.NaN`.
- `pd.to_datetime` is not modelled. It is the parameter `Clean.DateParser`, and idempotence assumes only that it returns a datetime unchanged.
- Clean.DeriveYear: parses each cell on its own. Since pandas 2.0, `to_datetime` on a whole column infers one format from the first non-missing value. A cell in another format, such as `1999` next to `2001-05-01`, then becomes NaT even though it parses alone. The model cannot express a parse that depends on the other cells.
- Analyze.Summarize: the `metrics` map and the `imgs` map are Python dicts, which keep insertion order, and the slide deck iterates them in that order. Dafny maps have no order, so that layout order is not modelled. Analyze.Images has the same gap.
- Analyze.Images: records the `feature_corr` path whenever two candidate columns are present. Whether seaborn can draw a correlation when no selected column is numeric is a rendering question and is not modelled.
- `clean_data` mutates the caller's frame, and the model is pure and does not model that. The header assignment always lands on the caller's frame. When the alias rule does not fire, `df` is still the caller's frame, so the writes to `release_date`, `year` and `duration_min` (preprocess.py:55-60) land on it too. `rename` and `drop_duplicates` return new frames.
- `main` in both files, `main.py` and `generate_report.py` only sequence the stages, or assemble slides and call a network service. They are not part of this model.
- Clean.CleanDemands: requires header names that stay distinct after stripping, and a numeric `duration_ms`. pandas would allow duplicate labels, and the division raises on text.
- Analyze.PopularityTrend: requires numeric `year` and `popularity` columns once both are present. pandas raises on the mean of text, but it could also group text years, which the model does not cover.
- Analyze.Summarize: requires numeric `year`, `popularity` and `duration_min` columns, and at least one `year` value. pandas raises on the missing year and on the mean of text, but `int()` would also accept text years, which the model does not cover.
- Analyze.TopCounts: does not state the order among values with equal counts, since `value_counts` does not promise one. The model happens to put the value seen first ahead.
- Clean.CleanData: states only that cleaning keeps the frame well formed and never adds rows. What each step does is stated on the step's own member and in `Clean.CleanHeader` and `Clean.CleanIdempotent`.
