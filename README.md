# EDA-Tool analysis core, modelled in Dafny

The EDA backend takes an uploaded CSV file and returns three things. The first is a data summary: the column names, the shape, `describe()`'s statistics (not modelled) and the top-five value counts of each eligible categorical column, that is, each one whose name does not contain `name`. The second is a set of chart images. The third is a four-line narrative. This project models the decision logic of that analysis, which lives in the `upload_file` handler of `eda-backend/app.py` together with the `sanitize` helper. The logic covers:

- how column names are normalised after parsing;
- which columns count as categorical or numeric for the analysis;
- which chart (pie, bar or histogram) each column gets, under which title and URL;
- how values are counted, how the mode is taken and how the columns with missing values are ranked;
- how the narrative is built, and when the whole reply turns into an error.

The parsed data frame is an abstract `Table`: a row count and a sequence of columns. Each column has a name, a dtype group (`Categorical` for `object`/`category`, `Numeric` for `number`, `Other`) and a sequence of `Option<Value>` cells, where `None` is a missing value. A `Value` is the cell's rendered text.

Files, one module each:

- `wrappers.dfy` — `Option`, `Result`.
- `text.dfy` — `str.strip`, ASCII `str.lower`, `replace(' ', '_')`, the substring and prefix tests, `str.join`, rendering integers in decimal.
- `sanitize.dfy` — `sanitize`: every maximal run of backslash, slash, star, `?`, `"`, `<`, `>`, `|`, `:` and space becomes one `_`.
- `table.dfy` — the table, name normalisation, the classifier, `dropna`, null counts, occurrence counts.
- `dicts.dfy` — insertion-ordered Python dictionaries: assigning an existing key keeps its position, assigning a new key appends it.
- `counting.dfy` — `value_counts()`, `.head(k)`, `idxmax()`, the null ranking.
- `charts.dfy` — the chart selector. The two loops of the handler are methods proved against the function `PlotList`.
- `narrative.dfy` — the `top_freq` loop (a method proved against `TopFrequentSpec`), the text parts and the summary text.
- `eda.dfy` — the whole handler (`Upload`, proved against `Analysis`) and what its reply promises.

Where pandas fixes no order, the model chooses one. This covers the order among equal counts in `value_counts()` and in the unstable `sort_values`. The model sorts stably: values in order of first appearance, columns in column order. Every ranking property below holds whatever the order among ties.

The error path follows the code for every failure the model covers, and the code is stricter than a quick reading suggests. The chart loop skips a categorical column with no present value (lines 66-68). The `top_freq` loop does not: `idxmax()` raises on the empty count (line 122), and the handler replies with an error instead of the whole result (lines 138-140). With pandas' own type inference this happens, for instance, for a CSV file that has a header line and no rows. In that case all columns are `object` columns with no values. Other exceptions inside the same `try` block (lines 46-140), raised while drawing or saving a chart or inside `describe`, also end in the error reply; the model does not cover them (see "## Left out").

## Model

| member | source | states |
|---|---|---|
| Tables.Normalise | eda-backend/app.py:48 | a normalised name holds no space, no upper-case ASCII letter and no leading or trailing whitespace |
| Tables.NormaliseIdempotent | eda-backend/app.py:48 | normalising a normalised name changes nothing |
| Tables.NormalisedNamesAreFixed | eda-backend/app.py:48 | after renaming every column, no name holds a space and renaming again leaves the columns unchanged |
| Text.Strip | eda-backend/app.py:48 | `strip()` returns a slice of the input that is cut only through whitespace and has no whitespace at either end |
| Text.Lower | eda-backend/app.py:48 | `lower()` keeps the length, turns each ASCII capital into its lower-case letter, keeps every other character, and so leaves no capital and keeps whitespace where it was |
| Text.ReplaceSpaces | eda-backend/app.py:48 | `replace(' ', '_')` turns each space into `_`, keeps every other character and so leaves no space |
| Sanitizer.Sanitize | eda-backend/app.py:17-18 | the sanitised name is no longer than the input, since each run shrinks to one character |
| Sanitizer.SanitizeIsSafe | eda-backend/app.py:17-18 | the sanitised name holds none of the replaced characters |
| Sanitizer.SanitizeSafe | eda-backend/app.py:17-18 | a name without any of the replaced characters is left as it is |
| Sanitizer.SanitizeIdempotent | eda-backend/app.py:17-18 | sanitising twice equals sanitising once |
| Sanitizer.SanitizeRun | eda-backend/app.py:17-18 | a non-empty run of replaced characters becomes exactly one `_` |
| Sanitizer.SanitizeAppend | eda-backend/app.py:17-18 | sanitising distributes over a concatenation whose boundary splits no run |
| Sanitizer.SanitizeMaximalRun | eda-backend/app.py:17-18 | a maximal run between two kept parts becomes one `_`, and the parts on either side are sanitised independently |
| Sanitizer.SanitizeKeeps | eda-backend/app.py:17-18 | any other character is kept |
| Tables.CategoricalEligibleExactly | eda-backend/app.py:57 | a column passes `col != 'name' and 'name' not in col` exactly when its name does not contain `name`, so the equality test is subsumed |
| Tables.EligibleGroupsDisjoint | eda-backend/app.py:63-64 | no column is both a categorical and a numeric candidate |
| Tables.CategoricalColumnsMembers | eda-backend/app.py:63-64 | `cat_cols` holds exactly the categorical columns whose name does not contain `name` |
| Tables.NumericColumnsMembers | eda-backend/app.py:95-96 | `num_cols` holds exactly the numeric columns whose name does not start with `unnamed` |
| Tables.NonMissingCounts | eda-backend/app.py:66 | `dropna()` keeps each present value exactly as many times as it occurs in the column |
| Tables.NonMissingMembers | eda-backend/app.py:66 | `dropna()` keeps exactly the present values |
| Tables.NullCount | eda-backend/app.py:115 | the null count plus the number of present values is the column length, and it is zero exactly when nothing is missing |
| Tables.Occurrences | eda-backend/app.py:55 | a value's count is positive exactly when the value occurs |
| Tables.OccurrencesCounts | eda-backend/app.py:55 | a value's count is its multiplicity in the present values, repeats included |
| Counting.SortSorts | eda-backend/app.py:116 | the sort yields non-increasing counts and a permutation of its input |
| Counting.SortKeys | eda-backend/app.py:116 | sorting keeps the set of keys and keeps them distinct |
| Counting.Dedup | eda-backend/app.py:66 | the distinct values, each once, are exactly the values that occur |
| Counting.DedupCard | eda-backend/app.py:71 | as many values are counted as there are distinct present values (`counts.size`) |
| Counting.ValueCounts | eda-backend/app.py:66-71 | `value_counts()` has one entry per distinct present value, so `counts.size` is the number of distinct values |
| Counting.ValueCountsSpec | eda-backend/app.py:66 | `value_counts()` lists each present value once with its true count, most frequent first |
| Counting.TakeIsTop | eda-backend/app.py:55 | an entry cut off by `head(k)` from a descending list counts no more than any kept entry |
| Counting.FrequencyTable | eda-backend/app.py:55 | `value_counts().head(5)` has at most five entries (fewer only when fewer values exist), non-increasing true counts, distinct values, and no left-out value occurs more often than a listed one |
| Counting.ValueCountsHeadIsMax | eda-backend/app.py:122 | the first entry of a value count has the highest count, and the count is empty exactly when no value is present |
| Counting.Mode | eda-backend/app.py:122 | `idxmax()` is a present value that no other value outnumbers; it is undefined exactly when no value is present |
| Counting.PositiveNullsMembers | eda-backend/app.py:116 | `null_counts[null_counts > 0]` holds exactly the columns with a missing value and their null counts |
| Counting.RankedNullsMembers | eda-backend/app.py:116 | the sorted null counts are non-increasing and hold exactly the columns with missing values |
| Counting.TopNulls | eda-backend/app.py:116 | `head(3)` keeps at most three entries |
| Counting.TopNullsSpec | eda-backend/app.py:116 | the kept entries are non-increasing, each a column with a positive null count |
| Counting.TopNullsEmpty | eda-backend/app.py:116 | the ranking is empty exactly when no column has a missing value |
| Counting.TopNullsBounded | eda-backend/app.py:115-116 | in a data frame whose columns all have one cell per row, no ranked null count exceeds the row count |
| Counting.TopNullsAreTop | eda-backend/app.py:116 | a column with missing values left out of the ranking has no more nulls than any listed one, and none is left out when fewer than three are listed |
| Dicts.Put | eda-backend/app.py:123 | assigning a dictionary key keeps an existing key in place or appends a new one, makes the key map to the value and leaves the other keys alone |
| Charts.CategoricalChartDecision | eda-backend/app.py:65-93 | an eligible categorical column gets no chart without a present value, a pie `Pie: <col>` with 1 to 5 distinct present values, and a bar `Bar: <col>` with more |
| Charts.NumericChartDecision | eda-backend/app.py:97-112 | an eligible numeric column gets a histogram exactly when it has 2 or more distinct present values, titled `Histogram: <col>`, with 20 bins and the URL `/media/plots/<sanitised col>_hist.png` |
| Charts.CategoricalCharts | eda-backend/app.py:65-93 | the first loop adds at most one chart per column |
| Charts.Histograms | eda-backend/app.py:97-112 | the second loop adds at most one histogram per column |
| Charts.ChooseCategoricalChart | eda-backend/app.py:66-93 | the body of the first loop chooses no chart for an empty count, a pie for at most five entries and a bar otherwise, as `CategoricalChart` decides from the number of distinct values |
| Charts.ChooseHistogram | eda-backend/app.py:98-112 | the body of the second loop chooses a histogram exactly as `NumericChart` decides |
| Charts.AppendCategoricalCharts | eda-backend/app.py:65-93 | the first loop appends, in column order, the chart decided for each categorical column |
| Charts.AppendHistograms | eda-backend/app.py:97-112 | the second loop appends, in column order, the histogram decided for each numeric column |
| Charts.SelectCharts | eda-backend/app.py:61-112 | `plot_paths` is the categorical charts of `cat_cols` followed by the histograms of `num_cols` |
| Charts.CategoricalChartsMembers | eda-backend/app.py:65-93 | a chart is among the categorical charts exactly when one of the columns decides for it |
| Charts.HistogramsMembers | eda-backend/app.py:97-112 | a chart is among the histograms exactly when one of the columns decides for it |
| Charts.CategoricalChartsArePiesOrBars | eda-backend/app.py:71-93 | the first loop emits only pies and bars |
| Charts.HistogramsAreHistograms | eda-backend/app.py:103 | the second loop emits only 20-bin histograms |
| Charts.PlotListOrder | eda-backend/app.py:61-112 | in `plot_paths` every pie or bar comes before every histogram |
| Charts.PlotListLength | eda-backend/app.py:61-112 | `plot_paths` has at most as many entries as there are eligible categorical and numeric columns |
| Charts.PlotListMembers | eda-backend/app.py:61-112 | a chart is in `plot_paths` exactly when an eligible column of the table decides for it |
| Charts.FileUrl | eda-backend/app.py:77-81 | a chart URL names a `.png` file directly inside `/media/plots/` |
| Charts.PlotListUrls | eda-backend/app.py:61-112 | every URL in `plot_paths` names a `.png` file directly inside `/media/plots/` |
| Charts.UrlsCanCollide | eda-backend/app.py:69-81 | two different column names (`a:b`, `a?b`) get the same chart file, so the later image overwrites the earlier |
| Narrative.TopFrequent | eda-backend/app.py:119-123 | the loop builds `top_freq` as `TopFrequentSpec` describes, stopping at the first eligible column whose count is empty |
| Narrative.TopFrequentPrefixFails | eda-backend/app.py:122 | once `idxmax()` has failed, the later columns do not change the outcome |
| Narrative.TopFrequentFails | eda-backend/app.py:119-123 | building `top_freq` fails exactly when an eligible categorical column has no present value |
| Narrative.TopFrequentKeys | eda-backend/app.py:119-123 | `top_freq` has one distinct key per name of an eligible categorical column, and no other key |
| Narrative.TopFrequentValues | eda-backend/app.py:119-123 | each `top_freq` value is a most frequent value of an eligible categorical column of that name |
| Narrative.FreqTextNone | eda-backend/app.py:125 | `freq_text` is the literal `None` exactly when `top_freq` is empty |
| Narrative.NullsTextNone | eda-backend/app.py:117 | `top_nulls_text` is the literal `None` exactly when the ranking is empty |
| Narrative.NullsLineNone | eda-backend/app.py:115-117 | the missing-values line reads `None` exactly when no column of the table has a missing value |
| Narrative.FreqLineNone | eda-backend/app.py:119-125 | the frequent-values line reads `None` exactly when no column is an eligible categorical column |
| Narrative.ColumnsLine | eda-backend/app.py:129 | the column line shows every name when there are at most five, and otherwise the first five followed by `...` |
| Text.Join | eda-backend/app.py:117 | joining no item gives the empty string, joining one item gives that item, and every item fits in the result |
| Text.JoinAppend | eda-backend/app.py:117 | joining two non-empty lists equals joining each and putting the separator between them, so the items appear in order with `sep` between neighbours |
| Text.JoinContains | eda-backend/app.py:125 | every character of every item occurs in the joined string |
| Text.NatToString | eda-backend/app.py:117 | a count renders as a non-empty string of decimal digits without a leading zero, and 0 as `0` |
| Text.NatToStringRoundTrip | eda-backend/app.py:128 | the decimal rendering reads back as the number rendered |
| Eda.ValueCountSummaryContents | eda-backend/app.py:54-58 | `value_counts` has a key exactly for each eligible categorical name, and it maps to that column's top-five table |
| Eda.Upload | eda-backend/app.py:47-132 | the handler's steps produce the reply `Analysis` describes: the error of the `top_freq` loop, or the columns, shape, value counts, text and charts |
| Eda.AnalysisFails | eda-backend/app.py:138-140 | of the failures modelled (drawing and `describe` errors are not), the reply is an error exactly when an eligible categorical column, after renaming, has no present value |
| Narrative.SummaryShape | eda-backend/app.py:127-128 | `summary_text` opens with the line `📊 Dataset contains <rows> rows and <columns> columns.` |
| Narrative.SummaryMissingNone | eda-backend/app.py:117-131 | `summary_text` ends with `❗ Columns with most missing values: None.` exactly when the null ranking is empty |
| Eda.AnalysisShapeLine | eda-backend/app.py:127-128 | a successful reply's text opens with the row count and the column count of the table, in decimal |
| Eda.AnalysisMissingLine | eda-backend/app.py:115-131 | a successful reply's text ends with `❗ Columns with most missing values: None.` exactly when no renamed column has a missing value |
| Eda.AnalysisColumns | eda-backend/app.py:51-52 | a successful reply lists the renamed names in order (spaceless, fixed by renaming again) and the shape (rows, columns) |
| Eda.AnalysisPlots | eda-backend/app.py:61-112 | a successful reply's charts are `PlotList`: bounded by the eligible columns, each under `/media/plots/`, categorical charts before histograms |

## Left out

- The Flask routes, the upload checks (`No file part`, `No selected file`), `send_from_directory`, CORS and `app.run` (lines 11-12, 20-44, 135, 142-143). They are HTTP plumbing.
- The zip archive of `download_all` and `os.makedirs` (lines 14, 24-35). They are file-system I/O.
- `pd.read_csv` and `select_dtypes` type inference (lines 47, 56, 63, 95). The model takes the parsed table and each column's dtype group as its input, so parse errors are not modelled. A `category` column's zero-count categories in `value_counts()` are not modelled either, since `read_csv` never produces one.
- `df.describe(include='all').fillna('')` (line 53). It is floating-point statistics inside pandas, and its own failures are not modelled; the payload has no `summary` field.
- Drawing and saving with matplotlib (lines 72-80, 83-92, 102-111), and the histogram binning. A `Chart` records only the decision. Image files written before a later error stay on disk, and the model does not track them.
- Eda.AnalysisFails: its "exactly when" covers only the empty-count failure of `idxmax()`. An exception raised while drawing or saving a chart (for example numpy's histogram on a numeric column holding `1` and `inf`) or inside `describe` also ends in the error reply of lines 138-140, and the model does not capture these; for such a table `Analysis` returns a success.
- Text.Lower: maps only the ASCII letters A-Z to a-z, because the model has no Unicode case tables.
- Tables.Normalise: lower-cases only the ASCII letters A-Z. Python's `str.lower` also maps other Unicode letters, sometimes to several characters.
- Values are compared by their rendered text. Two cells pandas tells apart but renders alike (for example the integer 1 and the string "1" in one `object` column) count as one value.
- Values pandas treats as equal but that render differently count as two values. For example pandas' float hashing takes `0.0` and `-0.0` as one value, so `nunique()` is 1 and no histogram is drawn. A rendering that keeps the sign gives two distinct texts, and `NumericChart` then decides for a histogram. The model assumes that the rendering sends values pandas treats as equal to the same text.
- Duplicate names after normalisation: pandas' `df[col]` then yields several columns at once. The model treats every column separately. Its dictionaries follow Python's rule that a repeated key keeps its first position and takes the later value.
- Counting.ValueCounts and Counting.TopNulls: the order among equal counts is the model's stable choice and is not part of any stated property, because pandas does not fix it.
