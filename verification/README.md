# 911 Calls Dashboard: a Dafny model of the filter-and-aggregate pipeline

The dashboard loads a table of Montgomery County 911 calls. Each call has a
timestamp, a title such as `EMS: CARDIAC EMERGENCY` and a township. It
works in four steps:

1. It enriches every row with Year, Month, Hour, Day of week and the
   emergency Reason (`title.split(":")[0]`).
2. It shows four key metrics over the whole table: Total Calls, Most
   Common Emergency, City with Most Calls and Peak Call Hour.
3. It offers three sidebar multiselects: Reason, township and Year. The
   options and the defaults of each are the distinct values of its column.
4. On the filtered view it computes the top ten townships, the Reason
   breakdown, a 1000-row Hour sample for a box plot, the calls per day of
   week and a 100-row preview.

The model has four modules:

- `Series` (`series.dfy`): the pandas Series operations used, over a column
  `seq<T>`. These are `unique`, `value_counts`, `idxmax`, `nlargest`,
  `groupby(...).count()` and `head`. A counted Series is a sequence of
  (label, count) pairs.
- `Calls` (`calls.dfy`): the call records, Python's `str.split`, the Reason
  derivation, and the preparation step. Preparation is an imperative method
  that builds the enriched table row by row.
- `Filter` (`filter.dfy`): the option lists, the `isin` mask, boolean
  indexing and the filtered view.
- `Dashboard` (`dashboard.dfy`): the KPIs, the aggregates of one refresh,
  the box-plot sample and a small worked example.

Three points about what the code does are easy to miss:

- The KPIs are computed on the unfiltered table, so they do not change with
  the sidebar.
- A title without a colon gives the whole title as its Reason.
- `sample(1000)` has no guard, so a refresh whose view has fewer than 1000
  rows raises and stops at the box plot (see Findings). The model has both
  versions of a refresh: `RefreshAsWritten` follows the code and raises;
  `Refresh` is the guarded pipeline, which draws min(1000, rows) rows.

## Model

| member | source | states |
|---|---|---|
| Calls.Split | Streamlit_App.py:28 | `str.split` on one character: at least one piece, no piece contains the separator, the first piece is a prefix ending at the first separator, and a string with no separator splits into itself |
| Calls.JoinSplit | Streamlit_App.py:28 | joining the pieces of a split with the separator gives the original string back |
| Calls.SplitJoin | Streamlit_App.py:28 | splitting a join of separator-free pieces gives the pieces back |
| Calls.ReasonOf | Streamlit_App.py:28 | Reason is a prefix of the title with no colon; with a colon, title = Reason + ":" + rest; without one, Reason is the whole title |
| Calls.ReasonRoundTrip | Streamlit_App.py:28 | for any colon-free r, the Reason of r + ":" + s is r |
| Calls.ReasonOfCardiacEmergency | Streamlit_App.py:28 | the Reason of "EMS: CARDIAC EMERGENCY" is "EMS" |
| Calls.Prepare | Streamlit_App.py:19-28 | one enriched row per loaded row, in order: loaded columns kept, Year/Month/Hour/Day copied from the timestamp, Reason = ReasonOf(title) |
| Series.Unique | Streamlit_App.py:60-62 | `unique()` holds no value twice and holds exactly the values of the column |
| Series.UniqueFirstAppearance | Streamlit_App.py:60-62 | `unique()` lists the values in order of first appearance |
| Series.UniqueSnoc | Streamlit_App.py:60-62 | appending a value to a column extends its `unique()` list by that value exactly when the value is new |
| Filter.Options | Streamlit_App.py:60-62 | the three option lists (also the defaults) hold no value twice and hold exactly the Reasons, townships and Years occurring in the table |
| Filter.OptionsSpec | Streamlit_App.py:60-62 | each of the three option lists holds every value of its column once, in first-appearance order |
| Filter.IsIn | Streamlit_App.py:66-68 | `isin`: one entry per element of the column, true exactly when the element is one of the chosen values |
| Filter.Mask | Streamlit_App.py:65-69 | the mask has one entry per row, true exactly when Reason, township and Year are all selected |
| Filter.Select | Streamlit_App.py:65-69 | boolean indexing keeps at most as many rows as there are, and only rows of the table |
| Filter.SelectSpec | Streamlit_App.py:65-69 | boolean indexing keeps exactly the rows at the true positions, in increasing position order |
| Filter.SelectAllTrue | Streamlit_App.py:65-69 | an all-true mask keeps the whole table |
| Filter.SelectAllFalse | Streamlit_App.py:65-69 | an all-false mask keeps nothing |
| Filter.FilterView | Streamlit_App.py:65-69 | the filtered view: no longer than the table, every row in it passes all three tests, and every passing row of the table is in it |
| Filter.FilterViewExact | Streamlit_App.py:65-69 | the filtered view is the order-preserving subsequence of exactly the rows that pass all three `isin` tests |
| Filter.FilterViewCounts | Streamlit_App.py:65-69 | as a bag, the view holds each passing row as often as the table does and no other row |
| Filter.FilterDefaultIsIdentity | Streamlit_App.py:60-69 | with the default selection (all options) the view is the whole table |
| Filter.FilterEmptyChoice | Streamlit_App.py:60-69 | an empty choice in any multiselect empties the view |
| Series.SortDesc | Streamlit_App.py:86 | the ordering behind `value_counts`: a permutation of its input, ordered by the key, largest first |
| Series.SortNoDup | Streamlit_App.py:86 | sorting keeps distinct pairs distinct |
| Series.TotalOfUniqueCounts | Streamlit_App.py:86 | the counts of all distinct values of a column add up to its length |
| Series.TotalSort | Streamlit_App.py:86 | reordering a counted Series keeps its total |
| Series.Tally | Streamlit_App.py:86 | counting a column: one pair per distinct value, each with its true number of occurrences, ordered by the key, totals summing to the column length |
| Series.ValueCounts | Streamlit_App.py:86 | `value_counts()`: each distinct value once, its count equal to its occurrences, counts non-increasing, total = column length |
| Dashboard.ReasonCounts | Streamlit_App.py:86 | the Reason breakdown lists each Reason of the view once, with its number of rows in the view, largest first; counts sum to the view size |
| Series.GroupCount | Streamlit_App.py:99 | `groupby(col).count()`: each distinct value once, with its number of rows, labels strictly increasing, total = column length |
| Dashboard.DayCounts | Streamlit_App.py:99 | calls per day of week: each day in the view once, ascending, with its number of rows; counts sum to the view size |
| Series.ArgMax | Streamlit_App.py:45-53 | the position of the first largest count |
| Series.IdxMax | Streamlit_App.py:45-53 | `idxmax()` fails exactly on an empty Series, and otherwise returns the label of a pair with the largest count |
| Series.Mode | Streamlit_App.py:45-53 | `value_counts().idxmax()` fails exactly on an empty column, and otherwise returns a value that occurs and that no value occurs more often than |
| Series.ModeOfDominant | Streamlit_App.py:45-53 | a value occurring strictly more often than every other is the mode, whatever the tie-break |
| Dashboard.Kpis | Streamlit_App.py:40-53 | the four KPIs over the whole table: fail exactly when it is empty; otherwise total = row count, and Reason, township and Hour are each a mode of their column |
| Series.HeadOfSortedDominates | Streamlit_App.py:79 | no pair left out of the first n of the sorted Series has a larger count than a pair kept |
| Series.NLargest | Streamlit_App.py:79 | `nlargest(n)`: min(n, size) pairs of the Series, counts non-increasing, distinct if the input is, and no pair left out counts more than a pair kept |
| Dashboard.TopCities | Streamlit_App.py:79 | at most ten townships, each once, with its number of rows in the view, largest first; a township left out has no more calls than any township kept |
| Series.Head | Streamlit_App.py:124 | `head(n)`: the first min(n, size) elements, in order |
| Dashboard.PickWithoutReplacement | Streamlit_App.py:95 | rows drawn at distinct positions form a sub-multiset of the rows: no row is drawn more often than it occurs |
| Dashboard.ShuffleIsPermutation | Streamlit_App.py:95 | drawing the rows in the order of a whole shuffle gives a permutation of the rows |
| Dashboard.SampleAsWritten | Streamlit_App.py:95 | `sample(n)` without replacement fails exactly when n exceeds the number of rows, and otherwise draws n rows in the given random order, none more often than it occurs |
| Dashboard.SampleForDisplay | Streamlit_App.py:95 | the guarded sample: min(n, rows) rows without replacement, a permutation of the whole view when the view has at most n rows, and equal to `sample(n)` whenever that succeeds |
| Dashboard.Refresh | Streamlit_App.py:65-124 | the guarded pipeline, with the sample of the Findings correction: top cities, Reason counts, day counts, box-plot hours and preview are exactly the aggregates of the filtered view; the counts sum to the view size, the box plot gets min(1000, view) hours, the preview is the first min(100, view) rows; an empty choice gives empty aggregates |
| Dashboard.RefreshAsWritten | Streamlit_App.py:65-124 | the pipeline as written: raises exactly when the view has fewer than 1000 rows, and otherwise gives the same aggregates as `Refresh` |
| Dashboard.EmptyChoiceRaises | Streamlit_App.py:60-95 | as written, an empty choice in any multiselect makes the refresh raise, where the guarded pipeline shows empty aggregates |
| Dashboard.ExampleFilter | Streamlit_App.py:65-69 | choosing EMS, township A and 2020 keeps the first two rows of a three-row example |
| Dashboard.ExampleTopReason | Streamlit_App.py:45 | in that example the Most Common Emergency is EMS |
| Dashboard.GroupCountOfTwo | Streamlit_App.py:99 | a column with exactly two distinct values groups into two pairs, the smaller label first, each with its count |
| Dashboard.ExampleYearOptions | Streamlit_App.py:62 | the example's Year options are [2020, 2021] |
| Dashboard.ExampleYearCounts | Streamlit_App.py:99 | the example's Year grouping is [(2020, 2), (2021, 1)] |
| Dashboard.ExampleSampleRaises | Streamlit_App.py:95 | on the two-row example view `sample(1000)` fails, while the guarded sample returns the whole view |
| Dashboard.ExampleRefreshRaises | Streamlit_App.py:65-95 | so the refresh of the example, as written, raises |

## Left out

- Page setup, titles, metric widgets, sidebar widgets, tabs and tables are Streamlit rendering. The model computes only the values they display.
- The Plotly, Matplotlib and Seaborn charts are foreign plotting code. This covers the Year and Hour histograms, the Reason pie chart and the drawing of the bar, line and box plots. The bar, line and box plots are modelled only through the data passed to them.
- Loading the CSV file is I/O. The model starts from the loaded rows.
- `pd.to_datetime` and the `.dt` accessors are pandas datetime internals. A parsed timestamp is given as its year, month, hour and day-of-week integers. Missing or unparsable timestamps (NaT) and missing titles (NaN) are not modelled.
- Month is carried on each record but no aggregate uses it.
- Missing values are not modelled: every township is a string. In pandas, `value_counts` and `idxmax` skip a missing (NaN) township, so it could never be the City KPI or one of the top cities, while `unique()` and `isin` keep such rows in the options and the view.
- The randomness of `sample` is a parameter: the caller supplies the shuffled order of row positions.
- The latitude/longitude map with `dropna`, `describe()` and `select_dtypes(...).nunique()` are left out. They involve floating-point coordinates, floating-point statistics and pandas dtype inference.
- The text formatting of the KPIs (`f"{total_calls:,}"`, `f"{peak_hour}:00"`) is left out. It is display only.
- Dashboard.Refresh: models the guarded pipeline of the Findings correction. The script as written is `Dashboard.RefreshAsWritten`, which raises for views under 1000 rows and then shows nothing after the box plot.
- Series.Mode: the tie-break of `idxmax` over equal counts is not promised. The contract says only that the result is some value of maximal count.
- Series.NLargest: the order among equal counts is not promised, and neither is which of several tied pairs is kept at the cut.
- Series.ValueCounts: the order among equal counts is not promised.
- Calls.Prepare: pandas adds each derived column to the whole table in one vectorised assignment. The method instead builds the same table row by row, so the order in which columns are added is not modelled.

## Findings

| source | as written | input that shows it | evidently intended | confidence | as-written member | corrected member |
|---|---|---|---|---|---|---|
| Streamlit_App.py:95 | `filtered_df.sample(1000)` draws without replacement and has no guard, so it raises ValueError when the filtered view has fewer than 1000 rows; the script then stops before the per-day chart and the preview | the three-row example table with the choice EMS / A / 2020, which leaves a two-row view | sample min(1000, rows of the view) rows for the box plot | not executed | Dashboard.SampleAsWritten, Dashboard.RefreshAsWritten, Dashboard.EmptyChoiceRaises, Dashboard.ExampleSampleRaises, Dashboard.ExampleRefreshRaises | Dashboard.SampleForDisplay, Dashboard.Refresh |
