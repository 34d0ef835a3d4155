# Student performance dashboard: data engine

This project models the data engine behind a Streamlit dashboard of student admissions records (`app.py`) and proves its properties in Dafny. Everything else in the dashboard is chart and widget glue. The engine has these parts:

- **Feature engineering** (`Metrics`). `load_data` gives every row two new columns: `total_score`, the mean of the IQ, English, technical and soft-skills scores, and `risk_score`, the weighted deficit `0.4*(100-technical) + 0.3*(100-soft) + 0.2*(100-English) + 0.1*(100-IQ)`.
- **Sidebar filter** (`Filtering`). One boolean mask keeps the rows whose `Result` is among the selected outcomes, whose `financial_aid` and `english_level` equal the selectbox values (a value of `"All"` switches that test off), and whose `gpa` lies in the slider range with both ends included.
- **Outcome groups** (`Groups`). `available_results` lists the entries of the fixed display order `Accepted, pending, drop out` that occur in the filtered table. `mean_scores` holds each such group's mean of the four test scores.
- **High-risk table** (`TopRisk`). `nlargest(10, 'risk_score')` takes the ten highest-risk rows (`keep='first'`: among equal risks at the cut, the earlier rows). The model lists equal risks in row order, a stable order it fixes itself. The result is projected onto four columns and sorted again by descending risk.
- **Rates** (`Rates`). The acceptance and dropout rates are the percentage of the whole table with outcome `Accepted` or `drop out`.
- **Data flow** (`Dashboard`). The raw table is derived, then filtered, and every view reads the filtered table.

A table is a `seq<Row>`. A `Row` holds the untouched raw `Student` record and the two derived columns. Scores and GPAs are exact `real`s, and categorical columns are strings. The widget values are plain inputs: a `Criteria` value holds the outcome multiselect as a set, the two selectbox strings and the two slider ends. The source builds its results with vectorised library calls and list comprehensions, and it updates no state step by step. Every operation is therefore a pure function, specified by contracts and lemmas.

In three places the code does something a reader might not expect, and the model follows the code:

- The code has no range check on the GPA slider. A range with `lo > hi` matches nothing (`FilterEmptySelections`); it is not an error.
- The code compares the selectbox value with the literal string `"All"`. The model does the same, so it keeps no separate "no constraint" value.
- `len(...)/len(df)` raises `ZeroDivisionError` on an empty table. `RatePercent` returns `None` there.

## Model

| member | source | states |
|---|---|---|
| `Metrics.TotalScore` | app.py:25-26 | `total_score` lies between the smallest and largest of the four raw scores; four equal scores give that score |
| `Metrics.RiskScore` | app.py:27-30 | `risk_score` equals 100 minus the 0.4/0.3/0.2/0.1-weighted mean of the scores; raw scores in [0, 100] give a risk in [0, 100] |
| `Metrics.WeightsSumToOne` | app.py:27-30 | the four risk weights sum to exactly 1 |
| `Metrics.HigherScoresLowerRisk` | app.py:25-30 | raising any raw score never raises `risk_score` and never lowers `total_score` |
| `Metrics.AllEightyExample` | app.py:25-30 | scores 80, 80, 80, 80 give `total_score` 80 and `risk_score` 20 |
| `Metrics.Derive` | app.py:21-31 | feature engineering keeps the row count, and every output row's two new columns are computed from its own raw record |
| `Metrics.DeriveKeepsRawRows` | app.py:25-30 | dropping the derived columns gives back the input table exactly, row by row and in order |
| `Metrics.DeriveBounds` | app.py:25-30 | over a table with scores in [0, 100], every derived risk and total lies in [0, 100] |
| `Filtering.Filter` | app.py:56-61 | the filtered table is no longer than the input, and each of its rows is an input row that satisfies all four predicates |
| `Filtering.FilterAppend` | app.py:56-61 | the mask works row by row: filtering a concatenation concatenates the filtered parts |
| `Filtering.FilterSingleRow` | app.py:56-61 | a one-row table is kept exactly when its row satisfies all four predicates (with `FilterAppend` this fixes the output as the matching rows in input order) |
| `Filtering.FilterKeepsEveryMatch` | app.py:56-61 | no row that satisfies all four predicates is dropped |
| `Filtering.FilterCounts` | app.py:56-61 | a matching row appears in the result as many times as in the input, duplicates included, and a non-matching row not at all |
| `Filtering.FilterIsSubsequence` | app.py:56-61 | the filtered table is an order-preserving subsequence of the input |
| `Filtering.NarrowerMatches` | app.py:57-60 | a row selected by narrower criteria (fewer outcomes, a selectbox switched to "All" in the wider one, a GPA range inside the wider one) is selected by the wider criteria |
| `Filtering.FilterOfWiderFilter` | app.py:56-61 | filtering a widely filtered table with narrower criteria equals filtering the input with the narrower criteria |
| `Filtering.FilterIdempotent` | app.py:56-61 | filtering the filtered table again with the same criteria changes nothing |
| `Filtering.FilterMonotone` | app.py:56-61 | widening any criterion never removes a row: the narrow result is a subsequence of the wide one |
| `Filtering.FilterEmptySelections` | app.py:57-60 | an empty outcome selection or a GPA range with lo > hi yields an empty table, not an error |
| `Filtering.GpaBoundsInclusiveExample` | app.py:60 | GPAs 1.5, 2.0, 3.0, 4.0 under the range (2.0, 4.0) keep 2.0, 3.0, 4.0: both bounds are included |
| `Filtering.AcceptedOnlyExample` | app.py:57 | outcomes Accepted, Accepted, pending, drop out, drop out filtered to {Accepted} keep exactly the two Accepted rows, in order |
| `Groups.GroupRows` | app.py:112 | a group holds only input rows of its own outcome and is no longer than the table |
| `Groups.GroupRowsNonEmpty` | app.py:111 | a group has rows exactly when its outcome occurs in the table's `Result` column |
| `Groups.GroupRowsAppend` | app.py:112 | grouping a concatenation concatenates the groups of the parts |
| `Groups.AvailableResults` | app.py:111 | an outcome is listed exactly when it is in the display order and occurs in the table, so no group is made up |
| `Groups.AvailableResultsInOrder` | app.py:111 | the listed outcomes keep the display order's sequence |
| `Groups.AvailableResultsExample` | app.py:111 | rows drop out, Accepted, drop out list the groups Accepted, drop out: display order, not row order, and no pending |
| `Groups.Mean` | app.py:112 | the mean of a score column over a non-empty set of rows lies within any bounds of the values averaged |
| `Groups.PooledMean` | app.py:112 | the mean over two non-empty parts taken together, times the total row count, is the sum of each part's mean times its row count: it is the arithmetic mean |
| `Groups.GroupMean` | app.py:112 | a group's mean of a column lies within any bounds of that column over the table |
| `Groups.GroupMeanIgnoresOtherGroups` | app.py:112 | adding rows of other outcomes before and after the table leaves a group's mean unchanged: the mean is over that group's rows only |
| `Groups.GroupMeanIgnoresInsertedRow` | app.py:112 | inserting a row of another outcome at any position inside the table leaves a group's mean unchanged |
| `Groups.MeanScores` | app.py:111-112 | one entry per listed outcome, in display order, each holding the four score means of that outcome's rows in `score_cols` order |
| `Groups.MeanScoresWithin` | app.py:112 | scores in [0, 100] give group means in [0, 100] |
| `Groups.MeanScoresOfEmptyTable` | app.py:111-112 | an empty filtered table gives no groups and no means |
| `TopRisk.Insert` | app.py:176 | inserting a position into a ranked list keeps it ranked (higher risk first, then earlier row) and adds exactly that position |
| `TopRisk.RankPositions` | app.py:176 | the first k positions in rank order: each exactly once, each ranked strictly ahead of all later ones |
| `TopRisk.RankedPrefix` | app.py:176 | every position in the first m of a full ranking ranks ahead of every position left out |
| `TopRisk.NLargest` | app.py:176 | `nlargest(n, 'risk_score')` returns `min(n, len)` distinct row positions, sorted by descending risk with earlier rows first among ties (the model's stable order), and every row left out has a lower risk, or the same risk and a later position |
| `TopRisk.NLargestTieExample` | app.py:176 | risks 20, 30, 30 with n = 2 select the two 30s, the earlier one first |
| `TopRisk.InsertByRisk` | app.py:179 | inserting a row adds exactly that row and keeps a descending sequence descending |
| `TopRisk.SortByRiskDescending` | app.py:179 | `sort_values(..., ascending=False)` returns a permutation of its input in descending risk order |
| `TopRisk.SortKeepsDescendingRows` | app.py:176-179 | sorting rows that are already descending leaves them unchanged, so the re-sort of `nlargest`'s output changes nothing |
| `TopRisk.HighRisk` | app.py:176-179 | the high-risk table has `min(10, len)` rows, in descending risk, and row k shows the four columns of the k-th row chosen by `nlargest` |
| `TopRisk.HighRiskOfEmptyTable` | app.py:176-179 | an empty filtered table gives an empty high-risk table |
| `Rates.RatePercent` | app.py:188-189 | the rate is missing only for an empty table; otherwise it lies in [0, 100], is 0 exactly when the outcome does not occur, and is 100 exactly when every row has it |
| `Rates.GroupRowsAll` | app.py:188-189 | an outcome's rows are the whole table exactly when every row has that outcome |
| `Rates.DisjointGroupsFit` | app.py:188-189 | rows of two different outcomes together number at most the table's rows |
| `Rates.AcceptancePlusDropoutAtMostAll` | app.py:188-189 | on a non-empty table the acceptance rate plus the dropout rate is at most 100 percent |
| `Dashboard.FilteredTable` | app.py:56-61 | every row of `filtered_df` carries correctly derived columns and satisfies the criteria, each derived row that satisfies the criteria appears as often as in the derived table and no other row appears, and the filtered rows are a subsequence of the derived table, so they are exactly the matching rows in order |
| `Dashboard.HighRiskRowsAreSelected` | app.py:176-179 | every student in the high-risk table comes from a raw record whose filtered row satisfies the criteria, for any raw table; when the raw scores lie in [0, 100], every listed risk lies in [0, 100] |
| `Dashboard.EmptySelectionEmptiesEveryView` | app.py:56-61 | criteria that select nothing give an empty filtered table, no groups, no means and no high-risk rows, without failing |

`Rates.AcceptanceRate` and `Rates.DropoutRate` are `RatePercent` at `"Accepted"` (app.py:53 and 188) and at `"drop out"` (app.py:189).

## Left out

- Streamlit page layout, sidebar widgets, tabs, every Plotly chart, the markdown insight text and the date footer (app.py:13-17, 41-52, 64-232, 235-240). These are presentation over libraries outside the model. The widget values only enter the model as `Criteria`.
- The multiselect's value is a list in the source and a set here. `isin` only asks whether an outcome is in the list, so order and repeats do not matter.
- Reading the CSV file (app.py:22), the CSV export and the download button (app.py:242-250): file I/O.
- The `@st.cache_data` memoisation (app.py:20): framework behaviour that does not change any result.
- The correlation matrix (app.py:131): floating-point Pearson correlation, with NaN for a column of zero variance.
- Floating point and missing values. Scores are exact reals, and every row is assumed to have all four scores and a GPA. pandas `mean` skips NaN, in each row (app.py:25-26) and in each group (app.py:112); that is not modelled. The float results of the source only approximate the equalities proved here.
- The transpose `.T` of `mean_scores` (app.py:112) only changes the layout for the chart. `MeanScores` keeps one entry per outcome.
- `TopRisk.NLargest`: which rows are chosen follows `keep='first'` exactly, but the order of equal risks within the result is a stable order (earlier row first) that the model fixes. pandas does not promise that order: with `n` at least the number of rows, `nlargest` falls back to `sort_values`, whose default quicksort is not stable.
- `TopRisk.SortByRiskDescending`: modelled as a stable sort. The default quicksort of `sort_values` (app.py:179) does not promise the order of equal risks, so the model's order among them is its own choice.
- `TopRisk.HighRisk`: the order of students with equal risk in the shown table is the model's stable order from `NLargest` and `SortByRiskDescending`; pandas may list them in another order. The set of rows shown and their descending risk order are as in the source.
- The row index labels that `nlargest` keeps are modelled as positions in the filtered table (`NLargest` returns positions).
- The one-decimal formatting of the rates and the "Total Students" count (app.py:52-53, 188-189) are display only.
- The uniqueness of `student_id` is not used by any operation and is not modelled.
