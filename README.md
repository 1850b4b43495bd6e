# HR attrition dashboard: filter and attrition summaries

The dashboard loads one employee table and lets the user narrow it from the
sidebar: a Department multiselect, a Gender multiselect and an Age range
slider. Every chart is drawn from the filtered rows. This project models the
part of `app.py` that holds logic:

- the sidebar defaults, which select every distinct non-null Department and
  Gender and the full Age range;
- the three-stage filter. A row survives when its Department is among the
  selected values (checked only if the table has that column), its Gender
  likewise, and its Age lies in the inclusive range;
- the overall Attrition distribution, `value_counts(normalize=True) * 100`;
- the per-Department and per-Gender rate tables,
  `crosstab(..., normalize='index') * 100`. Each is drawn only when the
  column exists.

All of it is pure, so the model is functions over immutable values plus
lemmas. A table is a `Table(schema, rows)`. The schema records which optional
columns the file has. A missing cell is `None`. Percentages are exact reals
(`count * 100 / rows`), not floats. Because Dafny values are immutable,
filtering cannot change the loaded table, which the source gets from
`df.copy()`.

Modules: `Wrappers` (Option, Result), `Seqs` (order-preserving selection,
subsequences, de-duplication), `Employees` (records, schema, table, errors),
`Filter`, `Defaults`, `Aggregation`, `Scenario` (a worked five-row example).

Behaviour at the edges, as the code has it:

- Clearing a multiselect does not lift the restriction: `isin([])` matches
  nothing, so an empty Department or Gender selection empties the result
  when that column exists (`Filter.ApplyFilterEmpty`).
- The filter itself turns an empty table into an empty result with no error.
  The slider bounds are computed first, though, and `int()` of the minimum of
  an empty or all-null Age column raises, so `Defaults.DefaultSpec` fails
  with `NoAgeValues` there.
- `df['Age']` is read unconditionally, so a table without an Age column fails
  (`MissingAgeColumn`) instead of skipping the Age check.

## Model

| member | source | states |
|---|---|---|
| `Filter.ApplyFilter` | app.py:35-40 | fails exactly when the table has no Age column; otherwise keeps the schema, and a row is in the result iff it is in the input, its Department is selected (when the column exists), its Gender is selected (when the column exists) and its Age is non-null and within the inclusive range |
| `Filter.ApplyFilterIsOneSelection` | app.py:35-40 | the three staged selections equal one order-preserving pass with the conjunction of the three conditions, so the order of the stages does not matter |
| `Filter.ApplyFilterPreservesOrder` | app.py:35-40 | the filtered rows are a subsequence of the loaded rows, in their original order |
| `Filter.ApplyFilterIdempotent` | app.py:35-40 | filtering the filtered table again with the same selections returns the same table |
| `Filter.ApplyFilterEmpty` | app.py:36-40 | an inverted age range, an empty table, or an empty Department or Gender selection on an existing column gives an empty result and no error |
| `Filter.ApplyFilterMonotone` | app.py:37-40 | with selections that are subsets and an age range inside the old one (or inverted), the result is a subsequence of the old result and no longer |
| `Seqs.Select` | app.py:37-40 | a boolean-mask selection keeps exactly the rows that pass, is never longer than its input |
| `Seqs.Unique` | app.py:26 | `unique()` yields each value present exactly once and nothing else |
| `Employees.NonNull` | app.py:26 | `dropna()` of a column yields exactly the values some row holds there |
| `Defaults.Options` | app.py:26-32 | a multiselect's options and default are the distinct non-null values of its column, each once, and none when the column is absent |
| `Defaults.MinAge` | app.py:29 | `min()` of Age skips nulls: none iff every Age is null, otherwise an Age some row has and no larger than any Age |
| `Defaults.MaxAge` | app.py:29 | `max()` of Age skips nulls: none iff every Age is null, otherwise an Age some row has and no smaller than any Age |
| `Defaults.DefaultSpec` | app.py:25-32 | the default selections fail iff there is no Age column (`MissingAgeColumn`) or no non-null Age (`NoAgeValues`); otherwise both multiselects select all their options and the range runs exactly from the smallest to the largest known Age |
| `Defaults.DefaultFilterDropsOnlyNulls` | app.py:26-40 | under the default selections the filter removes exactly the rows with a null Age, or a null Department or Gender in an existing column, keeping order |
| `Defaults.DefaultFilterKeepsCompleteTable` | app.py:26-40 | under the default selections a table without such nulls comes back unchanged |
| `Aggregation.CountOf` | app.py:49 | the number of rows with a given Attrition value is at most the row count, and positive iff some row has that value |
| `Aggregation.Levels` | app.py:49 | the distinct Attrition values are each present value exactly once |
| `Aggregation.ValueCounts` | app.py:49 | `value_counts()` has one entry per distinct Attrition value present, each with its positive number of rows |
| `Aggregation.ValueCountsSumToRows` | app.py:49 | the value counts add up to the number of rows |
| `Aggregation.Percent` | app.py:49 | a share of a non-empty total as a percentage lies in 0..100 and is 100 for the whole |
| `Aggregation.Normalize` | app.py:49 | normalising keeps every key and turns each count into its percentage of the total |
| `Aggregation.AttritionRate` | app.py:49 | the normalised distribution is empty iff there are no rows, has each present Attrition value once, and gives each its share of the rows in percent |
| `Aggregation.AttritionRateSumsTo100` | app.py:49 | over a non-empty table the attrition percentages add up to 100 |
| `Aggregation.Members` | app.py:90 | a group's rows are exactly the rows holding that group value |
| `Aggregation.GroupRates` | app.py:90 | the rate table has one row per given group, each row with exactly the given Attrition columns |
| `Aggregation.CrossTab` | app.py:90 | one row per distinct non-null group value, each row with exactly the Attrition values found among rows with a non-null group, each once |
| `Aggregation.CrossTabAt` | app.py:90 | each row of a rate table belongs to a non-empty group, and each cell is the percentage of that group's rows having the column's Attrition value (0 where the group has none) |
| `Aggregation.GroupRatesAt` | app.py:90 | each table row holds the percentages of the rows of its group, and that group is non-empty |
| `Aggregation.GroupRowSumsTo100` | app.py:90 | a group's percentages add up to 100 when its Attrition values are among the columns |
| `Aggregation.CrossTabRowsSumTo100` | app.py:89-96 | every row of a Department or Gender rate table adds up to 100 |
| `Aggregation.RateTable` | app.py:88-96 | a rate table is produced iff the table has the grouping column, and then its rows are the distinct non-null values of that column |
| `Scenario.FilterKeepsInclusiveRange` | app.py:40 | on ages 25, 30, 35, 40, 45 the range 30..40 keeps exactly 30, 35 and 40, in order |
| `Scenario.RateOfMidCareer` | app.py:49 | on one "Yes" among three rows the distribution is 200/3 percent "No" and 100/3 percent "Yes" |

## Left out

- Page setup, widgets, tables, charts and the download button: presentation only, with no logic.
- Reading the CSV and its cache: file I/O and a library decorator. The model takes the table as an input value.
- Serialising the filtered table with `to_csv`: pandas serialisation, not visible here.
- The correlation heatmap: floating-point numerics inside pandas `corr()`.
- The pairplot, histograms, box plots and scatter plots: binning and drawing are done by the plotting libraries.
- The two-decimal formatting of the rate tables: presentation only.
- Age as a float and the `int()` truncation of its bounds: Age is an integer here, so the default range is the full range.
- Null Attrition values: Attrition is a required, never-null string here, so no row is dropped by `value_counts` or `crosstab` for a missing Attrition.
- Aggregation.ValueCounts: keeps the first-appearance order, not pandas' order by decreasing count, because the order only matters to the pie chart.
- Aggregation.CrossTab: keeps the first-appearance order of groups and Attrition columns, not pandas' sorted labels, because the order only matters to display.
- Column dtypes: Department and Gender are treated as text, and `isin` as membership in the selected list.
