# Crop-yield explorer: the logic under the dashboard

`app.py` is a Streamlit page over a cleaned FAO crop-yield table. The user picks
a country, a crop, a range of historical years and a year to predict. The page
charts the matching history and asks a pre-trained regressor for one yield
estimate. Beneath the widgets there are three pieces of plain logic, and this
project models and proves them:

- **Option lists** (`options.dfy`). `country_list` and `crop_list` come from the
  one-hot column names (`Area_<country>`, `Item_<crop>`). The code keeps the
  columns with that prefix, removes the prefix with `str.replace` (which removes
  *every* occurrence, not just the leading one) and sorts the result. `years` is
  the sorted list of distinct `Year` values, and the slider starts at its first
  and last entries.
- **History filter** (`history.dfy`). It keeps the rows whose `Area_<country>`
  and `Item_<crop>` cells are `True` and whose year lies in `[year_min, year_max]`,
  both ends included, in table order. A missing column raises `KeyError`.
- **Feature row** (`features.dfy`). It averages the three numeric covariates over
  the history (NaN when there is nothing to average). It then builds the dict
  `X_new`: `Year` is set to the prediction year, the averages are merged in, and
  two loops set every `Item_*` and `Area_*` column to 1 for the selected one and
  0 for the others.

Supporting modules: `wrappers.dfy` (Option and Result, for NaN and exceptions),
`seqs.dfy` (list comprehension with a condition, `unique` and `sorted`, with
their ordering and permutation lemmas), `strings.dfy` (`startswith`,
`replace(p, "")`, Python's string order) and `dataset.dfy` (the table, its
rows and the column-name constants).

Representation: a row is `Row(year, flags, nums)`. `flags` maps one-hot column
names to booleans and `nums` maps numeric column names to values. A column
missing from a map stands for a NaN cell. `== True` is false on such a cell, and
`mean` skips it. The feature row is a `map<string, Value>`, where a `Value` is
`Int`, `Real` or `NaN`. Python's exceptions become `Result.Failure(KeyError(column))`.

Three behaviours of the code are easy to misread, and the model follows the
code in each:

- `replace` strips every occurrence of the prefix, not only a leading one;
- the option lists are not de-duplicated;
- a country or crop without a column raises pandas' `KeyError`.

`Options.RepeatedPrefixExample` shows the first two together: the columns
`Area_X` and `Area_Area_X` both become `X`, so `X` is offered twice.
`History.ListedCountryFails` shows the third reached from a listed name: `X`
is offered for the column `Area_Area_X`, but filtering on it looks up
`Area_X` and fails. `Options.CategoryListDistinct` and
`Options.SelectionRoundTrip` show that none of this matters for "canonical"
headers, where no prefixed column repeats its prefix, together with a header
that repeats no column. The second condition always holds for the real table,
because `pd.read_csv` renames a repeated header name (`X`, `X.1`, ...), so
`Seqs.Distinct(columns)` is stated as an assumption about the loaded table
rather than something the dashboard checks.

## Model

| member | source | states |
|---|---|---|
| `Seqs.Filter` | app.py:21 | a conditional list comprehension keeps only elements of its input that satisfy the condition, and never more elements than the input has |
| `Seqs.FilterMembership` | app.py:21 | an element is kept exactly when it is in the input and satisfies the condition |
| `Seqs.FilterAppend` | app.py:49 | filtering preserves order: it distributes over concatenation |
| `Seqs.FilterNone` | app.py:44-49 | a condition that no element meets gives the empty sequence |
| `Seqs.FilterDistinct` | app.py:21 | filtering a duplicate-free sequence gives a duplicate-free sequence |
| `Seqs.Unique` | app.py:29 | `unique` returns a duplicate-free sequence holding exactly the elements of its input |
| `Seqs.UniqueElements` | app.py:29 | a value is in `unique(s)` exactly when it is in `s` |
| `Seqs.Insert` | app.py:22 | one insertion step of the sort adds exactly the inserted element (multiset) |
| `Seqs.Sort` | app.py:22 | `sorted` returns a permutation of its input (multiset equality) |
| `Seqs.InsertSorted` | app.py:22 | inserting into an ordered sequence under a total preorder keeps it ordered |
| `Seqs.SortSorted` | app.py:22 | under a total preorder, the result of `sorted` is ordered |
| `Seqs.SortedUnique` | app.py:22 | two ordered permutations of the same elements are equal under an antisymmetric order, so the sort's result is the only possible one |
| `Seqs.PermutationDistinct` | app.py:29 | a permutation of a duplicate-free sequence is duplicate-free |
| `Strings.RemoveAll` | app.py:22 | `replace(p, "")` never lengthens the string |
| `Strings.RemoveAllAbsent` | app.py:22 | where the pattern does not occur, `replace` returns the string unchanged |
| `Strings.StripPrefix` | app.py:22 | removing the prefix from prefix + x returns x when the prefix does not occur in x |
| `Strings.LexLeTotal` | app.py:22 | Python string order is total |
| `Strings.LexLeTransitive` | app.py:22 | Python string order is transitive |
| `Strings.LexLeAntisymmetric` | app.py:22 | Python string order is antisymmetric |
| `Options.PrefixedColumns` | app.py:21 | `area_cols`/`item_cols` are columns of the table that start with the prefix, no more of them than there are columns |
| `Options.Stripped` | app.py:22 | the stripped names are one per prefixed column, each no longer than its column; a column that starts with the prefix and has no further occurrence of it is the prefix followed by its name, and a column without the prefix keeps its name |
| `Options.CategoryList` | app.py:21-22 | `country_list`/`crop_list` are sorted ascending, hold exactly the stripped names of the prefixed columns (a permutation), and have one entry per prefixed column |
| `Options.CountryList` | app.py:21-22 | `country_list` is sorted, has one entry per `Area_` column, and is a permutation of those columns' stripped names |
| `Options.CropList` | app.py:25-26 | `crop_list` is sorted, has one entry per `Item_` column, and is a permutation of those columns' stripped names |
| `Options.PrefixedColumnsMembership` | app.py:21 | `area_cols`/`item_cols` hold exactly the columns that start with the prefix |
| `Options.CategoryListMembership` | app.py:25-26 | a name is offered exactly when some prefixed column, with every occurrence of the prefix removed, equals it |
| `Options.SelectionRoundTrip` | app.py:22-23 | for canonical headers, each offered name with the prefix put back in front is one of the prefixed columns |
| `Options.UnlistedHasNoColumn` | app.py:25-26 | for canonical headers, a name that is not offered has no column |
| `Options.CategoryListDistinct` | app.py:21-22 | for canonical headers without repeated columns, the option list has no duplicates |
| `Options.RemoveRepeatedPrefix` | app.py:22 | `replace("Area_", "")` turns both `Area_X` and `Area_Area_X` into `X` |
| `Options.RepeatedPrefixExample` | app.py:21-22 | for the header `Area_X`, `Area_Area_X` the country list is `["X", "X"]`: a duplicate entry |
| `Options.YearList` | app.py:29 | `years` is strictly increasing and holds exactly the years that occur in the table |
| `Options.YearsOfRows` | app.py:29 | `df["Year"]`, modelled by `Options.Years`, holds exactly the years of the rows |
| `Options.SortDistinctYears` | app.py:29 | sorting distinct years gives a strictly increasing sequence with the same years |
| `Options.DefaultRange` | app.py:33 | `(years[0], years[-1])` exists exactly when `years` is non-empty; both ends are entries of `years`, and on a strictly increasing `years` every entry lies between them |
| `Options.DefaultRangeSpansData` | app.py:29-34 | the default range `(years[0], years[-1])` exists exactly when the table has rows; both ends are years that occur, the first is no greater than the last, and every row's year lies between them |
| `History.FilterHistory` | app.py:44-49 | fails with `KeyError` on `Area_<country>` first and then on `Item_<crop>` exactly when that column is missing; on success, every row it returns is a table row that meets the mask `History.Matches` (both flags true, a NaN flag counting as false, and the year in `[year_min, year_max]`) |
| `History.HistoryComplete` | app.py:44-49 | every table row that meets all three conditions is in the history |
| `History.HistoryInOrder` | app.py:49 | the history keeps the table's row order |
| `History.EmptyRangeEmptyHistory` | app.py:47 | a range with `year_min > year_max` gives an empty history, not an error |
| `History.UnlistedSelectionFails` | app.py:44-46 | for canonical headers, a country or crop that the lists do not offer makes the filter fail |
| `History.ListedSelectionSucceeds` | app.py:44-46 | for canonical headers, any listed country and crop can be filtered on |
| `History.ListedCountryFails` | app.py:21-45 | for the header `Area_Area_X`, `Item_Y`, `X` is in `country_list`, yet filtering on it fails with `KeyError("Area_X")` |
| `Features.Mean` | app.py:59 | the mean is undefined (NaN) exactly when there are no values |
| `Features.MeanBounds` | app.py:59 | a defined mean lies between any lower and upper bound of the values |
| `Features.ColumnValues` | app.py:59 | the averaged values are non-NaN cells of that column: as many as the history rows that have the cell, every such row's cell included, and each value a cell of some history row |
| `Features.ColumnValuesCount` | app.py:59 | each value is averaged exactly as many times as history rows have it as their cell in that column, so the multiset that `mean` sees is fixed |
| `Features.Averages` | app.py:58-59 | `avg_vals` fails exactly when some feature is not a column, with `KeyError` on the first such feature in list order; otherwise its keys are exactly the features, each mapped to the mean of its column over the history |
| `Features.SetOneHot` | app.py:66-69 | a one-hot loop writes 1 to the selected column and 0 to every other listed column, adds exactly those keys, and leaves every other key unchanged |
| `Features.AssembleFeatures` | app.py:62-69 | `X_new` has exactly the keys `Year`, the averages, `item_cols` and `area_cols`; area columns are one-hot for `Area_<country>`; item columns are one-hot for `Item_<crop>`; averages and `Year` keep their values unless a later write overrides them |
| `Features.OneHotSum` | app.py:66-69 | over duplicate-free columns, the one-hot cells sum to 1 when the selected column is among them and to 0 otherwise |
| `Features.ColumnKinds` | app.py:58-69 | `Year`, the three covariates, the item columns and the area columns are disjoint, so no loop overwrites `Year` or an average |
| `Features.PredictionInput` | app.py:44-69 | the page flow fails exactly when the country, crop, `hg/ha_yield` or a covariate column is missing, with `KeyError` on the first in the order `Area_<country>`, `Item_<crop>`, `hg/ha_yield`, then the first missing covariate; on success `Year` equals `predict_year` whatever the history is, the key set is `Year`, the covariates, `item_cols` and `area_cols`, both one-hot groups are set for the selection, and each covariate is the mean over the filtered history |
| `Features.ExactlyOneHot` | app.py:66-69 | when the selected columns exist and the header has no repeated column, exactly one country column and exactly one crop column are 1 |
| `Features.ListedSelectionExactlyOneHot` | app.py:21-27 | for a canonical header without repeated columns, a country and crop taken from `country_list` and `crop_list` give exactly one country column and exactly one crop column set to 1 |

## Left out

- Streamlit presentation (app.py:18-20, 23, 27, 30-41, 52-54, 74-75): the widgets, title, chart and metric. The slider's and number input's bounds on the years are not modelled. The model takes the selection as parameters. Two consequences are not modelled: `selectbox` shows the first option by default, and it returns `None` on an empty list.
- Loading the CSV and the joblib model, and the `@st.cache` decorators (app.py:6-15): file I/O and framework caching. The table is a parameter.
- `pd.DataFrame([X_new])` and `model.predict` (app.py:71-72): a library wrapper and a foreign XGBoost call. Because of this, the DataFrame's column order (the dict's insertion order) is not modelled. The feature row is a map, so only its keys and values are.
- Features.Mean: computes the exact rational mean over `real`, not IEEE floating point. Rounding and float NaN semantics are not modelled. NaN is a separate `Value`.
- The chart of `history.set_index("Year")["hg/ha_yield"]` (app.py:54): presentation. Its lookup of `hg/ha_yield` is modelled, as a `KeyError` when the column is missing, but rows do not keep the target's values.
- `df["Year"]` cannot fail in the model, because every row carries a year. A table without a `Year` column is not modelled.
- Strings.RemoveAll: its contract states only that the result is no longer than the input. What it removes is stated by `Strings.RemoveAllAbsent` and `Strings.StripPrefix` and, for a repeated prefix, by `Options.RepeatedPrefixExample`.
