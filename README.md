# Feature-utility preparation of AutomatEDA, in Dafny

AutomatEDA is a Streamlit app for exploratory data analysis. One panel of it
ranks the columns of an uploaded table by how much they tell about a chosen
target column. This project models that panel's data pipeline in `app.py`,
lifted out of the page code into operations that take the table, the target
name, the target type and the exclusion list as parameters:

- **cleaning** (`cleaning.dfy`): drop the rows whose target is missing; drop
  the target and the excluded columns; drop the rows with any missing feature;
  realign the target to the surviving rows. `total_nulls` accumulates the
  number behind the "Removed N rows" warning.
- **label encoding** (`encoding.dfy`, `scoring.dfy`): `factorize` codes for
  every object or category column, and for a categorical target. Then the
  discreteness flags handed to the mutual-information estimator.
- **ranking** (`ranking.dfy`): the score Series indexed by the feature columns
  and sorted highest first, and the ascending order the bar plot draws.
- **the panel** (`scoring.dfy`, `FeatureUtility`): the steps above chained,
  with the warning shown exactly when `total_nulls > 0`.

Tables are values (`frames.dfy`). A frame is a list of columns with their
dtypes, a row index, and one dictionary per row from column name to cell, with
`None` for a missing cell. Freshly loaded tables carry the index 0..n-1, which
is what makes the `iloc` realignment at app.py:143 correct. The estimator
(`mutual_info_classif` / `mutual_info_regression`) is a function parameter.
The model records the request it receives and ranks whatever it returns.

What the code does rather than what its message says: `total_nulls` starts as
the number of missing target cells, which equals the number of rows the first
pass removes. It then grows by the number of missing feature *cells* in the
remaining rows, not by the number of rows the second pass removes. The model
states this as written. `PreparedFrom` and `SecondPassBound` prove that the
count is at least the number of removed rows. They also prove it equals that
number exactly when no row misses two or more feature cells.
`CountIsCellsNotRows` gives a one-row instance where the two differ.

Behaviour of the code worth noting:

- Nothing in the code checks for an empty feature set or for no rows left
  after cleaning. Those cases reach the estimator unchanged.
- `drop` raises KeyError when an excluded name is not a column of the frame
  left after dropping the target. That includes the target itself.
- `sort_values` is not stable, so nothing is claimed about the order of equal
  scores.

## Model

| member | source | states |
|---|---|---|
| Frames.Drop | app.py:137 | `drop(labels, axis=1)` fails with a KeyError naming an absent label exactly when some label is not a column; otherwise the remaining columns keep their order, the index is unchanged and each row loses exactly the dropped cells |
| Frames.KeepRows | app.py:130 | a `dropna` row selection keeps the selected rows unchanged, in their original order, together with their index labels, and stays well formed |
| Frames.Iloc | app.py:143 | `iloc` fails with IndexError exactly when a position is out of bounds; otherwise the k-th result is the element at the k-th position |
| Frames.MissingIn | app.py:141 | the count of missing cells of a row is zero exactly when the row is complete and never exceeds the number of cells |
| Frames.FilterOutKeepsOrder | app.py:137 | dropping columns is a selection that keeps the remaining columns in their original order |
| Frames.FilterOutTwice | app.py:137 | dropping the target and then the excluded columns leaves the same columns as dropping their union at once |
| Cleaning.PrepareFeatures | app.py:130-143 | the cleaning block: KeyError exactly when the target is not a column or an excluded name is the target or not a column; otherwise the features are the other columns in order, the survivors are exactly the rows with a target and no missing feature, in order and unchanged, the target is realigned row for row with no missing value, and `total_nulls` is the per-row sum, at least the rows removed and equal to them exactly when no row with a target misses two or more feature cells |
| Cleaning.FirstPassRemoved | app.py:130-131 | the initial `total_nulls`, the missing target cells, plus the rows the first pass keeps is the number of loaded rows |
| Cleaning.SecondPassBound | app.py:141-142 | the missing cells added by the second pass are at least the rows it removes, and equal exactly when every row misses at most one cell |
| Cleaning.TwoPassNulls | app.py:130-141 | missing targets plus missing feature cells of the first pass's survivors add up to the per-row contributions of the loaded table |
| Cleaning.TwoPassSurvivorCount | app.py:130-142 | the rows left after both passes plus the rows with a positive contribution make up all loaded rows |
| Cleaning.SurvivingRows | app.py:130-142 | every surviving row is a loaded row with its target present, without the target and excluded cells, and with no missing cell |
| Cleaning.SurvivorsExactly | app.py:130-142 | a loaded row survives both passes exactly when its target is present and none of its feature cells is missing |
| Cleaning.SurvivorsInBounds | app.py:142-143 | the surviving index labels are increasing positions of the loaded table, so the `iloc` realignment never fails |
| Cleaning.TargetRealigned | app.py:143 | the realigned target has one cell per surviving row, the target cell of that row |
| Encoding.Uniques | app.py:154 | the uniques of a column are distinct and are exactly the values present in it |
| Encoding.Factorize | app.py:154-158 | `factorize` gives one code per cell, -1 exactly for a missing cell, every other code an index into distinct uniques, and reading the codes back through the uniques gives the column again |
| Encoding.FirstAppearance | app.py:154 | a value first seen at position k gets the number of distinct values before k as its code; a value seen earlier gets an earlier code |
| Encoding.SameCodeIffSameValue | app.py:154 | two present cells get the same code exactly when they hold the same value |
| Encoding.CodesCoverUniques | app.py:154 | every code from 0 to the number of distinct values minus one is used |
| Ranking.SortValues | app.py:163-167 | `sort_values` returns a permutation of the entries in the requested order |
| Ranking.InsertSorted | app.py:163-167 | proof step of the `SortValues` model, not an operation of pandas (whose sort algorithm is not modelled): placing an entry before the first entry it may precede keeps a sorted sequence sorted |
| Ranking.InsertPermutes | app.py:163-167 | proof step of the `SortValues` model, not an operation of pandas: placing an entry adds exactly that entry to the sequence, so the model's sort is a permutation |
| Ranking.SortNames | app.py:162-163 | sorting moves each column name together with its score, so the names are permuted and none is lost or repeated |
| Ranking.Rank | app.py:162-163 | building the score Series fails with a length mismatch exactly when there are not as many scores as columns; otherwise it is a permutation of the (column, score) pairs in non-increasing score order |
| Ranking.RankIsPermutation | app.py:162-163 | the ranking names every feature column exactly as often as the columns do, each with its own score |
| Ranking.RankNonNegative | app.py:159-163 | non-negative estimator scores stay non-negative in the ranking |
| Ranking.PlotOrder | app.py:167 | the plot order is a permutation of the ranking in non-decreasing score order |
| Ranking.PlotReversesRanking | app.py:167-172 | without ties, the plot order is the ranking reversed, so the top-ranked feature is the last, topmost bar |
| Ranking.StrictlySortedUnique | app.py:163-167 | without ties there is only one ordering of a set of scores, so the sort order is determined |
| Scoring.EncodeCategoricals | app.py:151-154 | the encoding loop leaves the index and every non-categorical column unchanged and turns each object or category column into an `int64` column of its factorize codes |
| Scoring.EncodedValid | app.py:151-154 | the encoded copy is a well-formed frame with the same column names in the same order |
| Scoring.DiscreteFlags | app.py:156 | `discrete_features` has one flag per column, true exactly for an `int64` column |
| Scoring.EncodeTarget | app.py:157-158 | a categorical target becomes its `factorize` codes, one per cell, -1 exactly for a missing cell and otherwise the position of the cell's value among the uniques; any other target is passed on unchanged |
| Scoring.EncodedDiscrete | app.py:155-156 | after encoding, a column is flagged discrete exactly when it was an integer or a categorical column |
| Scoring.EncodedCodes | app.py:153-154 | on cleaned features, every encoded categorical cell is a code in 0..k-1 (never -1), equal exactly when the original values are equal |
| Scoring.EncodedTargetCodes | app.py:157-158 | a categorical target without missing values becomes codes in 0..k-1 that are equal exactly when the classes are equal |
| Scoring.MakeMiScores | app.py:150-164 | `make_mi_scores` asks the classifier exactly for a categorical target, with the encoded features, the encoded target, the integer-dtype flags and random state 0, and returns the ranking of the estimator's scores by feature column |
| Scoring.DecimalRoundTrip | app.py:183 | the decimal digits an f-string prints for a count read back as that count |
| Scoring.Warning | app.py:182-183 | the warning is shown exactly when `total_nulls > 0` |
| Scoring.WarningReportsCount | app.py:183 | the warning's number is `total_nulls` in decimal, between "Removed " and " rows with missing values." |
| Scoring.CountIsCellsNotRows | app.py:141 | a row with its target but two missing feature cells is removed once but adds 2 to the count reported as rows |
| Scoring.FeatureUtility | app.py:129-193 | the panel: KeyError exactly when cleaning raises it, and otherwise only a length mismatch when scores are shown, and never one when the estimator returns one score per feature column, as scikit-learn does; the cleaned data as `PrepareFeatures` states, the warning, present exactly when `total_nulls > 0`, is the `Warning` text for `total_nulls` ("Removed ", the count in decimal, " rows with missing values."), and when asked, an estimator request made of the encoded cleaned features, the integer-dtype flags, the classifier exactly for a categorical target, the encoded target and random state 0, with a non-increasing ranking of its scores that permutes the (feature, score) pairs and a non-decreasing plot order that permutes the ranking |

## Left out

- The Streamlit page: setup, widgets, sidebar, messages and layout. The target, target type, exclusion list and the "show ranking" checkbox become parameters.
- Loading the CSV from an upload or an example path, and `read_csv`'s dtype inference. The loaded table, with its dtypes and its 0..n-1 index, is the input.
- `ProfileReport` / `st_profile_report`: a foreign library with no logic visible in the app.
- The internals of `mutual_info_classif` / `mutual_info_regression`: floating-point, randomised nearest-neighbour estimators. They are a function parameter, and only the length of what they return is checked (by the Series constructor). Their own input validation is not modelled: an empty feature set or no rows left raise inside scikit-learn.
- Matplotlib figure construction: only the ascending bar order is kept.
- The `removed_features is None` branch (app.py:138-139): `multiselect` always returns a list, and that branch is the same as excluding nothing.
- Floating-point scores are modelled as real numbers. Missing cells are one marker; NaN and None are not told apart.
- Encoding.Factorize: values are compared by model equality. In an object column Python treats `1`, `1.0` and `True` as equal and gives them one code; the model gives them separate codes.
- Ranking.SortValues: pandas' default sort is not stable, so the order of equal scores is not stated. Any permutation in the requested order satisfies the contract.
- Scoring.FeatureUtility: the ranking Series itself is not displayed by the app, only the plot; the model returns both.
