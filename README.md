# Consumption imputation, modelled in Dafny

This project models `imputar_datos_consumo`, the routine that fills missing
values in the energy-consumption columns of a time-indexed table before the
exploratory charts are drawn. The routine copies the table and then, for each
requested column:

- if the column has no observed value, fills every cell with 0;
- otherwise sets every missing cell up to the first observation to 0, and
  fills the column from that observation on by linear interpolation over row
  positions; with `limit_direction='both'` a run of missing cells after the
  last observation takes that observation's value.

Files:

- `wrappers.dfy`: `Option` (a missing cell is `None`) and `Result`.
- `series.dfy`: the column operations the routine calls, stated over row
  positions: `first_valid_index`, `fillna` and
  `interpolate(method='linear', limit_direction='both')`.
- `imputation.dfy`: `ImputeColumn`, the routine's per-column rule built from
  those operations exactly as the routine composes them (zero the slice up to
  the first observation, then interpolate the slice from it on). `PolicyAt` is
  a cell-by-cell statement of the documented fill policy that does not mention
  the two slices. The lemma `ImputeColumnFollowsPolicy` proves the two agree,
  and the other lemmas derive the documented properties from it. The module
  `ImputationExamples` works four concrete columns through those lemmas.
- `data_loader.dfy`: `ImputeConsumption`, the table-level routine. It makes a
  fresh array holding a copy of the table and loops over the requested
  columns, rewriting one column of the copy per step. `ImputeTable` is the
  table it must produce.

A column is `seq<Option<real>>`, and so is the imputed column. The table's
column type does not change, so "no missing cell remains" is a proved property
rather than a consequence of the result type. Values are exact reals.

When a column index appears twice in the request, the loop imputes the
already-imputed column again. The loop invariant holds across that step only
because imputation is idempotent, and the proof uses that lemma.

## Model

| member | source | states |
|---|---|---|
| `Series.NextValidFrom` | 01_data_preparation/src/data_loader.py:33 | the position found is at or after p, inside the column, and observed (`first_valid_index` is the case p = 0) |
| `Series.NextValidFromSpec` | 01_data_preparation/src/data_loader.py:33 | every cell between p and the position found is missing; none is found only when every cell from p on is missing |
| `Series.FirstValidIndex` | 01_data_preparation/src/data_loader.py:33 | the position `first_valid_index` finds is inside the column and observed |
| `Series.FirstValidIndexSpec` | 01_data_preparation/src/data_loader.py:33 | every cell before that position is missing, and none is found exactly when every cell is missing (the branch at :35 and :44) |
| `Series.FillNa` | 01_data_preparation/src/data_loader.py:38-46 | `fillna(0)` keeps the length and every observed cell, and every missing cell becomes the fill value |
| `Series.FillNaIdempotent` | 01_data_preparation/src/data_loader.py:38-46 | after `fillna` no cell is missing, so a second `fillna` with any value changes nothing |
| `Series.LastValidBefore` | 01_data_preparation/src/data_loader.py:41-43 | the position found is before p and observed |
| `Series.LastValidBeforeSpec` | 01_data_preparation/src/data_loader.py:41-43 | every cell between the position found and p is missing; none is found only when every cell before p is missing |
| `Series.Lerp` | 01_data_preparation/src/data_loader.py:41-43 | the interpolation line passes through both observations: at the left observation's position it gives that value, at the right one the other |
| `Series.InterpolateAt` | 01_data_preparation/src/data_loader.py:41-43 | the interpolated cell keeps an observed value, and is filled whenever the column has an observation on either side of it |
| `Series.Interpolate` | 01_data_preparation/src/data_loader.py:41-43 | linear interpolation keeps the column's length |
| `Series.InterpolateSpec` | 01_data_preparation/src/data_loader.py:41-43 | linear interpolation keeps every observed cell; it fills every cell when the column has an observation, and leaves an all-missing column as it is |
| `Imputation.ImputeColumn` | 01_data_preparation/src/data_loader.py:33-46 | the imputed column has the input's length |
| `Imputation.PolicyAt` | 01_data_preparation/src/data_loader.py:11-13 | the documented fill policy for one cell: an observed cell keeps its value and a missing cell with no observation before it is 0; `ImputeColumnFollowsPolicy` proves the routine follows this policy cell by cell |
| `Imputation.NothingBeforeFirst` | 01_data_preparation/src/data_loader.py:33-38 | a cell before the first observation, or in a column without one, is missing and has no observation before it |
| `Imputation.ImputeColumnComplete` | 01_data_preparation/src/data_loader.py:33-46 | the imputed column has no missing cell, whether or not the input had an observation |
| `Imputation.ImputeColumnSlices` | 01_data_preparation/src/data_loader.py:37-43 | after the two slice updates, cells before the first observation are 0, and from it on the column equals the interpolation of the suffix that starts at the first observation |
| `Imputation.SuffixFollowsPolicy` | 01_data_preparation/src/data_loader.py:40-43 | interpolating the suffix from the first observation gives every cell of that suffix the value the fill policy prescribes |
| `Imputation.ImputeColumnFollowsPolicy` | 01_data_preparation/src/data_loader.py:33-46 | every cell of the imputed column is the policy's value: the observed value; 0 before any observation; the point on the line through the neighbouring observations; or the last observation's value at the end |
| `Imputation.ObservedColumnFollowsPolicy` | 01_data_preparation/src/data_loader.py:35-43 | for a column with an observation, every cell of the column after the two slice updates is the policy's value |
| `Imputation.LerpBetween` | 01_data_preparation/src/data_loader.py:41-43 | an interpolated value strictly between two positions lies between the two observed values |
| `Imputation.AllMissingBecomesZeros` | 01_data_preparation/src/data_loader.py:44-46 | a column with no observation becomes all zeros |
| `Imputation.LeadingCellsBecomeZero` | 01_data_preparation/src/data_loader.py:37-38 | every cell before the first observation becomes 0 |
| `Imputation.KeepsObserved` | 01_data_preparation/src/data_loader.py:37-43 | every observed cell keeps its value |
| `Imputation.InteriorGapIsInterpolated` | 01_data_preparation/src/data_loader.py:40-43 | a missing cell at p between observations at lo and hi, with only missing cells between them, becomes v_lo + (v_hi - v_lo)(p - lo)/(hi - lo), and so lies between v_lo and v_hi |
| `Imputation.TrailingCellsHoldLast` | 01_data_preparation/src/data_loader.py:41-43 | every missing cell after the last observation takes that observation's value |
| `Imputation.SingleObservation` | 01_data_preparation/src/data_loader.py:35-43 | with exactly one observation, the cells before it are 0 and every cell from it on equals it |
| `Imputation.ImputeColumnIdempotent` | 01_data_preparation/src/data_loader.py:33-46 | imputing an imputed column changes nothing |
| `ImputationExamples.LeadingAndInteriorGap` | 01_data_preparation/src/data_loader.py:35-43 | [NaN, NaN, 5, NaN, 10] becomes [0, 0, 5, 7.5, 10] |
| `ImputationExamples.TrailingGap` | 01_data_preparation/src/data_loader.py:35-43 | [NaN, 3, NaN, NaN] becomes [0, 3, 3, 3] |
| `ImputationExamples.SingleValue` | 01_data_preparation/src/data_loader.py:35-43 | [NaN, NaN, 7, NaN] becomes [0, 0, 7, 7] |
| `ImputationExamples.AllMissing` | 01_data_preparation/src/data_loader.py:44-46 | [NaN, NaN, NaN] becomes [0, 0, 0] |
| `DataLoader.ImputeTable` | 01_data_preparation/src/data_loader.py:27-46 | the imputed table has as many columns as the input |
| `DataLoader.ImputeTableComplete` | 01_data_preparation/src/data_loader.py:27-46 | every requested column keeps its length and has no missing cell; every other column equals the input's |
| `DataLoader.ImputeTableStep` | 01_data_preparation/src/data_loader.py:31-46 | imputing the copy's column c once more gives the table for the request extended by c, also when c was already requested |
| `DataLoader.ImputeTableIdempotent` | 01_data_preparation/src/data_loader.py:27-46 | imputing the imputed table again, for the same columns, gives the same table |
| `DataLoader.EmptyRequestIsCopy` | 01_data_preparation/src/data_loader.py:27-31 | with no requested column the result equals the input |
| `DataLoader.ImputeColumnOf` | 01_data_preparation/src/data_loader.py:33-46 | one loop step on the copy: imputing column c turns the table imputed for the request so far into the table imputed for that request extended by c |
| `DataLoader.ImputeConsumption` | 01_data_preparation/src/data_loader.py:5-48 | the routine returns a fresh table in which the requested columns are imputed and all other columns are unchanged; the input is not modified; it fails exactly when a requested column is absent, naming the first one |

## Left out

- The row index. Rows are identified by position. The routine's label slices
  `.loc[:first]` and `.loc[first:]` select the same rows as the positional
  slices when the index is unique and sorted, which is the caller's obligation.
  The model assumes this and does not represent an index that breaks it.
- Column names. Columns are identified by their position in the table. A
  requested name absent from the table raises the table library's lookup
  error. The model returns `Failure(ColumnNotFound(c))` for the first requested
  position outside the table. The partly imputed copy is discarded in both cases.
- Interpolation spacing. `method='linear'` ignores the index values and treats
  rows as equally spaced, so the model interpolates by position. Time-weighted
  spacing for a datetime index is not what the code does, and it is not modelled.
- Floating point. Values are exact reals, so IEEE-754 rounding in
  interpolation is not modelled. NaN is `None`. Column dtypes are not modelled.
- In-place slice assignment. The two `.loc[...] =` writes into one column of
  the copy are modelled as one update of that column of the copied array, with
  a value built from the two slice updates (`ImputeColumn`).
- Datetime-index construction and the heatmap, line and bar chart helpers are
  not part of this model. They aggregate and plot through libraries and have
  no fill logic.
