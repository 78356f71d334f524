# Autoencoder simulation of FLIM feature tables, modelled in Dafny

The FLIM analyzer has a plugin, `AESimulate`, that builds synthetic replicate tables of per-cell
measurements. The model covers its `execute` step, which works as follows:

1. Take one input table.
2. Keep its categorical columns and the selected feature columns.
3. Find the FAD and NAD(P)H amplitude channels among the feature names.
4. For each of `sets` replicate sets:
   - add Gaussian noise to the features;
   - min-max normalize each column and impute missing entries with 0;
   - run the autoencoder;
   - rescale the reconstruction to the noisy column ranges;
   - copy the categorical columns;
   - shift each cell id by `maxcell * set`.
5. Concatenate the sets.
6. Add four percentage columns, the share of each amplitude in its pair.
7. Order the columns: categorical columns first, then the sorted feature and percentage names.
8. Cast the cell ids to text.

The model also covers the parameter defaults of the plugin and its CUDA-to-CPU device fallback.

Two things are parameters of the model rather than computed by it:

- **The autoencoder** is any function from a matrix to a matrix. A reconstruction that cannot be
  broadcast against the input is an error at line 198. A one-column reconstruction is broadcast
  across the features at line 203. Any other shape than rows x features is an error at line 208.
- **The noise** of each replicate set is a matrix shaped like the feature table.

The model states what `execute` returns for every input: the simulated table, or the exception
the code raises first. One case is an exception to "first": a selected feature that is also a
categorical column. It is listed under "Left out".

Modules:

- `Frames` (frames.dfy): tables as an ordered list of column names plus rows. A row maps a column
  name to a value. A value is a label, an integer, a real number or NaN.
- `Text` (text.dfy):
  - ASCII lower-casing and the substring test `in`;
  - `str(int)` and `int(str)`, with a round-trip lemma;
  - the lexicographic order that `list.sort` uses on strings, proved total, transitive and
    antisymmetric.
- `Seqs` (seqs.dfy): distinctness, the subsequence relation, filtering and de-duplication.
- `Sorting` (sorting.dfy):
  - the in-place sort of the output feature names, as an imperative method over an array;
  - a functional reference sort;
  - the fact that a sorted permutation is unique. This is what ties the two sorts together.
- `Classify` (classify.dfy): which feature names are FAD and which are NAD(P)H amplitudes.
- `Rescale` (rescale.dfy): column bounds that skip NaN, min-max normalization with imputation, and
  the affine rescale back.
- `Simulate` (simulate.dfy): the whole of `execute`, in three forms:
  - `Simulated`, a specification function;
  - `Execute`, a method with the replicate loop (`RunSets`) and the in-place name sort
    (`SortedNames`), proved equal to `Simulated`;
  - the error cases, in the order the code meets them.
- `SimulateFacts` (properties.dfy): what the simulated table promises. This covers:
  - its row count and column order;
  - that it is well formed;
  - where each row comes from;
  - the cell ids of the replicate sets;
  - the percentage pairs;
  - what an autoencoder that returns its input gives back.
- `Plugin` (plugin.dfy): the parameter defaults and the device fallback.

Facts about the code that the model keeps:

- **Noise.** `execute` adds unit-normal noise to the features in every set (line 179). The
  constructor reads the `add_noise` and `noise` parameters (lines 101-102), but `execute` never
  uses them.
- **Scaling.** One `MinMaxScaler` is created (line 173) and refitted on each noisy set (line 184). The rescale uses
  the minimum and maximum of the noisy columns (lines 181-182 and 202-203).
- **Amplitude channels.** These are found by substring tests on the lower-cased name (lines
  156-161): `fad`, or `nadph` or `nad(p)h`, together with `a1` or `a2`. Only the first two names
  of each list are used (lines 211-216).
- **Percentage columns.** These are named `<feature>[%]` (lines 217-222).
- **Output.** The only output is `Table: Simulated` (line 230).

## Model

| member | source | states |
|---|---|---|
| Classify.FadFeatures | flim/analysis/aesimulate.py:156-159 | `FAD_feats` is a subsequence of the feature names in their order. It holds exactly the names whose lower-cased form contains "fad" and one of "a1", "a2", each as often as among the features. |
| Classify.NadphFeatures | flim/analysis/aesimulate.py:160-161 | `NADPH_feats` is a subsequence of the feature names. It holds exactly the names whose lower-cased form contains "nadph" or "nad(p)h" and one of "a1", "a2", with their multiplicities. |
| Classify.ClassifyTypicalColumns | flim/analysis/aesimulate.py:156-161 | For the features "FAD a1", "FAD a2", "NADPH a1", "NADPH a2", the FAD list is the first two and the NAD(P)H list the last two. |
| Text.ContainsIff | flim/analysis/aesimulate.py:159 | The substring test `t in s` holds exactly when `t` occurs in `s` at some position. |
| Seqs.FilterIsSubsequence | flim/analysis/aesimulate.py:158-161 | A list comprehension with a condition keeps a subsequence of its input: nothing is invented or reordered. |
| Simulate.CategoricalColumns | flim/analysis/aesimulate.py:153 | `cats` holds exactly the table's categorical columns, in table order (a subsequence of the columns). |
| Simulate.FirstMissing | flim/analysis/aesimulate.py:154 | `data[features]` raises exactly when some selected name is not a column, and it reports a selected name that is missing. |
| Simulate.FirstNonNumeric | flim/analysis/aesimulate.py:171 | `astype(float)` raises exactly when some selected column holds text, and it reports that column. |
| Simulate.FeatureMatrix | flim/analysis/aesimulate.py:171 | The float feature matrix has one row per input row and one column per feature, and each entry is the float value of the input entry. |
| Simulate.FirstBadCell | flim/analysis/aesimulate.py:176 | `astype(int)` on `Cell` fails exactly when some entry has no integer reading. |
| Simulate.MaxOf | flim/analysis/aesimulate.py:176 | `maxcell` is one of the ids and no id exceeds it. |
| Simulate.Assemble | flim/analysis/aesimulate.py:152-176 | The prepared input has these parts: the categorical columns in table order; the features as selected; one integer id per row, read from its `Cell` entry; `maxcell`, the largest id; and the float matrix. |
| Simulate.Prepare | flim/analysis/aesimulate.py:152-176 | Reading the input succeeds exactly when every check passes, and it then returns the prepared input. Otherwise it returns the first exception, in code order. A missing selected column comes first (line 154), then a non-numeric feature (line 171). Then come a missing `Cell` column, an unreadable `Cell` entry and an empty table (line 176). |
| Simulate.Truncate | flim/analysis/aesimulate.py:176 | `int()` of a float truncates toward zero: the result lies within 1 of the float, on the side of 0. |
| Simulate.CellIdOf | flim/analysis/aesimulate.py:176 | `astype(int)` keeps an integer, truncates a float toward zero, and fails on NaN. |
| Simulate.CellLabelReadsBack | flim/analysis/aesimulate.py:176-228 | The decimal label that line 228 writes reads back, through `astype(int)`, as the same id. |
| Rescale.ColumnMin | flim/analysis/aesimulate.py:181 | `raw_min` of a column is NaN exactly when the column has no number. Otherwise it is one of the column's numbers and is at most every number in the column. |
| Rescale.ColumnMax | flim/analysis/aesimulate.py:182 | `raw_max` of a column is NaN exactly when the column has no number. Otherwise it is one of the column's numbers and is at least every number in the column. |
| Rescale.NormalizeEndpoints | flim/analysis/aesimulate.py:184 | The scaler sends the column minimum to 0 and, when the column is not constant, the column maximum to 1. |
| Rescale.NormalizeMonotone | flim/analysis/aesimulate.py:184 | The scaler keeps the order of the numbers of a column. |
| Rescale.NormalizeInUnitRange | flim/analysis/aesimulate.py:184-185 | Every normalized and imputed entry lies in [0, 1]. |
| Rescale.Restore | flim/analysis/aesimulate.py:202-203 | The rescale is affine: a reconstruction of 0 maps to the column minimum and 1 maps to the maximum. An all-NaN column stays NaN. |
| Rescale.RestoreInvertsNormalize | flim/analysis/aesimulate.py:181-203 | When a column's maximum exceeds its minimum, rescaling the normalized value of a number gives back that number. |
| Rescale.ConstantColumnRestored | flim/analysis/aesimulate.py:181-203 | In a constant column, every reconstruction rescales to the column's single value. |
| Simulate.ReplicateRow | flim/analysis/aesimulate.py:205-208 | A row of `temp` has exactly the categorical, `Cell` and feature columns. It holds the restored features, the input's categorical values and the shifted id. |
| Simulate.Block | flim/analysis/aesimulate.py:178-208 | One pass of the loop yields one row per input row, each with the categorical and feature columns. A one-column reconstruction is broadcast across the features (line 203). Otherwise it yields the exception of that pass: the failed broadcast of the MSE loss (line 198), the missing `Cell` (line 207) or the wrong shape (line 208). |
| SimulateFacts.BlockErrors | flim/analysis/aesimulate.py:184-208 | The errors of one set, in code order. No feature column gives `NoFeatures` (line 184). A reconstruction that does not broadcast against the `n x m` input gives `LossShape`, the `RuntimeError` of the MSE loss (line 198). No categorical `Cell` gives `CellNotCategorical` (line 207). A row count other than `n`, or a width that is neither `m` nor 1, gives `ShapeMismatch` (line 208). With `n` rows of width `m` or 1 and `Cell` categorical, the set yields its table. |
| SimulateFacts.OneColumnBroadcast | flim/analysis/aesimulate.py:202-208 | A one-column reconstruction is broadcast: each feature of a row rescales the row's single reconstructed value with that feature's noisy column bounds. |
| Simulate.SimSets | flim/analysis/aesimulate.py:178-209 | After `k` passes, `sim_df` has `k * n` rows, all with the categorical and feature columns. |
| Simulate.SimSetsErrorPersists | flim/analysis/aesimulate.py:178-209 | The first failing set decides the exception, however many sets follow. |
| Simulate.RunSets | flim/analysis/aesimulate.py:175-209 | The replicate loop, accumulating `sim_df` pass by pass, computes exactly `SimSets`: the concatenated tables or the first exception. |
| Simulate.Share | flim/analysis/aesimulate.py:211-216 | `a / (a + b) * 100` is finite exactly when both are numbers with a nonzero sum. It is then the `x` with `x * (a + b) = 100 * a`. |
| Simulate.WithPercentages | flim/analysis/aesimulate.py:211-224 | Adding the percentages adds exactly the four `<x>[%]` columns to a row. Every other column keeps its value. |
| Simulate.CastCell | flim/analysis/aesimulate.py:228 | Casting the ids keeps the row's columns and every entry other than `Cell`. An integer `Cell` becomes a label that reads back as that integer. |
| Sorting.SortedCopy | flim/analysis/aesimulate.py:226 | The reference sort returns a sorted permutation of its input. |
| Sorting.SortedUnique | flim/analysis/aesimulate.py:226 | Two sorted permutations of the same names are equal, so the sorted order is determined. |
| Sorting.InsertAt | flim/analysis/aesimulate.py:226 | One pass of the sort extends the sorted prefix by one name. It rearranges only that prefix, so the prefix is a permutation of its old contents and the rest of the array is unchanged. |
| Sorting.SwapDown | flim/analysis/aesimulate.py:226 | One swap of the pass moves the out-of-order name one place left. The array changes only at the two swapped places. |
| Sorting.SortInPlace | flim/analysis/aesimulate.py:226 | `outfeats.sort()` leaves the array sorted and a permutation of its old contents. |
| Text.LessEqTotal | flim/analysis/aesimulate.py:226 | Any two strings are comparable. |
| Text.LessEqTransitive | flim/analysis/aesimulate.py:226 | String order is transitive. |
| Text.LessEqAntisymmetric | flim/analysis/aesimulate.py:226 | Strings that are ordered both ways are equal. |
| Simulate.SortedNames | flim/analysis/aesimulate.py:225-226 | Sorting the names in place gives exactly the reference sort of `feat_cols` plus the percentage names. |
| Text.Lower | flim/analysis/aesimulate.py:156 | `x.lower()` keeps the length. It maps each upper-case ASCII letter to its lower-case letter, keeps every other character, and leaves no upper-case letter. |
| Text.LowerIdempotent | flim/analysis/aesimulate.py:156 | Lower-casing a lower-cased name changes nothing. |
| Text.IntToStringRoundTrip | flim/analysis/aesimulate.py:228 | The decimal label of a cell id reads back as that id. |
| Simulate.Simulated | flim/analysis/aesimulate.py:151-230 | A successful run passed every input check. Its table has `sets * n` rows and a `Cell` column. |
| SimulateFacts.SimulatedErrors | flim/analysis/aesimulate.py:151-230 | A failed run reports the first exception in code order. Failed input checks come first, with the exception `Prepare` states. Next comes the exception of the first failing set. Then comes the `IndexError` when fewer than two FAD or NAD(P)H amplitudes exist (lines 211-216). Last is the `KeyError` of line 228, when no set ran and no column is named `Cell`. |
| Simulate.Execute | flim/analysis/aesimulate.py:151-230 | `execute` returns exactly the `Simulated` result: the table, or the exception that `SimulatedErrors` names. |
| SimulateFacts.SimulatedOk | flim/analysis/aesimulate.py:151-230 | A successful run passed every input check, found at least two amplitudes of each kind and ran every set. Its table is the categorical columns plus the sorted names, with `sim_df` rows given percentages and cast ids. |
| SimulateFacts.OutputTable | flim/analysis/aesimulate.py:211-227 | The frame built from `sim_df` has one row per `sim_df` row. Its columns are `cats`, then a sorted permutation of the features and percentage names, and every row holds exactly these columns. |
| SimulateFacts.SimulatedTable | flim/analysis/aesimulate.py:209-227 | The table has `sets * n` rows. Its columns are the categorical columns in input order, then a sorted permutation of the features and percentage names. `Cell` is among them, and every row has exactly these columns. |
| SimulateFacts.SimSetsRow | flim/analysis/aesimulate.py:178-209 | Row `s * n + i` of `sim_df` is row `i` of the table of set `s`, and that set did not fail. |
| SimulateFacts.BlockRow | flim/analysis/aesimulate.py:205-207 | In set `s`, `Cell` holds the input id plus `maxcell * s`. Every other categorical column holds the input row's value. |
| SimulateFacts.OutputCategorical | flim/analysis/aesimulate.py:206-227 | In every set, the output row `s * n + i` carries the value of input row `i` in each categorical column other than `Cell`. |
| SimulateFacts.OutputCellId | flim/analysis/aesimulate.py:176-228 | Output row `s * n + i` is labelled with the decimal spelling of input id `i` plus `maxcell * s`, and the label reads back as that id. |
| SimulateFacts.ShiftedIdRange | flim/analysis/aesimulate.py:207 | An id in `[1, maxcell]` lands in `[s * maxcell + 1, (s + 1) * maxcell]` in set `s`. |
| SimulateFacts.ShiftedIdsDisjoint | flim/analysis/aesimulate.py:207 | With ids in `[1, maxcell]`, every id of a set is below every id of a later set. |
| SimulateFacts.CellLabelsOfSetsDiffer | flim/analysis/aesimulate.py:176-228 | When every input id is positive, rows of different replicate sets never share a `Cell` label. |
| SimulateFacts.ZeroCellIdCollides | flim/analysis/aesimulate.py:176-228 | An input id of 0 gets, in set `s + 1`, the label that the row with the largest id had in set `s`. |
| SimulateFacts.SharesComplement | flim/analysis/aesimulate.py:211-216 | The two shares of a pair are finite together and then sum to 100. |
| SimulateFacts.PercentagesOfRow | flim/analysis/aesimulate.py:217-228 | In one row, each percentage column holds the share of its channel in its pair, and casting the ids does not change it. |
| SimulateFacts.OutputPercentages | flim/analysis/aesimulate.py:211-228 | In every output row, `<x>[%]` is the share of `x` in its pair as the row holds it. When the values are finite, the two FAD percentages sum to 100, and so do the two NAD(P)H percentages. |
| SimulateFacts.NumberSurvivesScaling | flim/analysis/aesimulate.py:181-203 | A number survives normalization and rescaling unchanged, whether or not its column is constant. |
| SimulateFacts.NoisyEntryRestored | flim/analysis/aesimulate.py:181-203 | Normalizing a noisy entry and rescaling it with its column's bounds gives the noisy number back. A missing entry, imputed as 0, comes back as the column minimum. |
| SimulateFacts.IdentityBlock | flim/analysis/aesimulate.py:179-208 | If the autoencoder returns its input, the table of a set holds the noisy features. A missing entry becomes the noisy column minimum. |
| SimulateFacts.OutputWithIdentityAutoencoder | flim/analysis/aesimulate.py:179-227 | With such an autoencoder, output row `s * n + i` holds input row `i`'s features plus the noise of set `s`. |
| SimulateFacts.OutputKeepsColumn | flim/analysis/aesimulate.py:224-228 | Adding the percentages and casting the ids leave every other column of a row unchanged. |
| SimulateFacts.CellIsNoAmplitude | flim/analysis/aesimulate.py:156-161 | `Cell` is neither an FAD nor an NAD(P)H amplitude name. |
| Plugin.DefaultParameters | flim/analysis/aesimulate.py:120-129 | The defaults are the base defaults plus five entries: `modelfile` "", `device` "cpu", `sets` 1, `add_noise` true and `noise` 0.1. Every other base entry is unchanged. |
| Plugin.DefaultParametersIdempotent | flim/analysis/aesimulate.py:120-129 | Applying the defaults twice gives the same table as applying them once. |
| Plugin.ResolveDevice | flim/analysis/aesimulate.py:165-168 | "cuda" without a CUDA device becomes "cpu", and any other choice is kept. Without CUDA the result is never "cuda". |
| Plugin.ResolveDeviceIdempotent | flim/analysis/aesimulate.py:165-168 | Resolving an already resolved device keeps it. |

## Left out

- **The GUI.** The configuration dialog, file browser, icon and `output_definition` are user
  interface.
- **Reading parameters in the constructor** (`__init__`). The constructor only copies
  parameters into attributes.
- **`torch.load`, the autoencoder's forward pass, the latent features and the value of the MSE
  loss.** The autoencoder is a function parameter. The latent features are not used. The
  loss's value is only logged. The broadcast check made while computing it (line 198) is
  modelled in `Simulate.Block`.
- **The random number generator.** The noise of each set is an input matrix.
- **Logging.**
- **Floating point.**
  - Values are reals.
  - The float32 tensor cast is not modelled.
  - An infinity from a zero division is folded into NaN.
- Simulate.AsFloat: text that spells a number (which `astype(float)` would accept) is
  treated as non-numeric, because pandas string parsing is not modelled.
- Text.ParseInt: Python's `int()` also accepts surrounding whitespace, digit separators (`_`)
  and non-ASCII decimal digits. The model reads an optional sign and ASCII decimal digits only.
- Simulate.ShiftedId: cell ids are unbounded integers. numpy holds them as 64-bit integers
  (lines 176 and 207), so `astype(int)` of a larger label raises `OverflowError`, and
  `Cell + maxcell * simset` wraps around. `ShiftedIdsDisjoint` and `CellLabelsOfSetsDiffer`
  hold for the program only while every shifted id fits in 64 bits.
- Text.Lower: lower-casing is ASCII-only. No other character lower-cases to a letter that the
  amplitude tests look for, so the classification is unaffected.
- **Duplicate selected feature names.** These are excluded by a precondition (`Distinct`),
  because pandas would build duplicate columns.
- **Name clashes.** A percentage name equal to a categorical column or another feature is not
  modelled as pandas' duplicate columns. The map model lets the later value win. The lemmas
  about percentages require the names apart (`PercentagesApart`, `NoPercentFeature`).
- Simulate.Block:
  - A reconstruction whose rows differ in length cannot come from a tensor. The model reads
    it as failing at line 198.
  - A reconstruction with no rows carries no width in the model. It is read as `m` columns
    wide.
  - A selected feature that is also a categorical column (`Cell` included) is not modelled as
    pandas' duplicate columns. The model lets the feature value win in the row (line 208).
    With no categorical column at all and a feature named `Cell`, pandas does not raise at
    line 207, because line 208 gives `temp` its rows. The model returns `CellNotCategorical`.
- Simulate.Simulated:
  - With zero sets the result is an empty table.
  - The dtype of its columns, and the `category` dtype of the cast `Cell` column, are not
    modelled.
- **The pandas index.** `reset_index` only adds an `index` column, which the final column
  selection drops. The index is not modelled.
- **The base class defaults.** `flim/plugin.py` is not part of this model, so they are a
  parameter of `Plugin.DefaultParameters`.
- **src/analysis/boxplots.py** is plotting only.
