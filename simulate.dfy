/** The bookkeeping of `AESimulate.execute` (flim/analysis/aesimulate.py, lines 151-230):
    select and classify the feature columns, read the integer cell ids, build `sets`
    replicate tables (noise, min-max normalization, autoencoder, rescale, cell-id offset),
    concatenate them, add the four amplitude percentages and order the output columns.

    The autoencoder is a parameter: any function from a matrix to a matrix. The noise of each
    replicate set is a parameter too: one matrix per set, shaped like the feature table. */
module Simulate {
  import opened Wrappers
  import opened Text
  import opened Seqs
  import opened Frames
  import opened Classify
  import opened Rescale
  import opened Sorting

  type Matrix = seq<seq<real>>

  /** The exceptions `execute` can raise, each at the line where pandas, numpy or sklearn
      would raise it. */
  datatype Error =
    | MissingColumn(name: string)   // KeyError: a selected feature or `Cell` is not a column
    | NotNumeric(name: string)      // astype(float) meets text in a feature column
    | BadCellId(cell: Value)        // astype(int) cannot read a `Cell` entry
    | NoRows                        // np.amax of the empty `Cell` column
    | NoFeatures                    // MinMaxScaler fitted on zero columns
    | CellNotCategorical            // `Cell` is absent from a replicate table built from `cats`
    | LossShape(replicate: nat)     // RuntimeError: the MSE loss cannot broadcast the reconstruction
    | ShapeMismatch(replicate: nat) // ValueError: the rescaled reconstruction is not rows x features
    | TooFewAmplitudes              // IndexError on FAD_feats[1] or NADPH_feats[1]

  datatype Result<T> = Ok(value: T) | Err(error: Error)

  /** Every row of `m` has `cols` entries. */
  predicate RowsOfWidth(m: Matrix, cols: nat)
  {
    forall i :: 0 <= i < |m| ==> |m[i]| == cols
  }

  predicate IsShape(m: Matrix, rows: nat, cols: nat)
  {
    |m| == rows && RowsOfWidth(m, cols)
  }

  // ----- reading the input table (lines 152-176) -----

  /** The first selected name that is not a column of the table. */
  function FirstMissing(names: seq<string>, columns: seq<string>): (r: Option<string>)
    ensures r.None? <==> forall j :: 0 <= j < |names| ==> names[j] in columns
    ensures r.Some? ==> r.value in names && r.value !in columns
  {
    if |names| == 0 then None
    else if names[0] !in columns then Some(names[0])
    else
      assert forall j :: 1 <= j < |names| ==> names[j] == names[1..][j - 1];
      FirstMissing(names[1..], columns)
  }

  /** `astype(float)` on one entry; text has no float value. */
  function AsFloat(v: Value): Option<Value>
  {
    match v
    case Label(_) => None
    case Int(n) => Some(Num(n as real))
    case Num(_) => Some(v)
    case NaN => Some(NaN)
  }

  predicate NumericColumn(rows: seq<Row>, f: string)
  {
    forall k :: 0 <= k < |rows| && f in rows[k] ==> AsFloat(rows[k][f]).Some?
  }

  /** The first selected feature whose column holds text. */
  function FirstNonNumeric(rows: seq<Row>, feats: seq<string>): (r: Option<string>)
    ensures r.None? <==> forall j :: 0 <= j < |feats| ==> NumericColumn(rows, feats[j])
    ensures r.Some? ==> r.value in feats && !NumericColumn(rows, r.value)
  {
    if |feats| == 0 then None
    else if !NumericColumn(rows, feats[0]) then Some(feats[0])
    else
      assert forall j :: 1 <= j < |feats| ==> feats[j] == feats[1..][j - 1];
      FirstNonNumeric(rows, feats[1..])
  }

  /** `data_feat.astype(float)` as a row-major matrix. */
  function FeatureMatrix(rows: seq<Row>, feats: seq<string>): (x: seq<seq<Value>>)
    requires forall k, j :: 0 <= k < |rows| && 0 <= j < |feats| ==> feats[j] in rows[k]
    requires forall j :: 0 <= j < |feats| ==> NumericColumn(rows, feats[j])
    ensures |x| == |rows|
    ensures forall i :: 0 <= i < |rows| ==> |x[i]| == |feats|
    ensures forall i, j :: 0 <= i < |rows| && 0 <= j < |feats| ==> Some(x[i][j]) == AsFloat(rows[i][feats[j]])
  {
    assert forall i, j :: 0 <= i < |rows| && 0 <= j < |feats| ==> AsFloat(rows[i][feats[j]]).Some? by {
      forall i, j | 0 <= i < |rows| && 0 <= j < |feats| ensures AsFloat(rows[i][feats[j]]).Some? {
        assert NumericColumn(rows, feats[j]) && feats[j] in rows[i];
      }
    }
    seq(|rows|, i requires 0 <= i < |rows| =>
      seq(|feats|, j requires 0 <= j < |feats| => AsFloat(rows[i][feats[j]]).value))
  }

  /** `int(x)` on a float: truncation toward zero. */
  function Truncate(x: real): (r: int)
    ensures 0.0 <= x ==> 0 <= r && r as real <= x < r as real + 1.0
    ensures x < 0.0 ==> r <= 0 && r as real - 1.0 < x <= r as real
  {
    if x >= 0.0 then x.Floor else -((-x).Floor)
  }

  /** `astype(int)` on one `Cell` entry. */
  function CellIdOf(v: Value): (r: Option<int>)
    ensures v.Int? ==> r == Some(v.n)
    ensures v.Num? ==> r == Some(Truncate(v.x))
    ensures v.NaN? ==> r.None?
  {
    match v
    case Label(s) => ParseInt(s)
    case Int(n) => Some(n)
    case Num(x) => Some(Truncate(x))
    case NaN => None
  }

  /** A cell id written out by line 228 reads back as the same id. */
  lemma CellLabelReadsBack(n: int)
    ensures CellIdOf(Label(IntToString(n))) == Some(n)
  {
    IntToStringRoundTrip(n);
  }

  /** The first `Cell` entry that has no integer value. */
  function FirstBadCell(rows: seq<Row>): (r: Option<Value>)
    requires forall k :: 0 <= k < |rows| ==> "Cell" in rows[k]
    ensures r.None? <==> forall k :: 0 <= k < |rows| ==> CellIdOf(rows[k]["Cell"]).Some?
  {
    if |rows| == 0 then None
    else if CellIdOf(rows[0]["Cell"]).None? then Some(rows[0]["Cell"])
    else
      assert forall k :: 1 <= k < |rows| ==> rows[k] == rows[1..][k - 1];
      FirstBadCell(rows[1..])
  }

  /** Line 176: the first `Cell` entry of the table that `astype(int)` cannot read; `None` when
      every entry has an integer value or the table has no `Cell` column. */
  function BadCell(data: Frame): (r: Option<Value>)
    requires WellFormed(data)
    ensures "Cell" in data.columns ==>
              (r.None? <==> forall k :: 0 <= k < |data.rows| ==> CellIdOf(data.rows[k]["Cell"]).Some?)
  {
    if "Cell" in data.columns then
      assert forall k :: 0 <= k < |data.rows| ==> "Cell" in data.rows[k];
      FirstBadCell(data.rows)
    else None
  }

  /** `np.amax` of a non-empty list of integers. */
  function MaxOf(ids: seq<int>): (r: int)
    requires |ids| > 0
    ensures r in ids
    ensures forall k :: 0 <= k < |ids| ==> ids[k] <= r
  {
    if |ids| == 1 then ids[0]
    else
      var rest := MaxOf(ids[1..]);
      assert forall k :: 1 <= k < |ids| ==> ids[k] == ids[1..][k - 1];
      if ids[0] >= rest then ids[0] else rest
  }

  /** What `execute` has in hand before the replicate loop: the categorical columns `cats`, the
      feature names `feat_cols`, the float feature matrix, the integer cell ids and `maxcell`. */
  datatype Prepared = Prepared(cats: seq<string>, feats: seq<string>, x: seq<seq<Value>>, ids: seq<int>, maxCell: int)

  /** A prepared input that belongs to `data`. */
  predicate Fits(data: Frame, p: Prepared)
  {
    && |data.rows| > 0
    && |p.ids| == |data.rows|
    && |p.x| == |data.rows|
    && (forall i :: 0 <= i < |p.x| ==> |p.x[i]| == |p.feats|)
    && (forall c :: c in p.cats ==> c in data.columns)
    && (forall f :: f in p.feats ==> f in data.columns)
    && Distinct(p.feats)
  }

  /** The checks of lines 152-176 that raise when they fail: every selected feature is a
      column holding numbers, `Cell` is a column of integer ids, and the table has a row. */
  predicate Passes(data: Frame, features: seq<string>)
  {
    && (forall j :: 0 <= j < |features| ==> features[j] in data.columns)
    && (forall j :: 0 <= j < |features| ==> NumericColumn(data.rows, features[j]))
    && "Cell" in data.columns
    && (forall k :: 0 <= k < |data.rows| ==> "Cell" in data.rows[k] && CellIdOf(data.rows[k]["Cell"]).Some?)
    && |data.rows| > 0
  }

  /** Line 153: the columns of the table whose dtype is categorical, in table order. */
  function CategoricalColumns(data: Frame, categorical: set<string>): (cats: seq<string>)
    ensures forall c :: c in cats <==> c in data.columns && c in categorical
    ensures IsSubsequence(cats, data.columns)
  {
    FilterIsSubsequence((c: string) => c in categorical, data.columns);
    Filter((c: string) => c in categorical, data.columns)
  }

  /** The prepared input of a table that passed every check of lines 152-176. */
  function Assemble(data: Frame, categorical: set<string>, features: seq<string>): (p: Prepared)
    requires WellFormed(data) && Distinct(features) && Passes(data, features)
    ensures Fits(data, p)
    ensures p.feats == features
    ensures p.cats == CategoricalColumns(data, categorical)
    ensures forall i :: 0 <= i < |data.rows| ==> Some(p.ids[i]) == CellIdOf(data.rows[i]["Cell"])
    ensures p.maxCell in p.ids
    ensures forall i :: 0 <= i < |p.ids| ==> p.ids[i] <= p.maxCell
    ensures forall i, j :: 0 <= i < |data.rows| && 0 <= j < |features| ==>
              Some(p.x[i][j]) == AsFloat(data.rows[i][features[j]])
  {
    var rows := data.rows;
    assert forall k :: 0 <= k < |rows| ==> "Cell" in rows[k];
    assert forall k, j :: 0 <= k < |rows| && 0 <= j < |features| ==> features[j] in rows[k];
    var ids := seq(|rows|, i requires 0 <= i < |rows| => CellIdOf(rows[i]["Cell"]).value);
    var cats := CategoricalColumns(data, categorical);
    Prepared(cats, features, FeatureMatrix(rows, features), ids, MaxOf(ids))
  }

  /** Lines 152-176: the categorical columns in table order, the selected features, their
      float matrix and the `Cell` ids with their maximum, or the first exception raised. */
  function Prepare(data: Frame, categorical: set<string>, features: seq<string>): (r: Result<Prepared>)
    requires WellFormed(data) && Distinct(features)
    ensures r.Ok? <==> Passes(data, features)
    ensures r.Ok? ==> r.value == Assemble(data, categorical, features)
    ensures FirstMissing(features, data.columns).Some? ==>
              r == Err(MissingColumn(FirstMissing(features, data.columns).value))
    ensures FirstMissing(features, data.columns).None? && FirstNonNumeric(data.rows, features).Some? ==>
              r == Err(NotNumeric(FirstNonNumeric(data.rows, features).value))
    ensures FirstMissing(features, data.columns).None? && FirstNonNumeric(data.rows, features).None? ==>
              && ("Cell" !in data.columns ==> r == Err(MissingColumn("Cell")))
              && ("Cell" in data.columns && BadCell(data).Some? ==> r == Err(BadCellId(BadCell(data).value)))
              && ("Cell" in data.columns && BadCell(data).None? && |data.rows| == 0 ==> r == Err(NoRows))
  {
    match FirstMissing(features, data.columns)
    case Some(f) => Err(MissingColumn(f))
    case None =>
      match FirstNonNumeric(data.rows, features)
      case Some(f) => Err(NotNumeric(f))
      case None =>
        if "Cell" !in data.columns then Err(MissingColumn("Cell"))
        else
          match BadCell(data)
          case Some(v) => Err(BadCellId(v))
          case None =>
            if |data.rows| == 0 then Err(NoRows)
            else Ok(Assemble(data, categorical, features))
  }

  // ----- one replicate set (lines 179-208) -----

  /** `data_feat.add(noise)`: NaN stays NaN. */
  function Plus(v: Value, d: real): Value
  {
    if v.Num? then Num(v.x + d) else v
  }

  function AddNoise(x: seq<seq<Value>>, noise: Matrix): (y: seq<seq<Value>>)
    requires |noise| == |x| && forall i :: 0 <= i < |x| ==> |noise[i]| == |x[i]|
    ensures |y| == |x| && forall i :: 0 <= i < |x| ==> |y[i]| == |x[i]|
  {
    seq(|x|, i requires 0 <= i < |x| =>
      seq(|x[i]|, j requires 0 <= j < |x[i]| => Plus(x[i][j], noise[i][j])))
  }

  function Column(x: seq<seq<Value>>, j: nat): (col: seq<Value>)
    requires forall i :: 0 <= i < |x| ==> j < |x[i]|
    ensures |col| == |x| && forall i :: 0 <= i < |x| ==> col[i] == x[i][j]
  {
    seq(|x|, i requires 0 <= i < |x| => x[i][j])
  }

  /** `raw_min`, one entry per feature column. */
  function ColumnMins(x: seq<seq<Value>>, m: nat): (lo: seq<Option<real>>)
    requires forall i :: 0 <= i < |x| ==> |x[i]| == m
    ensures |lo| == m && forall j :: 0 <= j < m ==> lo[j] == ColumnMin(Column(x, j))
  {
    seq(m, j requires 0 <= j < m => ColumnMin(Column(x, j)))
  }

  /** `raw_max`, one entry per feature column. */
  function ColumnMaxes(x: seq<seq<Value>>, m: nat): (hi: seq<Option<real>>)
    requires forall i :: 0 <= i < |x| ==> |x[i]| == m
    ensures |hi| == m && forall j :: 0 <= j < m ==> hi[j] == ColumnMax(Column(x, j))
  {
    seq(m, j requires 0 <= j < m => ColumnMax(Column(x, j)))
  }

  /** Lines 184-185: the scaled and imputed matrix handed to the autoencoder. */
  function Normalized(x: seq<seq<Value>>, lo: seq<Option<real>>, hi: seq<Option<real>>): (z: Matrix)
    requires |lo| == |hi| && forall i :: 0 <= i < |x| ==> |x[i]| == |lo|
    ensures IsShape(z, |x|, |lo|)
  {
    seq(|x|, i requires 0 <= i < |x| =>
      seq(|lo|, j requires 0 <= j < |lo| => Normalize(x[i][j], lo[j], hi[j])))
  }

  /** Line 203 on one row of the reconstruction. */
  function RestoredRow(recon: seq<real>, lo: seq<Option<real>>, hi: seq<Option<real>>): (vals: seq<Value>)
    requires |recon| == |lo| == |hi|
    ensures |vals| == |recon|
  {
    seq(|recon|, j requires 0 <= j < |recon| => Restore(recon[j], lo[j], hi[j]))
  }

  function FeatureMap(feats: seq<string>, vals: seq<Value>): (r: Row)
    requires |vals| == |feats| && Distinct(feats)
    ensures r.Keys == ColumnSet(feats)
    ensures forall j :: 0 <= j < |feats| ==> r[feats[j]] == vals[j]
  {
    var r := map j | 0 <= j < |feats| :: feats[j] := vals[j];
    assert forall f :: f in ColumnSet(feats) ==> f in r by {
      forall f | f in ColumnSet(feats) ensures f in r {
        var j :| 0 <= j < |feats| && feats[j] == f;
      }
    }
    r
  }

  /** One row of `temp`: the categorical entries of the input row (line 206), the shifted cell
      id (line 207) and the restored features (line 208), later assignments winning. */
  function ReplicateRow(row: Row, cats: seq<string>, feats: seq<string>, vals: seq<Value>, cell: int): (r: Row)
    requires forall c :: c in cats ==> c in row
    requires |vals| == |feats| && Distinct(feats)
    ensures r.Keys == ColumnSet(cats) + {"Cell"} + ColumnSet(feats)
    ensures forall j :: 0 <= j < |feats| ==> r[feats[j]] == vals[j]
    ensures forall c :: c in cats && c != "Cell" && c !in feats ==> r[c] == row[c]
    ensures "Cell" !in feats ==> r["Cell"] == Int(cell)
  {
    (map c | c in cats :: row[c])["Cell" := Int(cell)] + FeatureMap(feats, vals)
  }

  /** Line 207: the id a cell of replicate set `s` gets, `Cell + maxcell * s`. */
  function ShiftedId(id: int, maxCell: int, s: nat): int
  {
    id + maxCell * s
  }

  /** Lines 180-193: the autoencoder's reconstruction of the noisy, normalized and imputed
      features of one replicate set. */
  function Reconstruction(p: Prepared, noise: Matrix, ae: Matrix -> Matrix): Matrix
    requires |noise| == |p.x| && forall i :: 0 <= i < |p.x| ==> |noise[i]| == |p.x[i]| == |p.feats|
  {
    var noisy := AddNoise(p.x, noise);
    ae(Normalized(noisy, ColumnMins(noisy, |p.feats|), ColumnMaxes(noisy, |p.feats|)))
  }

  /** The number of columns of a reconstruction read as a tensor, `None` when its rows differ
      in length. A reconstruction with no rows carries no width here and is read as `cols`
      wide. */
  function Width(recon: Matrix, cols: nat): (w: Option<nat>)
    ensures w.Some? ==> RowsOfWidth(recon, w.value)
    ensures |recon| > 0 ==> (w.Some? <==> RowsOfWidth(recon, |recon[0]|))
  {
    if |recon| == 0 then Some(cols)
    else if RowsOfWidth(recon, |recon[0]|) then Some(|recon[0]|)
    else None
  }

  /** Broadcasting of one dimension in torch and numpy: equal sizes, or one of them 1. */
  predicate Broadcasts(a: nat, b: nat)
  {
    a == b || a == 1 || b == 1
  }

  /** Line 203 on one row: a one-column reconstruction is broadcast across all `cols` columns. */
  function Spread(row: seq<real>, cols: nat): (r: seq<real>)
    requires |row| == cols || |row| == 1
    ensures |r| == cols
    ensures forall j :: 0 <= j < cols ==> r[j] == row[if |row| == 1 then 0 else j]
  {
    if |row| == 1 then seq(cols, j => row[0]) else row
  }

  /** The replicate table of set `s` (one pass of the loop body), or the exception it raises:
      - no feature columns (the scaler at line 184);
      - a reconstruction that the MSE loss cannot broadcast against the `n x m` input
        (line 198), which is also every shape that the rescale at line 203 cannot broadcast;
      - no categorical `Cell` column (line 207);
      - a rescaled reconstruction that is not `n x m` (line 208). */
  function Block(data: Frame, p: Prepared, s: nat, noise: Matrix, ae: Matrix -> Matrix): (r: Result<seq<Row>>)
    requires WellFormed(data) && Fits(data, p)
    requires IsShape(noise, |data.rows|, |p.feats|)
    ensures r.Ok? ==> |r.value| == |data.rows|
    ensures r.Ok? ==> forall i :: 0 <= i < |r.value| ==> r.value[i].Keys == ColumnSet(p.cats) + ColumnSet(p.feats)
  {
    var n, m := |data.rows|, |p.feats|;
    if m == 0 then Err(NoFeatures)
    else
      var noisy := AddNoise(p.x, noise);
      var lo, hi := ColumnMins(noisy, m), ColumnMaxes(noisy, m);
      var recon := ae(Normalized(noisy, lo, hi));
      var w := Width(recon, m);
      if w.None? || !Broadcasts(|recon|, n) || !Broadcasts(w.value, m) then Err(LossShape(s))
      else if "Cell" !in p.cats then Err(CellNotCategorical)
      else if |recon| != n || (w.value != m && w.value != 1) then Err(ShapeMismatch(s))
      else
        assert forall c :: c in p.cats ==> forall i :: 0 <= i < n ==> c in data.rows[i];
        Ok(seq(n, i requires 0 <= i < n =>
          ReplicateRow(data.rows[i], p.cats, p.feats, RestoredRow(Spread(recon[i], m), lo, hi), ShiftedId(p.ids[i], p.maxCell, s))))
  }

  /** The first `k` replicate tables concatenated (`sim_df` after `k` passes of the loop). */
  function SimSets(data: Frame, p: Prepared, k: nat, noise: seq<Matrix>, ae: Matrix -> Matrix): (r: Result<seq<Row>>)
    requires WellFormed(data) && Fits(data, p)
    requires k <= |noise| && forall s :: 0 <= s < k ==> IsShape(noise[s], |data.rows|, |p.feats|)
    ensures r.Ok? ==> |r.value| == k * |data.rows|
    ensures r.Ok? ==> forall q :: 0 <= q < |r.value| ==> r.value[q].Keys == ColumnSet(p.cats) + ColumnSet(p.feats)
  {
    if k == 0 then Ok([])
    else
      match SimSets(data, p, k - 1, noise, ae)
      case Err(e) => Err(e)
      case Ok(acc) =>
        match Block(data, p, k - 1, noise[k - 1], ae)
        case Err(e) => Err(e)
        case Ok(b) => Ok(acc + b)
  }

  // ----- percentages and output (lines 211-228) -----

  /** `a / (a + b) * 100`; a NaN operand or a zero total has no finite result. */
  function Share(part: Value, other: Value): (r: Value)
    ensures r.Num? <==> part.Num? && other.Num? && part.x + other.x != 0.0
    ensures r.Num? ==> r.x * (part.x + other.x) == 100.0 * part.x
  {
    if part.Num? && other.Num? && part.x + other.x != 0.0 then
      var t := part.x + other.x;
      assert part.x / t * 100.0 * t == 100.0 * part.x;
      Num(part.x / t * 100.0)
    else NaN
  }

  function PercentName(feature: string): string
  {
    feature + "[%]"
  }

  /** The four derived entries of one row (the `calcdf` row), later keys winning. */
  function WithPercentages(row: Row, fad: seq<string>, nadph: seq<string>): (r: Row)
    requires |fad| >= 2 && |nadph| >= 2
    requires fad[0] in row && fad[1] in row && nadph[0] in row && nadph[1] in row
    ensures r.Keys == row.Keys + {PercentName(fad[0]), PercentName(fad[1]), PercentName(nadph[0]), PercentName(nadph[1])}
    ensures forall c :: c in row && c !in {PercentName(fad[0]), PercentName(fad[1]), PercentName(nadph[0]), PercentName(nadph[1])} ==>
              r[c] == row[c]
  {
    row[PercentName(fad[0]) := Share(row[fad[0]], row[fad[1]])]
       [PercentName(fad[1]) := Share(row[fad[1]], row[fad[0]])]
       [PercentName(nadph[0]) := Share(row[nadph[0]], row[nadph[1]])]
       [PercentName(nadph[1]) := Share(row[nadph[1]], row[nadph[0]])]
  }

  /** `calcdf.columns`: the keys of the dict literal, first occurrences kept. */
  function DerivedNames(fad: seq<string>, nadph: seq<string>): seq<string>
    requires |fad| >= 2 && |nadph| >= 2
  {
    Dedup([PercentName(fad[0]), PercentName(fad[1]), PercentName(nadph[0]), PercentName(nadph[1])])
  }

  /** Line 228: the integer cell id becomes its decimal label. */
  function CastCell(row: Row): (r: Row)
    ensures r.Keys == row.Keys
    ensures forall c :: c in row && c != "Cell" ==> r[c] == row[c]
    ensures "Cell" in row && row["Cell"].Int? ==> r["Cell"].Label? && CellIdOf(r["Cell"]) == Some(row["Cell"].n)
    ensures "Cell" in row && !row["Cell"].Int? ==> r["Cell"] == row["Cell"]
  {
    if "Cell" in row && row["Cell"].Int? then
      CellLabelReadsBack(row["Cell"].n);
      row["Cell" := Label(IntToString(row["Cell"].n))]
    else row
  }

  /** The rows of the output: percentages added (line 224), cell ids cast (line 228). */
  function OutputRows(sim: seq<Row>, fad: seq<string>, nadph: seq<string>): (rows: seq<Row>)
    requires |fad| >= 2 && |nadph| >= 2
    requires forall k :: 0 <= k < |sim| ==> fad[0] in sim[k] && fad[1] in sim[k] && nadph[0] in sim[k] && nadph[1] in sim[k]
    ensures |rows| == |sim|
  {
    seq(|sim|, k requires 0 <= k < |sim| => CastCell(WithPercentages(sim[k], fad, nadph)))
  }

  /** Rows whose columns are `cats` and `feats` have the four amplitude columns. */
  lemma AmplitudeColumnsPresent(rows: seq<Row>, cats: seq<string>, feats: seq<string>, fad: seq<string>, nadph: seq<string>)
    requires forall k :: 0 <= k < |rows| ==> rows[k].Keys == ColumnSet(cats) + ColumnSet(feats)
    requires |fad| >= 2 && |nadph| >= 2
    requires fad[0] in feats && fad[1] in feats && nadph[0] in feats && nadph[1] in feats
    ensures forall k :: 0 <= k < |rows| ==>
              fad[0] in rows[k] && fad[1] in rows[k] && nadph[0] in rows[k] && nadph[1] in rows[k]
  {
    assert fad[0] in ColumnSet(feats) && fad[1] in ColumnSet(feats);
    assert nadph[0] in ColumnSet(feats) && nadph[1] in ColumnSet(feats);
  }

  /** What `execute` returns as 'Table: Simulated', or the exception it raises. */
  function Simulated(data: Frame, categorical: set<string>, features: seq<string>, sets: nat,
                     noise: seq<Matrix>, ae: Matrix -> Matrix): (r: Result<Frame>)
    requires WellFormed(data) && Distinct(features)
    requires |noise| == sets && forall s :: 0 <= s < sets ==> IsShape(noise[s], |data.rows|, |features|)
    ensures r.Ok? ==> Passes(data, features) && |r.value.rows| == sets * |data.rows| && "Cell" in r.value.columns
  {
    match Prepare(data, categorical, features)
    case Err(e) => Err(e)
    case Ok(p) =>
      var fad, nadph := FadFeatures(p.feats), NadphFeatures(p.feats);
      match SimSets(data, p, sets, noise, ae)
      case Err(e) => Err(e)
      case Ok(sim) =>
        if |fad| < 2 || |nadph| < 2 then Err(TooFewAmplitudes)
        else
          var outFeats := SortedCopy(p.feats + DerivedNames(fad, nadph));
          if "Cell" !in p.cats + outFeats then Err(MissingColumn("Cell"))
          else
            AmplitudeColumnsPresent(sim, p.cats, p.feats, fad, nadph);
            Ok(Frame(p.cats + outFeats, OutputRows(sim, fad, nadph)))
  }

  /** Once a replicate set has failed, running more sets reports the same exception. */
  lemma {:induction false} SimSetsErrorPersists(data: Frame, p: Prepared, k: nat, k': nat, noise: seq<Matrix>, ae: Matrix -> Matrix)
    requires WellFormed(data) && Fits(data, p)
    requires k <= k' <= |noise| && forall s :: 0 <= s < k' ==> IsShape(noise[s], |data.rows|, |p.feats|)
    requires SimSets(data, p, k, noise, ae).Err?
    ensures SimSets(data, p, k', noise, ae) == SimSets(data, p, k, noise, ae)
    decreases k' - k
  {
    if k < k' {
      SimSetsErrorPersists(data, p, k, k' - 1, noise, ae);
    }
  }

  /** The replicate loop of `execute`: `sim_df` grows by one block per set, and the first
      failing set ends the run with its exception. */
  method RunSets(data: Frame, p: Prepared, sets: nat, noise: seq<Matrix>, ae: Matrix -> Matrix)
    returns (r: Result<seq<Row>>)
    requires WellFormed(data) && Fits(data, p)
    requires sets <= |noise| && forall s :: 0 <= s < sets ==> IsShape(noise[s], |data.rows|, |p.feats|)
    ensures r == SimSets(data, p, sets, noise, ae)
  {
    var sim: seq<Row> := [];
    for simset := 0 to sets
      invariant SimSets(data, p, simset, noise, ae) == Ok(sim)
    {
      var temp := Block(data, p, simset, noise[simset], ae);
      if temp.Err? {
        SimSetsErrorPersists(data, p, simset + 1, sets, noise, ae);
        return Err(temp.error);
      }
      sim := sim + temp.value;
    }
    return Ok(sim);
  }

  /** Line 226: `outfeats.sort()`, the names copied into an array and sorted in place. */
  method SortedNames(names: seq<string>) returns (sorted: seq<string>)
    ensures sorted == SortedCopy(names)
  {
    var a := new string[|names|](i requires 0 <= i < |names| => names[i]);
    assert a[..] == names;
    SortInPlace(a);
    SortedUnique(a[..], SortedCopy(names));
    sorted := a[..];
  }

  /** `execute`: the replicate loop accumulates `sim_df` set by set, then the percentages are
      added and the feature names sorted in place. */
  method Execute(data: Frame, categorical: set<string>, features: seq<string>, sets: nat,
                 noise: seq<Matrix>, ae: Matrix -> Matrix) returns (r: Result<Frame>)
    requires WellFormed(data) && Distinct(features)
    requires |noise| == sets && forall s :: 0 <= s < sets ==> IsShape(noise[s], |data.rows|, |features|)
    ensures r == Simulated(data, categorical, features, sets, noise, ae)
  {
    var prepared := Prepare(data, categorical, features);
    if prepared.Err? {
      return Err(prepared.error);
    }
    var p := prepared.value;
    assert p.feats == features;
    var fad := FadFeatures(p.feats);
    var nadph := NadphFeatures(p.feats);
    var run := RunSets(data, p, sets, noise, ae);
    if run.Err? {
      return Err(run.error);
    }
    var sim := run.value;
    if |fad| < 2 || |nadph| < 2 {
      return Err(TooFewAmplitudes);
    }
    var outFeats := SortedNames(p.feats + DerivedNames(fad, nadph));
    if "Cell" !in p.cats + outFeats {
      return Err(MissingColumn("Cell"));
    }
    AmplitudeColumnsPresent(sim, p.cats, p.feats, fad, nadph);
    r := Ok(Frame(p.cats + outFeats, OutputRows(sim, fad, nadph)));
  }
}
