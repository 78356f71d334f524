/** Min-max normalization of one feature column and its inverse (lines 181-185 and 202-203 of
    the simulator). The column bounds are taken with NaN entries skipped, as
    `DataFrame.min` / `DataFrame.max` do; `MinMaxScaler` maps a value to
    `(x - min) / (max - min)`, or to `x - min` when the column is constant; the imputer then
    turns every remaining NaN into 0. The reconstruction is mapped back with
    `recon * (max - min) + min`. */
module Rescale {
  import opened Wrappers
  import opened Frames

  /** The smallest number in a column, NaN entries skipped; `None` when nothing is numeric. */
  function ColumnMin(col: seq<Value>): (r: Option<real>)
    ensures r.None? <==> forall i :: 0 <= i < |col| ==> !col[i].Num?
    ensures r.Some? ==> exists i :: 0 <= i < |col| && col[i] == Num(r.value)
    ensures r.Some? ==> forall i :: 0 <= i < |col| && col[i].Num? ==> r.value <= col[i].x
  {
    if |col| == 0 then None
    else
      var rest := ColumnMin(col[1..]);
      assert forall i :: 1 <= i < |col| ==> col[i] == col[1..][i - 1];
      if col[0].Num? && (rest.None? || col[0].x <= rest.value) then Some(col[0].x)
      else
        assert rest.Some? ==> exists i :: 1 <= i < |col| && col[i] == Num(rest.value) by {
          if rest.Some? {
            var j :| 0 <= j < |col[1..]| && col[1..][j] == Num(rest.value);
            assert col[j + 1] == Num(rest.value);
          }
        }
        rest
  }

  /** The largest number in a column, NaN entries skipped; `None` when nothing is numeric. */
  function ColumnMax(col: seq<Value>): (r: Option<real>)
    ensures r.None? <==> forall i :: 0 <= i < |col| ==> !col[i].Num?
    ensures r.Some? ==> exists i :: 0 <= i < |col| && col[i] == Num(r.value)
    ensures r.Some? ==> forall i :: 0 <= i < |col| && col[i].Num? ==> col[i].x <= r.value
  {
    if |col| == 0 then None
    else
      var rest := ColumnMax(col[1..]);
      assert forall i :: 1 <= i < |col| ==> col[i] == col[1..][i - 1];
      if col[0].Num? && (rest.None? || rest.value <= col[0].x) then Some(col[0].x)
      else
        assert rest.Some? ==> exists i :: 1 <= i < |col| && col[i] == Num(rest.value) by {
          if rest.Some? {
            var j :| 0 <= j < |col[1..]| && col[1..][j] == Num(rest.value);
            assert col[j + 1] == Num(rest.value);
          }
        }
        rest
  }

  /** `MinMaxScaler.fit_transform` followed by `SimpleImputer(strategy="constant", fill_value=0)`
      on one entry of a column with bounds `lo`, `hi`. */
  function Normalize(v: Value, lo: Option<real>, hi: Option<real>): real
  {
    if v.Num? && lo.Some? && hi.Some? then
      if hi.value > lo.value then (v.x - lo.value) / (hi.value - lo.value) else v.x - lo.value
    else 0.0
  }

  /** The scaler sends the column minimum to 0 and, in a column that is not constant, the
      column maximum to 1. */
  lemma NormalizeEndpoints(lo: real, hi: real)
    ensures Normalize(Num(lo), Some(lo), Some(hi)) == 0.0
    ensures hi > lo ==> Normalize(Num(hi), Some(lo), Some(hi)) == 1.0
  {
    if hi > lo {
      assert (hi - lo) / (hi - lo) == 1.0;
    }
  }

  /** The scaler keeps the order of the numbers of a column. */
  lemma NormalizeMonotone(x: real, y: real, lo: Option<real>, hi: Option<real>)
    requires x <= y
    ensures Normalize(Num(x), lo, hi) <= Normalize(Num(y), lo, hi)
  {
    if lo.Some? && hi.Some? && hi.value > lo.value {
      var d := hi.value - lo.value;
      assert (y - lo.value) / d - (x - lo.value) / d == (y - x) / d;
    }
  }

  /** `recon * (raw_max - raw_min) + raw_min`; NaN bounds (an all-NaN column) give NaN. */
  function Restore(recon: real, lo: Option<real>, hi: Option<real>): (v: Value)
    ensures v.Num? <==> lo.Some? && hi.Some?
    ensures v.Num? && recon == 0.0 ==> v.x == lo.value
    ensures v.Num? && recon == 1.0 ==> v.x == hi.value
    ensures v.Num? ==> v.x - lo.value == recon * (hi.value - lo.value)
  {
    if lo.Some? && hi.Some? then Num(recon * (hi.value - lo.value) + lo.value) else NaN
  }

  /** Every normalized entry of a column lies in [0, 1]. */
  lemma NormalizeInUnitRange(col: seq<Value>, i: int)
    requires 0 <= i < |col|
    ensures 0.0 <= Normalize(col[i], ColumnMin(col), ColumnMax(col)) <= 1.0
  {
    var lo, hi := ColumnMin(col), ColumnMax(col);
    if col[i].Num? {
      assert lo.value <= col[i].x <= hi.value;
      ScaledBetween(col[i].x, lo.value, hi.value);
    }
  }

  lemma ScaledBetween(x: real, lo: real, hi: real)
    requires lo <= x <= hi
    ensures 0.0 <= Normalize(Num(x), Some(lo), Some(hi)) <= 1.0
  {
    if hi > lo {
      UnitRatio(x - lo, hi - lo);
    }
  }

  lemma UnitRatio(a: real, d: real)
    requires 0.0 <= a <= d && d > 0.0
    ensures 0.0 <= a / d <= 1.0
  {
    var q := a / d;
    assert q * d == a;
  }

  /** Restoring a normalized entry gives the entry back whenever its column is not constant:
      the rescale inverts the normalization. */
  lemma RestoreInvertsNormalize(col: seq<Value>, i: int)
    requires 0 <= i < |col| && col[i].Num?
    requires ColumnMin(col) != ColumnMax(col)
    ensures Restore(Normalize(col[i], ColumnMin(col), ColumnMax(col)), ColumnMin(col), ColumnMax(col)) == col[i]
  {
    var lo, hi := ColumnMin(col).value, ColumnMax(col).value;
    assert lo <= col[i].x <= hi;
    ScaledRoundTrip(col[i].x, lo, hi);
  }

  lemma ScaledRoundTrip(x: real, lo: real, hi: real)
    requires lo < hi
    ensures Restore(Normalize(Num(x), Some(lo), Some(hi)), Some(lo), Some(hi)) == Num(x)
  {
    var d := hi - lo;
    assert (x - lo) / d * d == x - lo;
  }

  /** In a constant column every restored entry is that constant, whatever the autoencoder
      reconstructed. */
  lemma ConstantColumnRestored(col: seq<Value>, i: int, recon: real)
    requires 0 <= i < |col| && col[i].Num?
    requires ColumnMin(col) == ColumnMax(col)
    ensures Restore(recon, ColumnMin(col), ColumnMax(col)) == col[i]
  {
    var lo := ColumnMin(col).value;
    assert lo <= col[i].x <= lo;
  }
}
