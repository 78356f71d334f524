/** What the simulated table promises: its size and columns, where each of its rows comes from,
    the cell ids of the replicate sets, the amplitude percentages, and what an autoencoder that
    reproduces its input gives back. */
module SimulateFacts {
  import opened Wrappers
  import opened Text
  import opened Seqs
  import opened Frames
  import opened Classify
  import opened Rescale
  import opened Sorting
  import opened Simulate

  // ----- the replicate sets -----

  lemma RowIndexBelow(s: nat, k: nat, n: nat, i: nat)
    requires s < k && i < n
    ensures s * n + i < k * n
  {
    assert (s + 1) * n == s * n + n;
    assert (s + 1) * n <= k * n;
  }

  /** Row `q = s * n + i` of `sim_df` is row `i` of the replicate table of set `s`. */
  lemma {:induction false} SimSetsRow(data: Frame, p: Prepared, k: nat, noise: seq<Matrix>, ae: Matrix -> Matrix,
                                      s: nat, i: nat, q: nat)
    requires WellFormed(data) && Fits(data, p)
    requires k <= |noise| && forall t :: 0 <= t < k ==> IsShape(noise[t], |data.rows|, |p.feats|)
    requires SimSets(data, p, k, noise, ae).Ok?
    requires s < k && i < |data.rows| && q == s * |data.rows| + i
    ensures Block(data, p, s, noise[s], ae).Ok?
    ensures q < k * |data.rows|
    ensures SimSets(data, p, k, noise, ae).value[q] == Block(data, p, s, noise[s], ae).value[i]
    decreases k
  {
    var n := |data.rows|;
    RowIndexBelow(s, k, n, i);
    var acc := SimSets(data, p, k - 1, noise, ae);
    assert acc.Ok?;
    if s < k - 1 {
      SimSetsRow(data, p, k - 1, noise, ae, s, i, q);
    } else {
      assert |acc.value| == s * n;
    }
  }

  /** Row `i` of the replicate table of set `s`: the categorical entries of input row `i`, the
      cell id shifted by `maxcell * s`, and the restored features. */
  lemma BlockRow(data: Frame, p: Prepared, s: nat, noise: Matrix, ae: Matrix -> Matrix, i: nat)
    requires WellFormed(data) && Fits(data, p)
    requires IsShape(noise, |data.rows|, |p.feats|)
    requires Block(data, p, s, noise, ae).Ok? && i < |data.rows|
    ensures "Cell" in p.cats
    ensures "Cell" !in p.feats ==> Block(data, p, s, noise, ae).value[i]["Cell"] == Int(ShiftedId(p.ids[i], p.maxCell, s))
    ensures forall c :: c in p.cats && c != "Cell" && c !in p.feats ==>
              c in data.rows[i] && Block(data, p, s, noise, ae).value[i][c] == data.rows[i][c]
  {
  }

  // ----- the simulated table -----

  /** A successful run passed every input check, found at least two amplitude channels of each
      fluorophore and ran every replicate set; its columns are the categorical columns followed
      by the sorted features and percentages, and its rows are `sim_df` with the percentages
      added and the cell ids cast. */
  lemma SimulatedOk(data: Frame, categorical: set<string>, features: seq<string>, sets: nat,
                    noise: seq<Matrix>, ae: Matrix -> Matrix)
    requires WellFormed(data) && Distinct(features)
    requires |noise| == sets && forall s :: 0 <= s < sets ==> IsShape(noise[s], |data.rows|, |features|)
    requires Simulated(data, categorical, features, sets, noise, ae).Ok?
    ensures Passes(data, features)
    ensures |FadFeatures(features)| >= 2 && |NadphFeatures(features)| >= 2
    ensures SimSets(data, Assemble(data, categorical, features), sets, noise, ae).Ok?
    ensures var p := Assemble(data, categorical, features);
            var fad, nadph := FadFeatures(features), NadphFeatures(features);
            var sim := SimSets(data, p, sets, noise, ae).value;
            && (forall k :: 0 <= k < |sim| ==>
                  fad[0] in sim[k] && fad[1] in sim[k] && nadph[0] in sim[k] && nadph[1] in sim[k])
            && Simulated(data, categorical, features, sets, noise, ae).value ==
                 Frame(p.cats + SortedCopy(features + DerivedNames(fad, nadph)), OutputRows(sim, fad, nadph))
  {
    var p := Assemble(data, categorical, features);
    var fad, nadph := FadFeatures(features), NadphFeatures(features);
    AmplitudeColumnsPresent(SimSets(data, p, sets, noise, ae).value, p.cats, p.feats, fad, nadph);
  }

  /** The exception of a failed run is the first one the code meets: that of the input checks
      (lines 152-176, as `Prepare` states them), else that of the first failing replicate set,
      else the `IndexError` of `FAD_feats[1]` or `NADPH_feats[1]` (lines 211-216), else the
      `KeyError` of `sim_df['Cell']` (line 228) when no set ran and no column is named `Cell`. */
  lemma SimulatedErrors(data: Frame, categorical: set<string>, features: seq<string>, sets: nat,
                        noise: seq<Matrix>, ae: Matrix -> Matrix)
    requires WellFormed(data) && Distinct(features)
    requires |noise| == sets && forall s :: 0 <= s < sets ==> IsShape(noise[s], |data.rows|, |features|)
    ensures !Passes(data, features) ==>
              Simulated(data, categorical, features, sets, noise, ae) == Err(Prepare(data, categorical, features).error)
    ensures Passes(data, features) ==>
              var sim := SimSets(data, Assemble(data, categorical, features), sets, noise, ae);
              var fad, nadph := FadFeatures(features), NadphFeatures(features);
              var r := Simulated(data, categorical, features, sets, noise, ae);
              && (sim.Err? ==> r == Err(sim.error))
              && (sim.Ok? && (|fad| < 2 || |nadph| < 2) ==> r == Err(TooFewAmplitudes))
              && (sim.Ok? && |fad| >= 2 && |nadph| >= 2 && "Cell" !in CategoricalColumns(data, categorical) && "Cell" !in features ==>
                    r == Err(MissingColumn("Cell")))
  {
    var fad, nadph := FadFeatures(features), NadphFeatures(features);
    if Passes(data, features) && |fad| >= 2 && |nadph| >= 2 && "Cell" !in features {
      CellNotOutputFeature(features, fad, nadph);
    }
  }

  /** `Cell` is among the sorted output names only when it is a selected feature. */
  lemma CellNotOutputFeature(features: seq<string>, fad: seq<string>, nadph: seq<string>)
    requires |fad| >= 2 && |nadph| >= 2 && "Cell" !in features
    ensures "Cell" !in SortedCopy(features + DerivedNames(fad, nadph))
  {
    var derived := DerivedNames(fad, nadph);
    var raw := [PercentName(fad[0]), PercentName(fad[1]), PercentName(nadph[0]), PercentName(nadph[1])];
    assert ColumnSet(derived) == ColumnSet(raw);
    PercentNameNotCell(fad[0]);
    PercentNameNotCell(fad[1]);
    PercentNameNotCell(nadph[0]);
    PercentNameNotCell(nadph[1]);
    assert "Cell" !in derived;
    SortedCopyColumns(features + derived);
    assert "Cell" !in ColumnSet(features + derived);
    assert "Cell" !in ColumnSet(SortedCopy(features + derived));
  }

  /** The exception of one replicate set, in the order the loop body meets them:
      - no feature column for the scaler (line 184);
      - a reconstruction that the MSE loss cannot broadcast against the `n x m` input
        (line 198);
      - no categorical `Cell` column (line 207);
      - a rescaled reconstruction that is not `n x m` (line 208): a row count other than `n`,
        or a width other than `m` that is not a single broadcast column.
      With none of these the set yields its table. */
  lemma BlockErrors(data: Frame, p: Prepared, s: nat, noise: Matrix, ae: Matrix -> Matrix)
    requires BlockInputs(data, p, noise)
    ensures |p.feats| == 0 ==> Block(data, p, s, noise, ae) == Err(NoFeatures)
    ensures |p.feats| > 0 ==>
              var b, recon := Block(data, p, s, noise, ae), Reconstruction(p, noise, ae);
              var n, m, w := |data.rows|, |p.feats|, Width(recon, |p.feats|);
              var broadcasts := w.Some? && Broadcasts(|recon|, n) && Broadcasts(w.value, m);
              && (!broadcasts ==> b == Err(LossShape(s)))
              && (broadcasts && "Cell" !in p.cats ==> b == Err(CellNotCategorical))
              && (broadcasts && "Cell" in p.cats && (|recon| != n || (w.value != m && w.value != 1)) ==>
                    b == Err(ShapeMismatch(s)))
              && ("Cell" in p.cats && |recon| == n && (RowsOfWidth(recon, m) || RowsOfWidth(recon, 1)) ==> b.Ok?)
  {
  }

  lemma PercentNameNotCell(feature: string)
    ensures PercentName(feature) != "Cell"
  {
    var name := PercentName(feature);
    assert name[|name| - 1] == ']';
  }

  lemma ColumnSetConcat(a: seq<string>, b: seq<string>)
    ensures ColumnSet(a + b) == ColumnSet(a) + ColumnSet(b)
  {
  }

  lemma SortedCopyColumns(names: seq<string>)
    ensures ColumnSet(SortedCopy(names)) == ColumnSet(names)
  {
    var sorted := SortedCopy(names);
    forall c ensures c in sorted <==> c in names {
      assert c in sorted <==> multiset(sorted)[c] > 0;
    }
  }

  /** Adding the percentages adds the derived columns; casting the cell ids adds none. */
  lemma OutputRowKeys(sim: seq<Row>, fad: seq<string>, nadph: seq<string>, keys: set<string>)
    requires |fad| >= 2 && |nadph| >= 2
    requires forall k :: 0 <= k < |sim| ==> sim[k].Keys == keys
    requires forall k :: 0 <= k < |sim| ==> fad[0] in sim[k] && fad[1] in sim[k] && nadph[0] in sim[k] && nadph[1] in sim[k]
    ensures forall k :: 0 <= k < |sim| ==> OutputRows(sim, fad, nadph)[k].Keys == keys + ColumnSet(DerivedNames(fad, nadph))
  {
    var derived := [PercentName(fad[0]), PercentName(fad[1]), PercentName(nadph[0]), PercentName(nadph[1])];
    assert ColumnSet(DerivedNames(fad, nadph)) == ColumnSet(derived);
    forall k | 0 <= k < |sim| ensures OutputRows(sim, fad, nadph)[k].Keys == keys + ColumnSet(derived) {
      assert WithPercentages(sim[k], fad, nadph).Keys == keys + ColumnSet(derived);
    }
  }

  /** The output frame built from replicate rows whose columns are `cats` and `features`: one
      row per replicate row, the categorical columns first, then the feature and percentage
      names sorted, and every row holding exactly these columns. */
  lemma OutputTable(cats: seq<string>, features: seq<string>, sim: seq<Row>, fad: seq<string>, nadph: seq<string>)
    requires |fad| >= 2 && |nadph| >= 2
    requires forall k :: 0 <= k < |sim| ==> sim[k].Keys == ColumnSet(cats) + ColumnSet(features)
    requires forall k :: 0 <= k < |sim| ==> fad[0] in sim[k] && fad[1] in sim[k] && nadph[0] in sim[k] && nadph[1] in sim[k]
    ensures var names := features + DerivedNames(fad, nadph);
            var f := Frame(cats + SortedCopy(names), OutputRows(sim, fad, nadph));
            && |f.rows| == |sim|
            && |f.columns| == |cats| + |names|
            && f.columns[..|cats|] == cats
            && Sorted(f.columns[|cats|..])
            && multiset(f.columns[|cats|..]) == multiset(names)
            && WellFormed(f)
  {
    var names := features + DerivedNames(fad, nadph);
    var columns := cats + SortedCopy(names);
    assert |SortedCopy(names)| == |multiset(SortedCopy(names))| == |multiset(names)| == |names|;
    assert columns[..|cats|] == cats && columns[|cats|..] == SortedCopy(names);
    SortedCopyColumns(names);
    ColumnSetConcat(cats, SortedCopy(names));
    ColumnSetConcat(features, DerivedNames(fad, nadph));
    OutputRowKeys(sim, fad, nadph, ColumnSet(cats) + ColumnSet(features));
  }

  /** The simulated table has `sets` rows per input row, the selected categorical columns in
      their input order followed by the features and percentages sorted and each present once
      per occurrence, a `Cell` column, and every row has exactly the table's columns. */
  lemma SimulatedTable(data: Frame, categorical: set<string>, features: seq<string>, sets: nat,
                       noise: seq<Matrix>, ae: Matrix -> Matrix)
    requires WellFormed(data) && Distinct(features)
    requires |noise| == sets && forall s :: 0 <= s < sets ==> IsShape(noise[s], |data.rows|, |features|)
    requires Simulated(data, categorical, features, sets, noise, ae).Ok?
    ensures |FadFeatures(features)| >= 2 && |NadphFeatures(features)| >= 2
    ensures var f := Simulated(data, categorical, features, sets, noise, ae).value;
            var cats := CategoricalColumns(data, categorical);
            var names := features + DerivedNames(FadFeatures(features), NadphFeatures(features));
            && |f.rows| == sets * |data.rows|
            && |f.columns| == |cats| + |names|
            && f.columns[..|cats|] == cats
            && Sorted(f.columns[|cats|..])
            && multiset(f.columns[|cats|..]) == multiset(names)
            && "Cell" in f.columns
            && WellFormed(f)
  {
    SimulatedOk(data, categorical, features, sets, noise, ae);
    var p := Assemble(data, categorical, features);
    var sim := SimSets(data, p, sets, noise, ae).value;
    OutputTable(p.cats, features, sim, FadFeatures(features), NadphFeatures(features));
  }

  // ----- cell ids -----

  /** Output row `q = s * n + i` is input row `i` of replicate set `s`: its `Cell` label is the
      decimal spelling of the input id shifted by `maxcell * s`, and reads back as that id. */
  lemma OutputCellId(data: Frame, categorical: set<string>, features: seq<string>, sets: nat,
                     noise: seq<Matrix>, ae: Matrix -> Matrix, s: nat, i: nat, q: nat)
    requires WellFormed(data) && Distinct(features)
    requires |noise| == sets && forall t :: 0 <= t < sets ==> IsShape(noise[t], |data.rows|, |features|)
    requires Simulated(data, categorical, features, sets, noise, ae).Ok?
    requires s < sets && i < |data.rows| && q == s * |data.rows| + i
    requires "Cell" !in features
    ensures Passes(data, features)
    ensures q < |Simulated(data, categorical, features, sets, noise, ae).value.rows|
    ensures var row := Simulated(data, categorical, features, sets, noise, ae).value.rows[q];
            var p := Assemble(data, categorical, features);
            && "Cell" in row
            && row["Cell"] == Label(IntToString(ShiftedId(p.ids[i], p.maxCell, s)))
            && CellIdOf(row["Cell"]) == Some(ShiftedId(p.ids[i], p.maxCell, s))
  {
    SimulatedOk(data, categorical, features, sets, noise, ae);
    var p := Assemble(data, categorical, features);
    var fad, nadph := FadFeatures(features), NadphFeatures(features);
    var sim := SimSets(data, p, sets, noise, ae).value;
    SimSetsRow(data, p, sets, noise, ae, s, i, q);
    BlockRow(data, p, s, noise[s], ae, i);
    OutputCell(sim, fad, nadph, q, ShiftedId(p.ids[i], p.maxCell, s));
  }

  /** With positive ids (so `maxcell` bounds them from above and from 1 below), the ids of
      two different replicate sets never meet. */
  lemma ShiftedIdsDisjoint(a: int, b: int, maxCell: int, s: nat, t: nat)
    requires 1 <= a <= maxCell && 1 <= b <= maxCell && s < t
    ensures ShiftedId(a, maxCell, s) < ShiftedId(b, maxCell, t)
  {
    ShiftedIdRange(a, maxCell, s);
    ShiftedIdRange(b, maxCell, t);
    assert maxCell * (s + 1) <= maxCell * t;
  }

  /** An id in `[1, maxcell]` lands in `[s * maxcell + 1, (s + 1) * maxcell]` in set `s`. */
  lemma ShiftedIdRange(a: int, maxCell: int, s: nat)
    requires 1 <= a <= maxCell
    ensures s * maxCell + 1 <= ShiftedId(a, maxCell, s) <= (s + 1) * maxCell
  {
    assert (s + 1) * maxCell == s * maxCell + maxCell;
  }

  /** An id of 0 in set `s + 1` is the id `maxcell` had in set `s`. */
  lemma ShiftedIdZero(a: int, b: int, maxCell: int, s: nat, t: nat)
    requires a == 0 && b == maxCell && t == s + 1
    ensures ShiftedId(a, maxCell, t) == ShiftedId(b, maxCell, s)
  {
  }

  /** An integer cell id in `sim_df` becomes its decimal label in the output. */
  lemma OutputCell(sim: seq<Row>, fad: seq<string>, nadph: seq<string>, q: nat, id: int)
    requires |fad| >= 2 && |nadph| >= 2
    requires forall k :: 0 <= k < |sim| ==> fad[0] in sim[k] && fad[1] in sim[k] && nadph[0] in sim[k] && nadph[1] in sim[k]
    requires q < |sim| && "Cell" in sim[q] && sim[q]["Cell"] == Int(id)
    ensures "Cell" in OutputRows(sim, fad, nadph)[q]
    ensures OutputRows(sim, fad, nadph)[q]["Cell"] == Label(IntToString(id))
    ensures CellIdOf(OutputRows(sim, fad, nadph)[q]["Cell"]) == Some(id)
  {
    PercentNameNotCell(fad[0]);
    PercentNameNotCell(fad[1]);
    PercentNameNotCell(nadph[0]);
    PercentNameNotCell(nadph[1]);
    assert WithPercentages(sim[q], fad, nadph)["Cell"] == Int(id);
    IntToStringRoundTrip(id);
  }

  /** Every input row has a `Cell` entry that reads as the integer `id`. */
  predicate HasCellId(data: Frame, i: nat, id: int)
  {
    i < |data.rows| && "Cell" in data.rows[i] && CellIdOf(data.rows[i]["Cell"]) == Some(id)
  }

  /** When every input cell id is positive, rows of different replicate sets carry different
      `Cell` labels: the offset `maxcell * simset` keeps the sets apart. */
  lemma CellLabelsOfSetsDiffer(data: Frame, categorical: set<string>, features: seq<string>, sets: nat,
                               noise: seq<Matrix>, ae: Matrix -> Matrix,
                               s: nat, i: nat, q: nat, t: nat, j: nat, r: nat)
    requires WellFormed(data) && Distinct(features)
    requires |noise| == sets && forall u :: 0 <= u < sets ==> IsShape(noise[u], |data.rows|, |features|)
    requires Simulated(data, categorical, features, sets, noise, ae).Ok?
    requires "Cell" !in features
    requires forall k, id :: HasCellId(data, k, id) ==> id >= 1
    requires s < t < sets && i < |data.rows| && j < |data.rows|
    requires q == s * |data.rows| + i && r == t * |data.rows| + j
    ensures q < |Simulated(data, categorical, features, sets, noise, ae).value.rows|
    ensures r < |Simulated(data, categorical, features, sets, noise, ae).value.rows|
    ensures "Cell" in Simulated(data, categorical, features, sets, noise, ae).value.rows[q]
    ensures "Cell" in Simulated(data, categorical, features, sets, noise, ae).value.rows[r]
    ensures Simulated(data, categorical, features, sets, noise, ae).value.rows[q]["Cell"] !=
            Simulated(data, categorical, features, sets, noise, ae).value.rows[r]["Cell"]
  {
    OutputCellId(data, categorical, features, sets, noise, ae, s, i, q);
    OutputCellId(data, categorical, features, sets, noise, ae, t, j, r);
    var p := Assemble(data, categorical, features);
    assert HasCellId(data, i, p.ids[i]) && HasCellId(data, j, p.ids[j]);
    ShiftedIdsDisjoint(p.ids[i], p.ids[j], p.maxCell, s, t);
  }

  /** An input id of 0 is not kept apart: in set `s + 1` it gets the label the row holding the
      largest id had in set `s`, so two different input cells share one output label. */
  lemma ZeroCellIdCollides(data: Frame, categorical: set<string>, features: seq<string>, sets: nat,
                           noise: seq<Matrix>, ae: Matrix -> Matrix,
                           s: nat, j: nat, r: nat, t: nat, i: nat, q: nat, top: int)
    requires WellFormed(data) && Distinct(features)
    requires |noise| == sets && forall u :: 0 <= u < sets ==> IsShape(noise[u], |data.rows|, |features|)
    requires Simulated(data, categorical, features, sets, noise, ae).Ok?
    requires "Cell" !in features
    requires HasCellId(data, i, 0) && HasCellId(data, j, top)
    requires forall k, id :: HasCellId(data, k, id) ==> id <= top
    requires t == s + 1 && t < sets && q == t * |data.rows| + i && r == s * |data.rows| + j
    ensures q < |Simulated(data, categorical, features, sets, noise, ae).value.rows|
    ensures r < |Simulated(data, categorical, features, sets, noise, ae).value.rows|
    ensures "Cell" in Simulated(data, categorical, features, sets, noise, ae).value.rows[q]
    ensures "Cell" in Simulated(data, categorical, features, sets, noise, ae).value.rows[r]
    ensures Simulated(data, categorical, features, sets, noise, ae).value.rows[q]["Cell"] ==
            Simulated(data, categorical, features, sets, noise, ae).value.rows[r]["Cell"]
  {
    SimulatedOk(data, categorical, features, sets, noise, ae);
    TopIdIsMaxCell(data, categorical, features, i, j, top);
    var p := Assemble(data, categorical, features);
    ShiftedIdZero(p.ids[i], p.ids[j], p.maxCell, s, t);
    SameShiftedIdSameLabel(data, categorical, features, sets, noise, ae, t, i, q, s, j, r);
  }

  /** Two output rows whose shifted ids agree carry the same `Cell` label. */
  lemma SameShiftedIdSameLabel(data: Frame, categorical: set<string>, features: seq<string>, sets: nat,
                               noise: seq<Matrix>, ae: Matrix -> Matrix,
                               t: nat, i: nat, q: nat, s: nat, j: nat, r: nat)
    requires WellFormed(data) && Distinct(features)
    requires |noise| == sets && forall u :: 0 <= u < sets ==> IsShape(noise[u], |data.rows|, |features|)
    requires Simulated(data, categorical, features, sets, noise, ae).Ok?
    requires "Cell" !in features && Passes(data, features)
    requires t < sets && i < |data.rows| && q == t * |data.rows| + i
    requires s < sets && j < |data.rows| && r == s * |data.rows| + j
    requires var p := Assemble(data, categorical, features);
             ShiftedId(p.ids[i], p.maxCell, t) == ShiftedId(p.ids[j], p.maxCell, s)
    ensures q < |Simulated(data, categorical, features, sets, noise, ae).value.rows|
    ensures r < |Simulated(data, categorical, features, sets, noise, ae).value.rows|
    ensures "Cell" in Simulated(data, categorical, features, sets, noise, ae).value.rows[q]
    ensures "Cell" in Simulated(data, categorical, features, sets, noise, ae).value.rows[r]
    ensures Simulated(data, categorical, features, sets, noise, ae).value.rows[q]["Cell"] ==
            Simulated(data, categorical, features, sets, noise, ae).value.rows[r]["Cell"]
  {
    OutputCellId(data, categorical, features, sets, noise, ae, t, i, q);
    OutputCellId(data, categorical, features, sets, noise, ae, s, j, r);
  }

  /** The ids `execute` reads are the ids `HasCellId` names, and the largest is `maxcell`. */
  lemma TopIdIsMaxCell(data: Frame, categorical: set<string>, features: seq<string>, i: nat, j: nat, top: int)
    requires WellFormed(data) && Distinct(features) && Passes(data, features)
    requires HasCellId(data, i, 0) && HasCellId(data, j, top)
    requires forall k, id :: HasCellId(data, k, id) ==> id <= top
    ensures Assemble(data, categorical, features).ids[i] == 0
    ensures Assemble(data, categorical, features).ids[j] == Assemble(data, categorical, features).maxCell
  {
    var p := Assemble(data, categorical, features);
    assert HasCellId(data, i, p.ids[i]) && HasCellId(data, j, p.ids[j]);
    var k :| 0 <= k < |p.ids| && p.ids[k] == p.maxCell;
    assert HasCellId(data, k, p.ids[k]);
  }

  // ----- amplitude percentages -----

  /** The two shares of a pair are finite together and add up to 100. */
  lemma SharesComplement(a: Value, b: Value)
    ensures Share(a, b).Num? <==> Share(b, a).Num?
    ensures Share(a, b).Num? ==> Share(a, b).x + Share(b, a).x == 100.0
  {
    if Share(a, b).Num? {
      var t := a.x + b.x;
      var u, v := Share(a, b).x, Share(b, a).x;
      assert u * t == 100.0 * a.x;
      assert v * t == 100.0 * b.x;
      SumOfShares(u, v, a.x, b.x);
    }
  }

  lemma SumOfShares(u: real, v: real, a: real, b: real)
    requires a + b != 0.0
    requires u * (a + b) == 100.0 * a && v * (a + b) == 100.0 * b
    ensures u + v == 100.0
  {
    assert (u + v) * (a + b) == 100.0 * (a + b);
    assert (u + v - 100.0) * (a + b) == 0.0;
  }

  /** `Cell` is neither an FAD nor an NAD(P)H amplitude name. */
  lemma CellIsNoAmplitude()
    ensures !IsFadAmplitude("Cell") && !IsNadphAmplitude("Cell")
  {
    assert Lower("Cell") == "cell";
    MissingFirstChar("cell", "a1");
    MissingFirstChar("cell", "a2");
  }

  /** The four percentage names are different and none is a selected feature, so each
      percentage column is its own column (no name of the dict literal or of the feature list
      is written twice). */
  predicate PercentagesApart(features: seq<string>)
  {
    var fad, nadph := FadFeatures(features), NadphFeatures(features);
    && |fad| >= 2 && |nadph| >= 2
    && var derived := [PercentName(fad[0]), PercentName(fad[1]), PercentName(nadph[0]), PercentName(nadph[1])];
       Distinct(derived) && forall k :: 0 <= k < 4 ==> derived[k] !in features
  }

  /** One output row: each percentage is the share of its channel in the pair as the row holds
      it, when the percentage names neither clash with each other nor with the amplitudes. */
  lemma PercentagesOfRow(row: Row, fad: seq<string>, nadph: seq<string>)
    requires |fad| >= 2 && |nadph| >= 2
    requires fad[0] in row && fad[1] in row && nadph[0] in row && nadph[1] in row
    requires fad[0] != "Cell" && fad[1] != "Cell" && nadph[0] != "Cell" && nadph[1] != "Cell"
    requires var derived := [PercentName(fad[0]), PercentName(fad[1]), PercentName(nadph[0]), PercentName(nadph[1])];
             Distinct(derived) && forall k :: 0 <= k < 4 ==> derived[k] !in [fad[0], fad[1], nadph[0], nadph[1]]
    ensures var out := CastCell(WithPercentages(row, fad, nadph));
            && fad[0] in out && fad[1] in out && nadph[0] in out && nadph[1] in out
            && PercentName(fad[0]) in out && PercentName(fad[1]) in out
            && PercentName(nadph[0]) in out && PercentName(nadph[1]) in out
            && out[PercentName(fad[0])] == Share(out[fad[0]], out[fad[1]])
            && out[PercentName(fad[1])] == Share(out[fad[1]], out[fad[0]])
            && out[PercentName(nadph[0])] == Share(out[nadph[0]], out[nadph[1]])
            && out[PercentName(nadph[1])] == Share(out[nadph[1]], out[nadph[0]])
  {
    var derived := [PercentName(fad[0]), PercentName(fad[1]), PercentName(nadph[0]), PercentName(nadph[1])];
    assert derived[0] != derived[1] && derived[0] != derived[2] && derived[0] != derived[3];
    assert derived[1] != derived[2] && derived[1] != derived[3] && derived[2] != derived[3];
    PercentNameNotCell(fad[0]);
    PercentNameNotCell(fad[1]);
    PercentNameNotCell(nadph[0]);
    PercentNameNotCell(nadph[1]);
  }

  /** Every row of the simulated table: each amplitude percentage is the channel's share of its
      pair in that row, in percent, and the two percentages of a pair add up to 100 whenever
      they are finite (both amplitudes numbers with a nonzero sum). */
  lemma OutputPercentages(data: Frame, categorical: set<string>, features: seq<string>, sets: nat,
                          noise: seq<Matrix>, ae: Matrix -> Matrix, q: nat)
    requires WellFormed(data) && Distinct(features)
    requires |noise| == sets && forall u :: 0 <= u < sets ==> IsShape(noise[u], |data.rows|, |features|)
    requires Simulated(data, categorical, features, sets, noise, ae).Ok?
    requires PercentagesApart(features)
    requires q < |Simulated(data, categorical, features, sets, noise, ae).value.rows|
    ensures var out := Simulated(data, categorical, features, sets, noise, ae).value.rows[q];
            var fad, nadph := FadFeatures(features), NadphFeatures(features);
            && fad[0] in out && fad[1] in out && nadph[0] in out && nadph[1] in out
            && PercentName(fad[0]) in out && PercentName(fad[1]) in out
            && PercentName(nadph[0]) in out && PercentName(nadph[1]) in out
            && out[PercentName(fad[0])] == Share(out[fad[0]], out[fad[1]])
            && out[PercentName(fad[1])] == Share(out[fad[1]], out[fad[0]])
            && out[PercentName(nadph[0])] == Share(out[nadph[0]], out[nadph[1]])
            && out[PercentName(nadph[1])] == Share(out[nadph[1]], out[nadph[0]])
            && (out[PercentName(fad[0])].Num? ==> out[PercentName(fad[0])].x + out[PercentName(fad[1])].x == 100.0)
            && (out[PercentName(nadph[0])].Num? ==> out[PercentName(nadph[0])].x + out[PercentName(nadph[1])].x == 100.0)
  {
    SimulatedOk(data, categorical, features, sets, noise, ae);
    var p := Assemble(data, categorical, features);
    var fad, nadph := FadFeatures(features), NadphFeatures(features);
    var sim := SimSets(data, p, sets, noise, ae).value;
    CellIsNoAmplitude();
    assert fad[0] in fad && fad[1] in fad && nadph[0] in nadph && nadph[1] in nadph;
    PercentagesOfRow(sim[q], fad, nadph);
    var out := CastCell(WithPercentages(sim[q], fad, nadph));
    SharesComplement(out[fad[0]], out[fad[1]]);
    SharesComplement(out[nadph[0]], out[nadph[1]]);
  }

  // ----- an autoencoder that reproduces its input -----

  /** Entry `(i, j)` of the feature matrix `x` after the noise is added, as an autoencoder that
      returns its input leaves it: a number comes back as the number plus its noise, a missing
      entry (imputed to 0 before the autoencoder) as its column's noisy minimum, and an entry of
      a column without any number stays missing. Outside the matrices (no entry `(i, j)`, or
      noise of another shape) it is NaN, which no lemma below uses. */
  function NoisyEntry(x: seq<seq<Value>>, noise: Matrix, i: nat, j: nat): Value
  {
    if i < |x| && |noise| == |x| && forall k :: 0 <= k < |x| ==> |noise[k]| == |x[k]| && j < |x[k]| then
      var lo := ColumnMin(Column(AddNoise(x, noise), j));
      if x[i][j].Num? then Num(x[i][j].x + noise[i][j])
      else if lo.Some? then Num(lo.value)
      else NaN
    else NaN
  }

  /** What `Block` asks of its inputs, in one place. */
  predicate BlockInputs(data: Frame, p: Prepared, noise: Matrix)
  {
    WellFormed(data) && Fits(data, p) && IsShape(noise, |data.rows|, |p.feats|)
  }

  /** With an autoencoder that returns its input unchanged, the replicate table of set `s` holds
      the noisy features themselves. */
  lemma IdentityBlock(data: Frame, p: Prepared, s: nat, noise: Matrix, ae: Matrix -> Matrix, i: nat, j: nat)
    requires BlockInputs(data, p, noise)
    requires forall z :: ae(z) == z
    requires "Cell" in p.cats && i < |data.rows| && j < |p.feats|
    ensures var b := Block(data, p, s, noise, ae);
            b.Ok? && i < |b.value| && p.feats[j] in b.value[i] && b.value[i][p.feats[j]] == NoisyEntry(p.x, noise, i, j)
  {
    var m := |p.feats|;
    var noisy := AddNoise(p.x, noise);
    var lo, hi := ColumnMins(noisy, m), ColumnMaxes(noisy, m);
    var z := Normalized(noisy, lo, hi);
    assert ae(z) == z;
    BlockFeature(data, p, s, noise, ae, i, j);
    NoisyEntryRestored(p.x, noise, i, j);
  }

  /** The noisy entry is what normalizing entry `(i, j)` of the noisy matrix and rescaling it
      with the bounds of its column gives back. */
  lemma NoisyEntryRestored(x: seq<seq<Value>>, noise: Matrix, i: nat, j: nat)
    requires i < |x| && |noise| == |x|
    requires forall k :: 0 <= k < |x| ==> |noise[k]| == |x[k]| && j < |x[k]|
    ensures var col := Column(AddNoise(x, noise), j);
            Restore(Normalize(col[i], ColumnMin(col), ColumnMax(col)), ColumnMin(col), ColumnMax(col)) == NoisyEntry(x, noise, i, j)
  {
    var col := Column(AddNoise(x, noise), j);
    assert col[i] == Plus(x[i][j], noise[i][j]);
    if x[i][j].Num? {
      NumberSurvivesScaling(col, i);
    }
  }

  /** Feature `j` of row `i` of a replicate table is entry `(i, j)` of the reconstruction,
      rescaled with the bounds of noisy column `j`. */
  lemma BlockFeature(data: Frame, p: Prepared, s: nat, noise: Matrix, ae: Matrix -> Matrix, i: nat, j: nat)
    requires BlockInputs(data, p, noise)
    requires "Cell" in p.cats && i < |data.rows| && j < |p.feats|
    requires var noisy := AddNoise(p.x, noise);
             var lo, hi := ColumnMins(noisy, |p.feats|), ColumnMaxes(noisy, |p.feats|);
             IsShape(ae(Normalized(noisy, lo, hi)), |data.rows|, |p.feats|)
    ensures var b := Block(data, p, s, noise, ae);
            var noisy := AddNoise(p.x, noise);
            var lo, hi := ColumnMins(noisy, |p.feats|), ColumnMaxes(noisy, |p.feats|);
            var recon := ae(Normalized(noisy, lo, hi));
            && b.Ok? && i < |b.value| && p.feats[j] in b.value[i]
            && b.value[i][p.feats[j]] == Restore(recon[i][j], ColumnMin(Column(noisy, j)), ColumnMax(Column(noisy, j)))
  {
    assert p.feats[j] in ColumnSet(p.feats);
  }

  /** A reconstruction with a single column is broadcast by line 203: every feature `j` of row
      `i` rescales the one reconstructed value of that row with the bounds of noisy column `j`. */
  lemma OneColumnBroadcast(data: Frame, p: Prepared, s: nat, noise: Matrix, ae: Matrix -> Matrix, i: nat, j: nat)
    requires BlockInputs(data, p, noise)
    requires "Cell" in p.cats && i < |data.rows| && j < |p.feats|
    requires IsShape(Reconstruction(p, noise, ae), |data.rows|, 1)
    ensures var b := Block(data, p, s, noise, ae);
            var noisy := AddNoise(p.x, noise);
            var recon := Reconstruction(p, noise, ae);
            && b.Ok? && i < |b.value| && p.feats[j] in b.value[i]
            && b.value[i][p.feats[j]] == Restore(recon[i][0], ColumnMin(Column(noisy, j)), ColumnMax(Column(noisy, j)))
  {
    assert p.feats[j] in ColumnSet(p.feats);
  }

  /** A number of a column comes back unchanged from normalization and rescaling with that
      column's bounds, whether or not the column is constant. */
  lemma NumberSurvivesScaling(col: seq<Value>, i: nat)
    requires i < |col| && col[i].Num?
    ensures Restore(Normalize(col[i], ColumnMin(col), ColumnMax(col)), ColumnMin(col), ColumnMax(col)) == col[i]
  {
    if ColumnMin(col) != ColumnMax(col) {
      RestoreInvertsNormalize(col, i);
    } else {
      ConstantColumnRestored(col, i, Normalize(col[i], ColumnMin(col), ColumnMax(col)));
    }
  }

  /** No selected feature is named like the percentage column of another. */
  predicate NoPercentFeature(features: seq<string>)
  {
    forall j, k :: 0 <= j < |features| && 0 <= k < |features| ==> features[j] != PercentName(features[k])
  }

  /** Adding the percentages and casting the cell ids leave every other column of a row alone. */
  lemma OutputKeepsColumn(sim: seq<Row>, fad: seq<string>, nadph: seq<string>, q: nat, name: string)
    requires |fad| >= 2 && |nadph| >= 2
    requires forall k :: 0 <= k < |sim| ==> fad[0] in sim[k] && fad[1] in sim[k] && nadph[0] in sim[k] && nadph[1] in sim[k]
    requires q < |sim| && name in sim[q] && name != "Cell"
    requires name != PercentName(fad[0]) && name != PercentName(fad[1])
    requires name != PercentName(nadph[0]) && name != PercentName(nadph[1])
    ensures name in OutputRows(sim, fad, nadph)[q]
    ensures OutputRows(sim, fad, nadph)[q][name] == sim[q][name]
  {
    assert WithPercentages(sim[q], fad, nadph)[name] == sim[q][name];
  }

  /** With an autoencoder that returns its input, the simulated table holds in row
      `q = s * n + i` the noisy features of input row `i` under the noise of set `s`: numbers
      plus their noise, missing entries replaced by the noisy column minimum. */
  lemma OutputWithIdentityAutoencoder(data: Frame, categorical: set<string>, features: seq<string>, sets: nat,
                                      noise: seq<Matrix>, ae: Matrix -> Matrix, s: nat, i: nat, q: nat, j: nat)
    requires WellFormed(data) && Distinct(features)
    requires |noise| == sets && forall u :: 0 <= u < sets ==> IsShape(noise[u], |data.rows|, |features|)
    requires Simulated(data, categorical, features, sets, noise, ae).Ok?
    requires forall z :: ae(z) == z
    requires "Cell" !in features && NoPercentFeature(features)
    requires s < sets && i < |data.rows| && q == s * |data.rows| + i && j < |features|
    ensures Passes(data, features)
    ensures q < |Simulated(data, categorical, features, sets, noise, ae).value.rows|
    ensures var f := Simulated(data, categorical, features, sets, noise, ae).value;
            var p := Assemble(data, categorical, features);
            && features[j] in f.rows[q]
            && f.rows[q][features[j]] == NoisyEntry(p.x, noise[s], i, j)
  {
    SimulatedOk(data, categorical, features, sets, noise, ae);
    var p := Assemble(data, categorical, features);
    var fad, nadph := FadFeatures(features), NadphFeatures(features);
    assert fad[0] in features && fad[1] in features && nadph[0] in features && nadph[1] in features;
    IdentitySimRow(data, p, sets, noise, ae, fad, nadph, s, i, q, j);
  }

  /** The identity-autoencoder entry of `sim_df` survives into the output row. */
  lemma IdentitySimRow(data: Frame, p: Prepared, sets: nat, noise: seq<Matrix>, ae: Matrix -> Matrix,
                       fad: seq<string>, nadph: seq<string>, s: nat, i: nat, q: nat, j: nat)
    requires WellFormed(data) && Fits(data, p)
    requires sets <= |noise| && forall u :: 0 <= u < sets ==> IsShape(noise[u], |data.rows|, |p.feats|)
    requires SimSets(data, p, sets, noise, ae).Ok?
    requires forall z :: ae(z) == z
    requires "Cell" !in p.feats && NoPercentFeature(p.feats)
    requires |fad| >= 2 && |nadph| >= 2
    requires fad[0] in p.feats && fad[1] in p.feats && nadph[0] in p.feats && nadph[1] in p.feats
    requires s < sets && i < |data.rows| && q == s * |data.rows| + i && j < |p.feats|
    ensures var sim := SimSets(data, p, sets, noise, ae).value;
            && q < |sim|
            && (forall k :: 0 <= k < |sim| ==> fad[0] in sim[k] && fad[1] in sim[k] && nadph[0] in sim[k] && nadph[1] in sim[k])
            && p.feats[j] in OutputRows(sim, fad, nadph)[q]
            && OutputRows(sim, fad, nadph)[q][p.feats[j]] == NoisyEntry(p.x, noise[s], i, j)
  {
    OutputEntryOfSet(data, p, sets, noise, ae, fad, nadph, s, i, q, p.feats[j]);
    IdentityBlock(data, p, s, noise[s], ae, i, j);
  }

  /** Entry `name` of output row `q = s * n + i` is entry `name` of row `i` of the replicate table
      of set `s`, for a column that is neither `Cell` nor a percentage column. */
  lemma OutputEntryOfSet(data: Frame, p: Prepared, sets: nat, noise: seq<Matrix>, ae: Matrix -> Matrix,
                         fad: seq<string>, nadph: seq<string>, s: nat, i: nat, q: nat, name: string)
    requires WellFormed(data) && Fits(data, p)
    requires sets <= |noise| && forall u :: 0 <= u < sets ==> IsShape(noise[u], |data.rows|, |p.feats|)
    requires SimSets(data, p, sets, noise, ae).Ok?
    requires |fad| >= 2 && |nadph| >= 2
    requires fad[0] in p.feats && fad[1] in p.feats && nadph[0] in p.feats && nadph[1] in p.feats
    requires s < sets && i < |data.rows| && q == s * |data.rows| + i
    requires (name in p.cats || name in p.feats) && name != "Cell"
    requires name != PercentName(fad[0]) && name != PercentName(fad[1])
    requires name != PercentName(nadph[0]) && name != PercentName(nadph[1])
    ensures "Cell" in p.cats && Block(data, p, s, noise[s], ae).Ok?
    ensures var sim := SimSets(data, p, sets, noise, ae).value;
            && q < |sim|
            && (forall k :: 0 <= k < |sim| ==> fad[0] in sim[k] && fad[1] in sim[k] && nadph[0] in sim[k] && nadph[1] in sim[k])
            && name in OutputRows(sim, fad, nadph)[q]
            && OutputRows(sim, fad, nadph)[q][name] == Block(data, p, s, noise[s], ae).value[i][name]
  {
    var sim := SimSets(data, p, sets, noise, ae).value;
    SimSetsRow(data, p, sets, noise, ae, s, i, q);
    BlockRow(data, p, s, noise[s], ae, i);
    AmplitudeColumnsPresent(sim, p.cats, p.feats, fad, nadph);
    OutputKeepsColumn(sim, fad, nadph, q, name);
  }

  /** A categorical column other than `Cell` (and neither selected as a feature nor named like
      a percentage column) is copied from the input: output row `q = s * n + i` holds the value
      of input row `i`, in every replicate set. */
  lemma OutputCategorical(data: Frame, categorical: set<string>, features: seq<string>, sets: nat,
                          noise: seq<Matrix>, ae: Matrix -> Matrix, s: nat, i: nat, q: nat, c: string)
    requires WellFormed(data) && Distinct(features)
    requires |noise| == sets && forall u :: 0 <= u < sets ==> IsShape(noise[u], |data.rows|, |features|)
    requires Simulated(data, categorical, features, sets, noise, ae).Ok?
    requires c in categorical && c in data.columns && c != "Cell" && c !in features
    requires forall k :: 0 <= k < |features| ==> c != PercentName(features[k])
    requires s < sets && i < |data.rows| && q == s * |data.rows| + i
    ensures c in data.rows[i]
    ensures q < |Simulated(data, categorical, features, sets, noise, ae).value.rows|
    ensures c in Simulated(data, categorical, features, sets, noise, ae).value.rows[q]
    ensures Simulated(data, categorical, features, sets, noise, ae).value.rows[q][c] == data.rows[i][c]
  {
    SimulatedOk(data, categorical, features, sets, noise, ae);
    var p := Assemble(data, categorical, features);
    var fad, nadph := FadFeatures(features), NadphFeatures(features);
    assert fad[0] in features && fad[1] in features && nadph[0] in features && nadph[1] in features;
    assert c in p.cats;
    CategoricalSimRow(data, p, sets, noise, ae, fad, nadph, s, i, q, c);
  }

  /** The categorical entry of `sim_df` survives into the output row. */
  lemma CategoricalSimRow(data: Frame, p: Prepared, sets: nat, noise: seq<Matrix>, ae: Matrix -> Matrix,
                          fad: seq<string>, nadph: seq<string>, s: nat, i: nat, q: nat, c: string)
    requires WellFormed(data) && Fits(data, p)
    requires sets <= |noise| && forall u :: 0 <= u < sets ==> IsShape(noise[u], |data.rows|, |p.feats|)
    requires SimSets(data, p, sets, noise, ae).Ok?
    requires |fad| >= 2 && |nadph| >= 2
    requires fad[0] in p.feats && fad[1] in p.feats && nadph[0] in p.feats && nadph[1] in p.feats
    requires s < sets && i < |data.rows| && q == s * |data.rows| + i
    requires c in p.cats && c != "Cell" && c !in p.feats
    requires c != PercentName(fad[0]) && c != PercentName(fad[1])
    requires c != PercentName(nadph[0]) && c != PercentName(nadph[1])
    ensures c in data.rows[i]
    ensures var sim := SimSets(data, p, sets, noise, ae).value;
            && q < |sim|
            && (forall k :: 0 <= k < |sim| ==> fad[0] in sim[k] && fad[1] in sim[k] && nadph[0] in sim[k] && nadph[1] in sim[k])
            && c in OutputRows(sim, fad, nadph)[q]
            && OutputRows(sim, fad, nadph)[q][c] == data.rows[i][c]
  {
    OutputEntryOfSet(data, p, sets, noise, ae, fad, nadph, s, i, q, c);
    BlockRow(data, p, s, noise[s], ae, i);
  }
}
