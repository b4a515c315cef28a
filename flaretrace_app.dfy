/** The drift flags the retrieval dashboard (flaretrace_app.py) derives
    from the rolling drift log before matching it to the spectrum. Only
    the log rows of feature `flux_err` are selected; both flag columns
    start out false on every row and are then overwritten on the selected
    rows from their own `drift`, `score` and `threshold` cells. */
module FlareTraceApp {
  import opened Frames

  /** The feature whose log rows set the flags. */
  const TargetFeature: string := "flux_err"

  predicate Selected(row: LogRow)
  {
    row.feature == TargetFeature
  }

  /** Positions of the selected rows, in increasing order: the index of
      `drift_df[drift_df["feature"] == TARGET_FEATURE]`. */
  function SelectedIndices(rows: seq<LogRow>): (ix: seq<nat>)
    ensures forall k :: 0 <= k < |ix| ==> ix[k] < |rows| && Selected(rows[ix[k]])
    ensures forall i :: 0 <= i < |rows| && Selected(rows[i]) ==> i in ix
    ensures forall k, l :: 0 <= k < l < |ix| ==> ix[k] < ix[l]
    decreases |rows|
  {
    if rows == [] then []
    else
      var n := |rows| - 1;
      var ix := SelectedIndices(rows[..n]);
      assert forall k :: 0 <= k < |ix| ==> rows[..n][ix[k]] == rows[ix[k]];
      assert forall i :: 0 <= i < n ==> rows[..n][i] == rows[i];
      if Selected(rows[n]) then ix + [n] else ix
  }

  /** The flags row `row` ends up with: a selected row takes `drift_flux`
      from its own `drift` cell (the flux flag is filled from `flux_err`
      rows) and `drift_flux_err` from `score > threshold`, strictly; any
      other row keeps both flags false. No other column changes. */
  function FlagRow(row: LogRow): (f: LogRow)
    ensures f.driftFlux == Some(Selected(row) && row.drift)
    ensures f.driftFluxErr == Some(Selected(row) && row.score > row.threshold)
    ensures f.(driftFlux := row.driftFlux, driftFluxErr := row.driftFluxErr) == row
  {
    var cleared := row.(driftFlux := Some(false), driftFluxErr := Some(false));
    if Selected(row) then cleared.(driftFlux := Some(row.drift), driftFluxErr := Some(row.score > row.threshold))
    else cleared
  }

  /** Lines 43-51: selects the `flux_err` rows, initialises both flag
      columns to false on every row, then overwrites them on the selected
      rows. Rows keep their number and order. */
  method DeriveDriftFlags(driftDf: array<LogRow>)
    modifies driftDf
    ensures forall i :: 0 <= i < driftDf.Length ==> driftDf[i] == FlagRow(old(driftDf[i]))
  {
    // `flux_drift`: a copy of the selected rows, taken before the flag
    // columns exist; its cells are read from `original`
    var original := driftDf[..];
    var selected := SelectedIndices(original);
    forall i | 0 <= i < driftDf.Length {
      driftDf[i] := driftDf[i].(driftFlux := Some(false), driftFluxErr := Some(false));
    }
    for k := 0 to |selected|
      invariant forall i :: 0 <= i < driftDf.Length ==>
        driftDf[i] == if i in selected[..k] then FlagRow(original[i])
                      else original[i].(driftFlux := Some(false), driftFluxErr := Some(false))
    {
      var i := selected[k];
      assert forall l :: 0 <= l < k ==> selected[l] < i;
      driftDf[i] := driftDf[i].(driftFlux := Some(original[i].drift),
                                driftFluxErr := Some(original[i].score > original[i].threshold));
    }
    assert selected[..|selected|] == selected;
  }

  /** Number of rows whose `drift_flux_err` flag is set. */
  function CountErrFlagged(rows: seq<LogRow>): nat
  {
    if rows == [] then 0
    else (if rows[0].driftFluxErr == Some(true) then 1 else 0) + CountErrFlagged(rows[1..])
  }

  /** Number of rows of the target feature. */
  function CountSelected(rows: seq<LogRow>): nat
  {
    if rows == [] then 0
    else (if Selected(rows[0]) then 1 else 0) + CountSelected(rows[1..])
  }

  function FlagAll(rows: seq<LogRow>): (f: seq<LogRow>)
    ensures |f| == |rows|
    ensures forall i :: 0 <= i < |rows| ==> f[i] == FlagRow(rows[i])
  {
    seq(|rows|, i requires 0 <= i < |rows| => FlagRow(rows[i]))
  }

  /** After the flags are derived, no more rows are flagged as drifted
      than there are `flux_err` rows. */
  lemma {:induction false} FlaggedAtMostSelected(rows: seq<LogRow>)
    ensures CountErrFlagged(FlagAll(rows)) <= CountSelected(rows)
  {
    if rows != [] {
      FlaggedAtMostSelected(rows[1..]);
      assert FlagAll(rows)[1..] == FlagAll(rows[1..]);
    }
  }

  /** Deriving the flags a second time changes nothing. */
  lemma FlagIdempotent(rows: seq<LogRow>)
    ensures FlagAll(FlagAll(rows)) == FlagAll(rows)
  {
  }
}
