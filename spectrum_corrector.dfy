/** The spectrum corrector (core/spectrum_corrector.py): every spectrum row
    takes the score of the drift-log row nearest to it in time, and its
    flux is divided by one plus that score. Both steps assign a column of
    the caller's spectrum table in place and return that same table. */
module SpectrumCorrector {
  import opened Frames

  /** A spectrum row; `drift_score` and `corrected_flux` are added by the
      two operations below. */
  datatype SpectrumRow = SpectrumRow(
    wavelength: real,
    datetime: int,
    flux: real,
    driftScore: Option<real>,
    correctedFlux: Option<real>)

  /** The drift log has a `timestamp` column. */
  predicate HasTimestamps(log: seq<LogRow>)
  {
    forall i :: 0 <= i < |log| ==> log[i].timestamp.Some?
  }

  /** Row `k` of the log is at least as close to `t` as every other row. */
  ghost predicate IsNearest(log: seq<LogRow>, k: int, t: int)
    requires HasTimestamps(log)
  {
    0 <= k < |log| &&
    forall j :: 0 <= j < |log| ==> Dist(log[k].timestamp.value, t) <= Dist(log[j].timestamp.value, t)
  }

  /** The first entry of `argsort(|timestamp - t|)`: a row whose timestamp
      is nearest to `t`. */
  function NearestIndex(log: seq<LogRow>, t: int): (k: nat)
    requires |log| > 0 && HasTimestamps(log)
    ensures k < |log|
    ensures forall j :: 0 <= j < |log| ==> Dist(log[k].timestamp.value, t) <= Dist(log[j].timestamp.value, t)
    decreases |log|
  {
    if |log| == 1 then 0
    else
      var k := NearestIndex(log[..|log| - 1], t);
      if Dist(log[|log| - 1].timestamp.value, t) < Dist(log[k].timestamp.value, t) then |log| - 1 else k
  }

  /** A log row stamped exactly at `t` is always the one matched, or ties
      with it. */
  lemma NearestExact(log: seq<LogRow>, t: int, j: nat)
    requires |log| > 0 && HasTimestamps(log)
    requires j < |log| && log[j].timestamp.value == t
    ensures log[NearestIndex(log, t)].timestamp.value == t
  {
  }

  /** `after` is `before` with `drift_score` set to the score of some log
      row nearest in time to `before.datetime`, and nothing else changed. */
  ghost predicate NearestMatch(log: seq<LogRow>, before: SpectrumRow, after: SpectrumRow)
    requires HasTimestamps(log)
  {
    && after.driftScore.Some?
    && after == before.(driftScore := after.driftScore)
    && exists k :: IsNearest(log, k, before.datetime) && log[k].score == after.driftScore.value
  }

  /** `match_drift_to_spectrum`: fills `drift_score` on every spectrum row
      from the nearest drift-log row. The per-row lookup runs only when the
      spectrum has rows; then a log without a `timestamp` column raises
      `KeyError` and an empty log raises `IndexError` (position 0 of an
      empty ordering), and the spectrum is left as it was. Ties between
      equally near rows may be broken either way. */
  method MatchDriftToSpectrum(driftLog: seq<LogRow>, spectrum: array<SpectrumRow>)
    returns (r: Result<array<SpectrumRow>>)
    modifies spectrum
    ensures r.Err? <==> spectrum.Length > 0 && (!HasTimestamps(driftLog) || |driftLog| == 0)
    ensures r.Err? ==> r.error == (if HasTimestamps(driftLog) then IndexError else KeyError)
    ensures r.Err? ==> spectrum[..] == old(spectrum[..])
    ensures r.Ok? ==> r.value == spectrum
    ensures r.Ok? ==> forall i :: 0 <= i < spectrum.Length ==>
      HasTimestamps(driftLog) && NearestMatch(driftLog, old(spectrum[i]), spectrum[i])
  {
    if spectrum.Length == 0 {
      return Ok(spectrum);
    }
    if !HasTimestamps(driftLog) {
      return Err(KeyError);
    }
    if |driftLog| == 0 {
      return Err(IndexError);
    }
    forall i | 0 <= i < spectrum.Length {
      spectrum[i] := spectrum[i].(driftScore := Some(driftLog[NearestIndex(driftLog, spectrum[i].datetime)].score));
    }
    forall i | 0 <= i < spectrum.Length
      ensures NearestMatch(driftLog, old(spectrum[i]), spectrum[i])
    {
      var k := NearestIndex(driftLog, old(spectrum[i]).datetime);
      assert IsNearest(driftLog, k, old(spectrum[i]).datetime);
    }
    r := Ok(spectrum);
  }

  /** `flux / (1 + drift_score)`: the flux whose product with
      `1 + drift_score` is the measured flux. A zero score leaves the flux
      exactly as it was; a positive score lowers a positive flux but keeps
      it positive. */
  function CorrectedFlux(flux: real, score: real): (c: real)
    requires score != -1.0
    ensures c * (1.0 + score) == flux
    ensures score == 0.0 ==> c == flux
    ensures score > 0.0 && flux > 0.0 ==> 0.0 < c < flux
  {
    flux / (1.0 + score)
  }

  /** Every present `drift_score` keeps the divisor `1 + drift_score`
      away from zero. */
  ghost predicate DivisorsNonZero(rows: seq<SpectrumRow>)
  {
    forall i :: 0 <= i < |rows| && rows[i].driftScore.Some? ==> rows[i].driftScore.value != -1.0
  }

  /** `apply_simple_correction`: writes `corrected_flux` into every row in
      place and returns the same table; `flux` and `drift_score` stay as
      they were. A spectrum without a `drift_score` column raises
      `KeyError` and is left as it was. */
  method ApplySimpleCorrection(spectrum: array<SpectrumRow>) returns (r: Result<array<SpectrumRow>>)
    requires DivisorsNonZero(spectrum[..])
    modifies spectrum
    ensures r.Err? <==> exists i :: 0 <= i < spectrum.Length && old(spectrum[i]).driftScore.None?
    ensures r.Err? ==> r.error == KeyError && spectrum[..] == old(spectrum[..])
    ensures r.Ok? ==> r.value == spectrum
    ensures r.Ok? ==> forall i :: 0 <= i < spectrum.Length ==>
      old(spectrum[i]).driftScore.Some? &&
      spectrum[i] == old(spectrum[i]).(correctedFlux :=
        Some(CorrectedFlux(old(spectrum[i]).flux, old(spectrum[i]).driftScore.value)))
  {
    if exists i :: 0 <= i < spectrum.Length && spectrum[i].driftScore.None? {
      return Err(KeyError);
    }
    forall i | 0 <= i < spectrum.Length {
      spectrum[i] := spectrum[i].(correctedFlux :=
        Some(CorrectedFlux(spectrum[i].flux, spectrum[i].driftScore.value)));
    }
    r := Ok(spectrum);
  }
}
