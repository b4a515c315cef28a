/** The light-curve dashboard's own logic (flaretrace.py): loading a light
    curve into a table, the windowed drift walk over it, and the
    placeholder spectral correction. The drift scorer (a Population
    Stability Index check from an external package) is a parameter. */
module FlareTrace {
  import opened Frames

  /** Configuration constants of the dashboard. */
  const Window: int := 300
  const Step: int := 60
  /** Offset from Kepler mission time (BKJD) to Julian date: 2454833 days. */
  const KeplerJdOffset: int := 2454833 * TicksPerDay
  /** The uniform attenuation of the placeholder correction. */
  const CorrectionFactor: real := 0.98

  datatype Feature = Flux | FluxErr

  /** The monitored features, in the order their columns are filled. */
  const Features: seq<Feature> := [Flux, FluxErr]

  /** What the scorer reports for one feature. */
  datatype ScoreResult = ScoreResult(score: real, isDrifted: bool)

  /** The external drift check: `DriftCheck(reference).run(current)[feature]`,
      given the reference rows, the comparison rows and the feature. */
  type Scorer = (seq<Sample>, seq<Sample>, Feature) -> ScoreResult

  /** One row of the windowed drift table: the window's first and last
      index values and `psi_<f>` / `drift_<f>` for each feature. */
  datatype WindowRecord = WindowRecord(
    start: int, end: int,
    psiFlux: real, driftFlux: bool,
    psiFluxErr: real, driftFluxErr: bool)

  /** Column `psi_<f>` of a record. */
  function Psi(r: WindowRecord, f: Feature): real
  {
    match f
    case Flux => r.psiFlux
    case FluxErr => r.psiFluxErr
  }

  /** Column `drift_<f>` of a record. */
  function Drift(r: WindowRecord, f: Feature): bool
  {
    match f
    case Flux => r.driftFlux
    case FluxErr => r.driftFluxErr
  }

  /** Fills the two columns of feature `f` from the scorer's result and
      leaves the window bounds and the other feature's columns alone. */
  function WithResult(r: WindowRecord, f: Feature, res: ScoreResult): (r': WindowRecord)
    ensures Psi(r', f) == res.score && Drift(r', f) == res.isDrifted
    ensures forall g :: g != f ==> Psi(r', g) == Psi(r, g) && Drift(r', g) == Drift(r, g)
    ensures r'.start == r.start && r'.end == r.end
  {
    match f
    case Flux => r.(psiFlux := res.score, driftFlux := res.isDrifted)
    case FluxErr => r.(psiFluxErr := res.score, driftFluxErr := res.isDrifted)
  }

  // ---------------------------------------------------------------------
  // Loading: dropping incomplete rows and deriving `time_diff`
  // ---------------------------------------------------------------------

  /** A downloaded light-curve row; `None` stands for a NaN cell. */
  datatype RawRow = RawRow(time: Option<int>, flux: Option<real>, fluxErr: Option<real>)

  /** A row that survived `dropna`. */
  datatype Observation = Observation(time: int, flux: real, fluxErr: real)

  predicate Complete(r: RawRow)
  {
    r.time.Some? && r.flux.Some? && r.fluxErr.Some?
  }

  function Cells(r: RawRow): Observation
    requires Complete(r)
  {
    Observation(r.time.value, r.flux.value, r.fluxErr.value)
  }

  /** What `dropna` keeps of one row. */
  function KeptOf(r: RawRow): seq<Observation>
  {
    if Complete(r) then [Cells(r)] else []
  }

  /** `dropna()`: keeps the complete rows, in their order. */
  function DropNa(raw: seq<RawRow>): (kept: seq<Observation>)
    ensures |kept| <= |raw|
  {
    if raw == [] then [] else KeptOf(raw[0]) + DropNa(raw[1..])
  }

  /** The kept rows are exactly the complete raw rows. */
  lemma {:induction false} DropNaMembers(raw: seq<RawRow>)
    ensures forall o :: o in DropNa(raw) <==>
      exists i :: 0 <= i < |raw| && Complete(raw[i]) && Cells(raw[i]) == o
  {
    if raw != [] {
      DropNaMembers(raw[1..]);
      forall o | o in DropNa(raw)
        ensures exists i :: 0 <= i < |raw| && Complete(raw[i]) && Cells(raw[i]) == o
      {
        if !(Complete(raw[0]) && o == Cells(raw[0])) {
          var j :| 0 <= j < |raw[1..]| && Complete(raw[1..][j]) && Cells(raw[1..][j]) == o;
          assert raw[j + 1] == raw[1..][j];
        }
      }
      forall o | exists i :: 0 <= i < |raw| && Complete(raw[i]) && Cells(raw[i]) == o
        ensures o in DropNa(raw)
      {
        var i :| 0 <= i < |raw| && Complete(raw[i]) && Cells(raw[i]) == o;
        if i > 0 {
          assert raw[1..][i - 1] == raw[i];
        }
      }
    }
  }

  /** `dropna` keeps the order: dropping from a concatenation is the
      concatenation of the two drops. */
  lemma {:induction false} DropNaAppend(a: seq<RawRow>, b: seq<RawRow>)
    ensures DropNa(a + b) == DropNa(a) + DropNa(b)
  {
    if a == [] {
      assert a + b == b;
    } else {
      calc {
        DropNa(a + b);
        { assert (a + b)[0] == a[0] && (a + b)[1..] == a[1..] + b; }
        KeptOf(a[0]) + DropNa(a[1..] + b);
        { DropNaAppend(a[1..], b); }
        KeptOf(a[0]) + (DropNa(a[1..]) + DropNa(b));
        (KeptOf(a[0]) + DropNa(a[1..])) + DropNa(b);
      }
    }
  }

  /** On a table without NaN cells `dropna` changes nothing. */
  lemma {:induction false} DropNaComplete(raw: seq<RawRow>)
    requires forall i :: 0 <= i < |raw| ==> Complete(raw[i])
    ensures |DropNa(raw)| == |raw|
    ensures forall i :: 0 <= i < |raw| ==> DropNa(raw)[i] == Cells(raw[i])
  {
    if raw != [] {
      DropNaComplete(raw[1..]);
    }
  }

  /** `time.diff().fillna(0)`: zero for the first row, otherwise the time
      elapsed since the previous row. */
  function TimeDiffs(ts: seq<int>): (d: seq<int>)
    ensures |d| == |ts|
    ensures |ts| > 0 ==> d[0] == 0
    ensures forall i :: 0 < i < |ts| ==> ts[i] == ts[i - 1] + d[i]
  {
    seq(|ts|, i requires 0 <= i < |ts| => if i == 0 then 0 else ts[i] - ts[i - 1])
  }

  /** Running sums from `base`: the inverse of `TimeDiffs`. */
  function PrefixSums(base: int, d: seq<int>): (ts: seq<int>)
    ensures |ts| == |d|
    decreases |d|
  {
    if d == [] then [] else [base + d[0]] + PrefixSums(base + d[0], d[1..])
  }

  lemma {:induction false} PrefixSumsOfTail(ts: seq<int>)
    requires |ts| > 0
    ensures PrefixSums(ts[0], TimeDiffs(ts)[1..]) == ts[1..]
  {
    if |ts| > 1 {
      var d := TimeDiffs(ts);
      assert d[1..][0] == ts[1] - ts[0];
      assert d[1..][1..] == TimeDiffs(ts[1..])[1..];
      PrefixSumsOfTail(ts[1..]);
      assert ts[1..][1..] == ts[2..];
    }
  }

  /** Summing the differences back up from the first time restores every
      time: `time_diff` loses nothing but the first time. */
  lemma TimeDiffsRoundTrip(ts: seq<int>)
    requires |ts| > 0
    ensures PrefixSums(ts[0], TimeDiffs(ts)) == ts
  {
    PrefixSumsOfTail(ts);
    assert TimeDiffs(ts) == [0] + TimeDiffs(ts)[1..];
  }

  function Times(obs: seq<Observation>): (ts: seq<int>)
    ensures |ts| == |obs|
  {
    seq(|obs|, i requires 0 <= i < |obs| => obs[i].time)
  }

  /** `load_lightcurve` after the download: drop incomplete rows, add
      `time_diff` between consecutive kept rows, and index by Julian date. */
  function LoadLightcurve(raw: seq<RawRow>): (df: seq<Sample>)
    ensures |df| == |DropNa(raw)| <= |raw|
    ensures forall i :: 0 <= i < |df| ==>
      var o := DropNa(raw)[i];
      df[i].time == o.time && df[i].flux == o.flux && df[i].fluxErr == o.fluxErr
      && df[i].stamp == o.time + KeplerJdOffset
    ensures |df| > 0 ==> df[0].timeDiff == 0
    ensures forall i :: 0 < i < |df| ==> df[i].timeDiff == df[i].time - df[i - 1].time
  {
    var kept := DropNa(raw);
    var diffs := TimeDiffs(Times(kept));
    seq(|kept|, i requires 0 <= i < |kept| =>
      Sample(kept[i].time + KeplerJdOffset, kept[i].time, kept[i].flux, kept[i].fluxErr, diffs[i]))
  }

  /** With strictly increasing mission times the loaded table has a
      strictly increasing index and a positive `time_diff` after row 0. */
  lemma LoadLightcurveIncreasing(raw: seq<RawRow>)
    requires forall i, j :: 0 <= i < j < |DropNa(raw)| ==> DropNa(raw)[i].time < DropNa(raw)[j].time
    ensures StrictlyIncreasing(LoadLightcurve(raw))
    ensures forall i :: 0 < i < |LoadLightcurve(raw)| ==> LoadLightcurve(raw)[i].timeDiff > 0
  {
  }

  // ---------------------------------------------------------------------
  // The cursor range of the drift walk
  // ---------------------------------------------------------------------

  /** Python's `range(start, stop, step)` for a positive step: it starts
      at `start` when not empty, and every element lies in `[start, stop)`. */
  function PyRange(start: int, stop: int, step: int): (r: seq<int>)
    requires step > 0
    ensures start < stop <==> r != []
    ensures r != [] ==> r[0] == start
    ensures forall x :: x in r ==> start <= x < stop
    decreases stop - start
  {
    if start >= stop then [] else [start] + PyRange(start + step, stop, step)
  }

  /** `ceil(a / b)` for a positive `b`: how many steps of size `b` it
      takes to cover `a`. */
  function CeilDiv(a: nat, b: int): nat
    requires b > 0
    decreases a
  {
    if a == 0 then 0 else if a <= b then 1 else 1 + CeilDiv(a - b, b)
  }

  /** `CeilDiv(a, b)` is the least `k` with `k * b >= a`. */
  lemma {:induction false} CeilDivIsCeiling(a: nat, b: int)
    requires b > 0
    ensures CeilDiv(a, b) * b >= a
    ensures a > 0 ==> (CeilDiv(a, b) - 1) * b < a
    decreases a
  {
    if a > b {
      CeilDivIsCeiling(a - b, b);
      assert CeilDiv(a, b) * b == CeilDiv(a - b, b) * b + b;
      assert (CeilDiv(a, b) - 1) * b == (CeilDiv(a - b, b) - 1) * b + b;
    }
  }

  /** A range with a positive step has `ceil((stop - start) / step)`
      elements, and none when `stop <= start`. */
  lemma {:induction false} PyRangeLength(start: int, stop: int, step: int)
    requires step > 0
    ensures |PyRange(start, stop, step)| == if start < stop then CeilDiv(stop - start, step) else 0
    decreases stop - start
  {
    if start < stop {
      PyRangeLength(start + step, stop, step);
    }
  }

  /** The `k`-th element of a range is `start + k * step`, below `stop`. */
  lemma {:induction false} PyRangeAt(start: int, stop: int, step: int, k: nat)
    requires step > 0
    requires k < |PyRange(start, stop, step)|
    ensures PyRange(start, stop, step)[k] == start + k * step < stop
    decreases stop - start
  {
    if k > 0 {
      PyRangeAt(start + step, stop, step, k - 1);
      assert start + step + (k - 1) * step == start + k * step;
    }
  }

  // ---------------------------------------------------------------------
  // compute_drift: the windowed drift walk
  // ---------------------------------------------------------------------

  /** Number of windows the walk visits over a table of `n` rows. */
  function WindowCount(n: int, w: int, step: int): nat
    requires step > 0
  {
    if n - w > w then CeilDiv(n - 2 * w, step) else 0
  }

  /** `rec` is the record the walk emits for the window at row `c`: the
      window is rows `[c, c + w)`, it ends before the last row, its bounds
      are the index values at its two ends, and every feature's columns
      hold the scorer's verdict for the reference rows `[0, w)` against
      that window. */
  ghost predicate IsWindowRecord(df: seq<Sample>, w: int, c: int, scorer: Scorer, rec: WindowRecord)
  {
    && 1 <= w <= c
    && c + w < |df|
    && rec.start == df[c].stamp
    && rec.end == df[c + w - 1].stamp
    && forall f :: Psi(rec, f) == scorer(PyHead(df, w), df[c..c + w], f).score
                && Drift(rec, f) == scorer(PyHead(df, w), df[c..c + w], f).isDrifted
  }

  /** `compute_drift`: one fixed reference (the first `windowSize` rows) is
      scored against the window at every cursor of
      `range(windowSize, len(df) - windowSize, stepSize)`, one record per
      cursor, in cursor order. A zero step makes `range` raise. A negative
      step counts down from `windowSize`; that range is empty unless
      `len(df) < 2 * windowSize`, and then its first cursor reads the index
      at `2 * windowSize - 1`, past the last row. */
  method ComputeDrift(df: seq<Sample>, scorer: Scorer, windowSize: int := Window, stepSize: int := Step)
    returns (r: Result<seq<WindowRecord>>)
    requires windowSize >= 1
    ensures r.Err? <==> stepSize == 0 || (stepSize < 0 && |df| < 2 * windowSize)
    ensures r.Err? ==> r.error == if stepSize == 0 then ValueError else IndexError
    ensures stepSize < 0 && r.Ok? ==> r.value == []
    ensures stepSize > 0 ==> r.Ok? && |r.value| == WindowCount(|df|, windowSize, stepSize)
    ensures r.Ok? && |df| <= 2 * windowSize ==> r.value == []
    ensures stepSize > 0 ==> forall k :: 0 <= k < |r.value| ==>
      IsWindowRecord(df, windowSize, windowSize + k * stepSize, scorer, r.value[k])
  {
    var reference := PyHead(df, windowSize);
    if stepSize == 0 {
      return Err(ValueError);
    }
    if stepSize < 0 {
      if windowSize > |df| - windowSize {
        // first cursor `windowSize`: `df.index[windowSize + windowSize - 1]`
        // is at or past `len(df)`
        assert windowSize + windowSize - 1 >= |df|;
        return Err(IndexError);
      }
      return Ok([]);
    }
    var cursors := PyRange(windowSize, |df| - windowSize, stepSize);
    PyRangeLength(windowSize, |df| - windowSize, stepSize);
    var logs: seq<WindowRecord> := [];
    for i := 0 to |cursors|
      invariant |logs| == i
      invariant forall k :: 0 <= k < i ==>
        IsWindowRecord(df, windowSize, windowSize + k * stepSize, scorer, logs[k])
    {
      var start := cursors[i];
      PyRangeAt(windowSize, |df| - windowSize, stepSize, i);
      var current := df[start..start + windowSize];
      var record := WindowRecord(df[start].stamp, df[start + windowSize - 1].stamp, 0.0, false, 0.0, false);
      for j := 0 to |Features|
        invariant record.start == df[start].stamp && record.end == df[start + windowSize - 1].stamp
        invariant forall f :: f in Features[..j] ==>
          Psi(record, f) == scorer(reference, current, f).score
          && Drift(record, f) == scorer(reference, current, f).isDrifted
      {
        var result := scorer(reference, current, Features[j]);
        record := WithResult(record, Features[j], result);
      }
      assert Features[..|Features|] == [Flux, FluxErr];
      logs := logs + [record];
    }
    return Ok(logs);
  }

  /** On a strictly increasing index, the walk's records come out in time
      order, and a window of at least two rows starts before it ends. */
  lemma WalkOrdered(df: seq<Sample>, w: int, step: int, scorer: Scorer, log: seq<WindowRecord>)
    requires StrictlyIncreasing(df) && step >= 1
    requires forall k :: 0 <= k < |log| ==> IsWindowRecord(df, w, w + k * step, scorer, log[k])
    ensures forall i, j :: 0 <= i < j < |log| ==> log[i].start < log[j].start
    ensures w >= 2 ==> forall k :: 0 <= k < |log| ==> log[k].start < log[k].end
  {
  }

  // ---------------------------------------------------------------------
  // simulate_spectral_correction: the placeholder correction
  // ---------------------------------------------------------------------

  /** The rows of the drift table where either feature drifted: each
      such row as often as the table holds it, and no other row. */
  function ContaminatedWindows(log: seq<WindowRecord>): (c: seq<WindowRecord>)
    ensures |c| <= |log|
    ensures forall x :: x in c <==> x in log && (x.driftFlux || x.driftFluxErr)
    ensures forall x :: multiset(c)[x] == if x.driftFlux || x.driftFluxErr then multiset(log)[x] else 0
  {
    if log == [] then []
    else
      var rest := ContaminatedWindows(log[1..]);
      assert log == [log[0]] + log[1..];
      assert forall x :: x in log <==> x == log[0] || x in log[1..];
      (if log[0].driftFlux || log[0].driftFluxErr then [log[0]] else []) + rest
  }

  /** A row of the simulated spectrum; `corrected_flux` is added later. */
  datatype DummySpectrumRow = DummySpectrumRow(wavelength: real, flux: real, correctedFlux: Option<real>)

  /** `simulate_spectral_correction`: counts the contaminated windows (the
      number shown to the user) and writes `flux * 0.98` as
      `corrected_flux` into every spectrum row in place, whether or not any
      window drifted; the same table is returned. An empty drift table has
      no `drift_flux` column, so the filter raises before anything is
      written. */
  method SimulateSpectralCorrection(driftLog: seq<WindowRecord>, spectrum: array<DummySpectrumRow>)
    returns (r: Result<array<DummySpectrumRow>>, contaminated: nat)
    modifies spectrum
    ensures r.Err? <==> |driftLog| == 0
    ensures r.Err? ==> r.error == KeyError && spectrum[..] == old(spectrum[..])
    ensures r.Ok? ==> r.value == spectrum
    ensures r.Ok? ==> contaminated == |ContaminatedWindows(driftLog)| <= |driftLog|
    ensures r.Ok? ==> forall i :: 0 <= i < spectrum.Length ==>
      spectrum[i] == old(spectrum[i]).(correctedFlux := Some(old(spectrum[i]).flux * CorrectionFactor))
  {
    if |driftLog| == 0 {
      return Err(KeyError), 0;
    }
    contaminated := |ContaminatedWindows(driftLog)|;
    forall i | 0 <= i < spectrum.Length {
      spectrum[i] := spectrum[i].(correctedFlux := Some(spectrum[i].flux * CorrectionFactor));
    }
    r := Ok(spectrum);
  }
}
