# flaretrace core, modelled in Dafny

flaretrace watches a stellar light curve (flux and flux error over time)
for drift. It compares a fixed reference window with later windows,
logs the drift scores, and uses the log to correct a transmission
spectrum. The drift score comes from an external Population Stability
Index checker, and the light curve comes from a mission archive. What the
repository computes itself is the sequence, index and arithmetic logic
around those calls. This project models that logic and proves what it
promises:

- `FlareTrace` (flaretrace.py) covers three pieces. `LoadLightcurve`
  drops rows with a missing cell, derives `time_diff` and indexes by
  Julian date. `ComputeDrift` is the windowed drift walk, with the scorer
  as a parameter. `SimulateSpectralCorrection` is the placeholder
  correction that multiplies every row by 0.98.
- `SpectrumCorrector` (core/spectrum_corrector.py) covers the
  nearest-timestamp join of spectrum rows to drift-log rows and the
  correction `flux / (1 + drift_score)`.
- `DriftDetector` (core/drift_detector.py) covers the rolling-monitor
  wrapper. It runs the external monitor and then overwrites the log's
  `start` and `end` columns from the light curve's index.
- `FlareTraceApp` (flaretrace_app.py, lines 37-51) covers the
  `drift_flux` and `drift_flux_err` flags derived from the drift log.
- `Frames` holds the shared row types and `PyHead`, which models
  `iloc[:k]`.

Modelling choices:

- Timestamps, mission times and the Julian-date index are whole ticks
  (`int`, one tick is a second, `TicksPerDay` = 86400). Flux and scores
  are `real`.
- A table that the code changes in place is an `array` of row values. A
  column the code adds is an `Option` field that becomes `Some`. A column
  counts as present when every row has it.
- The Python exceptions the code can raise are `Err` values: `range` with
  step 0, a read past the last row, a missing `timestamp` or `drift_score`
  column, position 0 of an empty ordering, and a column assignment of the
  wrong length. The other columns the code reads are assumed present (see
  "Left out").
- The scorer (`DriftCheck(...).run`) and the monitor
  (`Monitor.watch_rolling`) are function parameters with no body of
  their own.

Two points about the code are worth stating plainly. Each spectrum row
is joined to the single drift-log row nearest in time; no interval
overlap between spectrum bins and drift windows is computed. And both
corrections, the 0.98 placeholder and `flux / (1 + drift_score)`, are
applied to every spectrum row, whether or not any window drifted.

## Model

| member | source | states |
|---|---|---|
| `Frames.PyHead` | flaretrace.py:41 | `iloc[:k]` is a prefix of the table; it has exactly `k` rows when `0 <= k <= len`, the whole table when `k` is larger, and drops the last `-k` rows (leaving at least none) when `k` is negative |
| `FlareTrace.WithResult` | flaretrace.py:49-51 | filling feature `f` sets `psi_f` to the score and `drift_f` to the verdict, and leaves the other feature's columns and the window bounds unchanged |
| `FlareTrace.DropNa` | flaretrace.py:31 | `dropna` never yields more rows than the raw table |
| `FlareTrace.DropNaMembers` | flaretrace.py:27-31 | a row survives `dropna` exactly when some raw row with that content has no missing cell |
| `FlareTrace.DropNaAppend` | flaretrace.py:27-31 | `dropna` keeps row order: dropping from `a + b` gives the drop of `a` followed by the drop of `b` |
| `FlareTrace.DropNaComplete` | flaretrace.py:31 | on a table with no missing cells, `dropna` keeps every row unchanged |
| `FlareTrace.TimeDiffs` | flaretrace.py:32 | `time.diff().fillna(0)` has one entry per row, 0 on the first, and each later time is the previous time plus its entry |
| `FlareTrace.TimeDiffsRoundTrip` | flaretrace.py:32 | summing `time_diff` from the first time gives back every time, so the column is 0 first and then the gap to the previous kept row |
| `FlareTrace.LoadLightcurve` | flaretrace.py:27-34 | the loaded table has one row per kept row, with the same cells; its index is the Julian date, time + 2454833 days in ticks; `time_diff` is 0 on the first row and `time[i] - time[i-1]` after that, measured between kept rows |
| `FlareTrace.LoadLightcurveIncreasing` | flaretrace.py:32-34 | strictly increasing times give a strictly increasing index and a positive `time_diff` on every row after the first |
| `FlareTrace.PyRange` | flaretrace.py:42 | `range(start, stop, step)` with a positive step is empty exactly when `stop <= start`, starts at `start`, and every element lies in `[start, stop)` |
| `FlareTrace.CeilDivIsCeiling` | flaretrace.py:42 | the window count `CeilDiv(a, b)` is the least `k` with `k * b >= a` |
| `FlareTrace.PyRangeLength` | flaretrace.py:42 | `range(start, stop, step)` with a positive step has `ceil((stop - start) / step)` elements, and none when `stop <= start` |
| `FlareTrace.PyRangeAt` | flaretrace.py:42 | element `k` of the range is `start + k * step` and lies below `stop` |
| `FlareTrace.ComputeDrift` | flaretrace.py:39-53 | a zero step raises `ValueError`. A negative step gives no records when `n >= 2w` and raises `IndexError` when `n < 2w`, since its first cursor `w` reads the index at `2w - 1`. With a positive step there is one record per cursor, `ceil((n - 2w) / step)` of them, and none when `n <= 2w`. Record `k` is for the window at row `c = w + k*step`: rows `[c, c+w)`, which lie in bounds and never include the last row. Its start and end are the index at `c` and at `c+w-1`. Each feature's columns hold the scorer's verdict for rows `[0, w)` against that window |
| `FlareTrace.WalkOrdered` | flaretrace.py:42-47 | on a strictly increasing index, successive records start strictly later, and with `w >= 2` every record starts before it ends |
| `FlareTrace.ContaminatedWindows` | flaretrace.py:67 | every record with `drift_flux` or `drift_flux_err` set is kept as many times as the log holds it, and no other record is kept; at most as many as the log has rows |
| `FlareTrace.SimulateSpectralCorrection` | flaretrace.py:65-70 | an empty drift table raises `KeyError` and the spectrum is left unchanged. Otherwise the reported count is the number of contaminated windows, at most the number of windows. Every spectrum row gets `corrected_flux = flux * 0.98`, with nothing else changed, whatever drifted, and the same table is returned |
| `SpectrumCorrector.NearestIndex` | core/spectrum_corrector.py:12 | the chosen drift row minimises `abs(timestamp - t)` over the whole log |
| `SpectrumCorrector.NearestExact` | core/spectrum_corrector.py:12 | when some drift row is stamped exactly at `t`, the matched row is stamped at `t` |
| `SpectrumCorrector.MatchDriftToSpectrum` | core/spectrum_corrector.py:3-14 | it fails exactly when the spectrum has rows and the log lacks `timestamp` (`KeyError`) or is empty (`IndexError`), and then leaves the spectrum unchanged. Otherwise every row gets the `drift_score` of some nearest log row, row count, order and other columns are kept, and the same table is returned |
| `SpectrumCorrector.CorrectedFlux` | core/spectrum_corrector.py:18 | `corrected * (1 + score) == flux`; a score of 0 leaves the flux exactly as it was; a positive score and a positive flux give `0 < corrected < flux` |
| `SpectrumCorrector.ApplySimpleCorrection` | core/spectrum_corrector.py:16-19 | a spectrum without `drift_score` raises `KeyError` and is left unchanged. Otherwise every row gets `corrected_flux = flux / (1 + drift_score)`; `flux` and `drift_score` are unchanged, and the same table is returned |
| `DriftDetector.PatchedRow` | core/drift_detector.py:16-17 | a patched row has `start` set to its index value and `end` set to `start` plus one period; every other column is unchanged |
| `DriftDetector.PatchedLog` | core/drift_detector.py:16-17 | the patched log has the log's rows; row `i` has `start = df.index[i]`, `end = start + one period`, and every other column unchanged |
| `DriftDetector.PatchedLogProperties` | core/drift_detector.py:15-18 | with a positive period, the patch keeps the row count and all other columns, row `i` starts at `df.index[i]`, and every row ends after it starts |
| `DriftDetector.PatchedLogOrdered` | core/drift_detector.py:16 | on a strictly increasing index, the patched rows start in increasing order |
| `DriftDetector.PatchIdempotent` | core/drift_detector.py:15-18 | patching an already patched log changes nothing |
| `DriftDetector.PatchLog` | core/drift_detector.py:15-18 | a log longer than the light curve raises `ValueError` and is left unchanged. Otherwise the log becomes its patched form in place |
| `DriftDetector.RunRollingMonitor` | core/drift_detector.py:9-19 | the monitor's reference is the first `window` rows (300 by default, period one day by default). It raises `ValueError` exactly when the monitor's log has more rows than the light curve. Otherwise it returns the monitor's own result, and the log written back is the monitor's log patched |
| `FlareTraceApp.SelectedIndices` | flaretrace_app.py:43 | the selected positions are in bounds, increasing, and are exactly the rows whose `feature` is `"flux_err"` |
| `FlareTraceApp.FlagRow` | flaretrace_app.py:46-51 | `drift_flux` is the row's own `drift`, and `drift_flux_err` is its `score > threshold` (strictly), on `flux_err` rows; both are false on every other row, and no other column changes |
| `FlareTraceApp.DeriveDriftFlags` | flaretrace_app.py:43-51 | after the in-place initialisation and `.loc` overwrite, every row is its flagged form; rows keep their number and order |
| `FlareTraceApp.FlagAll` | flaretrace_app.py:46-51 | the flagged log has the log's rows, each in its flagged form |
| `FlareTraceApp.FlaggedAtMostSelected` | flaretrace_app.py:43-51 | no more rows carry `drift_flux_err` than there are `flux_err` rows |
| `FlareTraceApp.FlagIdempotent` | flaretrace_app.py:46-51 | deriving the flags a second time changes nothing |

## Left out

- The drift scorer and the rolling monitor (`DriftCheck`, `Monitor.watch_rolling`, `enable_logging`) belong to an external package. They are function parameters here. No histogram or PSI computation is modelled.
- Downloading the light curve, reading and writing CSV files, the random dummy spectrum and all Streamlit output are left out. Tables are in-memory sequences. The count that `simulate_spectral_correction` shows in a message is returned as a value.
- `run_rolling_monitor` in flaretrace.py (lines 57-62) only calls the external monitor. Only the core/drift_detector.py version, with its log patch, is modelled.
- Converting Julian dates to calendar datetimes and parsing timestamps (`pd.to_datetime`) are pandas internals. Timestamps are integer ticks, the index is the Julian date (time + 2454833 days) and parsing is the identity.
- FlareTrace.ComputeDrift: requires `window_size >= 1`. A zero or negative window reads position -1 or below, which pandas wraps around to the end of the table; that is not modelled.
- Columns assumed present: the spectrum's `datetime` (core/spectrum_corrector.py:8) and `flux` (core/spectrum_corrector.py:18, flaretrace.py:69), and the drift log's `feature` (flaretrace_app.py:43), `drift`, `score` and `threshold` (flaretrace_app.py:50-51; `score` also core/spectrum_corrector.py:12). Their fields always exist in the row types, so the `KeyError` a missing one would raise is not modelled.
- SpectrumCorrector.ApplySimpleCorrection: requires every `drift_score` to differ from -1. Floating-point division by zero gives infinity or NaN, which is not modelled.
- A column with some missing cells (NaN or NaT among present values) is treated as a missing column. The model does not follow how pandas orders or compares NaN values.
- On an empty table the model cannot tell whether a column exists. `ApplySimpleCorrection` on an empty spectrum is therefore treated as success.
- SpectrumCorrector.MatchDriftToSpectrum: when several drift rows are equally near, the code takes the first entry of an unstable `argsort`, so only "some nearest row" is stated.
- Floating-point rounding is not modelled. Flux and scores are exact reals.
