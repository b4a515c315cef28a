/** Shared row types of the light-curve and drift-log tables, and the
    Python errors the pipeline can raise. A pandas DataFrame is a sequence
    of rows (an array where the code assigns its columns in place); a column
    that the code adds later is an `Option` field that becomes `Some`. */
module Frames {

  datatype Option<T> = None | Some(value: T)

  /** The exceptions the modelled code raises (from `range`, from a
      missing column, from indexing an empty position list, and from a
      column assignment whose length does not match). */
  datatype PyError = ValueError | KeyError | IndexError

  datatype Result<T> = Ok(value: T) | Err(error: PyError)

  datatype Outcome = Pass | Fail(error: PyError)

  /** Timestamps and mission times are whole ticks; one tick is a second,
      fine enough for the half-hour cadence of a light curve. */
  const TicksPerDay: int := 86400

  /** Absolute difference of two timestamps. */
  function Dist(a: int, b: int): nat
  {
    if a >= b then a - b else b - a
  }

  function Min(a: int, b: int): int
  {
    if a <= b then a else b
  }

  function Max(a: int, b: int): int
  {
    if a >= b then a else b
  }

  /** One light-curve row: its index value (`stamp`, the Julian date the
      frame is indexed by), the mission time it came from, the two
      monitored features, and the time since the previous kept row. */
  datatype Sample = Sample(stamp: int, time: int, flux: real, fluxErr: real, timeDiff: int)

  /** The light-curve index: strictly increasing, no duplicates. */
  ghost predicate StrictlyIncreasing(df: seq<Sample>)
  {
    forall i, j :: 0 <= i < j < |df| ==> df[i].stamp < df[j].stamp
  }

  /** `df.iloc[:k]`: Python slice semantics for the head of a frame
      (a negative `k` drops the last `-k` rows). */
  function PyHead<T>(s: seq<T>, k: int): (h: seq<T>)
    ensures |h| <= |s|
    ensures 0 <= k <= |s| ==> |h| == k
    ensures k > |s| ==> h == s
    ensures k < 0 ==> |h| == Max(|s| + k, 0)
    ensures h == s[..|h|]
  {
    if k >= 0 then s[..Min(k, |s|)] else s[..Max(|s| + k, 0)]
  }

  /** One row of the rolling drift log as the monitor writes it
      (`feature`, `score`, `threshold`, `drift`, possibly `timestamp`),
      with the columns later code adds or overwrites: `start`/`end`
      (the log patch) and `drift_flux`/`drift_flux_err` (the dashboard). */
  datatype LogRow = LogRow(
    timestamp: Option<int>,
    start: Option<int>,
    end: Option<int>,
    feature: string,
    score: real,
    threshold: real,
    drift: bool,
    driftFlux: Option<bool>,
    driftFluxErr: Option<bool>)
}
