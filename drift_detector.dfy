/** The rolling drift monitor wrapper (core/drift_detector.py): the
    external monitor scores the light curve against its first `window`
    rows and writes a log; the wrapper then overwrites the log's `start`
    and `end` columns from the light curve's index and writes it back. */
module DriftDetector {
  import opened Frames

  /** The default reference window, in rows. */
  const Window: int := 300

  /** One `freq` period in ticks (the default `"D"`: one day). */
  const Day: int := TicksPerDay

  /** The external monitor: given the reference rows, the whole light
      curve, the window and the period, it returns its own result and the
      log rows it writes. */
  type Monitor<R> = (seq<Sample>, seq<Sample>, int, int) -> (R, seq<LogRow>)

  /** Log row `i` after the patch: `start` is the light curve's `i`-th
      index value and `end` one period later; every other column is kept. */
  function PatchedRow(row: LogRow, stamp: int, period: int): (p: LogRow)
    ensures p.start == Some(stamp) && p.end == Some(stamp + period)
    ensures p.(start := row.start, end := row.end) == row
  {
    row.(start := Some(stamp), end := Some(stamp + period))
  }

  /** The whole patched log, for a log no longer than the light curve. */
  function PatchedLog(log: seq<LogRow>, df: seq<Sample>, period: int): (p: seq<LogRow>)
    requires |log| <= |df|
    ensures |p| == |log|
    ensures forall i :: 0 <= i < |log| ==>
      && p[i].start == Some(df[i].stamp)
      && p[i].end == Some(df[i].stamp + period)
      && p[i].(start := log[i].start, end := log[i].end) == log[i]
  {
    seq(|log|, i requires 0 <= i < |log| => PatchedRow(log[i], df[i].stamp, period))
  }

  /** What the patch promises: the row count and every column other than
      `start`/`end` are kept, row `i` starts at the `i`-th index value,
      and every window ends after it starts. */
  lemma PatchedLogProperties(log: seq<LogRow>, df: seq<Sample>, period: int)
    requires |log| <= |df| && period > 0
    ensures |PatchedLog(log, df, period)| == |log|
    ensures forall i :: 0 <= i < |log| ==>
      var p := PatchedLog(log, df, period)[i];
      && p.start == Some(df[i].stamp)
      && p.end.Some? && p.start.value < p.end.value
      && p.(start := log[i].start, end := log[i].end) == log[i]
  {
  }

  /** On a strictly increasing index, the patched windows start in
      increasing order, whatever the period. */
  lemma PatchedLogOrdered(log: seq<LogRow>, df: seq<Sample>, period: int)
    requires |log| <= |df| && StrictlyIncreasing(df)
    ensures forall i, j :: 0 <= i < j < |log| ==>
      PatchedLog(log, df, period)[i].start.value < PatchedLog(log, df, period)[j].start.value
  {
  }

  /** Patching an already patched log changes nothing. */
  lemma PatchIdempotent(log: seq<LogRow>, df: seq<Sample>, period: int)
    requires |log| <= |df|
    ensures PatchedLog(PatchedLog(log, df, period), df, period) == PatchedLog(log, df, period)
  {
  }

  /** Lines 15-18 of `run_rolling_monitor`: assigns `start` and `end` in
      place. A log with more rows than the light curve makes the `start`
      assignment fail with a length mismatch, leaving the log untouched. */
  method PatchLog(log: array<LogRow>, df: seq<Sample>, period: int) returns (r: Outcome)
    modifies log
    ensures r.Fail? <==> log.Length > |df|
    ensures r.Fail? ==> r.error == ValueError && log[..] == old(log[..])
    ensures r.Pass? ==> log[..] == PatchedLog(old(log[..]), df, period)
  {
    if log.Length > |df| {
      return Fail(ValueError);
    }
    forall i | 0 <= i < log.Length {
      log[i] := log[i].(start := Some(df[i].stamp));
    }
    forall i | 0 <= i < log.Length {
      log[i] := log[i].(end := Some(log[i].start.value + period));
    }
    r := Pass;
  }

  /** `run_rolling_monitor`: the monitor's reference is the first `window`
      rows of the light curve; the log it writes is read back, patched and
      written again. Returns the monitor's own result with the log as it
      is finally written, or the error that stopped the patch, in which
      case the result never reaches the caller. */
  method RunRollingMonitor<R>(df: seq<Sample>, monitor: Monitor<R>, window: int := Window, period: int := Day)
    returns (r: Result<(R, seq<LogRow>)>)
    ensures var out := monitor(PyHead(df, window), df, window, period);
      && (r.Err? <==> |out.1| > |df|)
      && (r.Err? ==> r.error == ValueError)
      && (r.Ok? ==> r.value.0 == out.0 && r.value.1 == PatchedLog(out.1, df, period))
  {
    var reference := PyHead(df, window);
    var outcome := monitor(reference, df, window, period);
    var rows := outcome.1;
    var log := new LogRow[|rows|](i requires 0 <= i < |rows| => rows[i]);
    var patched := PatchLog(log, df, period);
    r := if patched.Pass? then Ok((outcome.0, log[..])) else Err(patched.error);
  }
}
