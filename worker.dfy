/**
 * The analysis run: parse the configuration, collect the records of every
 * workbook, interpolate each record at the target temperature, and report
 * through four signals (status text, progress percentage, the completed
 * result list, an error message). The signals a run emits are returned as
 * a trace, in emission order, instead of being sent across threads.
 */
module Worker {
  import opened Wrappers
  import opened Types
  import opened ExcelProcessor
  import opened Interpolation
  import opened Folds

  /** The run's configuration: the temperature type and method as combo-box labels, and the target. */
  datatype Config = Config(temperatureType: string, temperatureOfInterest: real, interpolationMethod: string)

  datatype Signal =
    | StatusUpdated(message: string)
    | ProgressUpdated(percent: int)
    | AnalysisCompleted(results: seq<AnalysisResult>)
    | ErrorOccurred(message: string)

  const InitializingMessage: string := "Initializing analysis..."
  const ProcessingMessage: string := "Processing Excel files..."
  const InterpolatingMessage: string := "Performing interpolation analysis..."
  const NoDataMessage: string := "No valid data found in Excel files"

  /** The text of the error raised when the temperature-type label names no variant. */
  function InvalidTemperatureTypeMessage(name: string): string
  {
    "'" + name + "' is not a valid TemperatureType"
  }

  /** How a record is interpolated: temperatures, distances, target, method. */
  type Interpolator = (seq<real>, seq<real>, real, InterpolationMethod) -> Option<real>

  /** `InterpolationEngine.interpolate`, with the spline fits given by `fit`. */
  function Engine(fit: Fitter): Interpolator
  {
    (temps: seq<real>, dists: seq<real>, x: real, m: InterpolationMethod) => Interpolate(temps, dists, x, m, fit)
  }

  /** The percentage reported after record `i` (counting from 0) of `total`. */
  function Progress(i: nat, total: nat): (p: int)
    requires i < total
    ensures p * total <= (i + 1) * 100 < (p + 1) * total
  {
    ((i + 1) * 100) / total
  }

  /** The result one record yields under method `m`: its labels, the distance found, the method label and the target. */
  function RecordResult(rec: DispersionRecord, config: Config, m: InterpolationMethod, interp: Interpolator): (r: Option<AnalysisResult>)
    ensures var d := interp(rec.temperatures, rec.distances, config.temperatureOfInterest, m);
      r.Some? <==> d.Some?
    ensures var d := interp(rec.temperatures, rec.distances, config.temperatureOfInterest, m);
      r.Some? ==>
        && r.value.subsection == rec.equipmentItem && r.value.scenario == rec.scenario && r.value.weather == rec.weather
        && r.value.downwindDistance == d.value
        && r.value.interpolationMethod == config.interpolationMethod
        && r.value.temperatureOfInterest == config.temperatureOfInterest
  {
    match interp(rec.temperatures, rec.distances, config.temperatureOfInterest, m)
    case None => None
    case Some(d) =>
      Some(AnalysisResult(rec.equipmentItem, rec.scenario, rec.weather, d,
        config.interpolationMethod, config.temperatureOfInterest))
  }

  /**
   * The results collected from the first `n` records. The method label is
   * parsed for each record; when it names no variant every record raises,
   * is logged and skipped.
   */
  function Results(records: seq<DispersionRecord>, config: Config, interp: Interpolator, n: nat): seq<AnalysisResult>
    requires n <= |records|
  {
    if n == 0 then []
    else
      Results(records, config, interp, n - 1) +
      match ParseMethod(config.interpolationMethod)
      case None => []
      case Some(m) =>
        match RecordResult(records[n - 1], config, m, interp)
        case None => []
        case Some(r) => [r]
  }

  /** The progress signals of the first `n` of `total` records; a record that raised emits none. */
  function ProgressSignals(config: Config, total: nat, n: nat): seq<Signal>
    requires n <= total
  {
    if n == 0 || ParseMethod(config.interpolationMethod).None? then []
    else ProgressSignals(config, total, n - 1) + [ProgressUpdated(Progress(n - 1, total))]
  }

  /** The signals of a whole run, in order. */
  function RunTrace(config: Config, files: seq<WorkbookFile>, fit: Fitter): seq<Signal>
  {
    match ParseTemperatureType(config.temperatureType)
    case None => [StatusUpdated(InitializingMessage), ErrorOccurred(InvalidTemperatureTypeMessage(config.temperatureType))]
    case Some(tt) => RunTraceOf(config, AllRecords(files, tt), Engine(fit))
  }

  /** The signals of `run` once the records have been read: an error when there are none, else the analysis. */
  function AnalysisTrace(config: Config, records: seq<DispersionRecord>, interp: Interpolator): seq<Signal>
  {
    if |records| == 0 then [ErrorOccurred(NoDataMessage)]
    else
      [StatusUpdated(InterpolatingMessage)] + ProgressSignals(config, |records|, |records|) +
      [AnalysisCompleted(Results(records, config, interp, |records|))]
  }

  /**
   * The record loop of `AnalysisWorker.run`: each record is interpolated
   * with the configured method; a distance adds a result; every record
   * that did not raise reports its progress.
   */
  method AnalyzeRecords(records: seq<DispersionRecord>, config: Config, interp: Interpolator)
    returns (results: seq<AnalysisResult>, progress: seq<Signal>)
    ensures results == Results(records, config, interp, |records|)
    ensures progress == ProgressSignals(config, |records|, |records|)
  {
    results, progress := [], [];
    var total := |records|;
    var i := 0;
    while i < total
      invariant i <= total
      invariant results == Results(records, config, interp, i)
      invariant progress == ProgressSignals(config, total, i)
    {
      var dataItem := records[i];
      var m := ParseMethod(config.interpolationMethod);
      if m.None? {
        i := i + 1;
        continue;
      }
      var distance := interp(dataItem.temperatures, dataItem.distances, config.temperatureOfInterest, m.value);
      if distance.Some? {
        var result := AnalysisResult(dataItem.equipmentItem, dataItem.scenario, dataItem.weather,
          distance.value, config.interpolationMethod, config.temperatureOfInterest);
        results := results + [result];
      }
      progress := progress + [ProgressUpdated(((i + 1) * 100) / total)];
      i := i + 1;
    }
  }

  /** The rest of `run` once the records are read: the no-data error, or the record loop and the completion signal. */
  method AnalyzeAndReport(config: Config, rawData: seq<DispersionRecord>, interp: Interpolator) returns (tail: seq<Signal>)
    ensures tail == AnalysisTrace(config, rawData, interp)
  {
    if |rawData| == 0 {
      return [ErrorOccurred(NoDataMessage)];
    }
    tail := [StatusUpdated(InterpolatingMessage)];
    var results, progress := AnalyzeRecords(rawData, config, interp);
    tail := tail + progress;
    tail := tail + [AnalysisCompleted(results)];
  }

  /** `AnalysisWorker.run`, with the workbook files found in the input folder given as `files`. */
  method Run(config: Config, files: seq<WorkbookFile>, fit: Fitter) returns (trace: seq<Signal>)
    ensures trace == RunTrace(config, files, fit)
  {
    trace := [StatusUpdated(InitializingMessage)];
    var tt := ParseTemperatureType(config.temperatureType);
    if tt.None? {
      trace := trace + [ErrorOccurred(InvalidTemperatureTypeMessage(config.temperatureType))];
      return;
    }
    trace := trace + [StatusUpdated(ProcessingMessage)];
    var rawData := ProcessFiles(files, tt.value);
    var tail := AnalyzeAndReport(config, rawData, Engine(fit));
    trace := trace + tail;
  }

  /**
   * The results are the records that yield one, in record order, one
   * result each: `idx` maps every result to its record, increases
   * strictly, and misses exactly the records that yield none.
   */
  lemma {:induction false} ResultsInRecordOrder(records: seq<DispersionRecord>, config: Config, interp: Interpolator, m: InterpolationMethod, n: nat)
    returns (idx: seq<nat>)
    requires n <= |records| && ParseMethod(config.interpolationMethod) == Some(m)
    ensures |idx| == |Results(records, config, interp, n)| <= n
    ensures forall k :: 0 <= k < |idx| ==>
      idx[k] < n && RecordResult(records[idx[k]], config, m, interp) == Some(Results(records, config, interp, n)[k])
    ensures forall a, b :: 0 <= a < b < |idx| ==> idx[a] < idx[b]
    ensures forall i :: 0 <= i < n ==> (i in idx <==> RecordResult(records[i], config, m, interp).Some?)
  {
    ResultsPicked(records, config, interp, m, n);
    var pick := ResultPick(records, config, m, interp);
    idx := PickedSources(0, n, pick);
    forall k | 0 <= k < |idx|
      ensures idx[k] < n && RecordResult(records[idx[k]], config, m, interp) == Some(Results(records, config, interp, n)[k])
    {
      assert pick(idx[k]) == RecordResult(records[idx[k]], config, m, interp);
    }
    forall i | 0 <= i < n
      ensures i in idx <==> RecordResult(records[i], config, m, interp).Some?
    {
      assert pick(i) == RecordResult(records[i], config, m, interp);
    }
  }

  /** The result each record yields, if any. */
  function ResultPick(records: seq<DispersionRecord>, config: Config, m: InterpolationMethod, interp: Interpolator): nat -> Option<AnalysisResult>
  {
    (i: nat) => if i < |records| then RecordResult(records[i], config, m, interp) else None
  }

  /** With a method label that parses, the results are the values the records yield, in record order. */
  lemma {:induction false} ResultsPicked(records: seq<DispersionRecord>, config: Config, interp: Interpolator, m: InterpolationMethod, n: nat)
    requires n <= |records| && ParseMethod(config.interpolationMethod) == Some(m)
    ensures Results(records, config, interp, n) == Picked(0, n, ResultPick(records, config, m, interp))
  {
    if n > 0 {
      ResultsPicked(records, config, interp, m, n - 1);
      var last := RecordResult(records[n - 1], config, m, interp);
      assert ResultPick(records, config, m, interp)(n - 1) == last;
      assert Results(records, config, interp, n) == Results(records, config, interp, n - 1) + Listed(last);
    }
  }

  /** With a method label that names no variant, no record yields a result. */
  lemma {:induction false} InvalidMethodNoResults(records: seq<DispersionRecord>, config: Config, interp: Interpolator, n: nat)
    requires n <= |records| && ParseMethod(config.interpolationMethod).None?
    ensures Results(records, config, interp, n) == []
    ensures ProgressSignals(config, n, n) == []
  {
    if n > 0 {
      InvalidMethodNoResults(records, config, interp, n - 1);
    }
  }

  lemma MulLess(x: int, y: int, c: int)
    requires c > 0 && x * c < y * c
    ensures x < y
  {
    assert (y - x) * c > 0;
  }

  /** Integer division by a positive divisor is monotone in the dividend. */
  lemma DivMonotone(a: int, b: int, c: int)
    requires 0 <= a <= b && c > 0
    ensures a / c <= b / c
  {
    var qa, qb := a / c, b / c;
    assert qa * c <= a;
    assert b < qb * c + c;
    assert qa * c < (qb + 1) * c;
    MulLess(qa, qb + 1, c);
  }

  lemma DivExact(k: int, c: int)
    requires c > 0
    ensures (k * c) / c == k
  {
    var q := (k * c) / c;
    assert q * c <= k * c < q * c + c;
    assert (q + 1) * c == q * c + c;
    MulLess(q, k + 1, c);
    MulLess(k, q + 1, c);
  }

  /** Progress after any record is a percentage. */
  lemma ProgressBounds(i: nat, total: nat)
    requires i < total
    ensures 0 <= Progress(i, total) <= 100
  {
    DivMonotone((i + 1) * 100, total * 100, total);
    DivExact(100, total);
    assert total * 100 == 100 * total;
  }

  /** Progress never decreases from one record to a later one. */
  lemma ProgressMonotone(i: nat, j: nat, total: nat)
    requires i <= j < total
    ensures Progress(i, total) <= Progress(j, total)
  {
    DivMonotone((i + 1) * 100, (j + 1) * 100, total);
  }

  /** Progress after the last record is 100. */
  lemma ProgressFinal(total: nat)
    requires total > 0
    ensures Progress(total - 1, total) == 100
  {
    DivExact(100, total);
    assert total * 100 == 100 * total;
  }

  /** With a valid method, record `k` emits exactly one progress signal, the `k`-th, carrying `Progress(k, total)`. */
  lemma {:induction false} ProgressSignalsSpec(config: Config, total: nat, n: nat)
    requires n <= total && ParseMethod(config.interpolationMethod).Some?
    ensures |ProgressSignals(config, total, n)| == n
    ensures forall k :: 0 <= k < n ==> ProgressSignals(config, total, n)[k] == ProgressUpdated(Progress(k, total))
  {
    if n > 0 {
      ProgressSignalsSpec(config, total, n - 1);
    }
  }

  /** The number of completion signals in a trace. */
  function Completions(trace: seq<Signal>): nat
  {
    if |trace| == 0 then 0
    else Completions(trace[..|trace| - 1]) + (if trace[|trace| - 1].AnalysisCompleted? then 1 else 0)
  }

  lemma {:induction false} CompletionsAppend(a: seq<Signal>, b: seq<Signal>)
    ensures Completions(a + b) == Completions(a) + Completions(b)
    decreases |b|
  {
    if |b| == 0 {
      assert a + b == a;
    } else {
      CompletionsAppend(a, b[..|b| - 1]);
      assert (a + b)[..|a + b| - 1] == a + b[..|b| - 1];
    }
  }

  lemma {:induction false} ProgressSignalsNoCompletion(config: Config, total: nat, n: nat)
    requires n <= total
    ensures Completions(ProgressSignals(config, total, n)) == 0
  {
    if n > 0 && ParseMethod(config.interpolationMethod).Some? {
      ProgressSignalsNoCompletion(config, total, n - 1);
      CompletionsAppend(ProgressSignals(config, total, n - 1), [ProgressUpdated(Progress(n - 1, total))]);
    }
  }

  /**
   * After reading, completion is emitted exactly once, as the last signal
   * and with the full result list, when some record was found; otherwise
   * the only signal is the no-data error.
   */
  lemma AnalysisOutcome(config: Config, records: seq<DispersionRecord>, interp: Interpolator)
    ensures var trace := AnalysisTrace(config, records, interp);
      && |trace| >= 1
      && if |records| > 0 then
        Completions(trace) == 1 && trace[|trace| - 1] == AnalysisCompleted(Results(records, config, interp, |records|))
      else
        trace == [ErrorOccurred(NoDataMessage)]
  {
    if |records| > 0 {
      var progress := ProgressSignals(config, |records|, |records|);
      var done := [AnalysisCompleted(Results(records, config, interp, |records|))];
      var prefix := [StatusUpdated(InterpolatingMessage)];
      ProgressSignalsNoCompletion(config, |records|, |records|);
      CompletionsAppend(prefix + progress, done);
      CompletionsAppend(prefix, progress);
      assert prefix[..0] == [];
    }
  }

  /**
   * Every run starts with the initializing status. Completion is emitted
   * exactly once, as the last signal and with the full result list, when
   * the temperature type is valid and some record was found; otherwise it
   * is never emitted and the run ends with an error.
   */
  lemma RunOutcome(config: Config, files: seq<WorkbookFile>, fit: Fitter)
    ensures var trace := RunTrace(config, files, fit);
      && |trace| >= 2 && trace[0] == StatusUpdated(InitializingMessage)
      && var tt := ParseTemperatureType(config.temperatureType);
      if tt.Some? && |AllRecords(files, tt.value)| > 0 then
        var records := AllRecords(files, tt.value);
        Completions(trace) == 1 && trace[|trace| - 1] == AnalysisCompleted(Results(records, config, Engine(fit), |records|))
      else
        Completions(trace) == 0 && trace[|trace| - 1].ErrorOccurred?
  {
    match ParseTemperatureType(config.temperatureType)
    case None =>
      var init := [StatusUpdated(InitializingMessage)];
      var error := [ErrorOccurred(InvalidTemperatureTypeMessage(config.temperatureType))];
      assert RunTrace(config, files, fit) == init + error;
      assert init[..0] == [] && error[..0] == [];
      CompletionsAppend(init, error);
    case Some(tt) =>
      RunTraceOfOutcome(config, AllRecords(files, tt), Engine(fit));
  }

  /** The trace of a run whose temperature type parsed and whose files gave `records`. */
  function RunTraceOf(config: Config, records: seq<DispersionRecord>, interp: Interpolator): seq<Signal>
  {
    [StatusUpdated(InitializingMessage)] + [StatusUpdated(ProcessingMessage)] + AnalysisTrace(config, records, interp)
  }

  /** With some records the run's only completion comes last and carries all results; with none it ends with an error. */
  lemma RunTraceOfOutcome(config: Config, records: seq<DispersionRecord>, interp: Interpolator)
    ensures var trace := RunTraceOf(config, records, interp);
      && |trace| >= 2 && trace[0] == StatusUpdated(InitializingMessage)
      && if |records| > 0 then
        Completions(trace) == 1 && trace[|trace| - 1] == AnalysisCompleted(Results(records, config, interp, |records|))
      else
        Completions(trace) == 0 && trace[|trace| - 1].ErrorOccurred?
  {
    var init, processing := [StatusUpdated(InitializingMessage)], [StatusUpdated(ProcessingMessage)];
    var rest := AnalysisTrace(config, records, interp);
    assert init[..0] == [] && processing[..0] == [];
    AnalysisOutcome(config, records, interp);
    var trace := init + processing + rest;
    assert trace[0] == init[0] && trace[|trace| - 1] == rest[|rest| - 1];
    CompletionsAppend(init + processing, rest);
    CompletionsAppend(init, processing);
    if |records| == 0 {
      assert rest[..0] == [];
    }
  }

}
