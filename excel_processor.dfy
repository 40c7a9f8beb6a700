/**
 * The sheet parser and file processor: a single row-major pass over each
 * worksheet that tracks the most recent equipment, scenario and weather
 * labels and, at every block title, reads the block of samples anchored
 * at that row.
 *
 * Each operation is an imperative method, as `_analyze_sheet` and
 * `process_files` are, proved equal to a specification function; the
 * properties the parser promises are stated on those functions and in the
 * lemmas beside them.
 */
module ExcelProcessor {
  import opened Wrappers
  import opened Types
  import opened PyText
  import opened Folds

  /** A cell value as the workbook reader delivers it (`None`, a number or a string). */
  datatype Cell = Empty | Num(n: real) | Text(s: string)

  /**
   * A worksheet, top row first. Rows may be of different lengths; a cell
   * beyond the end of its row reads as `Empty`, as the reader pads every
   * row to the sheet's widest one.
   */
  type Grid = seq<seq<Cell>>

  const EquipmentMarker: string := "Equipment Item:"
  const ScenarioMarker: string := "Scenario ("
  const WeatherMarker: string := "Weather:"
  // The title is written in three pieces only so that the verifier can see its first character cheaply.
  const BlockTitle: string := "Time-varying Observer " + "Dispersion Data (before " + "along-wind-diffusion effects)"
  const DistanceHeader: string := "Downwind distance [m]"
  const VapourHeader: string := "C/Line vapour temperature [degC]"
  const LiquidHeader: string := "C/Line liquid temperature [degC]"

  /** The temperature column read for the configured temperature type. */
  function TemperatureHeader(t: TemperatureType): string
  {
    if t == Vapour then VapourHeader else LiquidHeader
  }

  /** One curve: three labels and the samples read from one block. */
  datatype DispersionRecord = DispersionRecord(
    equipmentItem: string,
    scenario: string,
    weather: string,
    distances: seq<real>,
    temperatures: seq<real>)

  /** The samples of one block, before they are labelled. */
  datatype Block = Block(distances: seq<real>, temperatures: seq<real>)

  /** A marker without a colon: `split(":", 1)[1]` raises `IndexError`. */
  datatype ParseError = MarkerWithoutColon(row: nat)

  /** Why a file contributes no records. */
  datatype FileError = CannotLoad | SheetFailed(error: ParseError)

  /** A file found in the input folder: either it cannot be loaded, or it holds sheets. */
  datatype WorkbookFile = Unreadable | Workbook(sheets: seq<Grid>)

  /**
   * The value of the cell at row `r`, column `c`. A worksheet gives every
   * row the same width, padding with empty cells, so a cell beyond a
   * stored row or below the sheet reads as empty.
   */
  function CellAt(grid: Grid, r: nat, c: nat): Cell
  {
    if r < |grid| && c < |grid[r]| then grid[r][c] else Empty
  }

  /** The cells of row `r`; a row below the sheet reads as all empty. */
  function RowAt(grid: Grid, r: nat): seq<Cell>
  {
    if r < |grid| then grid[r] else []
  }

  /**
   * `str(cell.value).strip() if cell.value else ""`. A number renders as
   * digits, a sign or a point, so it never begins with a marker nor
   * equals the title; it is represented by "" here.
   */
  function MarkerText(c: Cell): string
  {
    match c
    case Text(s) => Strip(s)
    case _ => ""
  }

  /**
   * `float(value)` on a cell; `None` where Python raises. Text converts as
   * `ParseNumber` says, which covers decimal text in ASCII digits.
   */
  function ToFloat(c: Cell): (r: Option<real>)
    ensures c.Num? ==> r == Some(c.n)
    ensures c.Empty? ==> r.None?
  {
    match c
    case Empty => None
    case Num(x) => Some(x)
    case Text(s) => ParseNumber(s)
  }

  /** `headers.index(name)`: the first column holding exactly `name`, compared unstripped. */
  function IndexOf(row: seq<Cell>, name: string): (r: Option<nat>)
    ensures r.Some? ==> r.value < |row| && row[r.value] == Text(name)
  {
    if |row| == 0 then None
    else if row[0] == Text(name) then Some(0)
    else
      match IndexOf(row[1..], name)
      case None => None
      case Some(i) => Some(i + 1)
  }

  /** The column found is the first one holding `name`, and `None` means no column holds it. */
  lemma {:induction false} IndexOfSpec(row: seq<Cell>, name: string)
    ensures IndexOf(row, name).Some? ==> forall k :: 0 <= k < IndexOf(row, name).value ==> row[k] != Text(name)
    ensures IndexOf(row, name).None? <==> Text(name) !in row
    decreases |row|
  {
    if |row| > 0 && row[0] != Text(name) {
      IndexOfSpec(row[1..], name);
      assert row == [row[0]] + row[1..];
    }
  }

  /** A data row continues the block when its first cell equals 1 (an integer or `1.0`). */
  predicate IsContinuation(grid: Grid, r: nat)
  {
    CellAt(grid, r, 0) == Num(1.0)
  }

  /** The first row at or after `r` that ends the block: below the sheet, or a flag other than 1. */
  function BlockEnd(grid: Grid, r: nat): (e: nat)
    decreases |grid| - r
    ensures r <= e && (e <= |grid| || e == r)
    ensures e >= |grid| || !IsContinuation(grid, e)
  {
    if r >= |grid| || !IsContinuation(grid, r) then r else BlockEnd(grid, r + 1)
  }

  /** Every row between `r` and the block's end continues the block. */
  lemma {:induction false} BlockEndContinues(grid: Grid, r: nat)
    ensures forall k :: r <= k < BlockEnd(grid, r) ==> IsContinuation(grid, k)
    decreases |grid| - r
  {
    if r < |grid| && IsContinuation(grid, r) {
      BlockEndContinues(grid, r + 1);
    }
  }

  /** What one data row adds to the two lists. */
  datatype RowOutcome = Skipped | DistanceOnly(d: real) | Both(d: real, t: real)

  /**
   * A row with either cell empty is skipped. Otherwise the distance is
   * converted and appended first, then the temperature: a temperature that
   * does not convert leaves the distance appended.
   */
  function ReadRow(grid: Grid, r: nat, dc: nat, tc: nat): (o: RowOutcome)
    ensures o.Skipped? <==>
      CellAt(grid, r, dc).Empty? || CellAt(grid, r, tc).Empty? || ToFloat(CellAt(grid, r, dc)).None?
    ensures !o.Skipped? ==> ToFloat(CellAt(grid, r, dc)) == Some(o.d)
    ensures o.Both? <==> !o.Skipped? && ToFloat(CellAt(grid, r, tc)).Some?
    ensures o.Both? ==> ToFloat(CellAt(grid, r, tc)) == Some(o.t)
  {
    var distance := CellAt(grid, r, dc);
    var temperature := CellAt(grid, r, tc);
    if distance.Empty? || temperature.Empty? then Skipped
    else
      match ToFloat(distance)
      case None => Skipped
      case Some(d) =>
        match ToFloat(temperature)
        case None => DistanceOnly(d)
        case Some(t) => Both(d, t)
  }

  function Add(b: Block, o: RowOutcome): Block
  {
    match o
    case Skipped => b
    case DistanceOnly(d) => Block(b.distances + [d], b.temperatures)
    case Both(d, t) => Block(b.distances + [d], b.temperatures + [t])
  }

  /** The outcome of each row, read through columns `dc` and `tc`. */
  function RowReader(grid: Grid, dc: nat, tc: nat): nat -> RowOutcome
  {
    (r: nat) => ReadRow(grid, r, dc, tc)
  }

  /** The number of rows in `lo..hi-1` whose outcome is a distance without a temperature. */
  function Failures(lo: nat, hi: nat, read: nat -> RowOutcome): nat
    requires lo <= hi
    decreases hi - lo
  {
    if hi == lo then 0
    else Failures(lo, hi - 1, read) + (if read(hi - 1).DistanceOnly? then 1 else 0)
  }

  /**
   * The lists built from the outcomes of rows `lo..hi-1`, top to bottom.
   * The distance list is longer than the temperature list by exactly the
   * number of rows that gave a distance without a temperature.
   */
  function Collect(lo: nat, hi: nat, read: nat -> RowOutcome): (b: Block)
    requires lo <= hi
    decreases hi - lo
    ensures |b.distances| == |b.temperatures| + Failures(lo, hi, read)
    ensures |b.distances| <= hi - lo
  {
    if hi == lo then Block([], []) else Add(Collect(lo, hi - 1, read), read(hi - 1))
  }

  /** The number of rows in `lo..hi-1` whose distance converted but whose temperature did not. */
  function TemperatureFailures(grid: Grid, lo: nat, hi: nat, dc: nat, tc: nat): nat
    requires lo <= hi
  {
    Failures(lo, hi, RowReader(grid, dc, tc))
  }

  /** The lists built from rows `lo..hi-1` of the sheet, top to bottom. */
  function CollectRows(grid: Grid, lo: nat, hi: nat, dc: nat, tc: nat): (b: Block)
    requires lo <= hi
    ensures |b.distances| == |b.temperatures| + TemperatureFailures(grid, lo, hi, dc, tc)
    ensures |b.distances| <= hi - lo
  {
    Collect(lo, hi, RowReader(grid, dc, tc))
  }

  /**
   * `_extract_dispersion_data` as a value: headers two rows below the
   * title, samples from three rows below it up to the first row whose flag
   * is not 1, and `None` when a header is missing or either list is empty.
   */
  function ExtractBlock(grid: Grid, title: nat, tt: TemperatureType): (r: Option<Block>)
    ensures r.Some? ==> |r.value.distances| > 0 && |r.value.temperatures| > 0
    ensures r.Some? ==> |r.value.temperatures| <= |r.value.distances|
    ensures IndexOf(RowAt(grid, title + 2), DistanceHeader).None? ==> r.None?
    ensures IndexOf(RowAt(grid, title + 2), TemperatureHeader(tt)).None? ==> r.None?
  {
    var headers := RowAt(grid, title + 2);
    match (IndexOf(headers, DistanceHeader), IndexOf(headers, TemperatureHeader(tt)))
    case (Some(dc), Some(tc)) =>
      var b := CollectRows(grid, title + 3, BlockEnd(grid, title + 3), dc, tc);
      if |b.distances| > 0 && |b.temperatures| > 0 then Some(b) else None
    case _ => None
  }

  /** The body of the sample loop: row `r` read through columns `dc` and `tc` onto the two lists. */
  method AppendRow(grid: Grid, r: nat, dc: nat, tc: nat, distances: seq<real>, temperatures: seq<real>)
    returns (distances': seq<real>, temperatures': seq<real>)
    ensures Block(distances', temperatures') == Add(Block(distances, temperatures), ReadRow(grid, r, dc, tc))
  {
    distances', temperatures' := distances, temperatures;
    var distance := CellAt(grid, r, dc);
    var temperature := CellAt(grid, r, tc);
    if !distance.Empty? && !temperature.Empty? {
      var d := ToFloat(distance);
      if d.Some? {
        distances' := distances' + [d.value];
        var t := ToFloat(temperature);
        if t.Some? {
          temperatures' := temperatures' + [t.value];
        }
      }
    }
  }

  /** `_extract_dispersion_data(ws, start_row)`. */
  method ExtractDispersionData(grid: Grid, startRow: nat, tt: TemperatureType) returns (data: Option<Block>)
    ensures data == ExtractBlock(grid, startRow, tt)
  {
    var headers := RowAt(grid, startRow + 2);
    var distanceCol := IndexOf(headers, DistanceHeader);
    var tempCol := IndexOf(headers, TemperatureHeader(tt));
    if distanceCol.None? || tempCol.None? {
      return None;
    }
    var dc, tc := distanceCol.value, tempCol.value;
    var distances: seq<real> := [];
    var temperatures: seq<real> := [];
    var rowNum := startRow + 3;
    while rowNum < |grid|
      invariant startRow + 3 <= rowNum && (rowNum <= |grid| || rowNum == startRow + 3)
      invariant BlockEnd(grid, rowNum) == BlockEnd(grid, startRow + 3)
      invariant Block(distances, temperatures) == CollectRows(grid, startRow + 3, rowNum, dc, tc)
      decreases |grid| - rowNum
    {
      if CellAt(grid, rowNum, 0) != Num(1.0) {
        break;
      }
      distances, temperatures := AppendRow(grid, rowNum, dc, tc, distances, temperatures);
      rowNum := rowNum + 1;
    }
    if |distances| > 0 && |temperatures| > 0 {
      data := Some(Block(distances, temperatures));
    } else {
      data := None;
    }
  }

  /** What every record leaving the parser satisfies. */
  predicate WellFormed(rec: DispersionRecord)
  {
    && rec.equipmentItem != "" && rec.scenario != "" && rec.weather != ""
    && |rec.distances| > 0 && |rec.temperatures| > 0
    && |rec.temperatures| <= |rec.distances|
  }

  /**
   * The scan's state within one sheet: the current labels ("" while a
   * label is unset) and the records emitted so far.
   */
  datatype ScanState = ScanState(equipmentItem: string, scenario: string, weather: string, records: seq<DispersionRecord>)

  /** The state at the top of every sheet: no label set, nothing emitted. */
  const InitialState: ScanState := ScanState("", "", "", [])

  predicate AllWellFormed(records: seq<DispersionRecord>)
  {
    forall i :: 0 <= i < |records| ==> WellFormed(records[i])
  }

  /** How many of the four parts of the scan state differ between `a` and `b`. */
  function ChangedParts(a: ScanState, b: ScanState): nat
  {
    (if a.equipmentItem != b.equipmentItem then 1 else 0) +
    (if a.scenario != b.scenario then 1 else 0) +
    (if a.weather != b.weather then 1 else 0) +
    (if a.records != b.records then 1 else 0)
  }

  /** The label a marker cell sets: the stripped text after its first colon. */
  function MarkerLabel(value: string): Option<string>
  {
    match AfterFirstColon(value)
    case None => None
    case Some(rest) => Some(Strip(rest))
  }

  /** The equipment and weather markers end in a colon, so splitting their cells never fails. */
  lemma MarkerColons(value: string)
    ensures StartsWith(value, EquipmentMarker) ==> ':' in value && AfterFirstColon(value).Some?
    ensures StartsWith(value, WeatherMarker) ==> ':' in value && AfterFirstColon(value).Some?
    ensures AfterFirstColon(value).None? <==> ':' !in value
  {
    AfterFirstColonSpec(value);
    StartsWithSpec(value, EquipmentMarker);
    StartsWithSpec(value, WeatherMarker);
    if StartsWith(value, EquipmentMarker) {
      assert value[14] == EquipmentMarker[14] == ':';
    }
    if StartsWith(value, WeatherMarker) {
      assert value[7] == WeatherMarker[7] == ':';
    }
  }

  /** The four tests look at distinct first characters, so at most one of them holds for any text. */
  lemma MarkersExclusive(value: string)
    ensures StartsWith(value, EquipmentMarker) ==> !(StartsWith(value, ScenarioMarker)) && !(StartsWith(value, WeatherMarker)) && value != BlockTitle
    ensures StartsWith(value, ScenarioMarker) ==> !(StartsWith(value, WeatherMarker)) && value != BlockTitle
    ensures StartsWith(value, WeatherMarker) ==> value != BlockTitle
  {
    assert BlockTitle[0] == 'T';
    StartsWithSpec(value, EquipmentMarker);
    StartsWithSpec(value, ScenarioMarker);
    StartsWithSpec(value, WeatherMarker);
    if StartsWith(value, EquipmentMarker) {
      assert value[0] == 'E';
    }
    if StartsWith(value, ScenarioMarker) {
      assert value[0] == 'S';
    }
    if StartsWith(value, WeatherMarker) {
      assert value[0] == 'W';
    }
  }

  /** The record a title cell emits, if the block has data and every label is set. */
  function Emitted(grid: Grid, tt: TemperatureType, row: nat, st: ScanState): seq<DispersionRecord>
  {
    var data := ExtractBlock(grid, row, tt);
    if data.Some? && st.equipmentItem != "" && st.scenario != "" && st.weather != "" then
      [DispersionRecord(st.equipmentItem, st.scenario, st.weather, data.value.distances, data.value.temperatures)]
    else []
  }

  /**
   * One cell of the row-major pass over a sheet. A marker cell replaces
   * its label; the title cell reads the block anchored at row `row` and
   * emits a record when the block has data and all three labels are set.
   * Only a scenario marker without a colon raises.
   */
  function StepCell(grid: Grid, tt: TemperatureType, row: nat, cell: Cell, st: ScanState): (res: Result<ScanState, ParseError>)
    ensures res.Err? ==> res.error == MarkerWithoutColon(row)
  {
    var value := MarkerText(cell);
    if StartsWith(value, EquipmentMarker) then
      match MarkerLabel(value)
      case None => Err(MarkerWithoutColon(row))
      case Some(name) => Ok(st.(equipmentItem := name))
    else if StartsWith(value, ScenarioMarker) then
      match MarkerLabel(value)
      case None => Err(MarkerWithoutColon(row))
      case Some(name) => Ok(st.(scenario := name))
    else if StartsWith(value, WeatherMarker) then
      match MarkerLabel(value)
      case None => Err(MarkerWithoutColon(row))
      case Some(name) => Ok(st.(weather := name))
    else if value == BlockTitle then
      Ok(st.(records := st.records + Emitted(grid, tt, row, st)))
    else Ok(st)
  }

  /**
   * What one cell does to the scan state: only a scenario marker without a
   * colon raises; a marker sets its own label and nothing else; the title
   * appends at most the one record built from the current labels and the
   * block at this row; any other cell changes nothing. So at most one part
   * of the state changes.
   */
  lemma StepCellEffect(grid: Grid, tt: TemperatureType, row: nat, cell: Cell, st: ScanState)
    ensures var v := MarkerText(cell); var res := StepCell(grid, tt, row, cell, st);
      && (res.Err? <==> StartsWith(v, ScenarioMarker) && ':' !in v)
      && (res.Ok? ==> ChangedParts(st, res.value) <= 1)
      && (StartsWith(v, EquipmentMarker) ==> res == Ok(st.(equipmentItem := MarkerLabel(v).value)))
      && (StartsWith(v, ScenarioMarker) && ':' in v ==> res == Ok(st.(scenario := MarkerLabel(v).value)))
      && (StartsWith(v, WeatherMarker) ==> res == Ok(st.(weather := MarkerLabel(v).value)))
      && (v == BlockTitle ==> res == Ok(st.(records := st.records + Emitted(grid, tt, row, st))))
      && (!(StartsWith(v, EquipmentMarker)) && !(StartsWith(v, ScenarioMarker)) && !(StartsWith(v, WeatherMarker)) && v != BlockTitle ==> res == Ok(st))
  {
    var v := MarkerText(cell);
    MarkerColons(v);
    MarkersExclusive(v);
  }

  /** What a title emits is at most one record, and that record is well formed. */
  lemma EmittedWellFormed(grid: Grid, tt: TemperatureType, row: nat, st: ScanState)
    ensures var rs := Emitted(grid, tt, row, st);
      |rs| <= 1 && (|rs| == 1 ==> WellFormed(rs[0]))
  {
  }

  /**
   * A cell fails only with the error naming its own row; otherwise the
   * records are kept, or extended by what the title emits.
   */
  lemma StepCellOutcome(grid: Grid, tt: TemperatureType, row: nat, cell: Cell, st: ScanState)
    ensures var res := StepCell(grid, tt, row, cell, st);
      && (res.Err? ==> res.error == MarkerWithoutColon(row))
      && (res.Ok? ==> res.value.records == st.records || res.value.records == st.records + Emitted(grid, tt, row, st))
  {
    var value := MarkerText(cell);
    if StartsWith(value, EquipmentMarker) || StartsWith(value, ScenarioMarker) || StartsWith(value, WeatherMarker) {
      match MarkerLabel(value)
      case None =>
      case Some(_) =>
    }
  }

  /** A record is emitted exactly when the block has data and all three labels are set; it carries those labels. */
  lemma EmittedExactly(grid: Grid, tt: TemperatureType, row: nat, st: ScanState)
    ensures |Emitted(grid, tt, row, st)| == 1 <==>
      ExtractBlock(grid, row, tt).Some? && st.equipmentItem != "" && st.scenario != "" && st.weather != ""
    ensures |Emitted(grid, tt, row, st)| == 1 ==>
      var rec := Emitted(grid, tt, row, st)[0];
      && rec.equipmentItem == st.equipmentItem && rec.scenario == st.scenario && rec.weather == st.weather
      && Some(Block(rec.distances, rec.temperatures)) == ExtractBlock(grid, row, tt)
  {
  }

  /** The cell step of row `r`, as the scan of that row uses it. */
  function CellStep(grid: Grid, tt: TemperatureType, r: nat): (ScanState, Cell) -> Result<ScanState, ParseError>
  {
    (s, cell) => StepCell(grid, tt, r, cell, s)
  }

  /** The pass over the first `k` cells of row `r`, starting from `st`. */
  function ScanRow(grid: Grid, tt: TemperatureType, r: nat, k: nat, st: ScanState): (res: Result<ScanState, ParseError>)
    requires r < |grid| && k <= |grid[r]|
  {
    Steps(grid[r][..k], st, CellStep(grid, tt, r))
  }

  /** The pass over the first `n` rows of a sheet, starting with no label set. */
  function ScanRows(grid: Grid, tt: TemperatureType, n: nat): (res: Result<ScanState, ParseError>)
    requires n <= |grid|
  {
    if n == 0 then Ok(InitialState)
    else
      match ScanRows(grid, tt, n - 1)
      case Err(e) => Err(e)
      case Ok(s) => ScanRow(grid, tt, n - 1, |grid[n - 1]|, s)
  }

  /** `_analyze_sheet` as a value: the records of one sheet, or the error that aborts it. */
  function SheetRecords(grid: Grid, tt: TemperatureType): (res: Result<seq<DispersionRecord>, ParseError>)
  {
    match ScanRows(grid, tt, |grid|)
    case Err(e) => Err(e)
    case Ok(s) => Ok(s.records)
  }

  /** One cell only appends to the records, and what it appends is well formed. */
  lemma StepCellGrows(grid: Grid, tt: TemperatureType, row: nat, cell: Cell, st: ScanState)
    requires AllWellFormed(st.records)
    ensures StepCell(grid, tt, row, cell, st).Ok? ==>
      var after := StepCell(grid, tt, row, cell, st).value.records;
      st.records <= after && AllWellFormed(after)
  {
    StepCellOutcome(grid, tt, row, cell, st);
    EmittedWellFormed(grid, tt, row, st);
    var e := Emitted(grid, tt, row, st);
    assert AllWellFormed(st.records + e) by {
      forall i | 0 <= i < |st.records + e|
        ensures WellFormed((st.records + e)[i])
      {
        if i >= |st.records| {
          assert (st.records + e)[i] == e[0];
        }
      }
    }
  }

  /**
   * Scanning a row only appends to the records found so far, and every
   * record it appends is well formed.
   */
  lemma {:induction false} ScanRowGrows(grid: Grid, tt: TemperatureType, r: nat, k: nat, st: ScanState)
    requires r < |grid| && k <= |grid[r]|
    requires AllWellFormed(st.records)
    ensures ScanRow(grid, tt, r, k, st).Ok? ==>
      var after := ScanRow(grid, tt, r, k, st).value.records;
      st.records <= after && AllWellFormed(after)
    decreases k
  {
    if k > 0 {
      ScanRowGrows(grid, tt, r, k - 1, st);
      ScanRowSnoc(grid, tt, r, k - 1, st);
      var prev := ScanRow(grid, tt, r, k - 1, st);
      if prev.Ok? {
        var mid := prev.value;
        StepCellGrows(grid, tt, r, grid[r][k - 1], mid);
        assert ScanRow(grid, tt, r, k, st) == StepCell(grid, tt, r, grid[r][k - 1], mid);
      } else {
        assert ScanRow(grid, tt, r, k, st).Err?;
      }
    }
  }

  /** Every record of a sheet's first `n` rows is well formed. */
  lemma {:induction false} ScanRowsWellFormed(grid: Grid, tt: TemperatureType, n: nat)
    requires n <= |grid|
    ensures ScanRows(grid, tt, n).Ok? ==> AllWellFormed(ScanRows(grid, tt, n).value.records)
    decreases n
  {
    if n > 0 {
      ScanRowsWellFormed(grid, tt, n - 1);
      match ScanRows(grid, tt, n - 1)
      case Err(_) =>
      case Ok(s) => ScanRowGrows(grid, tt, n - 1, |grid[n - 1]|, s);
    }
  }

  lemma ScanRowKeepsError(grid: Grid, tt: TemperatureType, r: nat, k: nat, k': nat, st: ScanState)
    requires r < |grid| && k <= k' <= |grid[r]|
    requires ScanRow(grid, tt, r, k, st).Err?
    ensures ScanRow(grid, tt, r, k', st) == ScanRow(grid, tt, r, k, st)
  {
    StepsKeepError(grid[r], st, CellStep(grid, tt, r), k, k');
  }

  lemma {:induction false} ScanRowsKeepsError(grid: Grid, tt: TemperatureType, n: nat, n': nat)
    requires n <= n' <= |grid|
    requires ScanRows(grid, tt, n).Err?
    ensures ScanRows(grid, tt, n') == ScanRows(grid, tt, n)
    decreases n' - n
  {
    if n' > n {
      ScanRowsKeepsError(grid, tt, n, n' - 1);
    }
  }

  /** One more cell of a row: its step runs on the state so far, unless the row has already failed. */
  lemma ScanRowSnoc(grid: Grid, tt: TemperatureType, r: nat, c: nat, st: ScanState)
    requires r < |grid| && c < |grid[r]|
    ensures ScanRow(grid, tt, r, c + 1, st) ==
      match ScanRow(grid, tt, r, c, st)
      case Err(e) => Err(e)
      case Ok(s) => StepCell(grid, tt, r, grid[r][c], s)
  {
    StepsSnoc(grid[r], st, CellStep(grid, tt, r), c);
  }

  lemma ScanRowUnfold(grid: Grid, tt: TemperatureType, r: nat, c: nat, st: ScanState, before: ScanState)
    requires r < |grid| && c < |grid[r]|
    requires ScanRow(grid, tt, r, c, st) == Ok(before)
    ensures ScanRow(grid, tt, r, c + 1, st) == StepCell(grid, tt, r, grid[r][c], before)
  {
    ScanRowSnoc(grid, tt, r, c, st);
  }

  /**
   * The body of the inner loop of `_analyze_sheet` for the cell `cell` of
   * row `r`: the marker tests in the order `_analyze_sheet` makes them,
   * then the title reading the block anchored at row `r`.
   */
  method ScanCell(grid: Grid, tt: TemperatureType, r: nat, cell: Cell, st: ScanState) returns (res: Result<ScanState, ParseError>)
    ensures res == StepCell(grid, tt, r, cell, st)
  {
    var value := MarkerText(cell);
    MarkerColons(value);
    StepCellEffect(grid, tt, r, cell, st);
    if StartsWith(value, EquipmentMarker) {
      return Ok(st.(equipmentItem := Strip(AfterFirstColon(value).value)));
    } else if StartsWith(value, ScenarioMarker) {
      var rest := AfterFirstColon(value);
      if rest.None? {
        return Err(MarkerWithoutColon(r));
      }
      return Ok(st.(scenario := Strip(rest.value)));
    } else if StartsWith(value, WeatherMarker) {
      return Ok(st.(weather := Strip(AfterFirstColon(value).value)));
    } else if value == BlockTitle {
      var sheetData := st.records;
      var data := ExtractDispersionData(grid, r, tt);
      if data.Some? && st.equipmentItem != "" && st.scenario != "" && st.weather != "" {
        sheetData := sheetData + [DispersionRecord(st.equipmentItem, st.scenario, st.weather,
          data.value.distances, data.value.temperatures)];
      }
      return Ok(st.(records := sheetData));
    }
    return Ok(st);
  }

  /**
   * The inner loop of `_analyze_sheet`: the cells of row `r`, left to
   * right, updating the labels and the records found so far.
   */
  method ScanRowCells(grid: Grid, tt: TemperatureType, r: nat, st: ScanState) returns (res: Result<ScanState, ParseError>)
    requires r < |grid|
    ensures res == ScanRow(grid, tt, r, |grid[r]|, st)
  {
    var state := st;
    var c := 0;
    while c < |grid[r]|
      invariant c <= |grid[r]|
      invariant ScanRow(grid, tt, r, c, st) == Ok(state)
    {
      var next := ScanCell(grid, tt, r, grid[r][c], state);
      ScanRowUnfold(grid, tt, r, c, st, state);
      if next.Err? {
        ScanRowKeepsError(grid, tt, r, c + 1, |grid[r]|, st);
        return next;
      }
      state := next.value;
      c := c + 1;
    }
    return Ok(state);
  }

  /**
   * `_analyze_sheet(ws)`: one row-major pass over the sheet, the labels
   * starting unset; the first failing cell aborts the sheet.
   */
  method AnalyzeSheet(grid: Grid, tt: TemperatureType) returns (res: Result<seq<DispersionRecord>, ParseError>)
    ensures res == SheetRecords(grid, tt)
  {
    var state := InitialState;
    var r := 0;
    while r < |grid|
      invariant r <= |grid|
      invariant ScanRows(grid, tt, r) == Ok(state)
    {
      var next := ScanRowCells(grid, tt, r, state);
      if next.Err? {
        ScanRowsKeepsError(grid, tt, r + 1, |grid|);
        return Err(next.error);
      }
      state := next.value;
      r := r + 1;
    }
    return Ok(state.records);
  }

  /** Reads one sheet of a workbook, scanning it from a fresh state. */
  function SheetReader(tt: TemperatureType): Grid -> Result<seq<DispersionRecord>, ParseError>
  {
    grid => SheetRecords(grid, tt)
  }

  /** The sheets of a workbook in order; the first sheet that raises ends the file. */
  function SheetsRecords(sheets: seq<Grid>, tt: TemperatureType): Result<seq<DispersionRecord>, ParseError>
  {
    ReadAll(sheets, SheetReader(tt))
  }

  /** `_process_single_file` as a value. */
  function FileRecords(f: WorkbookFile, tt: TemperatureType): (res: Result<seq<DispersionRecord>, FileError>)
    ensures f.Unreadable? ==> res == Err(CannotLoad)
  {
    match f
    case Unreadable => Err(CannotLoad)
    case Workbook(sheets) =>
      match SheetsRecords(sheets, tt)
      case Err(e) => Err(SheetFailed(e))
      case Ok(rs) => Ok(rs)
  }

  /** `_process_single_file(path)`: every sheet in order, each scanned from a fresh state. */
  method ProcessSingleFile(f: WorkbookFile, tt: TemperatureType) returns (res: Result<seq<DispersionRecord>, FileError>)
    ensures res == FileRecords(f, tt)
  {
    if f.Unreadable? {
      return Err(CannotLoad);
    }
    var fileData: seq<DispersionRecord> := [];
    var i := 0;
    while i < |f.sheets|
      invariant i <= |f.sheets|
      invariant SheetsRecords(f.sheets[..i], tt) == Ok(fileData)
    {
      var sheetData := AnalyzeSheet(f.sheets[i], tt);
      ReadAllSnoc(f.sheets, SheetReader(tt), i);
      assert SheetReader(tt)(f.sheets[i]) == sheetData;
      if sheetData.Err? {
        ReadAllKeepsError(f.sheets, SheetReader(tt), i + 1);
        return Err(SheetFailed(sheetData.error));
      }
      fileData := fileData + sheetData.value;
      i := i + 1;
    }
    assert f.sheets[..i] == f.sheets;
    return Ok(fileData);
  }

  /** What one file contributes to `process_files`: its records, or nothing when it raises. */
  function Contribution(tt: TemperatureType): WorkbookFile -> seq<DispersionRecord>
  {
    f => match FileRecords(f, tt)
      case Ok(rs) => rs
      case Err(_) => []
  }

  /** `process_files` as a value: the files' contributions concatenated in enumeration order. */
  function AllRecords(files: seq<WorkbookFile>, tt: TemperatureType): seq<DispersionRecord>
  {
    FlatMap(files, Contribution(tt))
  }

  /** `process_files(folder)`: a failing file is logged and skipped. */
  method ProcessFiles(files: seq<WorkbookFile>, tt: TemperatureType) returns (allData: seq<DispersionRecord>)
    ensures allData == AllRecords(files, tt)
  {
    allData := [];
    var i := 0;
    while i < |files|
      invariant i <= |files|
      invariant allData == AllRecords(files[..i], tt)
    {
      var fileData := ProcessSingleFile(files[i], tt);
      assert files[..i + 1][..i] == files[..i];
      if fileData.Ok? {
        allData := allData + fileData.value;
      }
      i := i + 1;
    }
    assert files[..i] == files;
  }

  /** Every record a workbook yields has all three labels and non-empty sample lists. */
  lemma {:induction false} SheetsRecordsWellFormed(sheets: seq<Grid>, tt: TemperatureType)
    ensures SheetsRecords(sheets, tt).Ok? ==> AllWellFormed(SheetsRecords(sheets, tt).value)
    decreases |sheets|
  {
    if |sheets| > 0 {
      SheetsRecordsWellFormed(sheets[..|sheets| - 1], tt);
      var last := sheets[|sheets| - 1];
      ScanRowsWellFormed(last, tt, |last|);
    }
  }

  /** Every record `process_files` returns has all three labels and non-empty sample lists. */
  lemma {:induction false} AllRecordsWellFormed(files: seq<WorkbookFile>, tt: TemperatureType)
    ensures AllWellFormed(AllRecords(files, tt))
    decreases |files|
  {
    if |files| > 0 {
      AllRecordsWellFormed(files[..|files| - 1], tt);
      var f := files[|files| - 1];
      if f.Workbook? {
        SheetsRecordsWellFormed(f.sheets, tt);
      }
    }
  }

  /** No row in `lo..hi-1` had a distance that converted and a temperature that did not. */
  predicate NoTemperatureFailure(grid: Grid, lo: nat, hi: nat, dc: nat, tc: nat)
  {
    forall r :: lo <= r < hi ==> !ReadRow(grid, r, dc, tc).DistanceOnly?
  }

  /** No row gives a distance without a temperature exactly when the failure count is zero. */
  lemma {:induction false} FailuresZero(lo: nat, hi: nat, read: nat -> RowOutcome)
    requires lo <= hi
    ensures Failures(lo, hi, read) == 0 <==> forall r :: lo <= r < hi ==> !read(r).DistanceOnly?
    decreases hi - lo
  {
    if hi > lo {
      FailuresZero(lo, hi - 1, read);
    }
  }

  lemma TemperatureFailuresZero(grid: Grid, lo: nat, hi: nat, dc: nat, tc: nat)
    requires lo <= hi
    ensures TemperatureFailures(grid, lo, hi, dc, tc) == 0 <==> NoTemperatureFailure(grid, lo, hi, dc, tc)
  {
    var read := RowReader(grid, dc, tc);
    FailuresZero(lo, hi, read);
    assert forall r :: lo <= r < hi ==> read(r) == ReadRow(grid, r, dc, tc);
  }

  /**
   * The two lists of a block have the same length exactly when no data row
   * had a distance that converted and a temperature that did not; such a
   * row leaves its distance behind, so the lists are misaligned after it.
   */
  lemma BlockAlignment(grid: Grid, title: nat, tt: TemperatureType)
    requires ExtractBlock(grid, title, tt).Some?
    ensures var headers := RowAt(grid, title + 2);
      var dc, tc := IndexOf(headers, DistanceHeader).value, IndexOf(headers, TemperatureHeader(tt)).value;
      var b := ExtractBlock(grid, title, tt).value;
      |b.distances| == |b.temperatures| <==> NoTemperatureFailure(grid, title + 3, BlockEnd(grid, title + 3), dc, tc)
  {
    var headers := RowAt(grid, title + 2);
    var dc, tc := IndexOf(headers, DistanceHeader).value, IndexOf(headers, TemperatureHeader(tt)).value;
    TemperatureFailuresZero(grid, title + 3, BlockEnd(grid, title + 3), dc, tc);
  }

  /** The distance a row outcome adds to a block, if any. */
  function DistanceOf(o: RowOutcome): Option<real>
  {
    if o.Skipped? then None else Some(o.d)
  }

  /** The temperature a row outcome adds to a block, if any. */
  function TemperatureOf(o: RowOutcome): Option<real>
  {
    if o.Both? then Some(o.t) else None
  }

  /** The distance each row adds, if any. */
  function DistancePick(read: nat -> RowOutcome): nat -> Option<real>
  {
    (r: nat) => DistanceOf(read(r))
  }

  /** The temperature each row adds, if any. */
  function TemperaturePick(read: nat -> RowOutcome): nat -> Option<real>
  {
    (r: nat) => TemperatureOf(read(r))
  }

  /** Adding a row outcome appends its distance and its temperature, each when it has one. */
  lemma AddListed(b: Block, o: RowOutcome)
    ensures Add(b, o).distances == b.distances + Listed(DistanceOf(o))
    ensures Add(b, o).temperatures == b.temperatures + Listed(TemperatureOf(o))
  {
  }

  /** The distances of a block are the values its rows give for them, top to bottom. */
  lemma {:induction false} DistancesPicked(lo: nat, hi: nat, read: nat -> RowOutcome)
    requires lo <= hi
    ensures Collect(lo, hi, read).distances == Picked(lo, hi, DistancePick(read))
    decreases hi - lo
  {
    if hi > lo {
      DistancesPicked(lo, hi - 1, read);
      AddListed(Collect(lo, hi - 1, read), read(hi - 1));
    }
  }

  /** The temperatures of a block are the values its rows give for them, top to bottom. */
  lemma {:induction false} TemperaturesPicked(lo: nat, hi: nat, read: nat -> RowOutcome)
    requires lo <= hi
    ensures Collect(lo, hi, read).temperatures == Picked(lo, hi, TemperaturePick(read))
    decreases hi - lo
  {
    if hi > lo {
      TemperaturesPicked(lo, hi - 1, read);
      AddListed(Collect(lo, hi - 1, read), read(hi - 1));
    }
  }

  /**
   * Where the distances of rows `lo..hi-1` come from: `rows` gives the row
   * of every distance, in increasing row order, and a row gives a distance
   * exactly when it is not skipped.
   */
  lemma DistanceRows(grid: Grid, lo: nat, hi: nat, dc: nat, tc: nat) returns (rows: seq<nat>)
    requires lo <= hi
    ensures |rows| == |CollectRows(grid, lo, hi, dc, tc).distances|
    ensures forall k :: 0 <= k < |rows| ==>
      && lo <= rows[k] < hi && !ReadRow(grid, rows[k], dc, tc).Skipped?
      && CollectRows(grid, lo, hi, dc, tc).distances[k] == ReadRow(grid, rows[k], dc, tc).d
    ensures forall a, b :: 0 <= a < b < |rows| ==> rows[a] < rows[b]
    ensures forall r :: lo <= r < hi ==> (r in rows <==> !ReadRow(grid, r, dc, tc).Skipped?)
  {
    var read := RowReader(grid, dc, tc);
    DistancesPicked(lo, hi, read);
    rows := PickedSources(lo, hi, DistancePick(read));
    var picked := Picked(lo, hi, DistancePick(read));
    forall k | 0 <= k < |rows|
      ensures !ReadRow(grid, rows[k], dc, tc).Skipped? && picked[k] == ReadRow(grid, rows[k], dc, tc).d
    {
      assert DistancePick(read)(rows[k]) == DistanceOf(ReadRow(grid, rows[k], dc, tc));
    }
    forall r | lo <= r < hi
      ensures r in rows <==> !ReadRow(grid, r, dc, tc).Skipped?
    {
      assert DistancePick(read)(r) == DistanceOf(ReadRow(grid, r, dc, tc));
    }
  }

  /**
   * Where the temperatures of rows `lo..hi-1` come from: `rows` gives the
   * row of every temperature, in increasing row order, and a row gives a
   * temperature exactly when both of its values converted.
   */
  lemma TemperatureRows(grid: Grid, lo: nat, hi: nat, dc: nat, tc: nat) returns (rows: seq<nat>)
    requires lo <= hi
    ensures |rows| == |CollectRows(grid, lo, hi, dc, tc).temperatures|
    ensures forall k :: 0 <= k < |rows| ==>
      && lo <= rows[k] < hi && ReadRow(grid, rows[k], dc, tc).Both?
      && CollectRows(grid, lo, hi, dc, tc).temperatures[k] == ReadRow(grid, rows[k], dc, tc).t
    ensures forall a, b :: 0 <= a < b < |rows| ==> rows[a] < rows[b]
    ensures forall r :: lo <= r < hi ==> (r in rows <==> ReadRow(grid, r, dc, tc).Both?)
  {
    var read := RowReader(grid, dc, tc);
    TemperaturesPicked(lo, hi, read);
    rows := PickedSources(lo, hi, TemperaturePick(read));
    var picked := Picked(lo, hi, TemperaturePick(read));
    forall k | 0 <= k < |rows|
      ensures ReadRow(grid, rows[k], dc, tc).Both? && picked[k] == ReadRow(grid, rows[k], dc, tc).t
    {
      assert TemperaturePick(read)(rows[k]) == TemperatureOf(ReadRow(grid, rows[k], dc, tc));
    }
    forall r | lo <= r < hi
      ensures r in rows <==> ReadRow(grid, r, dc, tc).Both?
    {
      assert TemperaturePick(read)(r) == TemperatureOf(ReadRow(grid, r, dc, tc));
    }
  }

  /** Rows `lo..hi-1` give some temperature exactly when one of them gave both values. */
  lemma CollectRowsHasPair(grid: Grid, lo: nat, hi: nat, dc: nat, tc: nat)
    requires lo <= hi
    ensures |CollectRows(grid, lo, hi, dc, tc).temperatures| > 0 <==>
      exists r :: lo <= r < hi && ReadRow(grid, r, dc, tc).Both?
  {
    var rows := TemperatureRows(grid, lo, hi, dc, tc);
    if |rows| > 0 {
      assert lo <= rows[0] < hi && ReadRow(grid, rows[0], dc, tc).Both?;
    } else {
      forall r | lo <= r < hi
        ensures !ReadRow(grid, r, dc, tc).Both?
      {
        assert r !in rows;
      }
    }
  }

  /**
   * A block is returned exactly when both headers are present and some
   * data row of the block gave a distance and a temperature that both
   * converted; the block returned holds the samples of the block's rows.
   */
  lemma ExtractBlockSome(grid: Grid, title: nat, tt: TemperatureType)
    ensures var headers := RowAt(grid, title + 2);
      var dc, tc := IndexOf(headers, DistanceHeader), IndexOf(headers, TemperatureHeader(tt));
      ExtractBlock(grid, title, tt).Some? <==>
        && dc.Some? && tc.Some?
        && exists r :: title + 3 <= r < BlockEnd(grid, title + 3) && ReadRow(grid, r, dc.value, tc.value).Both?
    ensures var headers := RowAt(grid, title + 2);
      var dc, tc := IndexOf(headers, DistanceHeader), IndexOf(headers, TemperatureHeader(tt));
      ExtractBlock(grid, title, tt).Some? ==>
        ExtractBlock(grid, title, tt).value == CollectRows(grid, title + 3, BlockEnd(grid, title + 3), dc.value, tc.value)
  {
    var headers := RowAt(grid, title + 2);
    var dc, tc := IndexOf(headers, DistanceHeader), IndexOf(headers, TemperatureHeader(tt));
    if dc.Some? && tc.Some? {
      var lo, hi := title + 3, BlockEnd(grid, title + 3);
      var b := CollectRows(grid, lo, hi, dc.value, tc.value);
      CollectRowsHasPair(grid, lo, hi, dc.value, tc.value);
      var e := ExtractBlock(grid, title, tt);
      assert e == if |b.distances| > 0 && |b.temperatures| > 0 then Some(b) else None;
      assert |b.temperatures| <= |b.distances|;
      assert e.Some? <==> |b.temperatures| > 0;
    } else {
      assert ExtractBlock(grid, title, tt).None?;
    }
  }

  /**
   * Labels are reset at the top of every sheet, so the sheets of a
   * workbook are read independently: splitting the workbook anywhere, its
   * records are those of the first part followed by those of the second,
   * and the first failing sheet decides the error.
   */
  lemma SheetsIndependent(a: seq<Grid>, b: seq<Grid>, tt: TemperatureType)
    ensures SheetsRecords(a + b, tt) == Join(SheetsRecords(a, tt), SheetsRecords(b, tt))
  {
    ReadAllAppend(a, b, SheetReader(tt));
  }

  /** `process_files` concatenates in enumeration order: the records of `a + b` are those of `a`, then those of `b`. */
  lemma AllRecordsAppend(a: seq<WorkbookFile>, b: seq<WorkbookFile>, tt: TemperatureType)
    ensures AllRecords(a + b, tt) == AllRecords(a, tt) + AllRecords(b, tt)
  {
    FlatMapAppend(a, b, Contribution(tt));
  }

  /** A file that fails contributes nothing, and the files after it are still read. */
  lemma FailedFileContributesNothing(before: seq<WorkbookFile>, f: WorkbookFile, after: seq<WorkbookFile>, tt: TemperatureType)
    requires FileRecords(f, tt).Err?
    ensures AllRecords(before + [f] + after, tt) == AllRecords(before, tt) + AllRecords(after, tt)
  {
    FlatMapSkip(before, f, after, Contribution(tt));
  }
}
