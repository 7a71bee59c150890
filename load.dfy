/**
 * validate_processed_csv: an all-or-nothing, fail-fast check of the processed
 * CSV file before it is trusted downstream.
 */
module Load {
  import opened Wrappers
  import opened Floats
  import opened Csv

  const MinFileSize: nat := 10
  const MinRows: nat := 200
  const MinTemperature: real := -50.0
  const MaxTemperature: real := 60.0

  /** What the loader learns about the processed file: whether it exists, its size in bytes, and its lines as CSV rows. */
  datatype ProcessedFile = ProcessedFile(present: bool, size: nat, lines: seq<Row>)

  /** float() on a field's text; None where Python raises ValueError. */
  type Parser = string -> Option<Float>

  /** Why a single row fails, in the order the checks are made. */
  datatype RowFault =
    | MissingTime                   // "Missing time value"
    | MissingTemperature            // "Missing temperature value"
    | NotANumber(text: string)      // float() raises ValueError
    | OutOfRange(temperature: Float) // "Temperature out of expected range"

  datatype LoadError =
    | FileNotFound(path: string)             // FileNotFoundError
    | FileTooSmall(path: string)             // "Processed file seems too small"
    | TooFewRows(count: nat)                 // "Too few rows"
    | BadRow(index: nat, fault: RowFault)    // the first failing row and its fault

  /** "OK: <path> (rows=<n>)". */
  datatype LoadReport = LoadReport(path: string, rowCount: nat)

  /** `r.get(key)` is truthy: the field is there, not None and not empty. */
  predicate Present(r: Record, key: string)
  {
    key in r && r[key].Some? && r[key].value != ""
  }

  /** The range check `temp < -50 or temp > 60` is false. */
  predicate InLoaderRange(t: Float)
  {
    !(Below(t, MinTemperature) || PyAbove(t, MaxTemperature))
  }

  /** The checks of one row: time present, then temperature present, then parsable, then in range. */
  function RowFaultOf(r: Record, parse: Parser): Option<RowFault>
  {
    if !Present(r, "time") then Some(MissingTime)
    else if !Present(r, "temperature_2m") then Some(MissingTemperature)
    else match parse(r["temperature_2m"].value)
      case None => Some(NotANumber(r["temperature_2m"].value))
      case Some(t) => if InLoaderRange(t) then None else Some(OutOfRange(t))
  }

  /** The first row at or after `from` that fails its checks, with its fault. */
  function FirstFault(rows: seq<Record>, parse: Parser, from: nat): (r: Option<(nat, RowFault)>)
    requires from <= |rows|
    ensures r.None? <==> forall k :: from <= k < |rows| ==> RowFaultOf(rows[k], parse).None?
    ensures r.Some? ==>
              && from <= r.value.0 < |rows|
              && RowFaultOf(rows[r.value.0], parse) == Some(r.value.1)
              && forall k :: from <= k < r.value.0 ==> RowFaultOf(rows[k], parse).None?
    decreases |rows| - from
  {
    if from == |rows| then None
    else match RowFaultOf(rows[from], parse)
      case Some(f) => Some((from, f))
      case None => FirstFault(rows, parse, from + 1)
  }

  /** The outcome of validate_processed_csv on a file, as a function of what it reads. */
  function Validate(file: ProcessedFile, path: string, parse: Parser): Result<LoadReport, LoadError>
  {
    if !file.present then Err(FileNotFound(path))
    else if file.size < MinFileSize then Err(FileTooSmall(path))
    else
      var rows := DictRows(file.lines);
      if |rows| < MinRows then Err(TooFewRows(|rows|))
      else match FirstFault(rows, parse, 0)
        case Some((i, f)) => Err(BadRow(i, f))
        case None => Ok(LoadReport(path, |rows|))
  }

  /** validate_processed_csv itself: the file guards, the row count, then one pass over the rows that stops at the first failure. */
  method ValidateProcessedCsv(file: ProcessedFile, path: string, parse: Parser) returns (r: Result<LoadReport, LoadError>)
    ensures r == Validate(file, path, parse)
  {
    if !file.present {
      return Err(FileNotFound(path));
    }
    if file.size < MinFileSize {
      return Err(FileTooSmall(path));
    }
    var rows := DictRows(file.lines);
    if |rows| < MinRows {
      return Err(TooFewRows(|rows|));
    }
    var i := 0;
    while i < |rows|
      invariant 0 <= i <= |rows|
      invariant forall k :: 0 <= k < i ==> RowFaultOf(rows[k], parse).None?
      invariant FirstFault(rows, parse, 0) == FirstFault(rows, parse, i)
    {
      var row := rows[i];
      if !("time" in row && row["time"].Some? && row["time"].value != "") {
        return Err(BadRow(i, MissingTime));
      }
      if !("temperature_2m" in row && row["temperature_2m"].Some? && row["temperature_2m"].value != "") {
        return Err(BadRow(i, MissingTemperature));
      }
      var parsed := parse(row["temperature_2m"].value);
      if parsed.None? {
        return Err(BadRow(i, NotANumber(row["temperature_2m"].value)));
      }
      var temp := parsed.value;
      if Below(temp, MinTemperature) || PyAbove(temp, MaxTemperature) {
        return Err(BadRow(i, OutOfRange(temp)));
      }
      i := i + 1;
    }
    r := Ok(LoadReport(path, |rows|));
  }

  /** A missing file is reported before anything else is looked at. */
  lemma MissingFileFirst(file: ProcessedFile, path: string, parse: Parser)
    requires !file.present
    ensures Validate(file, path, parse) == Err(FileNotFound(path))
  {
  }

  /** An existing file under 10 bytes is rejected before its rows are read. */
  lemma SmallFileRejected(file: ProcessedFile, path: string, parse: Parser)
    requires file.present && file.size < MinFileSize
    ensures Validate(file, path, parse) == Err(FileTooSmall(path))
  {
  }

  /** Fewer than 200 records reject the batch whatever the records hold. */
  lemma TooFewRowsRejected(file: ProcessedFile, path: string, parse: Parser)
    requires file.present && file.size >= MinFileSize
    requires |DictRows(file.lines)| < MinRows
    ensures Validate(file, path, parse) == Err(TooFewRows(|DictRows(file.lines)|))
  {
  }

  /** One failing row fails the whole batch, and the reported row is the first failing one, at or before it. */
  lemma OneBadRowFailsBatch(file: ProcessedFile, path: string, parse: Parser, k: nat)
    requires k < |DictRows(file.lines)|
    requires RowFaultOf(DictRows(file.lines)[k], parse).Some?
    ensures Validate(file, path, parse).Err?
    ensures file.present && file.size >= MinFileSize && |DictRows(file.lines)| >= MinRows ==>
              Validate(file, path, parse).error.BadRow? && Validate(file, path, parse).error.index <= k
  {
  }

  /** The row a BadRow error names is the first failing row, and the fault is that row's first failing check. */
  lemma FirstFailingRowDecides(file: ProcessedFile, path: string, parse: Parser, i: nat, f: RowFault)
    requires Validate(file, path, parse) == Err(BadRow(i, f))
    ensures i < |DictRows(file.lines)|
    ensures RowFaultOf(DictRows(file.lines)[i], parse) == Some(f)
    ensures forall k :: 0 <= k < i ==> RowFaultOf(DictRows(file.lines)[k], parse).None?
  {
  }

  /** A short line under a header that repeats "time" fails: DictReader pads the later "time" with None. */
  lemma ShortRowUnderRepeatedHeaderFails(parse: Parser)
    ensures RowFaultOf(DictRecord(["time", "temperature_2m", "time"], ["t1", "5"]), parse) == Some(MissingTime)
  {
    PaddingOverridesEarlierValue();
  }

  /** The order of checks within a row: time before temperature presence before parsing and range. */
  lemma RowCheckOrder(r: Record, parse: Parser)
    ensures !Present(r, "time") ==> RowFaultOf(r, parse) == Some(MissingTime)
    ensures Present(r, "time") && !Present(r, "temperature_2m") ==> RowFaultOf(r, parse) == Some(MissingTemperature)
    ensures RowFaultOf(r, parse).None? <==>
              Present(r, "time") && Present(r, "temperature_2m")
              && parse(r["temperature_2m"].value).Some? && InLoaderRange(parse(r["temperature_2m"].value).value)
  {
  }

  /** The range is closed: -50 and 60 pass, anything finite beyond them fails. */
  lemma RangeBounds(v: real)
    ensures InLoaderRange(Finite(v)) <==> MinTemperature <= v <= MaxTemperature
    ensures InLoaderRange(Finite(-50.0)) && InLoaderRange(Finite(60.0))
    ensures !InLoaderRange(Infinity(true)) && !InLoaderRange(Infinity(false))
  {
  }

  /** Neither comparison holds for NaN, so "nan" in the temperature column passes the range check. */
  lemma NaNPassesRangeCheck()
    ensures InLoaderRange(NaN)
  {
  }

  /** Success, with rows=len(rows), exactly when the file guards pass, there are at least 200 records and every record passes. */
  lemma ValidateSucceedsIff(file: ProcessedFile, path: string, parse: Parser)
    ensures Validate(file, path, parse).Ok? <==>
              && file.present && file.size >= MinFileSize
              && |DictRows(file.lines)| >= MinRows
              && forall k :: 0 <= k < |DictRows(file.lines)| ==> RowFaultOf(DictRows(file.lines)[k], parse).None?
    ensures Validate(file, path, parse).Ok? ==>
              Validate(file, path, parse).value == LoadReport(path, |DictRows(file.lines)|)
  {
  }
}
