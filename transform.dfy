/**
 * transform_raw_to_csv: flattens the hourly series of a decoded Open-Meteo
 * response into a two-column CSV file, after checking the schema and that
 * both series have the same length.
 */
module Transform {
  import opened Wrappers
  import opened Csv

  /** A section of the decoded JSON response: series name to its values, each already rendered as the text csv.writer writes for it. */
  type Series = map<string, seq<string>>

  /** The decoded response: top-level key to section. */
  type Payload = map<string, Series>

  /** The header row written before the data rows. */
  const Header: Row := ["time", "temperature_2m"]

  datatype TransformError =
    | MissingKey                                    // KeyError: no hourly/time/temperature_2m
    | LengthMismatch(timeCount: nat, tempCount: nat) // ValueError: the two series differ in length

  /** What a successful run leaves behind: the returned path and the rows of the file written there. */
  datatype Output = Output(path: string, rows: seq<Row>)

  /** The schema guard: "hourly" is present and holds both "time" and "temperature_2m". */
  predicate HasSchema(p: Payload)
  {
    "hourly" in p && "time" in p["hourly"] && "temperature_2m" in p["hourly"]
  }

  function Times(p: Payload): seq<string>
    requires HasSchema(p)
  {
    p["hourly"]["time"]
  }

  function Temps(p: Payload): seq<string>
    requires HasSchema(p)
  {
    p["hourly"]["temperature_2m"]
  }

  /** zip(times, temps) as two-field rows, in input order, stopping at the shorter sequence. */
  function ZipRows(times: seq<string>, temps: seq<string>): (rows: seq<Row>)
    ensures |rows| == Min(|times|, |temps|)
    ensures forall i :: 0 <= i < |rows| ==> rows[i] == [times[i], temps[i]]
  {
    if times == [] || temps == [] then []
    else [[times[0], temps[0]]] + ZipRows(times[1..], temps[1..])
  }

  /**
   * The outcome of transform_raw_to_csv on a payload: the schema guard is
   * decided first, then the length guard; on success the header row is
   * followed by one row per hour, and the given path is returned.
   */
  function Transform(p: Payload, processedPath: string): (r: Result<Output, TransformError>)
    ensures r == Err(MissingKey) <==> !HasSchema(p)
    ensures r.Err? && r.error.LengthMismatch? <==> HasSchema(p) && |Times(p)| != |Temps(p)|
    ensures r.Err? && r.error.LengthMismatch? ==> r.error == LengthMismatch(|Times(p)|, |Temps(p)|)
    ensures r.Ok? ==>
              && r.value.path == processedPath
              && |r.value.rows| == |Times(p)| + 1
              && r.value.rows[0] == Header
              && forall i :: 0 <= i < |Times(p)| ==> r.value.rows[i + 1] == [Times(p)[i], Temps(p)[i]]
  {
    if !HasSchema(p) then Err(MissingKey)
    else if |Times(p)| != |Temps(p)| then Err(LengthMismatch(|Times(p)|, |Temps(p)|))
    else Ok(Output(processedPath, [Header] + ZipRows(Times(p), Temps(p))))
  }

  /** The csv.writer over the output file: the rows written so far, in order. */
  class CsvWriter {
    var rows: seq<Row>

    constructor ()
      ensures rows == []
    {
      rows := [];
    }

    method WriteRow(row: Row)
      modifies this
      ensures rows == old(rows) + [row]
    {
      rows := rows + [row];
    }
  }

  /** transform_raw_to_csv itself: the guards, then the header and one writerow per zipped pair. */
  method TransformRawToCsv(p: Payload, processedPath: string) returns (r: Result<Output, TransformError>)
    ensures r == Transform(p, processedPath)
  {
    if !("hourly" in p && "time" in p["hourly"] && "temperature_2m" in p["hourly"]) {
      return Err(MissingKey);
    }
    var hourly := p["hourly"];
    var times := hourly["time"];
    var temps := hourly["temperature_2m"];
    if |times| != |temps| {
      return Err(LengthMismatch(|times|, |temps|));
    }
    var writer := new CsvWriter();
    writer.WriteRow(Header);
    var i := 0;
    while i < |times|
      invariant 0 <= i <= |times|
      invariant |writer.rows| == i + 1 && writer.rows[0] == Header
      invariant forall k :: 0 <= k < i ==> writer.rows[k + 1] == [times[k], temps[k]]
    {
      writer.WriteRow([times[i], temps[i]]);
      i := i + 1;
    }
    assert writer.rows == [Header] + ZipRows(times, temps);
    r := Ok(Output(processedPath, writer.rows));
  }
}
