/**
 * The api_weather_etl DAG: extract >> transform >> load_validate, joined by
 * two shared file paths, and what running transform then load_validate on the
 * same file guarantees.
 */
module ApiWeatherEtl {
  import opened Wrappers
  import opened Csv
  import opened Dags
  import Transform
  import Load

  datatype ApiTask = Extract | TransformStep | LoadValidate

  function TaskId(t: ApiTask): string
  {
    match t
    case Extract => "extract"
    case TransformStep => "transform"
    case LoadValidate => "load_validate"
  }

  const RawPath: string := "data/raw_weather.json"
  const ProcessedPath: string := "data/processed_weather.csv"

  /** A keyword argument passed through op_kwargs. */
  datatype Arg = Text(text: string) | Number(number: real)

  /** The Python callable each PythonOperator runs. */
  function CallableOf(t: ApiTask): string
  {
    match t
    case Extract => "extract_weather"
    case TransformStep => "transform_raw_to_csv"
    case LoadValidate => "validate_processed_csv"
  }

  function KwargsOf(t: ApiTask): map<string, Arg>
  {
    match t
    case Extract => map["raw_path" := Text(RawPath), "latitude" := Number(51.4556), "longitude" := Number(7.0116)]
    case TransformStep => map["raw_path" := Text(RawPath), "processed_path" := Text(ProcessedPath)]
    case LoadValidate => map["processed_path" := Text(ProcessedPath)]
  }

  const ApiDefaults := DefaultArgs("sinyoung", 3, 5)

  /** `extract_task >> transform_task >> load_task`. */
  const ApiEdges: set<(ApiTask, ApiTask)> := Chain([Extract, TransformStep, LoadValidate])

  const ApiDag := Dag(
    "api_weather_etl",
    ApiDefaults,
    [TaskSpec(Extract, None, None), TaskSpec(TransformStep, None, None), TaskSpec(LoadValidate, None, None)],
    ApiEdges)

  /** The three task_ids are distinct, and each task runs a different callable. */
  lemma ApiTasksDistinct(a: ApiTask, b: ApiTask)
    ensures TaskId(a) == TaskId(b) ==> a == b
    ensures CallableOf(a) == CallableOf(b) ==> a == b
  {
  }

  /** The DAG is exactly the chain extract → transform → load_validate, and so has no cycle. */
  lemma ApiChain()
    ensures ApiEdges == {(Extract, TransformStep), (TransformStep, LoadValidate)}
    ensures Acyclic(ApiEdges)
  {
    var c := [Extract, TransformStep, LoadValidate];
    assert c[1..][1..] == [LoadValidate];
    var rank := (t: ApiTask) => match t case Extract => 0 case TransformStep => 1 case LoadValidate => 2;
    RankedIsAcyclic(ApiEdges, rank);
  }

  /** Every task runs with retries = 3 and retry_delay = 5 minutes, inherited from default_args. */
  lemma ApiRetries(s: TaskSpec<ApiTask>)
    requires s in ApiDag.tasks
    ensures EffectiveRetries(ApiDag, s) == 3
    ensures EffectiveRetryDelay(ApiDag, s) == 5
  {
  }

  /** transform reads the raw file extract writes, and load_validate reads the processed file transform writes. */
  lemma PathsLinkTasks()
    ensures KwargsOf(TransformStep)["raw_path"] == KwargsOf(Extract)["raw_path"] == Text(RawPath)
    ensures KwargsOf(LoadValidate)["processed_path"] == KwargsOf(TransformStep)["processed_path"] == Text(ProcessedPath)
    ensures RawPath != ProcessedPath
  {
  }

  /** A written data row read back under the written header. */
  lemma HeaderRecord(t: string, v: string)
    ensures DictRecord(Transform.Header, [t, v]) == map["time" := Some(t), "temperature_2m" := Some(v)]
  {
    var h := Transform.Header;
    assert h[1..] == ["temperature_2m"] && [t, v][1..] == [v];
    assert ["temperature_2m"][1..] == [] && [v][1..] == [];
    assert ZipDict(["temperature_2m"], [v]) == map["temperature_2m" := Some(v)];
    assert ZipDict(h, [t, v]) == map["time" := Some(t)] + map["temperature_2m" := Some(v)];
    assert Padding(h, [t, v]) == map[];
  }

  /** The records csv.DictReader yields from the file transform writes: one per hour, keyed by the header. */
  lemma ReadBackRecords(times: seq<string>, temps: seq<string>)
    requires |times| == |temps|
    ensures |DictRows([Transform.Header] + Transform.ZipRows(times, temps))| == |times|
    ensures forall i :: 0 <= i < |times| ==>
              DictRows([Transform.Header] + Transform.ZipRows(times, temps))[i]
                == map["time" := Some(times[i]), "temperature_2m" := Some(temps[i])]
  {
    var body := Transform.ZipRows(times, temps);
    assert ([Transform.Header] + body)[1..] == body;
    assert forall i :: 0 <= i < |body| ==> body[i] != [];
    forall i | 0 <= i < |times|
      ensures DictRecord(Transform.Header, body[i]) == map["time" := Some(times[i]), "temperature_2m" := Some(temps[i])]
    {
      HeaderRecord(times[i], temps[i]);
    }
  }

  /**
   * transform followed by load_validate on the file it writes: when the
   * payload has at least 200 hours, every time is non-empty and every
   * temperature is present, parses and lies in [-50, 60], validation succeeds
   * and reports exactly that many rows; the header is not counted.
   */
  lemma EndToEnd(p: Transform.Payload, parse: Load.Parser, size: nat)
    requires Transform.HasSchema(p)
    requires |Transform.Times(p)| == |Transform.Temps(p)| >= Load.MinRows
    requires forall i :: 0 <= i < |Transform.Times(p)| ==> Transform.Times(p)[i] != ""
    requires forall i :: 0 <= i < |Transform.Temps(p)| ==>
               && Transform.Temps(p)[i] != ""
               && parse(Transform.Temps(p)[i]).Some?
               && Load.InLoaderRange(parse(Transform.Temps(p)[i]).value)
    requires size >= MinTextLength([Transform.Header] + Transform.ZipRows(Transform.Times(p), Transform.Temps(p)))
    ensures Transform.Transform(p, ProcessedPath).Ok?
    ensures Transform.Transform(p, ProcessedPath).value.path == ProcessedPath
    ensures Load.Validate(Load.ProcessedFile(true, size, Transform.Transform(p, ProcessedPath).value.rows), ProcessedPath, parse)
              == Ok(Load.LoadReport(ProcessedPath, |Transform.Times(p)|))
  {
    var times, temps := Transform.Times(p), Transform.Temps(p);
    var rows := Transform.Transform(p, ProcessedPath).value.rows;
    assert rows == [Transform.Header] + Transform.ZipRows(times, temps);
    assert LineLength(Transform.Header) == 21;
    ReadBackRecords(times, temps);
    var records := DictRows(rows);
    forall k | 0 <= k < |records|
      ensures Load.RowFaultOf(records[k], parse).None?
    {
      assert records[k] == map["time" := Some(times[k]), "temperature_2m" := Some(temps[k])];
    }
    Load.ValidateSucceedsIff(Load.ProcessedFile(true, size, rows), ProcessedPath, parse);
  }
}
