# airflow-mini-etl: a Dafny model of the weather ETL core

This project models the parts of the mini ETL pipeline that hold statable logic:

- **the weather payload flattener** (`transform_raw_to_csv`): a schema guard on the
  decoded Open-Meteo response, a guard that the hourly `time` and `temperature_2m`
  series have the same length, and the serialisation of a header row followed by one
  `(time, temperature)` row per hour, in input order;
- **the processed-batch validator** (`validate_processed_csv`): fail-fast checks for a
  missing file, a file under 10 bytes, fewer than 200 data rows, and then, row by row in
  order, an empty `time`, an empty `temperature_2m`, an unparsable temperature and a
  temperature outside [-50, 60];
- **the two static DAG definitions**: the `weather_energy_daily_mart` task graph with
  its three fail-fast SQL checks (temperature in [-40, 45], no duplicate `(ts, region)`,
  exactly 2160 energy rows), and the `api_weather_etl` chain
  `extract >> transform >> load_validate` with the file paths that link its tasks.

Files, one module each:

| file | module | what it holds |
|---|---|---|
| `wrappers.dfy` | `Wrappers` | `Option` and `Result`, standing for Python's `None` and exceptions |
| `floats.dfy` | `Floats` | a parsed double (finite, infinite or NaN) and how Python and PostgreSQL compare it |
| `csv.dfy` | `Csv` | rows of fields, `csv.DictReader` as a function on rows, a lower bound on written text length |
| `transform.dfy` | `Transform` | the payload, the guards, the specification function `Transform` and the method `TransformRawToCsv` that writes rows through a `CsvWriter` object |
| `load.dfy` | `Load` | the file as seen by the loader, the per-row checks, the specification function `Validate` and the method `ValidateProcessedCsv` with its row loop |
| `dags.dfy` | `Dags` | task specs with inherited retry settings, the edges that `a >> b >> c` and `a >> [b, c]` declare, paths, acyclicity, and the meaning of a dependency for task start order |
| `mart.dfy` | `WeatherEnergyMart` | the mart DAG as a constant, its ordering and acyclicity lemmas, and the three gates as predicates over staged rows |
| `api.dfy` | `ApiWeatherEtl` | the API DAG as a constant, its path links, and the end-to-end property of transform followed by load_validate |

Modelling choices:

- The decoded payload is a map from top-level key to a section, and a section maps a
  series name to its values. Each value is already in the text form `csv.writer` writes
  for it, so a JSON `null` temperature is the empty field.
- `float()` is a parameter `parse: string -> Option<Float>`; `None` is Python's
  `ValueError`. The `Float` type keeps infinities and NaN, because the comparisons
  `temp < -50 or temp > 60` are both false for NaN. So the loader accepts a `nan`
  temperature (`Load.NaNPassesRangeCheck`). PostgreSQL sorts NaN above every number, so
  the mart's range check rejects it.
- The file the loader reads is a record: whether it exists, its size in bytes, and its
  lines as CSV rows. `Csv.DictRows` treats the first line as field names and skips lines
  with no fields. Each other line becomes a record that pairs names with values the way
  `dict(zip(...))` does. Every name past the end of a short line is then set to `None`,
  as DictReader's `restval` does; a field value is therefore an `Option<string>`.
- Every error becomes a constructor of an error datatype. The loader's per-row errors
  also carry the index of the failing row. Python's message does not include that index;
  the model keeps it so that "the first failing row decides" can be stated.
- Each DAG's tasks are an enumeration, and a function gives each one its `task_id`
  string. Its edges are built with `Chain` and `FanOut`, one call per `>>` statement of
  the source.

Facts about the repository's code that the model keeps:

- The validator checks only `time` and `temperature_2m` in each row. It checks no region
  field.
- No task in either DAG sets a `trigger_rule`, so the report tasks have the default rule.
- No module under etl/ or dags/ implements an upsert sink or a default-region fallback.

## Model

| member | source | states |
|---|---|---|
| `Transform.ZipRows` | etl/transform.py:38-39 | zipping yields min(len) rows, and row i is `[times[i], temps[i]]`, so input order is kept |
| `Transform.Transform` | etl/transform.py:16-41 | the result is KeyError exactly when hourly/time/temperature_2m is missing. It is a length mismatch, carrying both lengths, exactly when the schema holds and the lengths differ, so the schema guard wins. On success it returns the path it was given, unnormalised (see Left out), with `len(times)+1` rows: the header first, then row i+1 = `[times[i], temps[i]]` |
| `Transform.TransformRawToCsv` | etl/transform.py:6-41 | the step-by-step writer loop produces exactly the outcome `Transform` specifies |
| `Transform.CsvWriter.WriteRow` | etl/transform.py:37-39 | `writerow` appends one row after those already written |
| `Csv.ZipDictKeys` | etl/load.py:13-14 | `dict(zip(fieldnames, row))` holds exactly the field names that have a field on the line |
| `Csv.ZipDictValues` | etl/load.py:13-14 | with distinct field names, `dict(zip(...))` maps each name to the field in its own position |
| `Csv.DictRecordKeys` | etl/load.py:13-14 | every header name is a key of every DictReader record, whatever the length of the line |
| `Csv.DictRecordValues` | etl/load.py:13-14 | with distinct names, a name within the line has its field, and a name past the end of a short line has `None` |
| `Csv.PaddingOverridesEarlierValue` | etl/load.py:13-14 | under the header `time,temperature_2m,time` the line `t1,5` gives `time = None`: the padding overrides the earlier field |
| `Csv.RecordsOf` | etl/load.py:13-14 | there are never more records than data lines. When no line is empty, there is exactly one record per line, in order, each the padded DictReader record under the header |
| `Csv.DictRows` | etl/load.py:13-14 | the first line gives the field names and is not a record (definition; its properties are in `RecordsOf` and `ApiWeatherEtl.ReadBackRecords`) |
| `Load.FirstFault` | etl/load.py:19-27 | finds nothing iff every row passes. Otherwise it names a failing row, its fault, and that every row before it passes |
| `Load.RowFaultOf` | etl/load.py:19-27 | one row's checks in source order: time present, temperature present, parsable, in range (definition; its properties are in `Load.RowCheckOrder`) |
| `Load.Validate` | etl/load.py:4-29 | the outcome of the validator as a function of the file (definition; its properties are in the Load lemmas below and `Load.ValidateProcessedCsv`) |
| `Load.ValidateProcessedCsv` | etl/load.py:4-29 | the guards and the row loop produce exactly the outcome `Validate` specifies |
| `Load.MissingFileFirst` | etl/load.py:7-8 | a nonexistent file is FileNotFound, whatever else holds |
| `Load.SmallFileRejected` | etl/load.py:9-10 | an existing file under 10 bytes is rejected before any row is read |
| `Load.TooFewRowsRejected` | etl/load.py:16-17 | fewer than 200 records reject the batch with that count, whatever the rows contain |
| `Load.OneBadRowFailsBatch` | etl/load.py:19-27 | any single failing row fails the whole batch. Once the earlier guards pass, the reported row is at or before it |
| `Load.FirstFailingRowDecides` | etl/load.py:19-27 | a BadRow(i, f) error means row i fails with f and every earlier row passes |
| `Load.RowCheckOrder` | etl/load.py:20-27 | within a row, a missing time is reported before a missing temperature. A row passes iff both fields are present and the temperature parses and is in range |
| `Load.ShortRowUnderRepeatedHeaderFails` | etl/load.py:13-21 | a short line under a header that repeats `time` fails with MissingTime, because DictReader pads the later `time` with None |
| `Load.RangeBounds` | etl/load.py:25-27 | a finite temperature passes iff -50 <= t <= 60, so both bounds pass. Both infinities fail |
| `Load.NaNPassesRangeCheck` | etl/load.py:25-27 | NaN passes the range check, since neither comparison holds for it |
| `Load.ValidateSucceedsIff` | etl/load.py:16-29 | success iff the file exists, has at least 10 bytes and at least 200 records, and every record passes. On success `rows = len(rows)` |
| `Dags.Chain` | dags/weather_energy_daily_mart.py:106-109 | `a >> b >> c` puts an edge between every pair of consecutive tasks |
| `Dags.ChainOnlyConsecutive` | dags/weather_energy_daily_mart.py:106-109 | a chain declares no edge other than its consecutive pairs |
| `Dags.FanOut` | dags/weather_energy_daily_mart.py:110 | `a >> [b, c, d]` declares exactly the edges from a to each listed task |
| `Dags.RankRisesAlongPath` | dags/weather_energy_daily_mart.py:106-110 | if every edge raises a rank, the rank rises strictly along every path |
| `Dags.RankedIsAcyclic` | dags/weather_energy_daily_mart.py:106-110 | edges that all raise a rank form no cycle |
| `Dags.SinkReachesNothing` | dags/weather_energy_daily_mart.py:110 | a task with no outgoing edge has no dependents |
| `Dags.DependenciesStartFirst` | dags/weather_energy_daily_mart.py:106-110 | suppose each task starts only after its direct upstream tasks. Then every transitive upstream task started strictly earlier |
| `WeatherEnergyMart.TaskIdsDistinct` | dags/weather_energy_daily_mart.py:31-103 | the nine task_ids are pairwise distinct |
| `WeatherEnergyMart.MartEdgesExplicit` | dags/weather_energy_daily_mart.py:106-110 | the three `>>` statements declare exactly these eight edges |
| `WeatherEnergyMart.MartAcyclic` | dags/weather_energy_daily_mart.py:106-110 | the mart graph has no cycle |
| `WeatherEnergyMart.MartPipelineOrder` | dags/weather_energy_daily_mart.py:106-109 | the chain is load_staging_weather → generate_energy_hourly → load_staging_energy → build_mart_daily, and then build_mart_daily → validate_report → quality_checks_report |
| `WeatherEnergyMart.ChecksFanOut` | dags/weather_energy_daily_mart.py:110 | each check's only direct predecessor is quality_checks_report, and no check has an outgoing edge |
| `WeatherEnergyMart.ChecksIndependent` | dags/weather_energy_daily_mart.py:110 | no check depends on another check, directly or transitively |
| `WeatherEnergyMart.ChecksFollowBuildAndReports` | dags/weather_energy_daily_mart.py:106-110 | every check transitively depends on build_mart_daily, validate_report and quality_checks_report |
| `WeatherEnergyMart.ChecksStartAfterBuild` | dags/weather_energy_daily_mart.py:108-110 | in a run that honours the edges, the mart build and both reports start before any check |
| `WeatherEnergyMart.MartRetries` | dags/weather_energy_daily_mart.py:8-12 | every task runs with retries = 2 and retry_delay = 2 minutes, taken from default_args |
| `WeatherEnergyMart.WeatherRangeGateIff` | dags/weather_energy_daily_mart.py:78-82 | `COUNT(*) = 0` holds iff no row is below -40 or above 45 |
| `WeatherEnergyMart.WeatherRangeBounds` | dags/weather_energy_daily_mart.py:78-82 | a finite temperature passes iff -40 <= t <= 45, so both bounds pass. NULL passes and NaN fails |
| `WeatherEnergyMart.GateRangeWithinLoaderRange` | dags/weather_energy_daily_mart.py:81 | a temperature that passes the mart gate also passes the loader's [-50, 60] check (etl/load.py line 26) |
| `WeatherEnergyMart.NoDuplicatesGateIff` | dags/weather_energy_daily_mart.py:89-92 | `COUNT(DISTINCT (ts, region))` never exceeds `COUNT(*)`, and the two are equal iff no two rows share a key |
| `WeatherEnergyMart.OneDuplicateFailsGate` | dags/weather_energy_daily_mart.py:89-92 | one pair of rows sharing `(ts, region)` fails the gate |
| `WeatherEnergyMart.RowcountGate` | dags/weather_energy_daily_mart.py:99-102 | passes iff the staged energy table has exactly 2160 rows (definition) |
| `ApiWeatherEtl.ApiChain` | dags/api_etl_dag.py:47 | the edges are exactly extract → transform and transform → load_validate, with no cycle |
| `ApiWeatherEtl.ApiRetries` | dags/api_etl_dag.py:10-14 | every task runs with retries = 3 and retry_delay = 5 minutes, taken from default_args |
| `ApiWeatherEtl.PathsLinkTasks` | dags/api_etl_dag.py:16-45 | transform reads the RAW_PATH that extract writes. load_validate reads the PROCESSED_PATH that transform writes. The two paths differ |
| `ApiWeatherEtl.ApiTasksDistinct` | dags/api_etl_dag.py:29-45 | the three task_ids are distinct, and each task runs a different Python callable |
| `ApiWeatherEtl.HeaderRecord` | etl/transform.py:37-39 | a written `[time, temp]` row reads back, under the written header, as `{time: t, temperature_2m: temp}` with no padding |
| `ApiWeatherEtl.ReadBackRecords` | etl/load.py:12-14 | reading back transform's output gives one record per hour, in order. The header is not counted |
| `ApiWeatherEtl.EndToEnd` | dags/api_etl_dag.py:35-45 | take a payload with n >= 200 hours, every time non-empty, and every temperature present, parsable and in [-50, 60]. transform succeeds and returns PROCESSED_PATH, and load_validate on that file succeeds with rows = n |

## Left out

- etl/extract.py is not part of this model. It is an HTTP request, wall-clock timestamps
  and a file write. The payload it writes is an input of `Transform.Transform`.
- File-system effects (`mkdir`, `exists`, `stat`, reading and writing text) are inputs:
  the payload, and the loader's `ProcessedFile` record (existence flag, byte size, rows).
- JSON decoding is not modelled. The payload is given already decoded, and its `hourly`
  entry is assumed to be an object of arrays. For other shapes Python would raise
  TypeError or test substrings; the model does not represent those shapes.
- CSV quoting is not modelled. The model assumes the rows `csv.writer` writes are the
  rows `csv.reader` reads back. DictReader's handling of a line with more fields than the
  header (the extra values under the key `None`) is not modelled either.
- The written file's byte size is not computed. `EndToEnd` requires it to be at least
  `Csv.MinTextLength` of the rows. Quoting and UTF-8 only make a file longer, so this
  lower bound is enough to clear the 10-byte guard.
- Text-to-number conversion by `float()` is the abstract `parse` parameter. Rounding
  decimal text to a double is not modelled.
- Airflow's runtime is not modelled: scheduling (`@daily`, `catchup`), performing
  retries with delays, and concurrent execution of the fan-out. Only the configured
  retry values are. `Dags.StartsAfterUpstream` states only a consequence of the default
  `all_success` rule, which no task here overrides: each direct upstream task started
  earlier. Which tasks succeeded is not recorded.
- "Always-run" report tasks are not modelled, because no trigger rule is set in the
  source. A downstream stage gated on all checks is not modelled either, because
  nothing follows the checks.
- The SQL files under sql/ that the PostgresOperator tasks read are outside this model,
  so their effects are not modelled: the staging loads, synthetic energy generation, the
  mart build and the reports.
- The mart gates use PostgreSQL's rules for NULL temperatures and NaN. `(ts, region)`
  keys are taken to be non-NULL.
- Transform.Transform: returns `processedPath` unchanged, where the source returns
  `str(Path(processed_path))`. pathlib's normalisation is not modelled: it collapses `.`
  components and repeated slashes, drops a trailing slash, and turns `""` into `"."`.
  The path is assumed to be normalised already. That holds for `PROCESSED_PATH`, so
  `ApiWeatherEtl.EndToEnd` is unaffected.
- Error message texts are not modelled. Each error is a datatype constructor carrying
  the values its message interpolates.
