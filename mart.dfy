/**
 * The weather_energy_daily_mart DAG: staging loads, the mart build, two report
 * tasks, and three fail-fast SQL checks over the staged tables.
 */
module WeatherEnergyMart {
  import opened Wrappers
  import opened Floats
  import opened Dags
  import Load

  datatype MartTask =
    | LoadStagingWeather
    | GenerateEnergyHourly
    | LoadStagingEnergy
    | BuildMartDaily
    | ValidateReport
    | QualityChecksReport
    | CheckWeatherRange
    | CheckEnergyNoDuplicates
    | CheckRowcountExpected

  /** The Airflow task_id of each task. */
  function TaskId(t: MartTask): string
  {
    match t
    case LoadStagingWeather => "load_staging_weather"
    case GenerateEnergyHourly => "generate_energy_hourly"
    case LoadStagingEnergy => "load_staging_energy"
    case BuildMartDaily => "build_mart_daily"
    case ValidateReport => "validate_report"
    case QualityChecksReport => "quality_checks_report"
    case CheckWeatherRange => "check_weather_range"
    case CheckEnergyNoDuplicates => "check_energy_no_duplicates"
    case CheckRowcountExpected => "check_rowcount_expected"
  }

  /** The operator behind a task: a PostgresOperator running a SQL file, or a SQLCheckOperator. */
  datatype Operator = Postgres(sqlFile: string) | SqlCheck

  function OperatorOf(t: MartTask): Operator
  {
    match t
    case LoadStagingWeather => Postgres("load_staging_weather.sql")
    case GenerateEnergyHourly => Postgres("generate_energy_hourly.sql")
    case LoadStagingEnergy => Postgres("load_staging_energy.sql")
    case BuildMartDaily => Postgres("build_mart_energy_daily.sql")
    case ValidateReport => Postgres("validation.sql")
    case QualityChecksReport => Postgres("quality_checks.sql")
    case CheckWeatherRange => SqlCheck
    case CheckEnergyNoDuplicates => SqlCheck
    case CheckRowcountExpected => SqlCheck
  }

  predicate IsCheck(t: MartTask)
  {
    OperatorOf(t).SqlCheck?
  }

  const MartDefaults := DefaultArgs("sinyoung", 2, 2)

  /** The three `>>` statements that close the DAG definition. */
  const MartEdges: set<(MartTask, MartTask)> :=
    Chain([LoadStagingWeather, GenerateEnergyHourly, LoadStagingEnergy, BuildMartDaily])
    + Chain([BuildMartDaily, ValidateReport, QualityChecksReport])
    + FanOut(QualityChecksReport, [CheckWeatherRange, CheckEnergyNoDuplicates, CheckRowcountExpected])

  const MartDag := Dag(
    "weather_energy_daily_mart",
    MartDefaults,
    [ TaskSpec(LoadStagingWeather, None, None), TaskSpec(GenerateEnergyHourly, None, None),
      TaskSpec(LoadStagingEnergy, None, None), TaskSpec(BuildMartDaily, None, None),
      TaskSpec(ValidateReport, None, None), TaskSpec(QualityChecksReport, None, None),
      TaskSpec(CheckWeatherRange, None, None), TaskSpec(CheckEnergyNoDuplicates, None, None),
      TaskSpec(CheckRowcountExpected, None, None) ],
    MartEdges)

  /** Task ids are unique, as Airflow demands. */
  lemma TaskIdsDistinct(a: MartTask, b: MartTask)
    ensures TaskId(a) == TaskId(b) ==> a == b
  {
  }

  /** The declared edges, written out. */
  lemma MartEdgesExplicit()
    ensures MartEdges == {
      (LoadStagingWeather, GenerateEnergyHourly), (GenerateEnergyHourly, LoadStagingEnergy),
      (LoadStagingEnergy, BuildMartDaily), (BuildMartDaily, ValidateReport),
      (ValidateReport, QualityChecksReport), (QualityChecksReport, CheckWeatherRange),
      (QualityChecksReport, CheckEnergyNoDuplicates), (QualityChecksReport, CheckRowcountExpected) }
  {
  }

  /** Position in the order the tasks are declared. */
  function DeclarationRank(t: MartTask): nat
  {
    match t
    case LoadStagingWeather => 0
    case GenerateEnergyHourly => 1
    case LoadStagingEnergy => 2
    case BuildMartDaily => 3
    case ValidateReport => 4
    case QualityChecksReport => 5
    case CheckWeatherRange => 6
    case CheckEnergyNoDuplicates => 7
    case CheckRowcountExpected => 8
  }

  /** Every edge points forward in declaration order, so the graph has no cycle. */
  lemma MartAcyclic()
    ensures Acyclic(MartEdges)
  {
    MartEdgesExplicit();
    RankedIsAcyclic(MartEdges, DeclarationRank);
  }

  /** The staging chain leads to the mart build, and both reports follow it in order. */
  lemma MartPipelineOrder()
    ensures (LoadStagingWeather, GenerateEnergyHourly) in MartEdges
    ensures (GenerateEnergyHourly, LoadStagingEnergy) in MartEdges
    ensures (LoadStagingEnergy, BuildMartDaily) in MartEdges
    ensures (BuildMartDaily, ValidateReport) in MartEdges
    ensures (ValidateReport, QualityChecksReport) in MartEdges
    ensures Reaches(MartEdges, LoadStagingWeather, BuildMartDaily)
  {
  }

  /** Fan-out: each check's only direct upstream task is quality_checks_report, and no check is upstream of anything. */
  lemma ChecksFanOut(c: MartTask)
    requires IsCheck(c)
    ensures Predecessors(MartEdges, c) == {QualityChecksReport}
    ensures forall e :: e in MartEdges ==> e.0 != c
  {
    MartEdgesExplicit();
  }

  /** No check depends on another check, directly or transitively. */
  lemma ChecksIndependent(c: MartTask, d: MartTask)
    requires IsCheck(c) && IsCheck(d)
    ensures !Reaches(MartEdges, c, d)
  {
    ChecksFanOut(c);
    SinkReachesNothing(MartEdges, c, d);
  }

  /** Every check transitively depends on the mart build and on both reports. */
  lemma ChecksFollowBuildAndReports(c: MartTask)
    requires IsCheck(c)
    ensures Reaches(MartEdges, BuildMartDaily, c)
    ensures Reaches(MartEdges, ValidateReport, c)
    ensures Reaches(MartEdges, QualityChecksReport, c)
  {
    MartEdgesExplicit();
    var p := [BuildMartDaily, ValidateReport, QualityChecksReport, c];
    assert IsPath(MartEdges, p);
    assert IsPath(MartEdges, p[1..]) && p[1..][0] == ValidateReport;
    assert IsPath(MartEdges, p[2..]) && p[2..][0] == QualityChecksReport;
  }

  /** In any start order that respects the edges, the mart build and both reports started before every check. */
  lemma ChecksStartAfterBuild(started: seq<MartTask>, j: nat)
    requires StartsAfterUpstream(MartEdges, started)
    requires j < |started| && IsCheck(started[j])
    ensures BuildMartDaily in started[..j]
    ensures ValidateReport in started[..j]
    ensures QualityChecksReport in started[..j]
  {
    MartEdgesExplicit();
    var c := started[j];
    var p := [BuildMartDaily, ValidateReport, QualityChecksReport, c];
    assert IsPath(MartEdges, p);
    DependenciesStartFirst(MartEdges, started, p, j);
    DependenciesStartFirst(MartEdges, started, p[1..], j);
    DependenciesStartFirst(MartEdges, started, p[2..], j);
  }

  /** Every task runs with retries = 2 and retry_delay = 2 minutes, inherited from default_args. */
  lemma MartRetries(s: TaskSpec<MartTask>)
    requires s in MartDag.tasks
    ensures EffectiveRetries(MartDag, s) == 2
    ensures EffectiveRetryDelay(MartDag, s) == 2
  {
  }

  // ---- Fail-fast checks over the staged tables ----

  /** A row of staging.weather_hourly_clean; a NULL temperature is None. */
  datatype WeatherRow = WeatherRow(ts: string, temperature: Option<Float>)

  /** A row of staging.energy_hourly_clean, keyed by (ts, region). */
  datatype EnergyRow = EnergyRow(ts: string, region: string, load: real)

  const GateMinTemperature: real := -40.0
  const GateMaxTemperature: real := 45.0
  const ExpectedEnergyRows: nat := 2160

  /** The WHERE clause `temperature_2m < -40 OR temperature_2m > 45`: NULL matches neither comparison. */
  predicate OutsideGateRange(t: Option<Float>)
  {
    match t
    case None => false
    case Some(f) => Below(f, GateMinTemperature) || SqlAbove(f, GateMaxTemperature)
  }

  /** COUNT(*) of the rows the WHERE clause keeps. */
  function CountOutsideRange(rows: seq<WeatherRow>): nat
  {
    if rows == [] then 0
    else (if OutsideGateRange(rows[0].temperature) then 1 else 0) + CountOutsideRange(rows[1..])
  }

  /** check_weather_range: `SELECT COUNT(*) = 0 ... WHERE temperature_2m < -40 OR temperature_2m > 45`. */
  predicate WeatherRangeGate(rows: seq<WeatherRow>)
  {
    CountOutsideRange(rows) == 0
  }

  /** The range gate passes exactly when no row lies outside [-40, 45]. */
  lemma {:induction false} WeatherRangeGateIff(rows: seq<WeatherRow>)
    ensures WeatherRangeGate(rows) <==> forall i :: 0 <= i < |rows| ==> !OutsideGateRange(rows[i].temperature)
  {
    if rows != [] {
      WeatherRangeGateIff(rows[1..]);
      assert forall i :: 1 <= i < |rows| ==> rows[i] == rows[1..][i - 1];
    }
  }

  /** The bounds themselves pass; NULL passes; NaN and values beyond the bounds fail. */
  lemma WeatherRangeBounds(v: real)
    ensures !OutsideGateRange(Some(Finite(v))) <==> GateMinTemperature <= v <= GateMaxTemperature
    ensures !OutsideGateRange(Some(Finite(-40.0))) && !OutsideGateRange(Some(Finite(45.0)))
    ensures !OutsideGateRange(None)
    ensures OutsideGateRange(Some(NaN))
  {
  }

  /** A temperature that passes the mart gate also passes the loader's own range check. */
  lemma GateRangeWithinLoaderRange(f: Float)
    requires !OutsideGateRange(Some(f))
    ensures Load.InLoaderRange(f)
  {
  }

  function Key(r: EnergyRow): (string, string)
  {
    (r.ts, r.region)
  }

  /** The set of distinct (ts, region) keys. */
  function Keys(rows: seq<EnergyRow>): set<(string, string)>
  {
    if rows == [] then {} else Keys(rows[..|rows| - 1]) + {Key(rows[|rows| - 1])}
  }

  /** check_energy_no_duplicates: `SELECT COUNT(*) = COUNT(DISTINCT (ts, region))`. */
  predicate NoDuplicatesGate(rows: seq<EnergyRow>)
  {
    |rows| == |Keys(rows)|
  }

  /** No two rows share a (ts, region) key. */
  predicate DistinctKeys(rows: seq<EnergyRow>)
  {
    forall i, j :: 0 <= i < j < |rows| ==> Key(rows[i]) != Key(rows[j])
  }

  lemma {:induction false} KeysMembers(rows: seq<EnergyRow>, k: (string, string))
    ensures k in Keys(rows) <==> exists i :: 0 <= i < |rows| && Key(rows[i]) == k
  {
    if rows != [] {
      var n := |rows|;
      KeysMembers(rows[..n - 1], k);
      if k in Keys(rows[..n - 1]) {
        var i :| 0 <= i < n - 1 && Key(rows[..n - 1][i]) == k;
        assert Key(rows[i]) == k;
      }
    }
  }

  /** COUNT(DISTINCT) never exceeds COUNT(*), and they agree exactly when every key is distinct. */
  lemma {:induction false} NoDuplicatesGateIff(rows: seq<EnergyRow>)
    ensures |Keys(rows)| <= |rows|
    ensures NoDuplicatesGate(rows) <==> DistinctKeys(rows)
  {
    if rows != [] {
      var n := |rows|;
      var init := rows[..n - 1];
      var k := Key(rows[n - 1]);
      NoDuplicatesGateIff(init);
      KeysMembers(init, k);
      if k in Keys(init) {
        var i :| 0 <= i < n - 1 && Key(init[i]) == k;
        assert Key(rows[i]) == Key(rows[n - 1]);
      } else {
        assert |Keys(rows)| == |Keys(init)| + 1;
        if DistinctKeys(init) {
          forall i, j | 0 <= i < j < n
            ensures Key(rows[i]) != Key(rows[j])
          {
            if j < n - 1 {
              assert Key(init[i]) != Key(init[j]);
            } else {
              assert Key(init[i]) != k;
            }
          }
        } else {
          var i, j :| 0 <= i < j < n - 1 && Key(init[i]) == Key(init[j]);
          assert Key(rows[i]) == Key(rows[j]);
        }
      }
    }
  }

  /** One shared (ts, region) pair is enough to fail the duplicates gate. */
  lemma OneDuplicateFailsGate(rows: seq<EnergyRow>, i: nat, j: nat)
    requires i < j < |rows| && Key(rows[i]) == Key(rows[j])
    ensures !NoDuplicatesGate(rows)
  {
    NoDuplicatesGateIff(rows);
  }

  /** check_rowcount_expected: `SELECT COUNT(*) = 2160 FROM staging.energy_hourly_clean`. */
  predicate RowcountGate(rows: seq<EnergyRow>)
  {
    |rows| == ExpectedEnergyRows
  }
}
