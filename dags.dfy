/**
 * Static Airflow DAG definitions: tasks, the dependency edges that the `>>`
 * operator declares, and the retry settings each task inherits from the DAG's
 * default_args.  Task identities are a type parameter so that every DAG can
 * name its own tasks.
 */
module Dags {
  import opened Wrappers

  /** default_args: owner, retries and retry_delay (in minutes). */
  datatype DefaultArgs = DefaultArgs(owner: string, retries: nat, retryDelayMinutes: nat)

  /** A task declaration with the retry settings it passes itself; None inherits from default_args. */
  datatype TaskSpec<T> = TaskSpec(task: T, retries: Option<nat>, retryDelayMinutes: Option<nat>)

  datatype Dag<T(==)> = Dag(dagId: string, defaults: DefaultArgs, tasks: seq<TaskSpec<T>>, edges: set<(T, T)>)

  /** Retries a task actually runs with. */
  function EffectiveRetries<T(==)>(d: Dag<T>, s: TaskSpec<T>): nat
  {
    match s.retries
    case Some(n) => n
    case None => d.defaults.retries
  }

  /** Delay between attempts a task actually runs with, in minutes. */
  function EffectiveRetryDelay<T(==)>(d: Dag<T>, s: TaskSpec<T>): nat
  {
    match s.retryDelayMinutes
    case Some(n) => n
    case None => d.defaults.retryDelayMinutes
  }

  /** The edges `a >> b >> c >> ...` declares: each task before the next. */
  function Chain<T(==)>(ts: seq<T>): (edges: set<(T, T)>)
    ensures forall i :: 0 <= i < |ts| - 1 ==> (ts[i], ts[i + 1]) in edges
  {
    if |ts| < 2 then {} else {(ts[0], ts[1])} + Chain(ts[1..])
  }

  /** A chain declares nothing but its consecutive pairs. */
  lemma {:induction false} ChainOnlyConsecutive<T>(ts: seq<T>, e: (T, T))
    requires e in Chain(ts)
    ensures exists i :: 0 <= i < |ts| - 1 && e == (ts[i], ts[i + 1])
  {
    if e != (ts[0], ts[1]) {
      ChainOnlyConsecutive(ts[1..], e);
      var i :| 0 <= i < |ts| - 2 && e == (ts[1..][i], ts[1..][i + 1]);
      assert e == (ts[i + 1], ts[i + 2]);
    }
  }

  /** The edges `a >> [b, c, ...]` declares: `a` before each listed task. */
  function FanOut<T(==,!new)>(src: T, targets: seq<T>): (edges: set<(T, T)>)
    ensures forall e :: e in edges <==> e.0 == src && e.1 in targets
  {
    set t | t in targets :: (src, t)
  }

  /** The direct upstream tasks of `t`. */
  function Predecessors<T(==)>(edges: set<(T, T)>, t: T): set<T>
  {
    set e | e in edges && e.1 == t :: e.0
  }

  /** Consecutive tasks of `p` are joined by edges. */
  ghost predicate IsPath<T>(edges: set<(T, T)>, p: seq<T>)
  {
    forall i :: 0 <= i < |p| - 1 ==> (p[i], p[i + 1]) in edges
  }

  /** `b` transitively depends on `a`: a path of at least one edge leads from `a` to `b`. */
  ghost predicate Reaches<T(!new)>(edges: set<(T, T)>, a: T, b: T)
  {
    exists p :: IsPath(edges, p) && |p| >= 2 && p[0] == a && p[|p| - 1] == b
  }

  /** No task transitively depends on itself. */
  ghost predicate Acyclic<T(!new)>(edges: set<(T, T)>)
  {
    forall a :: !Reaches(edges, a, a)
  }

  /** Every edge goes from a lower rank to a higher one. */
  predicate RankIncreases<T(==)>(edges: set<(T, T)>, rank: T -> nat)
  {
    forall e :: e in edges ==> rank(e.0) < rank(e.1)
  }

  /** Along a path of edges that raise the rank, the rank strictly rises from each task to every later one. */
  lemma {:induction false} RankRisesAlongPath<T>(edges: set<(T, T)>, rank: T -> nat, p: seq<T>)
    requires RankIncreases(edges, rank)
    requires IsPath(edges, p) && |p| >= 2
    ensures rank(p[0]) < rank(p[|p| - 1])
    decreases |p|
  {
    assert (p[0], p[1]) in edges;
    if |p| > 2 {
      assert IsPath(edges, p[1..]);
      RankRisesAlongPath(edges, rank, p[1..]);
    }
  }

  /** A rank that every edge raises rules out every cycle. */
  lemma RankedIsAcyclic<T(!new)>(edges: set<(T, T)>, rank: T -> nat)
    requires RankIncreases(edges, rank)
    ensures Acyclic(edges)
  {
    forall a ensures !Reaches(edges, a, a) {
      if Reaches(edges, a, a) {
        var p :| IsPath(edges, p) && |p| >= 2 && p[0] == a && p[|p| - 1] == a;
        RankRisesAlongPath(edges, rank, p);
        assert false;
      }
    }
  }

  /** A task with no outgoing edge is not upstream of anything. */
  lemma SinkReachesNothing<T(!new)>(edges: set<(T, T)>, a: T, b: T)
    requires forall e :: e in edges ==> e.0 != a
    ensures !Reaches(edges, a, b)
  {
    forall p | IsPath(edges, p) && |p| >= 2
      ensures p[0] != a
    {
      assert (p[0], p[1]) in edges;
    }
  }

  /**
   * `started` lists tasks in the order they started, and every direct upstream
   * task of a started task appears before it.  This is a consequence of
   * Airflow's default trigger rule (all_success), which no task here overrides:
   * an upstream task that succeeded must have started earlier.  Successes
   * themselves are not recorded.
   */
  ghost predicate StartsAfterUpstream<T(!new)>(edges: set<(T, T)>, started: seq<T>)
  {
    forall j, a :: 0 <= j < |started| && (a, started[j]) in edges ==> a in started[..j]
  }

  /** Transitive dependencies are honoured too: whatever a started task depends on started strictly before it. */
  lemma {:induction false} DependenciesStartFirst<T(!new)>(edges: set<(T, T)>, started: seq<T>, p: seq<T>, j: nat)
    requires StartsAfterUpstream(edges, started)
    requires IsPath(edges, p) && |p| >= 2
    requires j < |started| && started[j] == p[|p| - 1]
    ensures p[0] in started[..j]
    decreases |p|
  {
    var n := |p|;
    assert (p[n - 2], p[n - 1]) in edges;
    assert p[n - 2] in started[..j];
    if n > 2 {
      var j' :| 0 <= j' < j && started[j'] == p[n - 2];
      assert IsPath(edges, p[..n - 1]);
      DependenciesStartFirst(edges, started, p[..n - 1], j');
      assert started[..j'] == started[..j][..j'];
    }
  }
}
