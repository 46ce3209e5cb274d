/** The agent's recovery handler and its metrics (agent/index.ts, agent/metrics.ts). Handlers are
    asynchronous: each started recovery is a task that first executes and then reports, and
    events and completions come in any order. */
module Recovery {
  import opened Text

  datatype ErrorRecord = ErrorRecord(timestamp: int, step: string, error: string)

  datatype RecoveryMetrics = RecoveryMetrics(
    totalRecoveries: nat,
    successfulRecoveries: nat,
    failedRecoveries: nat,
    totalResponseTimeMs: int,
    errors: seq<ErrorRecord>,
    startTime: int)

  datatype MetricsSummary = MetricsSummary(
    totalRecoveries: nat,
    successfulRecoveries: nat,
    failedRecoveries: nat,
    successRate: real,
    avgResponseTimeMs: real,
    uptimeSeconds: int,
    errorCount: nat,
    recentErrors: seq<ErrorRecord>)

  const MAX_ERRORS: nat := 100
  const RECENT_ERRORS: nat := 10

  /** The last n elements, or all of them. */
  function Last<T>(s: seq<T>, n: nat): seq<T> {
    if |s| <= n then s else s[|s| - n..]
  }

  lemma LastExactly<T>(s: seq<T>, n: nat, r: seq<T>)
    ensures Last(s, n) == r <==> |r| == (if |s| <= n then |s| else n) && exists front :: s == front + r
  {
    var front := s[..|s| - |Last(s, n)|];
    assert s == front + Last(s, n);
    if |r| == |Last(s, n)| && exists front :: s == front + r {
      var f :| s == f + r;
      assert r == s[|s| - |r|..];
    }
  }

  function Started(m: RecoveryMetrics): RecoveryMetrics {
    m.(totalRecoveries := m.totalRecoveries + 1)
  }

  function Succeeded(m: RecoveryMetrics, durationMs: int): RecoveryMetrics {
    m.(successfulRecoveries := m.successfulRecoveries + 1, totalResponseTimeMs := m.totalResponseTimeMs + durationMs)
  }

  function Failed(m: RecoveryMetrics, e: ErrorRecord, durationMs: int): RecoveryMetrics {
    m.(failedRecoveries := m.failedRecoveries + 1,
    totalResponseTimeMs := m.totalResponseTimeMs + durationMs,
    errors := Last(m.errors + [e], MAX_ERRORS))
  }

  /** A share in percent; 0 of nothing. */
  function Rate(part: nat, whole: nat): (r: real)
    ensures whole > 0 ==> r * whole as real == 100.0 * part as real
    ensures part <= whole ==> 0.0 <= r <= 100.0
  {
    if whole == 0 then 0.0
    else
      var q := part as real / whole as real;
      RateIsPercentage(part, whole, q);
      q * 100.0
  }

  lemma RateIsPercentage(part: nat, whole: nat, q: real)
    requires whole > 0 && q == part as real / whole as real
    ensures q * 100.0 * whole as real == 100.0 * part as real
    ensures part <= whole ==> 0.0 <= q * 100.0 <= 100.0
  {
    assert q * whole as real == part as real;
    assert q * 100.0 * whole as real == 100.0 * (q * whole as real);
    if part <= whole {
      assert 0.0 <= q <= 1.0;
    }
  }

  function Mean(sum: int, count: nat): (r: real)
    ensures count > 0 ==> r * count as real == sum as real
  {
    if count == 0 then 0.0 else sum as real / count as real
  }

  function Summary(m: RecoveryMetrics, now: int): MetricsSummary {
    MetricsSummary(
      m.totalRecoveries, m.successfulRecoveries, m.failedRecoveries,
      Rate(m.successfulRecoveries, m.totalRecoveries),
      Mean(m.totalResponseTimeMs, m.totalRecoveries),
      (now - m.startTime) / 1000,
      |m.errors|,
      Last(m.errors, RECENT_ERRORS))
  }

  class MetricsCollector {
    var metrics: RecoveryMetrics

    constructor (now: int)
      ensures metrics == RecoveryMetrics(0, 0, 0, 0, [], now)
    {
      metrics := RecoveryMetrics(0, 0, 0, 0, [], now);
    }

    method RecordRecoveryStart()
      modifies this
      ensures metrics == Started(old(metrics))
    {
      metrics := metrics.(totalRecoveries := metrics.totalRecoveries + 1);
    }

    method RecordRecoverySuccess(durationMs: int)
      modifies this
      ensures metrics == Succeeded(old(metrics), durationMs)
    {
      metrics := metrics.(successfulRecoveries := metrics.successfulRecoveries + 1);
      metrics := metrics.(totalResponseTimeMs := metrics.totalResponseTimeMs + durationMs);
    }

    method RecordRecoveryFailure(step: string, error: string, durationMs: int, now: int)
      modifies this
      ensures metrics == Failed(old(metrics), ErrorRecord(now, step, error), durationMs)
    {
      metrics := metrics.(failedRecoveries := metrics.failedRecoveries + 1);
      metrics := metrics.(totalResponseTimeMs := metrics.totalResponseTimeMs + durationMs);
      metrics := metrics.(errors := metrics.errors + [ErrorRecord(now, step, error)]);
      if |metrics.errors| > MAX_ERRORS {
        metrics := metrics.(errors := metrics.errors[|metrics.errors| - MAX_ERRORS..]);
      }
    }

    method GetMetrics(now: int) returns (r: MetricsSummary)
      ensures r == Summary(metrics, now)
    {
      r := Summary(metrics, now);
    }
  }

  // ------------------------------------------------------------------- the agent

  datatype Phase = Executing | Reporting

  datatype Outcome = Success | Failure(step: string, error: string) | Threw(error: string)

  datatype Event =
    | StatusUpdated(isSolvent: bool, task: nat)
    | Completes(task: nat, outcome: Outcome, durationMs: int, now: int)
    | Reported(task: nat)

  /** failures is the history of all failures, which the program does not keep. */
  datatype AgentState = AgentState(
    recovering: bool,
    tasks: map<nat, Phase>,
    metrics: RecoveryMetrics,
    failures: seq<ErrorRecord>)

  function ErrorOf(outcome: Outcome, now: int): ErrorRecord
    requires !outcome.Success?
  {
    match outcome
    case Failure(step, error) => ErrorRecord(now, step, error)
    case Threw(error) => ErrorRecord(now, "exception", error)
  }

  /** One event; one that does not fit the state of its task does nothing. */
  function React(st: AgentState, e: Event): AgentState {
    match e
    case StatusUpdated(isSolvent, task) =>
      if !isSolvent && !st.recovering && task !in st.tasks then
        st.(recovering := true, tasks := st.tasks[task := Executing], metrics := Started(st.metrics))
      else st
    case Completes(task, outcome, durationMs, now) =>
      if task in st.tasks && st.tasks[task].Executing? then
        var reporting := st.(tasks := st.tasks[task := Reporting]);
        if outcome.Success? then reporting.(metrics := Succeeded(st.metrics, durationMs))
        else
          var error := ErrorOf(outcome, now);
          reporting.(metrics := Failed(st.metrics, error, durationMs), failures := st.failures + [error])
      else st
    case Reported(task) =>
      if task in st.tasks && st.tasks[task].Reporting? then st.(recovering := false, tasks := st.tasks - {task})
      else st
  }

  function Run(st: AgentState, events: seq<Event>): AgentState
    decreases events
  {
    if events == [] then st else Run(React(st, events[0]), events[1..])
  }

  function InitialState(now: int): AgentState {
    AgentState(false, map[], RecoveryMetrics(0, 0, 0, 0, [], now), [])
  }

  predicate Executes(st: AgentState, task: nat) {
    task in st.tasks && st.tasks[task].Executing?
  }

  ghost function InExecution(st: AgentState): nat {
    |set t | t in st.tasks && Executes(st, t)|
  }

  /** At most one task is in flight, exactly while the flag is set; every started recovery
      succeeded, failed or still executes; the stored errors are the last hundred failures. */
  ghost predicate Sound(st: AgentState) {
    && |st.tasks| == (if st.recovering then 1 else 0)
    && st.metrics.totalRecoveries
       == st.metrics.successfulRecoveries + st.metrics.failedRecoveries + InExecution(st)
    && st.metrics.failedRecoveries == |st.failures|
    && st.metrics.errors == Last(st.failures, MAX_ERRORS)
  }

  lemma OnlyTask(st: AgentState, task: nat)
    requires Sound(st) && task in st.tasks
    ensures st.recovering && st.tasks.Keys == {task}
    ensures InExecution(st) == if st.tasks[task].Executing? then 1 else 0
  {
    var others := st.tasks.Keys - {task};
    assert st.tasks.Keys == others + {task};
    assert |others| == 0;
    var executing := set t | t in st.tasks && Executes(st, t);
    assert executing == if st.tasks[task].Executing? then {task} else {};
  }

  lemma NoTask(st: AgentState)
    requires |st.tasks| == 0
    ensures st.tasks.Keys == {} && InExecution(st) == 0
  {
    var executing := set t | t in st.tasks && Executes(st, t);
    assert |st.tasks.Keys| == 0;
    assert executing <= st.tasks.Keys;
  }

  lemma ReactKeepsSound(st: AgentState, e: Event)
    requires Sound(st)
    ensures Sound(React(st, e))
  {
    var st' := React(st, e);
    match e
    case StatusUpdated(isSolvent, task) =>
      if st' != st {
        NoTask(st);
        assert (set t | t in st'.tasks && Executes(st', t)) == {task};
      }
    case Completes(task, outcome, durationMs, now) =>
      if st' != st {
        OnlyTask(st, task);
        assert st'.tasks.Keys == {task};
        assert (set t | t in st'.tasks && Executes(st', t)) == {};
      }
    case Reported(task) =>
      if st' != st {
        OnlyTask(st, task);
        assert st'.tasks.Keys == {};
        NoTask(st');
      }
  }

  /** Single flight and conservation, over any interleaving of events. */
  lemma {:induction false} RunIsSound(st: AgentState, events: seq<Event>)
    requires Sound(st)
    ensures Sound(Run(st, events))
    decreases events
  {
    if events != [] {
      ReactKeepsSound(st, events[0]);
      RunIsSound(React(st, events[0]), events[1..]);
    }
  }

  lemma AgentIsSound(now: int, events: seq<Event>)
    ensures Sound(Run(InitialState(now), events))
  {
    var st := InitialState(now);
    NoTask(st);
    RunIsSound(st, events);
  }

  lemma LastOfLast<T>(s: seq<T>, m: nat, n: nat)
    requires m <= n
    ensures Last(Last(s, n), m) == Last(s, m)
  {
  }

  /** What is reported when a recovery completes: nothing is in flight in the figures, the rate is
      a percentage, and the recent errors are the last ten failures of all. */
  lemma {:induction false} ReportsAreConsistent(now: int, events: seq<Event>, task: nat, outcome: Outcome,
                                               durationMs: int, at: int, later: int)
    requires Executes(Run(InitialState(now), events), task)
    ensures ReportHolds(React(Run(InitialState(now), events), Completes(task, outcome, durationMs, at)), later)
  {
    AgentIsSound(now, events);
    CompletionReports(Run(InitialState(now), events), task, outcome, durationMs, at, later);
  }

  lemma CompletionReports(before: AgentState, task: nat, outcome: Outcome, durationMs: int, at: int, later: int)
    requires Sound(before) && Executes(before, task)
    ensures ReportHolds(React(before, Completes(task, outcome, durationMs, at)), later)
  {
    var after := React(before, Completes(task, outcome, durationMs, at));
    ReactKeepsSound(before, Completes(task, outcome, durationMs, at));
    OnlyTask(before, task);
    OnlyTask(after, task);
    assert after.metrics.totalRecoveries == before.metrics.totalRecoveries;
    SoundReports(after, later);
  }

  lemma SoundReports(st: AgentState, now: int)
    requires Sound(st) && InExecution(st) == 0 && st.metrics.totalRecoveries > 0
    ensures ReportHolds(st, now)
  {
    LastOfLast(st.failures, RECENT_ERRORS, MAX_ERRORS);
  }

  ghost predicate ReportHolds(st: AgentState, now: int) {
    var r := Summary(st.metrics, now);
    && r.totalRecoveries == r.successfulRecoveries + r.failedRecoveries && r.totalRecoveries > 0
    && 0.0 <= r.successRate <= 100.0
    && r.successRate * r.totalRecoveries as real == 100.0 * r.successfulRecoveries as real
    && r.avgResponseTimeMs * r.totalRecoveries as real == st.metrics.totalResponseTimeMs as real
    && 1000 * r.uptimeSeconds <= now - st.metrics.startTime < 1000 * (r.uptimeSeconds + 1)
    && r.recentErrors == Last(st.failures, 10)
    && r.errorCount == if |st.failures| <= 100 then |st.failures| else 100
  }

  // ----------------------------------------------------------- the history of a run

  /** A completion that a run took account of. */
  datatype Completion = Completion(outcome: Outcome, durationMs: int, at: int)

  /** The completions of a run, in order: those of tasks that were executing. */
  ghost function Completions(st: AgentState, events: seq<Event>): seq<Completion>
    decreases events
  {
    if events == [] then []
    else
      var e := events[0];
      var rest := Completions(React(st, e), events[1..]);
      if e.Completes? && Executes(st, e.task) then [Completion(e.outcome, e.durationMs, e.now)] + rest else rest
  }

  ghost function Successes(cs: seq<Completion>): nat {
    if cs == [] then 0 else (if cs[0].outcome.Success? then 1 else 0) + Successes(cs[1..])
  }

  ghost function TotalTime(cs: seq<Completion>): int {
    if cs == [] then 0 else cs[0].durationMs + TotalTime(cs[1..])
  }

  /** The failures among them: a failed recovery under the step that failed, an exception under that
      word, each with its message and the time of its completion. */
  ghost function FailuresIn(cs: seq<Completion>): seq<ErrorRecord> {
    if cs == [] then []
    else
      var rest := FailuresIn(cs[1..]);
      match cs[0].outcome
      case Success => rest
      case Failure(step, error) => [ErrorRecord(cs[0].at, step, error)] + rest
      case Threw(error) => [ErrorRecord(cs[0].at, "exception", error)] + rest
  }

  lemma {:induction false} RunAddsHistory(st: AgentState, events: seq<Event>)
    ensures var after, cs := Run(st, events), Completions(st, events);
            && after.metrics.successfulRecoveries == st.metrics.successfulRecoveries + Successes(cs)
            && after.metrics.totalResponseTimeMs == st.metrics.totalResponseTimeMs + TotalTime(cs)
            && after.failures == st.failures + FailuresIn(cs)
            && after.metrics.startTime == st.metrics.startTime
    decreases events
  {
    if events != [] {
      var next := React(st, events[0]);
      var rest := Completions(next, events[1..]);
      RunAddsHistory(next, events[1..]);
      if events[0].Completes? && Executes(st, events[0].task) {
        var c := Completion(events[0].outcome, events[0].durationMs, events[0].now);
        assert ([c] + rest)[1..] == rest;
        if !c.outcome.Success? {
          var error := ErrorOf(c.outcome, c.at);
          assert (st.failures + [error]) + FailuresIn(rest) == st.failures + ([error] + FailuresIn(rest));
        }
      }
    }
  }

  /** What the figures are of, over any interleaving of events: the completions so far. Successes and
      failures are counted, their durations added up, and the failures kept as the history of errors. */
  lemma FiguresAreOfHistory(now: int, events: seq<Event>)
    ensures var st, cs := Run(InitialState(now), events), Completions(InitialState(now), events);
            && st.metrics.successfulRecoveries == Successes(cs)
            && st.metrics.failedRecoveries == |FailuresIn(cs)|
            && st.metrics.totalResponseTimeMs == TotalTime(cs)
            && |st.metrics.errors| == (if |FailuresIn(cs)| <= 100 then |FailuresIn(cs)| else 100)
            && (exists older :: FailuresIn(cs) == older + st.metrics.errors)
            && st.metrics.startTime == now
  {
    RunAddsHistory(InitialState(now), events);
    AgentIsSound(now, events);
    var failures := FailuresIn(Completions(InitialState(now), events));
    assert [] + failures == failures;
    LastExactly(failures, 100, Run(InitialState(now), events).metrics.errors);
  }

  /** When a recovery starts, in any state a run can reach: at a status that is not solvent while no
      task is in flight, and at no other status. Once a task has reported, none is. */
  lemma StartsExactly(now: int, events: seq<Event>, isSolvent: bool, task: nat)
    ensures var st := Run(InitialState(now), events);
            && (task !in st.tasks ==>
                  (Executes(React(st, StatusUpdated(isSolvent, task)), task) <==> !isSolvent && st.tasks == map[]))
            && (task in st.tasks ==> React(st, StatusUpdated(isSolvent, task)) == st)
            && (task in st.tasks && st.tasks[task].Reporting? ==> React(st, Reported(task)).tasks == map[])
  {
    var st := Run(InitialState(now), events);
    AgentIsSound(now, events);
    assert st.recovering <==> st.tasks != map[];
    if task in st.tasks {
      OnlyTask(st, task);
      assert st.tasks - {task} == map[];
    }
  }

  // -------------------------------------------------------------- the imperative form

  /** The handler with its flag and its collector. */
  class Agent {
    const collector: MetricsCollector
    var recovering: bool
    var tasks: map<nat, Phase>
    ghost var failures: seq<ErrorRecord>

    ghost function Abstract(): AgentState
      reads this, collector
    {
      AgentState(recovering, tasks, collector.metrics, failures)
    }

    constructor (now: int)
      ensures fresh(collector) && Abstract() == InitialState(now)
    {
      collector := new MetricsCollector(now);
      recovering, tasks, failures := false, map[], [];
    }

    method OnStatus(isSolvent: bool, task: nat)
      requires task !in tasks
      modifies this, collector
      ensures Abstract() == React(old(Abstract()), StatusUpdated(isSolvent, task))
    {
      if !isSolvent && !recovering {
        recovering := true;
        collector.RecordRecoveryStart();
        tasks := tasks[task := Executing];
      }
    }

    /** The continuation of a task after its recovery: record, then report. */
    method OnCompletion(task: nat, outcome: Outcome, durationMs: int, now: int) returns (report: MetricsSummary)
      requires task in tasks && tasks[task].Executing?
      modifies this, collector
      ensures Abstract() == React(old(Abstract()), Completes(task, outcome, durationMs, now))
      ensures report == Summary(collector.metrics, now)
    {
      tasks := tasks[task := Reporting];
      match outcome {
        case Success =>
          collector.RecordRecoverySuccess(durationMs);
        case Failure(step, error) =>
          collector.RecordRecoveryFailure(step, error, durationMs, now);
          failures := failures + [ErrorRecord(now, step, error)];
        case Threw(error) =>
          collector.RecordRecoveryFailure("exception", error, durationMs, now);
          failures := failures + [ErrorRecord(now, "exception", error)];
      }
      report := collector.GetMetrics(now);
    }

    method OnReported(task: nat)
      requires task in tasks && tasks[task].Reporting?
      modifies this, collector
      ensures Abstract() == React(old(Abstract()), Reported(task))
    {
      recovering := false;
      tasks := tasks - {task};
    }
  }
}
