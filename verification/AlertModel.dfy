/**
 * The alert manager's state as a value, the indivisible steps it takes, and what holds over whole
 * runs of steps. Windows are the deques themselves; the classes that maintain them incrementally
 * are in SlidingWindow.
 */
module AlertModel {
  import opened Basics
  import opened SlidingWindow

  datatype Metric = FailureRate | P99Duration | StorageSize

  datatype Rule = Rule(metric: Metric, threshold: real, windowMs: nat)

  datatype Status = Idle | Firing

  datatype AlertState = AlertState(status: Status, currentValue: real, lastFiredAt: Option<int>, lastResolvedAt: Option<int>)

  datatype Notice = Fired(rule: nat, value: real, at: int) | Resolved(rule: nat, value: real, at: int)

  datatype Manager = Manager(
    rules: seq<Rule>,
    states: seq<AlertState>,
    outcomes: seq<seq<Outcome>>,            // the CounterWindow deque of each failure-rate rule
    observations: seq<seq<Observation>>,    // the HistogramWindow deque of each duration rule
    latestStorageSize: real,
    dispatched: seq<Notice>)
  {
    ghost predicate Valid() {
      |states| == |outcomes| == |observations| == |rules|
    }
  }

  function Repeat<T>(n: nat, x: T): (r: seq<T>)
    ensures |r| == n && forall i :: 0 <= i < n ==> r[i] == x
  {
    seq(n, _ => x)
  }

  function Initial(rules: seq<Rule>): (m: Manager)
    ensures m.Valid()
  {
    var n := |rules|;
    Manager(rules, Repeat(n, AlertState(Idle, 0.0, None, None)), Repeat(n, []), Repeat(n, []), 0.0, [])
  }

  // ---------- steps ----------

  /**
   * What the code does without yielding to a listener: a handler reads the clock, a window records, the
   * storage size is assigned, or a rule is evaluated up to and including the start of its dispatch.
   */
  datatype Step =
    | ReadClock(at: int)
    | RecordOutcome(rule: nat, at: int, failed: bool)
    | RecordDuration(rule: nat, at: int, duration: real)
    | ReportSize(size: real)
    | Evaluate(rule: nat, at: int)

  function AfterRecordOutcome(m: Manager, i: nat, at: int, failed: bool): Manager
    requires m.Valid() && i < |m.rules|
  {
    m.(outcomes := m.outcomes[i := Pruned(m.outcomes[i] + [Outcome(at, failed)], OutcomeTime, at - m.rules[i].windowMs)])
  }

  function AfterRecordDuration(m: Manager, i: nat, at: int, duration: real): Manager
    requires m.Valid() && i < |m.rules|
  {
    m.(observations := m.observations[i :=
      Pruned(m.observations[i] + [Observation(at, duration)], ObservationTime, at - m.rules[i].windowMs)])
  }

  /** The windows after the prune that reading the metric performs. */
  function PrunedFor(m: Manager, i: nat, at: int): (r: Manager)
    requires m.Valid() && i < |m.rules|
    ensures r.Valid() && r.rules == m.rules && r.states == m.states && r.dispatched == m.dispatched
  {
    var cutoff := at - m.rules[i].windowMs;
    match m.rules[i].metric
    case FailureRate => m.(outcomes := m.outcomes[i := Pruned(m.outcomes[i], OutcomeTime, cutoff)])
    case P99Duration => m.(observations := m.observations[i := Pruned(m.observations[i], ObservationTime, cutoff)])
    case StorageSize => m
  }

  function MetricValue(m: Manager, i: nat): real
    requires m.Valid() && i < |m.rules|
  {
    match m.rules[i].metric
    case FailureRate => RateOf(m.outcomes[i])
    case P99Duration => PercentileOf(ValuesOf(m.observations[i]), 99.0)
    case StorageSize => m.latestStorageSize
  }

  // ---------- the parts of `#evaluate` ----------

  /** The metric is read, which prunes the window, and stored. */
  function Read(m: Manager, i: nat, at: int): (r: Manager)
    requires m.Valid() && i < |m.rules|
    ensures r.Valid() && r.rules == m.rules && r.dispatched == m.dispatched
  {
    var pruned := PrunedFor(m, i, at);
    pruned.(states := pruned.states[i := pruned.states[i].(currentValue := MetricValue(pruned, i))])
  }

  /** The event that the comparison with the threshold calls for. */
  function NoticeFor(m: Manager, i: nat, at: int): (notice: Option<Notice>)
    requires m.Valid() && i < |m.rules|
    ensures notice.Some? ==> notice.value.rule == i
  {
    var state := m.states[i];
    if state.currentValue >= m.rules[i].threshold && state.status == Idle then Some(Fired(i, state.currentValue, at))
    else if state.currentValue < m.rules[i].threshold && state.status == Firing then Some(Resolved(i, state.currentValue, at))
    else None
  }

  /** The status and its timestamp are set. */
  function Mark(m: Manager, notice: Notice): (r: Manager)
    requires m.Valid() && notice.rule < |m.rules|
    ensures r.Valid() && r.rules == m.rules && r.dispatched == m.dispatched
  {
    var state := m.states[notice.rule];
    m.(states := m.states[notice.rule :=
      if notice.Fired? then state.(status := Firing, lastFiredAt := Some(notice.at))
      else state.(status := Idle, lastResolvedAt := Some(notice.at))])
  }

  /** The event reaches the listeners. */
  function Send(m: Manager, notice: Notice): Manager {
    m.(dispatched := m.dispatched + [notice])
  }

  function AfterEvaluate(m: Manager, i: nat, at: int): (r: Manager)
    requires m.Valid() && i < |m.rules|
    ensures r.Valid() && r.rules == m.rules
  {
    var read := Read(m, i, at);
    match NoticeFor(read, i, at)
    case None => read
    case Some(notice) => Send(Mark(read, notice), notice)
  }

  predicate Applies(step: Step, rules: seq<Rule>) {
    match step
    case ReadClock(_) => true
    case RecordOutcome(i, _, _) => i < |rules| && rules[i].metric == FailureRate
    case RecordDuration(i, _, _) => i < |rules| && rules[i].metric == P99Duration
    case ReportSize(_) => true
    case Evaluate(i, _) => i < |rules|
  }

  function Apply(m: Manager, step: Step): (r: Manager)
    requires m.Valid() && Applies(step, m.rules)
    ensures r.Valid() && r.rules == m.rules
  {
    match step
    case ReadClock(_) => m
    case RecordOutcome(i, at, failed) => AfterRecordOutcome(m, i, at, failed)
    case RecordDuration(i, at, duration) => AfterRecordDuration(m, i, at, duration)
    case ReportSize(size) => m.(latestStorageSize := size)
    case Evaluate(i, at) => AfterEvaluate(m, i, at)
  }

  predicate AllApply(steps: seq<Step>, rules: seq<Rule>) {
    forall i :: 0 <= i < |steps| ==> Applies(steps[i], rules)
  }

  function Run(m: Manager, steps: seq<Step>): (r: Manager)
    requires m.Valid() && AllApply(steps, m.rules)
    ensures r.Valid() && r.rules == m.rules
  {
    if steps == [] then m else Apply(Run(m, steps[..|steps| - 1]), steps[|steps| - 1])
  }

  lemma {:induction false} RunSplit(m: Manager, a: seq<Step>, b: seq<Step>)
    requires m.Valid() && AllApply(a, m.rules) && AllApply(b, m.rules)
    ensures AllApply(a + b, m.rules) && Run(m, a + b) == Run(Run(m, a), b)
  {
    hide Apply;
    if b == [] {
      assert a + b == a;
    } else {
      var front := b[..|b| - 1];
      RunSplit(m, a, front);
      assert (a + b)[..|a + b| - 1] == a + front;
    }
  }

  lemma RunAppend(m: Manager, steps: seq<Step>, step: Step)
    requires m.Valid() && AllApply(steps, m.rules) && Applies(step, m.rules)
    ensures AllApply(steps + [step], m.rules) && Run(m, steps + [step]) == Apply(Run(m, steps), step)
  {
    hide Apply;
    assert (steps + [step])[..|steps|] == steps;
  }

  // ---------- the trace of one rule ----------

  function NoticesFor(dispatched: seq<Notice>, i: nat): seq<Notice> {
    if dispatched == [] then []
    else
      var last := dispatched[|dispatched| - 1];
      NoticesFor(dispatched[..|dispatched| - 1], i) + if last.rule == i then [last] else []
  }

  /** Fired, resolved, fired, and so on. */
  predicate Alternates(notices: seq<Notice>) {
    forall k :: 0 <= k < |notices| ==> (notices[k].Fired? <==> k % 2 == 0)
  }

  function LastOf(notices: seq<Notice>, fired: bool): Option<int> {
    if notices == [] then None
    else
      var last := notices[|notices| - 1];
      if last.Fired? == fired then Some(last.at) else LastOf(notices[..|notices| - 1], fired)
  }

  function CountOf(notices: seq<Notice>, fired: bool): nat {
    if notices == [] then 0
    else CountOf(notices[..|notices| - 1], fired) + if notices[|notices| - 1].Fired? == fired then 1 else 0
  }

  /** What the trace of a rule says about its state. */
  ghost predicate TraceAgrees(m: Manager, i: nat)
    requires m.Valid() && i < |m.rules|
  {
    var notices := NoticesFor(m.dispatched, i);
    && Alternates(notices)
    && CountOf(notices, true) == CountOf(notices, false) + (if m.states[i].status == Firing then 1 else 0)
    && |notices| == CountOf(notices, true) + CountOf(notices, false)
    && m.states[i].lastFiredAt == LastOf(notices, true)
    && m.states[i].lastResolvedAt == LastOf(notices, false)
  }

  lemma NoticesAppend(dispatched: seq<Notice>, last: Notice, i: nat)
    ensures NoticesFor(dispatched + [last], i) == NoticesFor(dispatched, i) + if last.rule == i then [last] else []
  {
    assert (dispatched + [last])[..|dispatched|] == dispatched;
  }

  lemma AppendToTrace(notices: seq<Notice>, last: Notice)
    ensures LastOf(notices + [last], last.Fired?) == Some(last.at)
    ensures LastOf(notices + [last], !last.Fired?) == LastOf(notices, !last.Fired?)
    ensures CountOf(notices + [last], last.Fired?) == CountOf(notices, last.Fired?) + 1
    ensures CountOf(notices + [last], !last.Fired?) == CountOf(notices, !last.Fired?)
  {
    assert (notices + [last])[..|notices|] == notices;
  }

  /** What the status says the next notice of a rule must be. */
  ghost predicate Due(m: Manager, notice: Notice)
    requires m.Valid() && notice.rule < |m.rules|
  {
    notice.Fired? <==> m.states[notice.rule].status == Idle
  }

  /** Marking and sending the notice that is due keeps every rule's trace in step with its status. */
  lemma DueKeepsTrace(m: Manager, notice: Notice, j: nat)
    requires m.Valid() && notice.rule < |m.rules| && j < |m.rules| && Due(m, notice) && TraceAgrees(m, j)
    ensures TraceAgrees(Send(Mark(m, notice), notice), j)
  {
    hide NoticesFor, LastOf, CountOf;
    NoticesAppend(m.dispatched, notice, j);
    var notices := NoticesFor(m.dispatched, j);
    assert notices + [] == notices;
    AppendToTrace(notices, notice);
  }

  lemma ReadKeepsTrace(m: Manager, i: nat, at: int, j: nat)
    requires m.Valid() && i < |m.rules| && j < |m.rules| && TraceAgrees(m, j)
    ensures TraceAgrees(Read(m, i, at), j)
  {
    hide MetricValue, PrunedFor, NoticesFor, Alternates, LastOf, CountOf;
  }

  lemma EvaluateKeepsTrace(m: Manager, i: nat, at: int, j: nat)
    requires m.Valid() && i < |m.rules| && j < |m.rules| && TraceAgrees(m, j)
    ensures TraceAgrees(AfterEvaluate(m, i, at), j)
  {
    hide TraceAgrees, Read, Mark, Send;
    var read := Read(m, i, at);
    ReadKeepsTrace(m, i, at, j);
    match NoticeFor(read, i, at)
    case None =>
    case Some(notice) =>
      DueKeepsTrace(read, notice, j);
  }

  /** Over every run, in any interleaving of steps, the trace of each rule alternates and tells its status. */
  lemma {:induction false} TraceAlternates(rules: seq<Rule>, steps: seq<Step>, i: nat)
    requires AllApply(steps, rules) && i < |rules|
    ensures TraceAgrees(Run(Initial(rules), steps), i)
  {
    hide TraceAgrees, AfterEvaluate;
    if steps == [] {
      EmptyTraceAgrees(rules, i);
    } else {
      var front, last := steps[..|steps| - 1], steps[|steps| - 1];
      TraceAlternates(rules, front, i);
      var m := Run(Initial(rules), front);
      match last
      case Evaluate(j, at) =>
        EvaluateKeepsTrace(m, j, at, i);
      case _ =>
        SameTrace(m, Apply(m, last), i);
    }
  }

  lemma EmptyTraceAgrees(rules: seq<Rule>, i: nat)
    requires i < |rules|
    ensures TraceAgrees(Initial(rules), i)
  {
  }

  lemma SameTrace(m: Manager, next: Manager, i: nat)
    requires m.Valid() && next.Valid() && i < |m.rules| && next.rules == m.rules
    requires next.states == m.states && next.dispatched == m.dispatched && TraceAgrees(m, i)
    ensures TraceAgrees(next, i)
  {
  }

  lemma RunOne(m: Manager, step: Step)
    requires m.Valid() && Applies(step, m.rules)
    ensures AllApply([step], m.rules) && Run(m, [step]) == Apply(m, step)
  {
    hide Apply;
    assert [step][..0] == [];
    assert Run(m, []) == m;
  }
}
