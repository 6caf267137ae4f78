/** What pruned windows say against what the full history says, over every run of steps. */
module AlertHistory {
  import opened SlidingWindow
  import opened WindowRuns
  import opened AlertModel

  // ---------- what the steps alone say ----------

  /** What the steps do to the window of a failure-rate rule. */
  ghost function OutcomeOperations(steps: seq<Step>, i: nat): seq<Operation<Outcome>> {
    if steps == [] then []
    else
      var before, last := OutcomeOperations(steps[..|steps| - 1], i), steps[|steps| - 1];
      if last.RecordOutcome? && last.rule == i then before + [Push(Outcome(last.at, last.failed))]
      else if last.Evaluate? && last.rule == i then before + [Prune(last.at)]
      else before
  }

  /** What the steps do to the window of a duration rule. */
  ghost function DurationOperations(steps: seq<Step>, i: nat): seq<Operation<Observation>> {
    if steps == [] then []
    else
      var before, last := DurationOperations(steps[..|steps| - 1], i), steps[|steps| - 1];
      if last.RecordDuration? && last.rule == i then before + [Push(Observation(last.at, last.duration))]
      else if last.Evaluate? && last.rule == i then before + [Prune(last.at)]
      else before
  }

  /** Everything ever recorded for a failure-rate rule. */
  ghost function OutcomeHistory(steps: seq<Step>, i: nat): seq<Outcome> {
    Pushed(OutcomeOperations(steps, i))
  }

  /** Everything ever recorded for a duration rule. */
  ghost function DurationHistory(steps: seq<Step>, i: nat): seq<Observation> {
    Pushed(DurationOperations(steps, i))
  }

  ghost function LastSize(steps: seq<Step>): real {
    if steps == [] then 0.0
    else
      var last := steps[|steps| - 1];
      if last.ReportSize? then last.size else LastSize(steps[..|steps| - 1])
  }

  /** The metric read off the whole history, restricted to the window that ends at `at`. */
  ghost function MetricFromHistory(rules: seq<Rule>, steps: seq<Step>, i: nat, at: int): real
    requires i < |rules|
  {
    var cutoff := at - rules[i].windowMs;
    match rules[i].metric
    case FailureRate => RateOf(Within(OutcomeHistory(steps, i), OutcomeTime, cutoff))
    case P99Duration => PercentileOf(ValuesOf(Within(DurationHistory(steps, i), ObservationTime, cutoff)), 99.0)
    case StorageSize => LastSize(steps)
  }

  /** The value at the rule's last evaluation, 0 before the first. */
  ghost function ValueFromHistory(rules: seq<Rule>, steps: seq<Step>, i: nat): real
    requires i < |rules|
  {
    if steps == [] then 0.0
    else
      var front, last := steps[..|steps| - 1], steps[|steps| - 1];
      if last.Evaluate? && last.rule == i then MetricFromHistory(rules, front, i, last.at)
      else ValueFromHistory(rules, front, i)
  }

  ghost predicate EverEvaluated(steps: seq<Step>, i: nat) {
    exists k :: 0 <= k < |steps| && steps[k].Evaluate? && steps[k].rule == i
  }

  /** The status follows from the last value alone. */
  ghost function StatusFromHistory(rules: seq<Rule>, steps: seq<Step>, i: nat): Status
    requires i < |rules|
  {
    if EverEvaluated(steps, i) && ValueFromHistory(rules, steps, i) >= rules[i].threshold then Firing else Idle
  }

  // ---------- times ----------

  predicate Concerns(step: Step, i: nat) {
    (step.RecordOutcome? || step.RecordDuration? || step.Evaluate?) && step.rule == i
  }

  ghost predicate NotAfter(steps: seq<Step>, i: nat, now: int) {
    forall k :: 0 <= k < |steps| && Concerns(steps[k], i) ==> steps[k].at <= now
  }

  /** Whatever was done to a rule before it is evaluated carries no later time than the evaluation. */
  ghost predicate EvaluatedLatest(steps: seq<Step>, i: nat) {
    forall j, k :: 0 <= j < k < |steps| && Concerns(steps[j], i) && steps[k].Evaluate? && steps[k].rule == i
      ==> steps[j].at <= steps[k].at
  }

  /** The times at which one rule is recorded or evaluated do not decrease. */
  ghost predicate ClockNeverGoesBack(steps: seq<Step>, i: nat) {
    forall j, k :: 0 <= j < k < |steps| && Concerns(steps[j], i) && Concerns(steps[k], i) ==> steps[j].at <= steps[k].at
  }

  /** Every prune of the rule's window, so far, met a deque that splits at its cutoff. */
  ghost predicate WindowSplits(rules: seq<Rule>, steps: seq<Step>, i: nat)
    requires i < |rules|
  {
    match rules[i].metric
    case FailureRate => AlwaysSplit(OutcomeOperations(steps, i), OutcomeTime, rules[i].windowMs)
    case P99Duration => AlwaysSplit(DurationOperations(steps, i), ObservationTime, rules[i].windowMs)
    case StorageSize => true
  }

  /** The deque the rule's next prune will meet splits at that prune's cutoff. */
  ghost predicate WindowSplitsAt(m: Manager, i: nat, at: int)
    requires m.Valid() && i < |m.rules|
  {
    var cutoff := at - m.rules[i].windowMs;
    match m.rules[i].metric
    case FailureRate => SplitAt(m.outcomes[i], OutcomeTime, cutoff)
    case P99Duration => SplitAt(m.observations[i], ObservationTime, cutoff)
    case StorageSize => true
  }

  // ---------- the manager's windows are windows ----------

  lemma OutcomeStep(m: Manager, step: Step, i: nat)
    requires m.Valid() && Applies(step, m.rules) && i < |m.rules| && m.rules[i].metric == FailureRate
    ensures var next, cutoff := Apply(m, step).outcomes[i], m.rules[i].windowMs;
            if step.RecordOutcome? && step.rule == i then
              next == Pruned(m.outcomes[i] + [Outcome(step.at, step.failed)], OutcomeTime, step.at - cutoff)
            else if step.Evaluate? && step.rule == i then next == Pruned(m.outcomes[i], OutcomeTime, step.at - cutoff)
            else next == m.outcomes[i]
  {
    hide Pruned, MetricValue;
  }

  lemma DurationStep(m: Manager, step: Step, i: nat)
    requires m.Valid() && Applies(step, m.rules) && i < |m.rules| && m.rules[i].metric == P99Duration
    ensures var next, cutoff := Apply(m, step).observations[i], m.rules[i].windowMs;
            if step.RecordDuration? && step.rule == i then
              next == Pruned(m.observations[i] + [Observation(step.at, step.duration)], ObservationTime, step.at - cutoff)
            else if step.Evaluate? && step.rule == i then next == Pruned(m.observations[i], ObservationTime, step.at - cutoff)
            else next == m.observations[i]
  {
    hide Pruned, MetricValue;
  }

  lemma DequeNext<T>(ops: seq<Operation<T>>, op: Operation<T>, stamp: T -> int, windowMs: int)
    ensures Deque(ops + [op], stamp, windowMs) == Pruned(Facing(Deque(ops, stamp, windowMs), op), stamp, TimeOf(op, stamp) - windowMs)
  {
    hide Deque, Pruned, Facing, TimeOf;
    assert (ops + [op])[..|ops|] == ops;
    LastOperation(ops + [op], stamp, windowMs);
  }

  lemma {:induction false} OutcomesAreDeque(rules: seq<Rule>, steps: seq<Step>, i: nat)
    requires AllApply(steps, rules) && i < |rules| && rules[i].metric == FailureRate
    ensures Run(Initial(rules), steps).outcomes[i] == Deque(OutcomeOperations(steps, i), OutcomeTime, rules[i].windowMs)
  {
    hide Pruned, Apply, Deque;
    if steps == [] {
      NoOperation(OutcomeTime, rules[i].windowMs);
    } else {
      var front, last := steps[..|steps| - 1], steps[|steps| - 1];
      OutcomesAreDeque(rules, front, i);
      OutcomeStep(Run(Initial(rules), front), last, i);
      if last.RecordOutcome? && last.rule == i {
        DequeNext(OutcomeOperations(front, i), Push(Outcome(last.at, last.failed)), OutcomeTime, rules[i].windowMs);
      } else if last.Evaluate? && last.rule == i {
        DequeNext(OutcomeOperations(front, i), Prune(last.at), OutcomeTime, rules[i].windowMs);
      }
    }
  }

  lemma {:induction false} ObservationsAreDeque(rules: seq<Rule>, steps: seq<Step>, i: nat)
    requires AllApply(steps, rules) && i < |rules| && rules[i].metric == P99Duration
    ensures Run(Initial(rules), steps).observations[i] == Deque(DurationOperations(steps, i), ObservationTime, rules[i].windowMs)
  {
    hide Pruned, Apply, Deque;
    if steps == [] {
      NoOperation(ObservationTime, rules[i].windowMs);
    } else {
      var front, last := steps[..|steps| - 1], steps[|steps| - 1];
      ObservationsAreDeque(rules, front, i);
      DurationStep(Run(Initial(rules), front), last, i);
      if last.RecordDuration? && last.rule == i {
        DequeNext(DurationOperations(front, i), Push(Observation(last.at, last.duration)), ObservationTime, rules[i].windowMs);
      } else if last.Evaluate? && last.rule == i {
        DequeNext(DurationOperations(front, i), Prune(last.at), ObservationTime, rules[i].windowMs);
      }
    }
  }

  lemma {:induction false} OperationTimes(steps: seq<Step>, i: nat, now: int)
    requires NotAfter(steps, i, now)
    ensures NoneAfter(OutcomeOperations(steps, i), OutcomeTime, now)
    ensures NoneAfter(DurationOperations(steps, i), ObservationTime, now)
  {
    if steps == [] {
    } else {
      OperationTimes(steps[..|steps| - 1], i, now);
      assert Concerns(steps[|steps| - 1], i) ==> steps[|steps| - 1].at <= now;
    }
  }

  lemma {:induction false} OperationsOrdered(steps: seq<Step>, i: nat)
    requires ClockNeverGoesBack(steps, i)
    ensures InTimeOrder(OutcomeOperations(steps, i), OutcomeTime)
    ensures InTimeOrder(DurationOperations(steps, i), ObservationTime)
  {
    if steps == [] {
    } else {
      var front, last := steps[..|steps| - 1], steps[|steps| - 1];
      OperationsOrdered(front, i);
      if Concerns(last, i) {
        OperationTimes(front, i, last.at);
      }
    }
  }

  lemma {:induction false} SizeIsLast(rules: seq<Rule>, steps: seq<Step>)
    requires AllApply(steps, rules)
    ensures Run(Initial(rules), steps).latestStorageSize == LastSize(steps)
  {
    hide Pruned, MetricValue;
    if steps == [] {
    } else {
      SizeIsLast(rules, steps[..|steps| - 1]);
    }
  }

  lemma StateKept(m: Manager, step: Step, i: nat)
    requires m.Valid() && Applies(step, m.rules) && i < |m.rules|
    requires !(step.Evaluate? && step.rule == i)
    ensures Apply(m, step).states[i] == m.states[i]
  {
    hide Pruned, MetricValue;
  }

  // ---------- one evaluation ----------

  /** The window that reading the metric leaves behind. */
  ghost predicate ShowsHistory(rules: seq<Rule>, steps: seq<Step>, i: nat, at: int)
    requires AllApply(steps, rules) && i < |rules|
  {
    var shown := PrunedFor(Run(Initial(rules), steps), i, at);
    var cutoff := at - rules[i].windowMs;
    match rules[i].metric
    case FailureRate => shown.outcomes[i] == Within(OutcomeHistory(steps, i), OutcomeTime, cutoff)
    case P99Duration => shown.observations[i] == Within(DurationHistory(steps, i), ObservationTime, cutoff)
    case StorageSize => shown.latestStorageSize == LastSize(steps)
  }

  /** No entry that the rule's window has dropped so far is within the window that ends at `at`. */
  ghost predicate NothingLost(rules: seq<Rule>, steps: seq<Step>, i: nat, at: int)
    requires i < |rules|
  {
    var windowMs := rules[i].windowMs;
    match rules[i].metric
    case FailureRate => AllOld(Dropped(OutcomeOperations(steps, i), OutcomeTime, windowMs), OutcomeTime, at - windowMs)
    case P99Duration => AllOld(Dropped(DurationOperations(steps, i), ObservationTime, windowMs), ObservationTime, at - windowMs)
    case StorageSize => true
  }

  /** What can be told before the evaluation: its deque splits at its cutoff, and nothing within its window is gone. */
  ghost predicate ReadyFor(rules: seq<Rule>, steps: seq<Step>, i: nat, at: int)
    requires AllApply(steps, rules) && i < |rules|
  {
    WindowSplitsAt(Run(Initial(rules), steps), i, at) && NothingLost(rules, steps, i, at)
  }

  /**
   * After any run of steps, an evaluation reads exactly the part of the full history that lies within the
   * window if and only if the deque it finds splits at its cutoff and no dropped entry is within the window.
   */
  lemma EvaluationReadsExactly(rules: seq<Rule>, steps: seq<Step>, i: nat, at: int)
    requires AllApply(steps, rules) && i < |rules|
    ensures ShowsHistory(rules, steps, i, at) <==> ReadyFor(rules, steps, i, at)
  {
    hide Pruned, Within, Run, SplitAt, Deque, Dropped, AllOld, LastSize, OutcomeOperations, DurationOperations;
    var windowMs := rules[i].windowMs;
    match rules[i].metric
    case FailureRate =>
      OutcomesAreDeque(rules, steps, i);
      PruneShowsHistory(OutcomeOperations(steps, i), OutcomeTime, windowMs, at - windowMs);
    case P99Duration =>
      ObservationsAreDeque(rules, steps, i);
      PruneShowsHistory(DurationOperations(steps, i), ObservationTime, windowMs, at - windowMs);
    case StorageSize =>
      SizeIsLast(rules, steps);
  }

  lemma ShownValue(rules: seq<Rule>, steps: seq<Step>, i: nat, at: int)
    requires AllApply(steps, rules) && i < |rules| && ShowsHistory(rules, steps, i, at)
    ensures MetricValue(PrunedFor(Run(Initial(rules), steps), i, at), i) == MetricFromHistory(rules, steps, i, at)
  {
    hide Run, Within, PercentileOf, RateOf, ValuesOf, LastSize, PrunedFor, OutcomeHistory, DurationHistory;
    assert PrunedFor(Run(Initial(rules), steps), i, at).rules == rules;
  }

  // ---------- whole runs ----------

  lemma {:induction false} EarlierSplits(rules: seq<Rule>, steps: seq<Step>, i: nat)
    requires AllApply(steps, rules) && i < |rules| && steps != [] && WindowSplits(rules, steps, i)
    ensures WindowSplits(rules, steps[..|steps| - 1], i)
    ensures steps[|steps| - 1].Evaluate? && steps[|steps| - 1].rule == i ==>
      WindowSplitsAt(Run(Initial(rules), steps[..|steps| - 1]), i, steps[|steps| - 1].at)
  {
    hide Pruned, SplitAt, AlwaysSplit, Deque, Run;
    var front, last, windowMs := steps[..|steps| - 1], steps[|steps| - 1], rules[i].windowMs;
    match rules[i].metric
    case FailureRate =>
      OutcomesAreDeque(rules, front, i);
      if OutcomeOperations(steps, i) != OutcomeOperations(front, i) {
        var ops := OutcomeOperations(front, i);
        assert OutcomeOperations(steps, i)[..|ops|] == ops;
        LastOperation(OutcomeOperations(steps, i), OutcomeTime, windowMs);
      }
    case P99Duration =>
      ObservationsAreDeque(rules, front, i);
      if DurationOperations(steps, i) != DurationOperations(front, i) {
        var ops := DurationOperations(front, i);
        assert DurationOperations(steps, i)[..|ops|] == ops;
        LastOperation(DurationOperations(steps, i), ObservationTime, windowMs);
      }
    case StorageSize =>
  }

  /** The rule's last evaluation, if any, was ready. */
  ghost predicate LastReady(rules: seq<Rule>, steps: seq<Step>, i: nat)
    requires AllApply(steps, rules) && i < |rules|
  {
    steps == [] ||
    var front, last := steps[..|steps| - 1], steps[|steps| - 1];
    if last.Evaluate? && last.rule == i then ReadyFor(rules, front, i, last.at) else LastReady(rules, front, i)
  }

  /** The rule's last evaluation, if any, read exactly the history within its window. */
  ghost predicate LastShowedHistory(rules: seq<Rule>, steps: seq<Step>, i: nat)
    requires AllApply(steps, rules) && i < |rules|
  {
    steps == [] ||
    var front, last := steps[..|steps| - 1], steps[|steps| - 1];
    if last.Evaluate? && last.rule == i then ShowsHistory(rules, front, i, last.at) else LastShowedHistory(rules, front, i)
  }

  /**
   * Over every run of steps, a rule's last evaluation read exactly the history within its window if and only
   * if it was ready, and then the rule's value and status are those of the full history.
   */
  lemma {:induction false} ManagerRefinesHistory(rules: seq<Rule>, steps: seq<Step>, i: nat)
    requires AllApply(steps, rules) && i < |rules|
    ensures LastShowedHistory(rules, steps, i) <==> LastReady(rules, steps, i)
    ensures LastReady(rules, steps, i) ==>
      var state := Run(Initial(rules), steps).states[i];
      && state.currentValue == ValueFromHistory(rules, steps, i)
      && state.status == StatusFromHistory(rules, steps, i)
  {
    hide MetricFromHistory, Read, ReadyFor, ShowsHistory, AfterEvaluate;
    if steps == [] {
    } else {
      var front, last := steps[..|steps| - 1], steps[|steps| - 1];
      ManagerRefinesHistory(rules, front, i);
      var m := Run(Initial(rules), front);
      if last.Evaluate? && last.rule == i {
        EvaluationReadsExactly(rules, front, i, last.at);
        if ShowsHistory(rules, front, i, last.at) {
          ShownValue(rules, front, i, last.at);
        }
        assert EverEvaluated(steps, i);
        StatusFollowsValue(m, i, last.at);
      } else {
        StateKept(m, last, i);
        EvaluatedBefore(steps, i);
      }
    }
  }

  /** After prunes that all met split deques, and with no later time behind it, an evaluation is ready. */
  lemma {:induction false} SplitsAreReady(rules: seq<Rule>, steps: seq<Step>, i: nat)
    requires AllApply(steps, rules) && i < |rules|
    requires WindowSplits(rules, steps, i) && EvaluatedLatest(steps, i)
    ensures LastReady(rules, steps, i)
  {
    hide WindowSplits, ReadyFor, Run;
    if steps == [] {
    } else {
      var front, last := steps[..|steps| - 1], steps[|steps| - 1];
      EarlierSplits(rules, steps, i);
      SplitsAreReady(rules, front, i);
      if last.Evaluate? && last.rule == i {
        assert NotAfter(front, i, last.at);
        ReadyAfterSplits(rules, front, i, last.at);
      }
    }
  }

  lemma ReadyAfterSplits(rules: seq<Rule>, steps: seq<Step>, i: nat, at: int)
    requires AllApply(steps, rules) && i < |rules| && WindowSplits(rules, steps, i) && NotAfter(steps, i, at)
    requires WindowSplitsAt(Run(Initial(rules), steps), i, at)
    ensures ReadyFor(rules, steps, i, at)
  {
    hide Pruned, Within, Run, SplitAt, AlwaysSplit, Deque, Dropped, AllOld, NotAfter, OutcomeOperations, DurationOperations;
    OperationTimes(steps, i, at);
    match rules[i].metric
    case FailureRate =>
      OutcomesAreDeque(rules, steps, i);
      SplitPrunesShowHistory(OutcomeOperations(steps, i), OutcomeTime, rules[i].windowMs, at);
    case P99Duration =>
      ObservationsAreDeque(rules, steps, i);
      SplitPrunesShowHistory(DurationOperations(steps, i), ObservationTime, rules[i].windowMs, at);
    case StorageSize =>
  }

  lemma StatusFollowsValue(m: Manager, i: nat, at: int)
    requires m.Valid() && i < |m.rules|
    ensures var state, value := AfterEvaluate(m, i, at).states[i], MetricValue(PrunedFor(m, i, at), i);
            state.currentValue == value && (state.status == Firing <==> value >= m.rules[i].threshold)
  {
    hide MetricValue, PrunedFor;
  }

  lemma EvaluatedBefore(steps: seq<Step>, i: nat)
    requires steps != [] && !(steps[|steps| - 1].Evaluate? && steps[|steps| - 1].rule == i)
    ensures EverEvaluated(steps, i) <==> EverEvaluated(steps[..|steps| - 1], i)
  {
    var front := steps[..|steps| - 1];
    if EverEvaluated(steps, i) {
      var k :| 0 <= k < |steps| && steps[k].Evaluate? && steps[k].rule == i;
      assert front[k] == steps[k];
    }
    if EverEvaluated(front, i) {
      var k :| 0 <= k < |front| && front[k].Evaluate? && front[k].rule == i;
      assert steps[k] == front[k];
    }
  }

  lemma {:induction false} SomeLaterTime(steps: seq<Step>, i: nat) returns (now: int)
    ensures NotAfter(steps, i, now)
  {
    if steps == [] {
      now := 0;
    } else {
      var last := steps[|steps| - 1];
      var before := SomeLaterTime(steps[..|steps| - 1], i);
      now := if Concerns(last, i) && before < last.at then last.at else before;
    }
  }

  /** Times that never go back are enough: the deques are then in order, and always split. */
  lemma OrderedTimesSplit(rules: seq<Rule>, steps: seq<Step>, i: nat)
    requires AllApply(steps, rules) && i < |rules| && ClockNeverGoesBack(steps, i)
    ensures WindowSplits(rules, steps, i) && EvaluatedLatest(steps, i)
  {
    var now := SomeLaterTime(steps, i);
    OperationsOrdered(steps, i);
    OperationTimes(steps, i, now);
    hide OutcomeOperations, DurationOperations, AlwaysSplit, Deque, Chronological, InTimeOrder, NoneAfter;
    match rules[i].metric
    case FailureRate =>
      OrderedAlwaysSplits(OutcomeOperations(steps, i), OutcomeTime, rules[i].windowMs, now);
    case P99Duration =>
      OrderedAlwaysSplits(DurationOperations(steps, i), ObservationTime, rules[i].windowMs, now);
    case StorageSize =>
  }
}
