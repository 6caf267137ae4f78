/**
 * Whole calls of the alert manager's entry points, with what listeners do while a notice is being
 * dispatched: they may call the same entry points again, to any depth.
 */
module AlertCalls {
  import opened Basics
  import opened AlertModel

  /** The clock reading of one `#evaluate`, and the calls listeners make if it dispatches a notice. */
  datatype Turn = Turn(at: int, reaction: seq<Call>)

  /** A call of an entry point; `turns[i]` is the turn of rule `i`, should the call evaluate it. */
  datatype Call =
    | WorkflowSettled(recordedAt: int, failed: bool, turns: seq<Turn>)
    | ActivityCompleted(recordedAt: int, duration: real, turns: seq<Turn>)
    | StorageSizeReported(size: real, turns: seq<Turn>)
    | Ticked(turns: seq<Turn>)

  /** There is a turn for each of the `n` rules, here and in every reaction. */
  ghost predicate Fits(call: Call, n: nat) {
    |call.turns| == n && forall i :: 0 <= i < n ==> TurnFits(call.turns[i], n)
  }

  ghost predicate TurnFits(turn: Turn, n: nat) {
    forall k :: 0 <= k < |turn.reaction| ==> Fits(turn.reaction[k], n)
  }

  ghost predicate AllFit(calls: seq<Call>, n: nat) {
    forall k :: 0 <= k < |calls| ==> Fits(calls[k], n)
  }

  /** No listener calls back while the call runs. */
  predicate Quiet(call: Call) {
    forall n :: 0 <= n < |call.turns| ==> call.turns[n].reaction == []
  }

  predicate NoReentry(calls: seq<Call>) {
    forall k :: 0 <= k < |calls| ==> Quiet(calls[k])
  }

  predicate Evaluates(call: Call, rule: Rule) {
    match call
    case WorkflowSettled(_, _, _) => rule.metric == FailureRate
    case ActivityCompleted(_, _, _) => rule.metric == P99Duration
    case StorageSizeReported(_, _) => rule.metric == StorageSize
    case Ticked(_) => true
  }

  /** A handler is attached only when some rule needs it. */
  predicate Attached(rules: seq<Rule>, call: Call) {
    exists i :: 0 <= i < |rules| && Evaluates(call, rules[i])
  }

  /** What a handler does before its loop. */
  function Opening(rules: seq<Rule>, call: Call): (steps: seq<Step>)
    ensures AllApply(steps, rules)
  {
    if !Attached(rules, call) then []
    else match call
      case WorkflowSettled(recordedAt, _, _) => [ReadClock(recordedAt)]
      case ActivityCompleted(recordedAt, _, _) => [ReadClock(recordedAt)]
      case StorageSizeReported(size, _) => [ReportSize(size)]
      case Ticked(_) => []
  }

  /** What the loop does to rule `i` before it evaluates it. */
  function Recording(call: Call, i: nat): seq<Step> {
    match call
    case WorkflowSettled(recordedAt, failed, _) => [RecordOutcome(i, recordedAt, failed)]
    case ActivityCompleted(recordedAt, duration, _) => [RecordDuration(i, recordedAt, duration)]
    case StorageSizeReported(_, _) => []
    case Ticked(_) => []
  }

  lemma RecordingApplies(rules: seq<Rule>, call: Call, i: nat)
    requires i < |rules| && Evaluates(call, rules[i])
    ensures AllApply(Recording(call, i), rules)
  {
  }

  // ---------- the nested execution ----------

  /** The source sets the status and then dispatches; the other order is kept for comparison. */
  datatype Order = StatusFirst | DispatchFirst

  function Handle(order: Order, m: Manager, call: Call): (r: Manager)
    requires m.Valid() && Fits(call, |m.rules|)
    ensures r.Valid() && r.rules == m.rules
    decreases call, |m.rules| + 1
  {
    RunRules(order, m, call, |m.rules|)
  }

  /** The call, as far as the first `n` rules. */
  function RunRules(order: Order, m: Manager, call: Call, n: nat): (r: Manager)
    requires m.Valid() && Fits(call, |m.rules|) && n <= |m.rules|
    ensures r.Valid() && r.rules == m.rules
    decreases call, n
  {
    if n == 0 then Run(m, Opening(m.rules, call))
    else
      var before := RunRules(order, m, call, n - 1);
      if !Evaluates(call, m.rules[n - 1]) then before
      else
        RecordingApplies(m.rules, call, n - 1);
        Evaluated(order, Run(before, Recording(call, n - 1)), n - 1, call.turns[n - 1])
  }

  /** `#evaluate`, with the dispatch running its listeners. */
  function Evaluated(order: Order, m: Manager, i: nat, turn: Turn): (r: Manager)
    requires m.Valid() && i < |m.rules| && TurnFits(turn, |m.rules|)
    ensures r.Valid() && r.rules == m.rules
    decreases turn, |turn.reaction| + 1
  {
    var read := Read(m, i, turn.at);
    match NoticeFor(read, i, turn.at)
    case None => read
    case Some(notice) =>
      match order
      case StatusFirst => React(order, Send(Mark(read, notice), notice), turn, |turn.reaction|)
      case DispatchFirst => Mark(React(order, Send(read, notice), turn, |turn.reaction|), notice)
  }

  /** The first `k` calls that listeners make, each run to its end. */
  function React(order: Order, m: Manager, turn: Turn, k: nat): (r: Manager)
    requires m.Valid() && TurnFits(turn, |m.rules|) && k <= |turn.reaction|
    ensures r.Valid() && r.rules == m.rules
    decreases turn, k
  {
    if k == 0 then m else Handle(order, React(order, m, turn, k - 1), turn.reaction[k - 1])
  }

  function HandleAll(order: Order, m: Manager, calls: seq<Call>): (r: Manager)
    requires m.Valid() && AllFit(calls, |m.rules|)
    ensures r.Valid() && r.rules == m.rules
  {
    if calls == [] then m else Handle(order, HandleAll(order, m, calls[..|calls| - 1]), calls[|calls| - 1])
  }

  // ---------- the same execution as a list of steps ----------

  ghost function Steps(m: Manager, call: Call): (steps: seq<Step>)
    requires m.Valid() && Fits(call, |m.rules|)
    ensures AllApply(steps, m.rules)
    decreases call, |m.rules| + 1
  {
    RuleSteps(m, call, |m.rules|)
  }

  ghost function RuleSteps(m: Manager, call: Call, n: nat): (steps: seq<Step>)
    requires m.Valid() && Fits(call, |m.rules|) && n <= |m.rules|
    ensures AllApply(steps, m.rules)
    decreases call, n
  {
    if n == 0 then Opening(m.rules, call)
    else if !Evaluates(call, m.rules[n - 1]) then RuleSteps(m, call, n - 1)
    else
      RecordingApplies(m.rules, call, n - 1);
      var before := RunRules(StatusFirst, m, call, n - 1);
      RuleSteps(m, call, n - 1) + Recording(call, n - 1) + TurnSteps(Run(before, Recording(call, n - 1)), n - 1, call.turns[n - 1])
  }

  ghost function TurnSteps(m: Manager, i: nat, turn: Turn): (steps: seq<Step>)
    requires m.Valid() && i < |m.rules| && TurnFits(turn, |m.rules|)
    ensures AllApply(steps, m.rules)
    decreases turn, |turn.reaction| + 1
  {
    [Evaluate(i, turn.at)] +
      if NoticeFor(Read(m, i, turn.at), i, turn.at).None? then []
      else ReactionSteps(AfterEvaluate(m, i, turn.at), turn, |turn.reaction|)
  }

  ghost function ReactionSteps(m: Manager, turn: Turn, k: nat): (steps: seq<Step>)
    requires m.Valid() && TurnFits(turn, |m.rules|) && k <= |turn.reaction|
    ensures AllApply(steps, m.rules)
    decreases turn, k
  {
    if k == 0 then []
    else ReactionSteps(m, turn, k - 1) + Steps(React(StatusFirst, m, turn, k - 1), turn.reaction[k - 1])
  }

  ghost function AllSteps(m: Manager, calls: seq<Call>): (steps: seq<Step>)
    requires m.Valid() && AllFit(calls, |m.rules|)
    ensures AllApply(steps, m.rules)
  {
    if calls == [] then []
    else
      var front := calls[..|calls| - 1];
      AllSteps(m, front) + Steps(HandleAll(StatusFirst, m, front), calls[|calls| - 1])
  }

  lemma QuietTurn(m: Manager, i: nat, turn: Turn)
    requires m.Valid() && i < |m.rules| && TurnFits(turn, |m.rules|) && turn.reaction == []
    ensures TurnSteps(m, i, turn) == [Evaluate(i, turn.at)]
  {
    hide NoticeFor, Read, AfterEvaluate;
    assert [Evaluate(i, turn.at)] + [] == [Evaluate(i, turn.at)];
  }

  lemma NextRuleSteps(m: Manager, call: Call, n: nat)
    requires m.Valid() && Fits(call, |m.rules|) && n < |m.rules| && Evaluates(call, m.rules[n])
    ensures AllApply(Recording(call, n), m.rules)
    ensures var recorded := Run(RunRules(StatusFirst, m, call, n), Recording(call, n));
            RuleSteps(m, call, n + 1) == RuleSteps(m, call, n) + Recording(call, n) + TurnSteps(recorded, n, call.turns[n])
  {
    hide Run, RunRules, TurnSteps, Evaluates;
    RecordingApplies(m.rules, call, n);
  }

  lemma SameRuleSteps(m: Manager, call: Call, n: nat)
    requires m.Valid() && Fits(call, |m.rules|) && n < |m.rules| && !Evaluates(call, m.rules[n])
    ensures RuleSteps(m, call, n + 1) == RuleSteps(m, call, n)
  {
    hide Run, RunRules, TurnSteps, Evaluates;
  }

  lemma NoRuleSteps(m: Manager, call: Call)
    requires m.Valid() && Fits(call, |m.rules|)
    ensures RuleSteps(m, call, 0) == Opening(m.rules, call)
  {
    hide Opening;
  }

  /** Setting the status before the dispatch makes every nested execution an ordinary run of steps. */
  lemma {:induction false} CallIsRun(m: Manager, call: Call)
    requires m.Valid() && Fits(call, |m.rules|)
    ensures Handle(StatusFirst, m, call) == Run(m, Steps(m, call))
    decreases call, |m.rules| + 1
  {
    hide Run, RunRules, RuleSteps;
    RulesAreRun(m, call, |m.rules|);
  }

  lemma {:induction false} RulesAreRun(m: Manager, call: Call, n: nat)
    requires m.Valid() && Fits(call, |m.rules|) && n <= |m.rules|
    ensures RunRules(StatusFirst, m, call, n) == Run(m, RuleSteps(m, call, n))
    decreases call, n
  {
    hide Run, Evaluated, TurnSteps, Recording, Opening;
    if n == 0 {
    } else {
      RulesAreRun(m, call, n - 1);
      if Evaluates(call, m.rules[n - 1]) {
        RecordingApplies(m.rules, call, n - 1);
        var before, earlier := RunRules(StatusFirst, m, call, n - 1), RuleSteps(m, call, n - 1);
        var recorded := Run(before, Recording(call, n - 1));
        TurnIsRun(recorded, n - 1, call.turns[n - 1]);
        RunSplit(m, earlier, Recording(call, n - 1));
        RunSplit(m, earlier + Recording(call, n - 1), TurnSteps(recorded, n - 1, call.turns[n - 1]));
      }
    }
  }

  lemma {:induction false} TurnIsRun(m: Manager, i: nat, turn: Turn)
    requires m.Valid() && i < |m.rules| && TurnFits(turn, |m.rules|)
    ensures Evaluated(StatusFirst, m, i, turn) == Run(m, TurnSteps(m, i, turn))
    decreases turn, |turn.reaction| + 1
  {
    hide Run, React, ReactionSteps, Read, Mark, Send;
    var after := AfterEvaluate(m, i, turn.at);
    RunOne(m, Evaluate(i, turn.at));
    if NoticeFor(Read(m, i, turn.at), i, turn.at).Some? {
      ReactionIsRun(after, turn, |turn.reaction|);
      RunSplit(m, [Evaluate(i, turn.at)], ReactionSteps(after, turn, |turn.reaction|));
    } else {
      assert [Evaluate(i, turn.at)] + [] == [Evaluate(i, turn.at)];
    }
  }

  lemma {:induction false} ReactionIsRun(m: Manager, turn: Turn, k: nat)
    requires m.Valid() && TurnFits(turn, |m.rules|) && k <= |turn.reaction|
    ensures React(StatusFirst, m, turn, k) == Run(m, ReactionSteps(m, turn, k))
    decreases turn, k
  {
    if k == 0 {
    } else {
      hide Run, Handle, Steps;
      ReactionIsRun(m, turn, k - 1);
      var before := React(StatusFirst, m, turn, k - 1);
      CallIsRun(before, turn.reaction[k - 1]);
      RunSplit(m, ReactionSteps(m, turn, k - 1), Steps(before, turn.reaction[k - 1]));
    }
  }

  lemma {:induction false} NestedIsRun(m: Manager, calls: seq<Call>)
    requires m.Valid() && AllFit(calls, |m.rules|)
    ensures HandleAll(StatusFirst, m, calls) == Run(m, AllSteps(m, calls))
  {
    if calls == [] {
    } else {
      hide Run, Handle, Steps, Fits;
      var front, last := calls[..|calls| - 1], calls[|calls| - 1];
      NestedIsRun(m, front);
      var before := HandleAll(StatusFirst, m, front);
      CallIsRun(before, last);
      RunSplit(m, AllSteps(m, front), Steps(before, last));
    }
  }

  /** However listeners re-enter, every rule's trace alternates and tells its status. */
  lemma NestedTraceAlternates(rules: seq<Rule>, calls: seq<Call>, i: nat)
    requires AllFit(calls, |rules|) && i < |rules|
    ensures TraceAgrees(HandleAll(StatusFirst, Initial(rules), calls), i)
  {
    hide TraceAgrees, Run, HandleAll, AllSteps;
    NestedIsRun(Initial(rules), calls);
    TraceAlternates(rules, AllSteps(Initial(rules), calls), i);
  }

  // ---------- the other order ----------

  /** A tick on a single storage rule that is idle with its size at the threshold or above. */
  lemma LateTick(m: Manager, at: int)
    requires m.Valid() && |m.rules| == 1 && m.rules[0].metric == StorageSize
    requires m.states[0].status == Idle && m.latestStorageSize >= m.rules[0].threshold
    ensures Fits(Ticked([Turn(at, [])]), 1)
    ensures var r := Handle(DispatchFirst, m, Ticked([Turn(at, [])]));
            r.dispatched == m.dispatched + [Fired(0, m.latestStorageSize, at)]
  {
    var turn := Turn(at, []);
    var call := Ticked([turn]);
    assert Evaluates(call, m.rules[0]);
    assert Run(m, []) == m;
    assert Handle(DispatchFirst, m, call) == RunRules(DispatchFirst, m, call, 1);
    assert RunRules(DispatchFirst, m, call, 0) == m;
    assert RunRules(DispatchFirst, m, call, 1) == Evaluated(DispatchFirst, m, 0, turn);
  }

  /**
   * With the dispatch before the status change, a listener that ticks the manager makes an alert fire twice
   * in a row, and the trace no longer alternates.
   */
  lemma DispatchFirstFiresTwice(threshold: real, windowMs: nat, size: real, at: int, later: int)
    requires size >= threshold
    ensures var rules := [Rule(StorageSize, threshold, windowMs)];
            var call := StorageSizeReported(size, [Turn(at, [Ticked([Turn(later, [])])])]);
            && Fits(call, 1)
            && Handle(DispatchFirst, Initial(rules), call).dispatched == [Fired(0, size, at), Fired(0, size, later)]
            && !TraceAgrees(Handle(DispatchFirst, Initial(rules), call), 0)
  {
    var rules := [Rule(StorageSize, threshold, windowMs)];
    var tick := Ticked([Turn(later, [])]);
    var turn := Turn(at, [tick]);
    var call := StorageSizeReported(size, [turn]);
    var m := Initial(rules);
    assert Evaluates(call, rules[0]);
    assert TurnFits(turn, 1);
    var sized := m.(latestStorageSize := size);
    RunOne(m, ReportSize(size));
    assert Run(sized, []) == sized;
    assert RunRules(DispatchFirst, m, call, 0) == sized;
    assert RunRules(DispatchFirst, m, call, 1) == Evaluated(DispatchFirst, sized, 0, turn);
    var read := Read(sized, 0, at);
    var sent := Send(read, Fired(0, size, at));
    assert NoticeFor(read, 0, at) == Some(Fired(0, size, at));
    LateTick(sent, later);
    assert React(DispatchFirst, sent, turn, 0) == sent;
    assert React(DispatchFirst, sent, turn, 1) == Handle(DispatchFirst, sent, tick);
    var notices := [Fired(0, size, at), Fired(0, size, later)];
    TwoNotices(notices[0], notices[1]);
  }

  lemma TwoNotices(a: Notice, b: Notice)
    requires a.rule == 0 && b.rule == 0
    ensures NoticesFor([a, b], 0) == [a, b]
  {
    assert [a] + [b] == [a, b] && [] + [a] == [a];
    NoticesAppend([a], b, 0);
    NoticesAppend([], a, 0);
  }
}
