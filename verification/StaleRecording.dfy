/**
 * Why the condition on deques is needed: a handler reads the clock once and records that time for each of
 * its rules in turn, and a listener of an earlier rule may have recorded newer events in between.
 */
module StaleRecording {
  import opened SlidingWindow
  import opened WindowRuns
  import opened AlertModel
  import opened AlertCalls
  import opened AlertHistory
  import opened AlertRuns

  /** Two failure-rate rules; a window shorter than the time from the early to the late reading. */
  ghost predicate Setting(rules: seq<Rule>, early: int, late: int) {
    && |rules| == 2 && rules[0] == rules[1] && rules[0].metric == FailureRate
    && 0.0 < rules[0].threshold <= 1.0 && early + rules[0].windowMs < late
  }

  function Inner(late: int): Call {
    WorkflowSettled(late, true, [Turn(late, []), Turn(late, [])])
  }

  /** A workflow fails; the listener of the first rule's alert lets another one fail later on. */
  function Outer(early: int, late: int): Call {
    WorkflowSettled(early, true, [Turn(early, [Inner(late)]), Turn(late, [])])
  }

  function InnerSteps(late: int): seq<Step> {
    [ReadClock(late)] + [RecordOutcome(0, late, true)] + [Evaluate(0, late)] + [RecordOutcome(1, late, true)] + [Evaluate(1, late)]
  }

  function OpeningSteps(early: int): seq<Step> {
    [ReadClock(early)] + [RecordOutcome(0, early, true)]
  }

  /** What happens before the second rule is touched. */
  function BeforeSecond(early: int, late: int): seq<Step> {
    OpeningSteps(early) + [Evaluate(0, early)] + [ReadClock(late)] + [RecordOutcome(0, late, true)] + [Evaluate(0, late)]
  }

  /** What happens, up to the stale recording for the second rule. */
  function StaleSteps(early: int, late: int): seq<Step> {
    OpeningSteps(early) + ([Evaluate(0, early)] + InnerSteps(late)) + [RecordOutcome(1, early, true)]
  }

  lemma CallsFit(early: int, late: int)
    ensures Fits(Inner(late), 2) && Fits(Outer(early, late), 2) && TurnFits(Turn(early, [Inner(late)]), 2)
  {
  }

  lemma InnerTakes(m: Manager, early: int, late: int)
    requires m.Valid() && Setting(m.rules, early, late)
    ensures Fits(Inner(late), 2) && Steps(m, Inner(late)) == InnerSteps(late)
  {
    CallsFit(early, late);
    var call := Inner(late);
    EvaluatedIsAttached(m.rules, call, 0);
    hide RuleSteps, TurnSteps, Run, RunRules;
    NoRuleSteps(m, call);
    NextRuleSteps(m, call, 0);
    NextRuleSteps(m, call, 1);
    QuietTurn(Run(RunRules(StatusFirst, m, call, 0), Recording(call, 0)), 0, Turn(late, []));
    QuietTurn(Run(RunRules(StatusFirst, m, call, 1), Recording(call, 1)), 1, Turn(late, []));
  }

  // ---------- the first rule fires, so the listener gets its turn ----------

  lemma OneEntry(e: Outcome, cutoff: int)
    requires cutoff <= e.timestamp
    ensures Pruned([e], OutcomeTime, cutoff) == [e]
  {
  }

  lemma OneFailure(e: Outcome)
    requires e.failed
    ensures RateOf([e]) == 1.0
  {
    assert [e][..0] == [];
    assert Failures([]) == 0;
  }

  lemma FirstRuleFires(rules: seq<Rule>, early: int, late: int)
    requires Setting(rules, early, late)
    ensures AllApply(OpeningSteps(early), rules)
    ensures NoticeFor(Read(Run(Initial(rules), OpeningSteps(early)), 0, early), 0, early).Some?
  {
    var e := Outcome(early, true);
    OpeningRecords(rules, early, late);
    var after := Run(Initial(rules), OpeningSteps(early));
    OneEntry(e, early - rules[0].windowMs);
    OneFailure(e);
    hide Pruned, RateOf, Run, OpeningSteps;
    assert PrunedFor(after, 0, early).outcomes[0] == [e];
  }

  lemma OpeningRecords(rules: seq<Rule>, early: int, late: int)
    requires Setting(rules, early, late)
    ensures AllApply(OpeningSteps(early), rules)
    ensures Run(Initial(rules), OpeningSteps(early)) == Initial(rules).(outcomes := Initial(rules).outcomes[0 := [Outcome(early, true)]])
  {
    var m, e := Initial(rules), Outcome(early, true);
    RunOne(m, ReadClock(early));
    RunAppend(m, [ReadClock(early)], RecordOutcome(0, early, true));
    assert [] + [e] == [e];
    OneEntry(e, early - rules[0].windowMs);
    hide Pruned, Run;
  }

  lemma OuterTakes(rules: seq<Rule>, early: int, late: int)
    requires Setting(rules, early, late)
    ensures Fits(Outer(early, late), 2)
    ensures Steps(Initial(rules), Outer(early, late)) == StaleSteps(early, late) + [Evaluate(1, late)]
  {
    CallsFit(early, late);
    FirstRuleFires(rules, early, late);
    var m, call, turn := Initial(rules), Outer(early, late), Turn(early, [Inner(late)]);
    EvaluatedIsAttached(rules, call, 0);
    NoRuleSteps(m, call);
    assert Opening(rules, call) == [ReadClock(early)];
    RunSplit(m, [ReadClock(early)], Recording(call, 0));
    var begun := Run(m, OpeningSteps(early));
    assert Run(RunRules(StatusFirst, m, call, 0), Recording(call, 0)) == begun;
    FirstTurn(begun, early, late);
    hide RuleSteps, TurnSteps, Run, RunRules, InnerSteps;
    NextRuleSteps(m, call, 0);
    NextRuleSteps(m, call, 1);
    QuietTurn(Run(RunRules(StatusFirst, m, call, 1), Recording(call, 1)), 1, Turn(late, []));
  }

  lemma FirstTurn(m: Manager, early: int, late: int)
    requires m.Valid() && Setting(m.rules, early, late) && NoticeFor(Read(m, 0, early), 0, early).Some?
    ensures TurnFits(Turn(early, [Inner(late)]), 2)
    ensures TurnSteps(m, 0, Turn(early, [Inner(late)])) == [Evaluate(0, early)] + InnerSteps(late)
  {
    CallsFit(early, late);
    hide Read, AfterEvaluate, Steps, InnerSteps, ReactionSteps;
    var turn, after := Turn(early, [Inner(late)]), AfterEvaluate(m, 0, early);
    InnerTakes(after, early, late);
    OneReaction(after, turn);
  }

  lemma OneReaction(m: Manager, turn: Turn)
    requires m.Valid() && TurnFits(turn, |m.rules|) && |turn.reaction| == 1
    ensures ReactionSteps(m, turn, 1) == Steps(m, turn.reaction[0])
  {
    hide Steps;
    assert React(StatusFirst, m, turn, 0) == m;
    assert ReactionSteps(m, turn, 0) == [];
    assert [] + Steps(m, turn.reaction[0]) == Steps(m, turn.reaction[0]);
  }

  // ---------- the second rule's window ----------

  /** The search lands behind both entries: the recent one is dropped with the old one. */
  lemma OutOfOrder(l: Outcome, e: Outcome, w: nat)
    requires e.timestamp + w < l.timestamp
    ensures Pruned([l, e], OutcomeTime, e.timestamp - w) == [l, e]
    ensures Pruned([l, e], OutcomeTime, l.timestamp - w) == []
    ensures Within([l, e], OutcomeTime, l.timestamp - w) == [l]
  {
    hide Within, SearchFrom;
    var both := [l, e];
    SearchKeepsBoth(both, e.timestamp - w);
    SearchDropsBoth(both, l.timestamp - w);
    assert both[0..] == both && both[2..] == [];
    assert both == [l] + [e];
    WithinConcat([l], [e], OutcomeTime, l.timestamp - w);
    WithinSplit([l], OutcomeTime, l.timestamp - w, 0);
    WithinSplit([e], OutcomeTime, l.timestamp - w, 1);
  }

  lemma SearchKeepsBoth(both: seq<Outcome>, cutoff: int)
    requires |both| == 2 && cutoff <= both[0].timestamp && cutoff <= both[1].timestamp
    ensures SearchFrom(both, OutcomeTime, cutoff, 0, 2) == 0
  {
    assert SearchFrom(both, OutcomeTime, cutoff, 0, 2) == SearchFrom(both, OutcomeTime, cutoff, 0, 1);
    assert SearchFrom(both, OutcomeTime, cutoff, 0, 1) == SearchFrom(both, OutcomeTime, cutoff, 0, 0);
  }

  lemma SearchDropsBoth(both: seq<Outcome>, cutoff: int)
    requires |both| == 2 && both[1].timestamp < cutoff
    ensures SearchFrom(both, OutcomeTime, cutoff, 0, 2) == 2
  {
    assert SearchFrom(both, OutcomeTime, cutoff, 0, 2) == SearchFrom(both, OutcomeTime, cutoff, 2, 2);
  }

  lemma SecondRuleOperations(early: int, late: int)
    ensures OutcomeOperations(StaleSteps(early, late), 1) ==
      [Push(Outcome(late, true))] + [Prune(late)] + [Push(Outcome(early, true))]
  {
    var a, b, c := RecordOutcome(1, late, true), Evaluate(1, late), RecordOutcome(1, early, true);
    var front := BeforeSecond(early, late);
    assert StaleSteps(early, late) == front + [a] + [b] + [c];
    UnconcernedOperations(front, 1);
    OperationsAppend(front, a, 1);
    OperationsAppend(front + [a], b, 1);
    OperationsAppend(front + [a] + [b], c, 1);
    hide OutcomeOperations;
    assert [] + [Push(Outcome(late, true))] == [Push(Outcome(late, true))];
  }

  lemma OperationsAppend(steps: seq<Step>, step: Step, i: nat)
    ensures OutcomeOperations(steps + [step], i) == OutcomeOperations(steps, i) + (
      if step.RecordOutcome? && step.rule == i then [Push(Outcome(step.at, step.failed))]
      else if step.Evaluate? && step.rule == i then [Prune(step.at)] else [])
  {
    assert (steps + [step])[..|steps|] == steps;
  }

  lemma {:induction false} UnconcernedOperations(steps: seq<Step>, i: nat)
    requires forall k :: 0 <= k < |steps| ==> !Concerns(steps[k], i)
    ensures OutcomeOperations(steps, i) == []
  {
    if steps == [] {
    } else {
      UnconcernedOperations(steps[..|steps| - 1], i);
    }
  }

  lemma SecondRuleWindow(early: int, late: int, w: nat)
    requires early + w < late
    ensures var ops := OutcomeOperations(StaleSteps(early, late), 1);
            && Deque(ops, OutcomeTime, w) == [Outcome(late, true), Outcome(early, true)]
            && Pushed(ops) == [Outcome(late, true), Outcome(early, true)]
  {
    hide OutcomeOperations, StaleSteps, Pruned;
    SecondRuleOperations(early, late);
    var l, e := Outcome(late, true), Outcome(early, true);
    NoOperation(OutcomeTime, w);
    hide Deque, Pushed;
    var a: Operation<Outcome>, b: Operation<Outcome>, c: Operation<Outcome> := Push(l), Prune(late), Push(e);
    assert [] + [a] == [a] && [] + [l] == [l];
    DequeNext([], a, OutcomeTime, w);
    DequeNext([a], b, OutcomeTime, w);
    DequeNext([a] + [b], c, OutcomeTime, w);
    OneEntry(l, late - w);
    OutOfOrder(l, e, w);
    assert [l] + [e] == [l, e];
    PushedNext([], a);
    PushedNext([a], b);
    PushedNext([a] + [b], c);
  }

  lemma PushedNext(ops: seq<Operation<Outcome>>, op: Operation<Outcome>)
    ensures Pushed(ops + [op]) == Facing(Pushed(ops), op)
  {
    assert (ops + [op])[..|ops|] == ops;
  }

  /**
   * With clock readings that never go back, the second rule ends up idle although the full history has a
   * failure rate of one within its window: the stale recording made the search drop the later event, and
   * the alert that had just fired resolves.
   */
  lemma StaleTimestampLosesAnEvent(rules: seq<Rule>, early: int, late: int)
    requires Setting(rules, early, late)
    ensures AllFit([Outer(early, late)], 2)
    ensures var calls := [Outer(early, late)];
            var steps := AllSteps(Initial(rules), calls);
            && ClockForward(steps)
            && HandleAll(StatusFirst, Initial(rules), calls).states[1].status == Idle
            && StatusFromHistory(rules, steps, 1) == Firing
            && NoticesFor(HandleAll(StatusFirst, Initial(rules), calls).dispatched, 1) == [Fired(1, 1.0, late), Resolved(1, 0.0, late)]
  {
    hide *;
    SettingGives(rules, early, late);
    OuterTakes(rules, early, late);
    OneCall(Initial(rules), Outer(early, late));
    StaleRun(rules, [Outer(early, late)], early, late);
  }

  lemma SettingGives(rules: seq<Rule>, early: int, late: int)
    requires Setting(rules, early, late)
    ensures Initial(rules).Valid() && Initial(rules).rules == rules && |rules| == 2
  {
  }

  lemma StaleRun(rules: seq<Rule>, calls: seq<Call>, early: int, late: int)
    requires Setting(rules, early, late) && AllFit(calls, 2)
    requires AllSteps(Initial(rules), calls) == StaleSteps(early, late) + [Evaluate(1, late)]
    ensures var steps := AllSteps(Initial(rules), calls);
            && ClockForward(steps)
            && HandleAll(StatusFirst, Initial(rules), calls).states[1].status == Idle
            && StatusFromHistory(rules, steps, 1) == Firing
            && NoticesFor(HandleAll(StatusFirst, Initial(rules), calls).dispatched, 1) == [Fired(1, 1.0, late), Resolved(1, 0.0, late)]
  {
    ReadingsForward(early, late);
    StaleStepsApply(rules, early, late);
    hide StaleSteps, AllSteps, HandleAll, Run, ClockForward, StatusFromHistory, AllFit, NoticesFor;
    SecondRuleNotices(rules, early, late);
    NestedIsRun(Initial(rules), calls);
    SecondRuleIdle(rules, StaleSteps(early, late), early, late);
    SecondRuleShouldFire(rules, StaleSteps(early, late), early, late);
  }

  lemma OneCall(m: Manager, call: Call)
    requires m.Valid() && Fits(call, |m.rules|)
    ensures AllFit([call], |m.rules|) && AllSteps(m, [call]) == Steps(m, call)
  {
    hide Steps, Fits;
    assert [call][..0] == [];
    assert AllSteps(m, []) == [] && HandleAll(StatusFirst, m, []) == m;
    assert [] + Steps(m, call) == Steps(m, call);
  }

  lemma ReadingsForward(early: int, late: int)
    requires early <= late
    ensures ClockForward(StaleSteps(early, late) + [Evaluate(1, late)])
  {
    var steps := StaleSteps(early, late) + [Evaluate(1, late)];
    assert forall k :: 0 <= k < |steps| && Reads(steps[k]) ==> steps[k].at == if k < 3 then early else late;
  }

  lemma StaleStepsApply(rules: seq<Rule>, early: int, late: int)
    requires |rules| == 2 && rules[0].metric == FailureRate && rules[1].metric == FailureRate
    ensures AllApply(StaleSteps(early, late), rules)
  {
  }

  lemma SecondRuleIdle(rules: seq<Rule>, before: seq<Step>, early: int, late: int)
    requires Setting(rules, early, late) && before == StaleSteps(early, late) && AllApply(before, rules)
    ensures AllApply(before + [Evaluate(1, late)], rules)
    ensures Run(Initial(rules), before + [Evaluate(1, late)]).states[1].status == Idle
  {
    hide StaleSteps, Run, Pruned, OutcomeOperations, Deque, Within, AfterEvaluate;
    var m, w := Run(Initial(rules), before), rules[1].windowMs;
    RunAppend(Initial(rules), before, Evaluate(1, late));
    OutcomesAreDeque(rules, before, 1);
    SecondRuleWindow(early, late, w);
    OutOfOrder(Outcome(late, true), Outcome(early, true), w);
    StatusFollowsValue(m, 1, late);
    assert PrunedFor(m, 1, late).outcomes[1] == [];
    assert MetricValue(PrunedFor(m, 1, late), 1) == 0.0;
  }

  lemma SecondRuleShouldFire(rules: seq<Rule>, before: seq<Step>, early: int, late: int)
    requires Setting(rules, early, late) && before == StaleSteps(early, late)
    ensures StatusFromHistory(rules, before + [Evaluate(1, late)], 1) == Firing
  {
    hide StaleSteps, Pruned, OutcomeOperations, Deque, Within, RateOf;
    var steps, w := before + [Evaluate(1, late)], rules[1].windowMs;
    assert steps[..|before|] == before;
    assert steps[|before|].Evaluate? && steps[|before|].rule == 1;
    SecondRuleWindow(early, late, w);
    OutOfOrder(Outcome(late, true), Outcome(early, true), w);
    OneFailure(Outcome(late, true));
    assert MetricFromHistory(rules, before, 1, late) == 1.0;
    assert ValueFromHistory(rules, steps, 1) == 1.0;
  }

  // ---------- what the second rule announces ----------

  lemma OtherStepKeeps(m: Manager, step: Step, i: nat)
    requires m.Valid() && Applies(step, m.rules) && i < |m.rules| && !(step.Evaluate? && step.rule == i)
    ensures NoticesFor(Apply(m, step).dispatched, i) == NoticesFor(m.dispatched, i)
    ensures Apply(m, step).states[i].status == m.states[i].status
  {
    StateKept(m, step, i);
    hide Pruned, MetricValue, NoticesFor;
    var next := Apply(m, step);
    if step.Evaluate? && next.dispatched != m.dispatched {
      NoticesAppend(m.dispatched, next.dispatched[|m.dispatched|], i);
      assert NoticesFor(m.dispatched, i) + [] == NoticesFor(m.dispatched, i);
    }
  }

  lemma EvaluateAnnounces(m: Manager, i: nat, at: int)
    requires m.Valid() && i < |m.rules|
    ensures var next, value := Apply(m, Evaluate(i, at)), MetricValue(PrunedFor(m, i, at), i);
            var threshold, before := m.rules[i].threshold, NoticesFor(m.dispatched, i);
            && NoticesFor(next.dispatched, i) == before + (
                 if value >= threshold && m.states[i].status == Idle then [Fired(i, value, at)]
                 else if value < threshold && m.states[i].status == Firing then [Resolved(i, value, at)]
                 else [])
            && (next.states[i].status == Firing <==> value >= threshold)
  {
    hide MetricValue, PrunedFor, NoticesFor;
    var read := Read(m, i, at);
    var notice := NoticeFor(read, i, at);
    if notice.Some? {
      NoticesAppend(m.dispatched, notice.value, i);
    }
    StatusFollowsValue(m, i, at);
  }

  lemma {:induction false} NothingAnnounced(rules: seq<Rule>, steps: seq<Step>, i: nat)
    requires AllApply(steps, rules) && i < |rules| && forall k :: 0 <= k < |steps| ==> !Concerns(steps[k], i)
    ensures NoticesFor(Run(Initial(rules), steps).dispatched, i) == [] && Run(Initial(rules), steps).states[i].status == Idle
  {
    hide Apply, NoticesFor;
    if steps == [] {
      assert NoticesFor([], i) == [] by { NoNotices(i); }
    } else {
      NothingAnnounced(rules, steps[..|steps| - 1], i);
      OtherStepKeeps(Run(Initial(rules), steps[..|steps| - 1]), steps[|steps| - 1], i);
    }
  }

  lemma NoNotices(i: nat)
    ensures NoticesFor([], i) == []
  {
  }

  lemma FirstWindow(rules: seq<Rule>, early: int, late: int, w: nat)
    requires Setting(rules, early, late)
    ensures Deque(OutcomeOperations(BeforeSecond(early, late) + [RecordOutcome(1, late, true)], 1), OutcomeTime, w) == [Outcome(late, true)]
  {
    BeforeSecondApplies(rules, early, late);
    hide BeforeSecond, Pruned, Deque, Concerns, Setting, OutcomeOperations;
    var l := Outcome(late, true);
    UnconcernedOperations(BeforeSecond(early, late), 1);
    OperationsAppend(BeforeSecond(early, late), RecordOutcome(1, late, true), 1);
    NoOperation(OutcomeTime, w);
    var push: Operation<Outcome> := Push(l);
    assert [] + [push] == [push] && [] + [l] == [l];
    DequeNext([], push, OutcomeTime, w);
    OneEntry(l, late - w);
  }

  lemma FirstReading(rules: seq<Rule>, steps: seq<Step>, early: int, late: int)
    requires Setting(rules, early, late) && steps == BeforeSecond(early, late) + [RecordOutcome(1, late, true)] && AllApply(steps, rules)
    ensures MetricValue(PrunedFor(Run(Initial(rules), steps), 1, late), 1) == 1.0
  {
    hide BeforeSecond, Pruned, Deque, Run, RateOf, OutcomeOperations;
    var l := Outcome(late, true);
    FirstWindow(rules, early, late, rules[1].windowMs);
    OutcomesAreDeque(rules, steps, 1);
    OneEntry(l, late - rules[1].windowMs);
    OneFailure(l);
    assert PrunedFor(Run(Initial(rules), steps), 1, late).outcomes[1] == [l];
  }

  lemma SecondReading(rules: seq<Rule>, steps: seq<Step>, early: int, late: int)
    requires Setting(rules, early, late) && steps == StaleSteps(early, late) && AllApply(steps, rules)
    ensures MetricValue(PrunedFor(Run(Initial(rules), steps), 1, late), 1) == 0.0
  {
    hide StaleSteps, Run, Pruned, OutcomeOperations, Deque, Within;
    var w := rules[1].windowMs;
    OutcomesAreDeque(rules, steps, 1);
    SecondRuleWindow(early, late, w);
    OutOfOrder(Outcome(late, true), Outcome(early, true), w);
    assert PrunedFor(Run(Initial(rules), steps), 1, late).outcomes[1] == [];
  }

  lemma StaleStepsSplit(early: int, late: int)
    ensures StaleSteps(early, late) ==
      BeforeSecond(early, late) + [RecordOutcome(1, late, true)] + [Evaluate(1, late)] + [RecordOutcome(1, early, true)]
  {
  }

  lemma BeforeSecondApplies(rules: seq<Rule>, early: int, late: int)
    requires Setting(rules, early, late)
    ensures AllApply(BeforeSecond(early, late), rules)
    ensures forall k :: 0 <= k < |BeforeSecond(early, late)| ==> !Concerns(BeforeSecond(early, late)[k], 1)
  {
  }

  lemma SecondRuleFires(rules: seq<Rule>, early: int, late: int)
    requires Setting(rules, early, late)
    ensures var steps := BeforeSecond(early, late) + [RecordOutcome(1, late, true)] + [Evaluate(1, late)];
            && AllApply(steps, rules)
            && NoticesFor(Run(Initial(rules), steps).dispatched, 1) == [Fired(1, 1.0, late)]
            && Run(Initial(rules), steps).states[1].status == Firing
  {
    BeforeSecondApplies(rules, early, late);
    var m, front, a := Initial(rules), BeforeSecond(early, late), RecordOutcome(1, late, true);
    hide BeforeSecond, Run, NoticesFor, MetricValue, PrunedFor, Apply, Concerns;
    NothingAnnounced(rules, front, 1);
    RunAppend(m, front, a);
    OtherStepKeeps(Run(m, front), a, 1);
    RunAppend(m, front + [a], Evaluate(1, late));
    FirstReading(rules, front + [a], early, late);
    EvaluateAnnounces(Run(m, front + [a]), 1, late);
  }

  lemma SecondRuleNotices(rules: seq<Rule>, early: int, late: int)
    requires Setting(rules, early, late)
    ensures AllApply(StaleSteps(early, late) + [Evaluate(1, late)], rules)
    ensures NoticesFor(Run(Initial(rules), StaleSteps(early, late) + [Evaluate(1, late)]).dispatched, 1) ==
      [Fired(1, 1.0, late), Resolved(1, 0.0, late)]
  {
    StaleStepsSplit(early, late);
    StaleStepsApply(rules, early, late);
    hide BeforeSecond, StaleSteps, Run, NoticesFor, MetricValue, PrunedFor, Apply;
    SecondRuleFires(rules, early, late);
    var m, c := Initial(rules), RecordOutcome(1, early, true);
    var fired := BeforeSecond(early, late) + [RecordOutcome(1, late, true)] + [Evaluate(1, late)];
    RunAppend(m, fired, c);
    OtherStepKeeps(Run(m, fired), c, 1);
    var stale := StaleSteps(early, late);
    RunAppend(m, stale, Evaluate(1, late));
    SecondReading(rules, stale, early, late);
    EvaluateAnnounces(Run(m, stale), 1, late);
  }

  // ---------- what a later evaluation finds ----------

  lemma LostOperations(early: int, late: int, w: nat)
    requires early + w < late
    ensures var ops := OutcomeOperations(StaleSteps(early, late) + [Evaluate(1, late)], 1);
            && Deque(ops, OutcomeTime, w) == []
            && Dropped(ops, OutcomeTime, w) == [Outcome(late, true), Outcome(early, true)]
            && !AlwaysSplit(ops, OutcomeTime, w)
  {
    hide StaleSteps, Pruned, OutcomeOperations, Deque, Pushed, AlwaysSplit, Within;
    var before, l, e := OutcomeOperations(StaleSteps(early, late), 1), Outcome(late, true), Outcome(early, true);
    var prune: Operation<Outcome> := Prune(late);
    var ops := before + [prune];
    OperationsAppend(StaleSteps(early, late), Evaluate(1, late), 1);
    SecondRuleWindow(early, late, w);
    OutOfOrder(l, e, w);
    assert ops[..|before|] == before;
    LastOperation(ops, OutcomeTime, w);
    assert !SplitAt([l, e], OutcomeTime, late - w) by {
      assert [l, e][0] == l && [l, e][1] == e;
    }
  }

  /**
   * The lost event stays lost. Afterwards the deque is empty, so it splits at every cutoff, and yet each
   * evaluation misreads the history until the event has aged out of the window, and none does from then on.
   */
  lemma LostEventStaysLost(rules: seq<Rule>, early: int, late: int, again: int)
    requires Setting(rules, early, late)
    ensures AllApply(StaleSteps(early, late) + [Evaluate(1, late)], rules)
    ensures var steps := StaleSteps(early, late) + [Evaluate(1, late)];
            && !WindowSplits(rules, steps, 1)
            && WindowSplitsAt(Run(Initial(rules), steps), 1, again)
            && (ShowsHistory(rules, steps, 1, again) <==> late < again - rules[1].windowMs)
  {
    var w, steps := rules[1].windowMs, StaleSteps(early, late) + [Evaluate(1, late)];
    StaleStepsApply(rules, early, late);
    hide StaleSteps, OutcomeOperations, Deque, Dropped, AlwaysSplit, Run, ShowsHistory, AllOld, Pushed;
    LostOperations(early, late, w);
    OutcomesAreDeque(rules, steps, 1);
    EvaluationReadsExactly(rules, steps, 1, again);
    BothOld(early, late, again - w);
  }

  lemma BothOld(early: int, late: int, cutoff: int)
    requires early < late
    ensures AllOld([Outcome(late, true), Outcome(early, true)], OutcomeTime, cutoff) <==> late < cutoff
  {
    var both := [Outcome(late, true), Outcome(early, true)];
    assert both[0].timestamp == late && both[1].timestamp == early;
  }
}
