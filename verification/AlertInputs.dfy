/** What the manager does for the calls it receives, rule by rule, and what its notices say. */
module AlertInputs {
  import opened Sorting
  import opened AlertModel
  import opened AlertCalls

  // ---------- the steps of one rule ----------

  function Touches(i: nat): Step -> bool {
    (step: Step) => (step.RecordOutcome? || step.RecordDuration? || step.Evaluate?) && step.rule == i
  }

  /** What a call asks for at rule `i`: its metric's event is recorded and then read, and a tick only reads. */
  function Due(rule: Rule, call: Call, i: nat): seq<Step>
    requires i < |call.turns|
  {
    var reading := Evaluate(i, call.turns[i].at);
    match rule.metric
    case FailureRate =>
      if call.WorkflowSettled? then [RecordOutcome(i, call.recordedAt, call.failed), reading] else if call.Ticked? then [reading] else []
    case P99Duration =>
      if call.ActivityCompleted? then [RecordDuration(i, call.recordedAt, call.duration), reading] else if call.Ticked? then [reading] else []
    case StorageSize =>
      if call.StorageSizeReported? || call.Ticked? then [reading] else []
  }

  ghost function AllDue(rules: seq<Rule>, calls: seq<Call>, i: nat): seq<Step>
    requires i < |rules| && AllFit(calls, |rules|)
  {
    if calls == [] then []
    else AllDue(rules, calls[..|calls| - 1], i) + Due(rules[i], calls[|calls| - 1], i)
  }

  lemma DueSteps(rules: seq<Rule>, call: Call, n: nat)
    requires n < |rules| && |call.turns| == |rules|
    ensures Due(rules[n], call, n) == if Evaluates(call, rules[n]) then Recording(call, n) + [Evaluate(n, call.turns[n].at)] else []
  {
  }

  predicate Watched(rules: seq<Rule>, metric: Metric) {
    exists i :: 0 <= i < |rules| && rules[i].metric == metric
  }

  /** Ahead of the rules: the one reading of the clock that all recordings share, or the size reported. */
  function Announced(rules: seq<Rule>, call: Call): seq<Step> {
    if call.WorkflowSettled? && Watched(rules, FailureRate) then [ReadClock(call.recordedAt)]
    else if call.ActivityCompleted? && Watched(rules, P99Duration) then [ReadClock(call.recordedAt)]
    else if call.StorageSizeReported? && Watched(rules, StorageSize) then [ReportSize(call.size)]
    else []
  }

  /** A call as far as the first `n` rules, one after the other. */
  function Asked(rules: seq<Rule>, call: Call, n: nat): seq<Step>
    requires n <= |rules| == |call.turns|
  {
    if n == 0 then Announced(rules, call) else Asked(rules, call, n - 1) + Due(rules[n - 1], call, n - 1)
  }

  lemma OpeningAnnounces(rules: seq<Rule>, call: Call)
    ensures Opening(rules, call) == Announced(rules, call)
  {
    forall metric | Watched(rules, metric) ensures exists i :: 0 <= i < |rules| && rules[i].metric == metric {
    }
  }

  lemma {:induction false} RulesAsked(m: Manager, call: Call, n: nat)
    requires m.Valid() && Fits(call, |m.rules|) && n <= |m.rules| && Quiet(call)
    ensures RuleSteps(m, call, n) == Asked(m.rules, call, n)
    decreases n
  {
    hide RuleSteps, TurnSteps, Run, RunRules, Recording, Evaluates, Due, Opening;
    if n == 0 {
      NoRuleSteps(m, call);
      OpeningAnnounces(m.rules, call);
    } else {
      RulesAsked(m, call, n - 1);
      DueSteps(m.rules, call, n - 1);
      if Evaluates(call, m.rules[n - 1]) {
        NextRuleSteps(m, call, n - 1);
        QuietTurn(Run(RunRules(StatusFirst, m, call, n - 1), Recording(call, n - 1)), n - 1, call.turns[n - 1]);
      } else {
        SameRuleSteps(m, call, n - 1);
      }
    }
  }

  /** A call during which no listener calls back reads the clock or takes the size, and then serves rule after rule. */
  lemma QuietCallServesRules(m: Manager, call: Call)
    requires m.Valid() && Fits(call, |m.rules|) && Quiet(call)
    ensures Steps(m, call) == Asked(m.rules, call, |m.rules|)
  {
    hide RuleSteps, Fits, Asked, Quiet;
    RulesAsked(m, call, |m.rules|);
  }

  lemma OnlyMine(rules: seq<Rule>, call: Call, n: nat, i: nat)
    requires n < |rules| && |call.turns| == |rules|
    ensures Only(Due(rules[n], call, n), Touches(i)) == if n == i then Due(rules[n], call, n) else []
    ensures Only(Announced(rules, call), Touches(i)) == []
  {
    OnlyAllOrNone(Due(rules[n], call, n), Touches(i));
    OnlyAllOrNone(Announced(rules, call), Touches(i));
    hide Only;
  }

  lemma {:induction false} AskedOfRule(rules: seq<Rule>, call: Call, n: nat, i: nat)
    requires n <= |rules| == |call.turns| && i < |rules|
    ensures Only(Asked(rules, call, n), Touches(i)) == if i < n then Due(rules[i], call, i) else []
    decreases n
  {
    hide Only, Due, Announced;
    if n == 0 {
      OnlyMine(rules, call, i, i);
    } else {
      AskedOfRule(rules, call, n - 1, i);
      OnlyMine(rules, call, n - 1, i);
      OnlySplit(Asked(rules, call, n - 1), Due(rules[n - 1], call, n - 1), Touches(i));
    }
  }

  /** Without re-entry, what happens to a rule is exactly what each call in turn asks for at it. */
  lemma {:induction false} RuleHearsItsCalls(m: Manager, calls: seq<Call>, i: nat)
    requires m.Valid() && AllFit(calls, |m.rules|) && i < |m.rules| && NoReentry(calls)
    ensures Only(AllSteps(m, calls), Touches(i)) == AllDue(m.rules, calls, i)
    decreases |calls|
  {
    hide Only, Due, Steps, Asked, HandleAll, Fits, Quiet;
    if calls == [] {
      NoneTouch(i);
    } else {
      var front, last := calls[..|calls| - 1], calls[|calls| - 1];
      RuleHearsItsCalls(m, front, i);
      var before := HandleAll(StatusFirst, m, front);
      assert Fits(last, |m.rules|) && |last.turns| == |m.rules| by { CallFits(calls, |m.rules|); }
      QuietCallServesRules(before, last);
      AskedOfRule(m.rules, last, |m.rules|, i);
      OnlySplit(AllSteps(m, front), Steps(before, last), Touches(i));
    }
  }

  lemma CallFits(calls: seq<Call>, n: nat)
    requires calls != [] && AllFit(calls, n)
    ensures Fits(calls[|calls| - 1], n) && |calls[|calls| - 1].turns| == n
  {
  }

  lemma NoneTouch(i: nat)
    ensures Only([], Touches(i)) == []
  {
  }

  // ---------- what a notice says ----------

  /** The notice tells of step `k`: of the rule evaluated there, the time, the value then stored, and the side of the threshold. */
  ghost predicate TellsOf(rules: seq<Rule>, steps: seq<Step>, notice: Notice, k: nat)
    requires AllApply(steps, rules)
  {
    && k < |steps| && steps[k] == Evaluate(notice.rule, notice.at)
    && notice.value == Run(Initial(rules), steps[..k + 1]).states[notice.rule].currentValue
    && (notice.Fired? <==> notice.value >= rules[notice.rule].threshold)
  }

  lemma StepAnnounces(m: Manager, step: Step)
    requires m.Valid() && Applies(step, m.rules)
    ensures var r := Apply(m, step);
            r.dispatched == m.dispatched || (step.Evaluate? &&
              exists notice :: r.dispatched == m.dispatched + [notice] && notice.rule == step.rule && notice.at == step.at
                && notice.value == r.states[step.rule].currentValue && (notice.Fired? <==> notice.value >= m.rules[step.rule].threshold))
  {
    hide PrunedFor, MetricValue;
    if step.Evaluate? {
      var read := Read(m, step.rule, step.at);
      if NoticeFor(read, step.rule, step.at).Some? {
        var notice := NoticeFor(read, step.rule, step.at).value;
        assert Apply(m, step).dispatched == m.dispatched + [notice];
      }
    }
  }

  /** Every notice ever dispatched tells the truth about one evaluation of the run. */
  lemma {:induction false} NoticesAreTrue(rules: seq<Rule>, steps: seq<Step>, notice: Notice)
    requires AllApply(steps, rules) && notice in Run(Initial(rules), steps).dispatched
    ensures exists k :: TellsOf(rules, steps, notice, k)
    decreases |steps|
  {
    hide Apply;
    if steps == [] {
    } else {
      var n := |steps| - 1;
      var front := steps[..n];
      var m := Run(Initial(rules), front);
      StepAnnounces(m, steps[n]);
      if notice in m.dispatched {
        NoticesAreTrue(rules, front, notice);
        var k :| TellsOf(rules, front, notice, k);
        assert front[..k + 1] == steps[..k + 1];
        assert TellsOf(rules, steps, notice, k);
      } else {
        assert steps[..n + 1] == steps;
        assert TellsOf(rules, steps, notice, n);
      }
    }
  }
}
