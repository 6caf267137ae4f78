/** Whole runs of events and ticks, with listeners that re-enter, under a clock that never goes back. */
module AlertRuns {
  import opened AlertModel
  import opened AlertCalls
  import opened AlertHistory

  // ---------- the clock as it is read ----------

  predicate Reads(step: Step) {
    step.ReadClock? || step.Evaluate?
  }

  /** Successive readings of the clock, in whichever handler or listener, never go back. */
  ghost predicate ClockForward(steps: seq<Step>) {
    forall j, k :: 0 <= j < k < |steps| && Reads(steps[j]) && Reads(steps[k]) ==> steps[j].at <= steps[k].at
  }

  predicate Records(step: Step, i: nat) {
    (step.RecordOutcome? || step.RecordDuration?) && step.rule == i
  }

  /** The time recorded at `k` is a reading taken at `r`. */
  ghost predicate ReadAt(steps: seq<Step>, r: nat, k: nat, i: nat)
    requires k < |steps| && Records(steps[k], i)
  {
    r < k && steps[r] == ReadClock(steps[k].at)
  }

  /** Every time recorded for the rule was read from the clock before. */
  ghost predicate ReadBefore(steps: seq<Step>, i: nat) {
    forall k :: 0 <= k < |steps| && Records(steps[k], i) ==> exists r: nat :: ReadAt(steps, r, k, i)
  }

  ghost predicate Overtaken(steps: seq<Step>, r: nat, k: nat, i: nat)
    requires k < |steps|
  {
    exists m :: r < m < k && Concerns(steps[m], i)
  }

  /** And nothing happened to the rule between the reading and the recording. */
  ghost predicate Promptly(steps: seq<Step>, i: nat) {
    forall k :: 0 <= k < |steps| && Records(steps[k], i) ==>
      exists r: nat :: ReadAt(steps, r, k, i) && !Overtaken(steps, r, k, i)
  }

  /** An evaluation is never earlier than what was recorded or evaluated before it. */
  lemma EvaluationsAreLatest(steps: seq<Step>, i: nat)
    requires ClockForward(steps) && ReadBefore(steps, i)
    ensures EvaluatedLatest(steps, i)
  {
    forall j, k | 0 <= j < k < |steps| && Concerns(steps[j], i) && steps[k].Evaluate? && steps[k].rule == i
      ensures steps[j].at <= steps[k].at
    {
      if Records(steps[j], i) {
        var r: nat :| ReadAt(steps, r, j, i);
        assert Reads(steps[r]) && Reads(steps[k]);
      } else {
        assert Reads(steps[j]) && Reads(steps[k]);
      }
    }
  }

  lemma PromptMeansOrdered(steps: seq<Step>, i: nat)
    requires ClockForward(steps) && Promptly(steps, i)
    ensures ClockNeverGoesBack(steps, i)
  {
    hide ClockForward, Promptly;
    forall j, k | 0 <= j < k < |steps| && Concerns(steps[j], i) && Concerns(steps[k], i) ensures steps[j].at <= steps[k].at {
      PromptPair(steps, i, j, k);
    }
  }

  lemma PromptPair(steps: seq<Step>, i: nat, j: nat, k: nat)
    requires ClockForward(steps) && Promptly(steps, i) && j < k < |steps| && Concerns(steps[j], i) && Concerns(steps[k], i)
    ensures steps[j].at <= steps[k].at
  {
    var from := LastReading(steps, i, j);
    if Records(steps[k], i) {
      var r: nat :| ReadAt(steps, r, k, i) && !Overtaken(steps, r, k, i);
      hide Promptly;
      assert j <= r;
      assert Reads(steps[from]) && Reads(steps[r]);
    } else {
      assert Reads(steps[from]) && Reads(steps[k]);
    }
  }

  lemma LastReading(steps: seq<Step>, i: nat, j: nat) returns (from: nat)
    requires Promptly(steps, i) && j < |steps| && Concerns(steps[j], i)
    ensures from <= j && Reads(steps[from]) && steps[from].at == steps[j].at
  {
    if Records(steps[j], i) {
      var r: nat :| ReadAt(steps, r, j, i) && !Overtaken(steps, r, j, i);
      from := r;
    } else {
      from := j;
    }
  }

  // ---------- closed under concatenation ----------

  lemma PromptlyConcat(a: seq<Step>, b: seq<Step>, i: nat)
    requires Promptly(a, i) && Promptly(b, i)
    ensures Promptly(a + b, i)
  {
    var all := a + b;
    forall k | 0 <= k < |all| && Records(all[k], i) ensures exists r: nat :: ReadAt(all, r, k, i) && !Overtaken(all, r, k, i) {
      if k < |a| {
        var r: nat :| ReadAt(a, r, k, i) && !Overtaken(a, r, k, i);
        assert forall m :: r < m < k ==> all[m] == a[m];
        assert ReadAt(all, r, k, i) && !Overtaken(all, r, k, i);
      } else {
        var at := k - |a|;
        assert all[k] == b[at];
        var r: nat :| ReadAt(b, r, at, i) && !Overtaken(b, r, at, i);
        assert forall m :: r + |a| < m < k ==> all[m] == b[m - |a|];
        assert ReadAt(all, r + |a|, k, i) && !Overtaken(all, r + |a|, k, i);
      }
    }
  }

  lemma ReadBeforeConcat(a: seq<Step>, b: seq<Step>, i: nat)
    requires ReadBefore(a, i) && ReadBefore(b, i)
    ensures ReadBefore(a + b, i)
  {
    var all := a + b;
    forall k | 0 <= k < |all| && Records(all[k], i) ensures exists r: nat :: ReadAt(all, r, k, i) {
      if k < |a| {
        var r: nat :| ReadAt(a, r, k, i);
        assert ReadAt(all, r, k, i);
      } else {
        assert all[k] == b[k - |a|];
        var r: nat :| ReadAt(b, r, k - |a|, i);
        assert ReadAt(all, r + |a|, k, i);
      }
    }
  }

  ghost predicate NoneConcerns(steps: seq<Step>, i: nat) {
    forall k :: 0 <= k < |steps| ==> !Concerns(steps[k], i)
  }

  // ---------- every recording of a nested execution was read before ----------

  lemma {:induction false} CallReads(m: Manager, call: Call, i: nat)
    requires m.Valid() && Fits(call, |m.rules|)
    ensures ReadBefore(Steps(m, call), i)
    decreases call, |m.rules| + 1
  {
    hide RuleSteps;
    RulesRead(m, call, |m.rules|, i);
  }

  lemma {:induction false} RulesRead(m: Manager, call: Call, n: nat, i: nat)
    requires m.Valid() && Fits(call, |m.rules|) && n <= |m.rules|
    ensures ReadBefore(RuleSteps(m, call, n), i)
    ensures Attached(m.rules, call) && (call.WorkflowSettled? || call.ActivityCompleted?) ==>
      RuleSteps(m, call, n) != [] && RuleSteps(m, call, n)[0] == ReadClock(call.recordedAt)
    decreases call, n
  {
    hide RuleSteps, TurnSteps, Run, RunRules, Evaluates, Recording, Attached;
    if n == 0 {
      NoRuleSteps(m, call);
    } else {
      hide ReadBefore, Opening;
      RulesRead(m, call, n - 1, i);
      if Evaluates(call, m.rules[n - 1]) {
        NextRuleSteps(m, call, n - 1);
        EvaluatedIsAttached(m.rules, call, n - 1);
        var recorded := Run(RunRules(StatusFirst, m, call, n - 1), Recording(call, n - 1));
        var earlier := RuleSteps(m, call, n - 1);
        RecordingRead(earlier, call, n - 1, i);
        TurnReads(recorded, n - 1, call.turns[n - 1], i);
        ReadBeforeConcat(earlier + Recording(call, n - 1), TurnSteps(recorded, n - 1, call.turns[n - 1]), i);
      } else {
        SameRuleSteps(m, call, n - 1);
      }
    }
  }

  lemma EvaluatedIsAttached(rules: seq<Rule>, call: Call, n: nat)
    requires n < |rules| && Evaluates(call, rules[n])
    ensures Attached(rules, call)
  {
  }

  lemma RecordingRead(earlier: seq<Step>, call: Call, n: nat, i: nat)
    requires ReadBefore(earlier, i)
    requires call.WorkflowSettled? || call.ActivityCompleted? ==> earlier != [] && earlier[0] == ReadClock(call.recordedAt)
    ensures ReadBefore(earlier + Recording(call, n), i)
  {
    var all := earlier + Recording(call, n);
    forall k | 0 <= k < |all| && Records(all[k], i) ensures exists r: nat :: ReadAt(all, r, k, i) {
      if k < |earlier| {
        var r: nat :| ReadAt(earlier, r, k, i);
        assert ReadAt(all, r, k, i);
      } else {
        assert ReadAt(all, 0, k, i);
      }
    }
  }

  lemma {:induction false} TurnReads(m: Manager, n: nat, turn: Turn, i: nat)
    requires m.Valid() && n < |m.rules| && TurnFits(turn, |m.rules|)
    ensures ReadBefore(TurnSteps(m, n, turn), i)
    decreases turn, |turn.reaction| + 1
  {
    hide ReactionSteps, Read, AfterEvaluate;
    var first := [Evaluate(n, turn.at)];
    assert ReadBefore(first, i);
    var after := AfterEvaluate(m, n, turn.at);
    ReactionReads(after, turn, |turn.reaction|, i);
    ReadBeforeConcat(first, ReactionSteps(after, turn, |turn.reaction|), i);
    assert first + [] == first;
  }

  lemma {:induction false} ReactionReads(m: Manager, turn: Turn, k: nat, i: nat)
    requires m.Valid() && TurnFits(turn, |m.rules|) && k <= |turn.reaction|
    ensures ReadBefore(ReactionSteps(m, turn, k), i)
    decreases turn, k
  {
    if k == 0 {
    } else {
      hide Steps, React, ReadBefore;
      ReactionReads(m, turn, k - 1, i);
      var before := React(StatusFirst, m, turn, k - 1);
      CallReads(before, turn.reaction[k - 1], i);
      ReadBeforeConcat(ReactionSteps(m, turn, k - 1), Steps(before, turn.reaction[k - 1]), i);
    }
  }

  lemma {:induction false} RunReads(m: Manager, calls: seq<Call>, i: nat)
    requires m.Valid() && AllFit(calls, |m.rules|)
    ensures ReadBefore(AllSteps(m, calls), i)
  {
    if calls == [] {
    } else {
      hide Steps, HandleAll, ReadBefore, Fits;
      var front, last := calls[..|calls| - 1], calls[|calls| - 1];
      RunReads(m, front, i);
      var before := HandleAll(StatusFirst, m, front);
      CallReads(before, last, i);
      ReadBeforeConcat(AllSteps(m, front), Steps(before, last), i);
    }
  }

  /** The rule's value and status are those of the full, unpruned history at its last evaluation. */
  ghost predicate AgreesWithHistory(rules: seq<Rule>, calls: seq<Call>, i: nat)
    requires i < |rules| && AllFit(calls, |rules|)
  {
    var steps := AllSteps(Initial(rules), calls);
    var state := HandleAll(StatusFirst, Initial(rules), calls).states[i];
    state.currentValue == ValueFromHistory(rules, steps, i) && state.status == StatusFromHistory(rules, steps, i)
  }

  /**
   * Over every nested run of events and ticks, whatever the clock does, a rule's last evaluation read exactly
   * the history within its window if and only if it was ready, and then the rule agrees with the history.
   */
  lemma NestedRefinesHistory(rules: seq<Rule>, calls: seq<Call>, i: nat)
    requires i < |rules| && AllFit(calls, |rules|)
    ensures var steps := AllSteps(Initial(rules), calls);
            && (LastShowedHistory(rules, steps, i) <==> LastReady(rules, steps, i))
            && (LastReady(rules, steps, i) ==> AgreesWithHistory(rules, calls, i))
  {
    hide AllSteps, Run, HandleAll, LastReady, LastShowedHistory;
    ManagerRefinesHistory(rules, AllSteps(Initial(rules), calls), i);
    NestedIsRun(Initial(rules), calls);
  }

  /** Under a clock whose readings never go back, it is enough that every prune of the window met a split deque. */
  lemma SplitRunsAgree(rules: seq<Rule>, calls: seq<Call>, i: nat)
    requires i < |rules| && AllFit(calls, |rules|)
    requires var steps := AllSteps(Initial(rules), calls); ClockForward(steps) && WindowSplits(rules, steps, i)
    ensures AgreesWithHistory(rules, calls, i)
  {
    hide AllSteps, Run, HandleAll, ClockForward, WindowSplits, ReadBefore, EvaluatedLatest, LastReady, LastShowedHistory, AgreesWithHistory;
    var steps := AllSteps(Initial(rules), calls);
    RunReads(Initial(rules), calls, i);
    EvaluationsAreLatest(steps, i);
    SplitsAreReady(rules, steps, i);
    NestedRefinesHistory(rules, calls, i);
  }

  // ---------- rules that no listener can overtake ----------

  predicate RecordsTime(call: Call) {
    call.WorkflowSettled? || call.ActivityCompleted?
  }

  /**
   * While a handler that records for rule `i` is on its way to it, no listener is at work: the rules it
   * evaluates before `i` set off no reaction. The same holds in every reaction further on.
   */
  ghost predicate Undisturbed(rules: seq<Rule>, call: Call, i: nat)
    requires i < |rules| && Fits(call, |rules|)
  {
    && (RecordsTime(call) && Evaluates(call, rules[i]) ==>
          forall n :: 0 <= n < i && Evaluates(call, rules[n]) ==> call.turns[n].reaction == [])
    && forall n :: 0 <= n < |rules| ==> TurnUndisturbed(rules, call.turns[n], i)
  }

  ghost predicate TurnUndisturbed(rules: seq<Rule>, turn: Turn, i: nat)
    requires i < |rules| && TurnFits(turn, |rules|)
  {
    forall k :: 0 <= k < |turn.reaction| ==> Undisturbed(rules, turn.reaction[k], i)
  }

  ghost predicate AllUndisturbed(rules: seq<Rule>, calls: seq<Call>, i: nat)
    requires i < |rules| && AllFit(calls, |rules|)
  {
    forall k :: 0 <= k < |calls| ==> Undisturbed(rules, calls[k], i)
  }

  lemma {:induction false} CallPrompt(m: Manager, call: Call, i: nat)
    requires m.Valid() && Fits(call, |m.rules|) && i < |m.rules| && Undisturbed(m.rules, call, i)
    ensures Promptly(Steps(m, call), i)
    decreases call, |m.rules| + 1
  {
    hide RuleSteps;
    RulesPrompt(m, call, |m.rules|, i);
  }

  /** What the handler has done so far ends in a reading that nothing about rule `i` has followed. */
  ghost predicate Approaching(steps: seq<Step>, call: Call, i: nat) {
    RecordsTime(call) ==> steps != [] && steps[0] == ReadClock(call.recordedAt) && NoneConcerns(steps, i)
  }

  lemma {:induction false} RulesPrompt(m: Manager, call: Call, n: nat, i: nat)
    requires m.Valid() && Fits(call, |m.rules|) && n <= |m.rules| && i < |m.rules| && Undisturbed(m.rules, call, i)
    ensures Promptly(RuleSteps(m, call, n), i)
    ensures Evaluates(call, m.rules[i]) && n <= i ==> Approaching(RuleSteps(m, call, n), call, i)
    decreases call, n
  {
    hide RuleSteps, TurnSteps, Run, RunRules, Evaluates, Recording;
    if n == 0 {
      NoRuleSteps(m, call);
      if Evaluates(call, m.rules[i]) {
        EvaluatedIsAttached(m.rules, call, i);
      }
    } else {
      hide Promptly, Approaching, Opening, RecordsTime;
      RulesPrompt(m, call, n - 1, i);
      if Evaluates(call, m.rules[n - 1]) {
        NextRuleSteps(m, call, n - 1);
        var recorded, turn := Run(RunRules(StatusFirst, m, call, n - 1), Recording(call, n - 1)), call.turns[n - 1];
        var earlier := RuleSteps(m, call, n - 1);
        RecordingPrompt(earlier, call, n - 1, i);
        TurnPrompt(recorded, n - 1, turn, i);
        PromptlyConcat(earlier + Recording(call, n - 1), TurnSteps(recorded, n - 1, turn), i);
        if Evaluates(call, m.rules[i]) && n <= i {
          ApproachContinues(recorded, earlier, call, n - 1, turn, i);
        }
      } else {
        SameRuleSteps(m, call, n - 1);
      }
    }
  }

  lemma RecordingPrompt(earlier: seq<Step>, call: Call, n: nat, i: nat)
    requires Promptly(earlier, i) && (n == i ==> Approaching(earlier, call, i))
    ensures Promptly(earlier + Recording(call, n), i)
  {
    var all := earlier + Recording(call, n);
    forall k | 0 <= k < |all| && Records(all[k], i) ensures exists r: nat :: ReadAt(all, r, k, i) && !Overtaken(all, r, k, i) {
      if k < |earlier| {
        var r: nat :| ReadAt(earlier, r, k, i) && !Overtaken(earlier, r, k, i);
        assert forall m :: r < m < k ==> all[m] == earlier[m];
        assert ReadAt(all, r, k, i) && !Overtaken(all, r, k, i);
      } else {
        assert forall m :: 0 <= m < k ==> all[m] == earlier[m];
        assert ReadAt(all, 0, k, i) && !Overtaken(all, 0, k, i);
      }
    }
  }

  lemma ApproachContinues(m: Manager, earlier: seq<Step>, call: Call, n: nat, turn: Turn, i: nat)
    requires m.Valid() && n < |m.rules| && TurnFits(turn, |m.rules|) && n < i && Approaching(earlier, call, i)
    requires RecordsTime(call) ==> turn.reaction == []
    ensures Approaching(earlier + Recording(call, n) + TurnSteps(m, n, turn), call, i)
  {
    hide Read, AfterEvaluate;
  }

  lemma {:induction false} TurnPrompt(m: Manager, n: nat, turn: Turn, i: nat)
    requires m.Valid() && n < |m.rules| && TurnFits(turn, |m.rules|) && i < |m.rules| && TurnUndisturbed(m.rules, turn, i)
    ensures Promptly(TurnSteps(m, n, turn), i)
    decreases turn, |turn.reaction| + 1
  {
    hide ReactionSteps, Read, AfterEvaluate;
    var first := [Evaluate(n, turn.at)];
    assert Promptly(first, i);
    var after := AfterEvaluate(m, n, turn.at);
    ReactionPrompt(after, turn, |turn.reaction|, i);
    PromptlyConcat(first, ReactionSteps(after, turn, |turn.reaction|), i);
    assert first + [] == first;
  }

  lemma {:induction false} ReactionPrompt(m: Manager, turn: Turn, k: nat, i: nat)
    requires m.Valid() && TurnFits(turn, |m.rules|) && k <= |turn.reaction| && i < |m.rules| && TurnUndisturbed(m.rules, turn, i)
    ensures Promptly(ReactionSteps(m, turn, k), i)
    decreases turn, k
  {
    if k == 0 {
    } else {
      hide Steps, React, Promptly;
      ReactionPrompt(m, turn, k - 1, i);
      var before := React(StatusFirst, m, turn, k - 1);
      CallPrompt(before, turn.reaction[k - 1], i);
      PromptlyConcat(ReactionSteps(m, turn, k - 1), Steps(before, turn.reaction[k - 1]), i);
    }
  }

  lemma {:induction false} RunPrompt(m: Manager, calls: seq<Call>, i: nat)
    requires m.Valid() && AllFit(calls, |m.rules|) && i < |m.rules| && AllUndisturbed(m.rules, calls, i)
    ensures Promptly(AllSteps(m, calls), i)
  {
    if calls == [] {
    } else {
      hide Steps, HandleAll, Promptly, Undisturbed, Fits;
      var front, last := calls[..|calls| - 1], calls[|calls| - 1];
      RunPrompt(m, front, i);
      var before := HandleAll(StatusFirst, m, front);
      CallPrompt(before, last, i);
      PromptlyConcat(AllSteps(m, front), Steps(before, last), i);
    }
  }

  /** A rule that no listener can overtake agrees with the full history over every nested run. */
  lemma UndisturbedRefinesHistory(rules: seq<Rule>, calls: seq<Call>, i: nat)
    requires i < |rules| && AllFit(calls, |rules|) && AllUndisturbed(rules, calls, i)
    requires ClockForward(AllSteps(Initial(rules), calls))
    ensures AgreesWithHistory(rules, calls, i)
  {
    hide AgreesWithHistory, AllSteps, Run, HandleAll, ClockForward, WindowSplits, Promptly, ClockNeverGoesBack, AllUndisturbed;
    var steps := AllSteps(Initial(rules), calls);
    RunPrompt(Initial(rules), calls, i);
    PromptMeansOrdered(steps, i);
    OrderedTimesSplit(rules, steps, i);
    SplitRunsAgree(rules, calls, i);
  }

  /** The first rule of its metric is never overtaken, whatever listeners do. */
  lemma {:induction false} FirstOfMetricUndisturbed(rules: seq<Rule>, call: Call, i: nat)
    requires i < |rules| && Fits(call, |rules|)
    requires forall n :: 0 <= n < i ==> rules[n].metric != rules[i].metric
    ensures Undisturbed(rules, call, i)
    decreases call
  {
    forall n | 0 <= n < |rules| ensures TurnUndisturbed(rules, call.turns[n], i) {
      forall k | 0 <= k < |call.turns[n].reaction| ensures Undisturbed(rules, call.turns[n].reaction[k], i) {
        FirstOfMetricUndisturbed(rules, call.turns[n].reaction[k], i);
      }
    }
  }

  /** So the first rule of its metric always agrees with the full history. */
  lemma FirstOfMetricRefinesHistory(rules: seq<Rule>, calls: seq<Call>, i: nat)
    requires i < |rules| && AllFit(calls, |rules|) && ClockForward(AllSteps(Initial(rules), calls))
    requires forall n :: 0 <= n < i ==> rules[n].metric != rules[i].metric
    ensures AgreesWithHistory(rules, calls, i)
  {
    hide AgreesWithHistory, AllSteps, HandleAll, ClockForward, Undisturbed, Fits;
    forall k | 0 <= k < |calls| ensures Undisturbed(rules, calls[k], i) {
      FirstOfMetricUndisturbed(rules, calls[k], i);
    }
    UndisturbedRefinesHistory(rules, calls, i);
  }

  /** No listener ever calls back. */
  /** Without listeners that re-enter, every rule agrees with the full history. */
  lemma RunRefinesHistory(rules: seq<Rule>, calls: seq<Call>, i: nat)
    requires i < |rules| && AllFit(calls, |rules|) && NoReentry(calls) && ClockForward(AllSteps(Initial(rules), calls))
    ensures AgreesWithHistory(rules, calls, i)
  {
    hide AgreesWithHistory, AllSteps, HandleAll, ClockForward;
    forall k | 0 <= k < |calls| ensures Undisturbed(rules, calls[k], i) {
      assert Quiet(calls[k]);
      assert forall n :: 0 <= n < |rules| ==> calls[k].turns[n].reaction == [] && TurnUndisturbed(rules, calls[k].turns[n], i);
    }
    UndisturbedRefinesHistory(rules, calls, i);
  }
}
