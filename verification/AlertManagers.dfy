/** The alert manager as the object it is: rule states, windows that are objects of their own, and handlers. */
module AlertManagers {
  import opened Basics
  import opened SlidingWindow
  import opened AlertModel
  import opened AlertCalls

  datatype WindowRef = CounterRef(counter: CounterWindow) | HistogramRef(histogram: HistogramWindow)

  function Object(window: WindowRef): object {
    match window
    case CounterRef(counter) => counter
    case HistogramRef(histogram) => histogram
  }

  /** The window has the kind and the length its rule asks for. */
  predicate Suits(window: WindowRef, rule: Rule) {
    match window
    case CounterRef(counter) => rule.metric == FailureRate && counter.windowMs == rule.windowMs
    case HistogramRef(histogram) => rule.metric == P99Duration && histogram.windowMs == rule.windowMs
  }

  ghost predicate Sound(window: WindowRef)
    reads Object(window)
  {
    match window
    case CounterRef(counter) => counter.Valid()
    case HistogramRef(histogram) => histogram.Valid()
  }

  ghost predicate Empty(window: WindowRef)
    reads Object(window)
  {
    match window
    case CounterRef(counter) => counter.events == []
    case HistogramRef(histogram) => histogram.observations == []
  }

  method NewWindow(rule: Rule) returns (window: WindowRef)
    requires rule.metric != StorageSize
    ensures fresh(Object(window)) && Suits(window, rule) && Sound(window) && Empty(window)
  {
    if rule.metric == FailureRate {
      var counter := new CounterWindow(rule.windowMs);
      window := CounterRef(counter);
    } else {
      var histogram := new HistogramWindow(rule.windowMs);
      window := HistogramRef(histogram);
    }
  }

  method NewWindows(rules: seq<Rule>) returns (windows: map<nat, WindowRef>)
    ensures forall i: nat :: i in windows <==> i < |rules| && rules[i].metric != StorageSize
    ensures forall i :: i in windows ==> fresh(Object(windows[i]))
    ensures forall i :: i in windows ==> Suits(windows[i], rules[i]) && Sound(windows[i]) && Empty(windows[i])
    ensures forall i, j :: i in windows && j in windows && i != j ==> Object(windows[i]) != Object(windows[j])
  {
    hide Suits, Sound, Empty;
    windows := map[];
    for n := 0 to |rules|
      invariant forall i: nat :: i in windows <==> i < n && rules[i].metric != StorageSize
      invariant forall i :: i in windows ==> fresh(Object(windows[i]))
      invariant forall i :: i in windows ==> Suits(windows[i], rules[i]) && Sound(windows[i]) && Empty(windows[i])
      invariant forall i, j :: i in windows && j in windows && i != j ==> Object(windows[i]) != Object(windows[j])
    {
      if rules[n].metric != StorageSize {
        var window := NewWindow(rules[n]);
        windows := windows[n := window];
      }
    }
  }

  // ---------- unfolding the nested execution ----------

  lemma NextRule(m: Manager, call: Call, n: nat)
    requires m.Valid() && Fits(call, |m.rules|) && n < |m.rules| && Evaluates(call, m.rules[n])
    ensures AllApply(Recording(call, n), m.rules)
    ensures RunRules(StatusFirst, m, call, n + 1) ==
      Evaluated(StatusFirst, Run(RunRules(StatusFirst, m, call, n), Recording(call, n)), n, call.turns[n])
  {
    hide Run, Evaluated, Evaluates;
    RecordingApplies(m.rules, call, n);
  }

  lemma SkippedRule(m: Manager, call: Call, n: nat)
    requires m.Valid() && Fits(call, |m.rules|) && n < |m.rules| && !Evaluates(call, m.rules[n])
    ensures RunRules(StatusFirst, m, call, n + 1) == RunRules(StatusFirst, m, call, n)
  {
    hide Run, Evaluated, Evaluates;
  }

  lemma {:induction false} NotAttached(m: Manager, call: Call, n: nat)
    requires m.Valid() && Fits(call, |m.rules|) && n <= |m.rules| && !Attached(m.rules, call)
    ensures RunRules(StatusFirst, m, call, n) == m
    decreases n
  {
    if n == 0 {
      assert Run(m, []) == m;
    } else {
      hide Evaluated, Fits;
      NotAttached(m, call, n - 1);
      assert !Evaluates(call, m.rules[n - 1]);
      SkippedRule(m, call, n - 1);
    }
  }

  lemma OpenedWithoutChange(m: Manager, call: Call)
    requires m.Valid() && Fits(call, |m.rules|) && !call.StorageSizeReported?
    ensures RunRules(StatusFirst, m, call, 0) == m
  {
    hide Fits;
    assert Run(m, []) == m;
    if call.WorkflowSettled? || call.ActivityCompleted? {
      RunOne(m, ReadClock(call.recordedAt));
    }
  }

  lemma NothingRecorded(m: Manager)
    requires m.Valid()
    ensures Run(m, []) == m
  {
  }

  class AlertManager {
    const rules: seq<Rule>
    var states: seq<AlertState>
    var windows: map<nat, WindowRef>
    var latestStorageSize: real
    var dispatched: seq<Notice>

    ghost function Windows(): set<object>
      reads this
    {
      set i | i in windows :: Object(windows[i])
    }

    /** Each rule with a window has its own, of the kind and length the rule asks for. */
    ghost predicate Shaped()
      reads this
    {
      && |states| == |rules|
      && (forall i: nat :: i in windows <==> i < |rules| && rules[i].metric != StorageSize)
      && (forall i :: i in windows ==> Suits(windows[i], rules[i]))
      && (forall i, j :: i in windows && j in windows && i != j ==> Object(windows[i]) != Object(windows[j]))
    }

    ghost predicate Valid()
      reads this, Windows()
    {
      Shaped() && forall i :: i in windows ==> Object(windows[i]) in Windows() && Sound(windows[i])
    }

    ghost function OutcomesOf(i: nat): seq<Outcome>
      reads this, if i in windows then {Object(windows[i])} else {}
    {
      if i in windows && windows[i].CounterRef? then windows[i].counter.events else []
    }

    ghost function ObservationsOf(i: nat): seq<Observation>
      reads this, if i in windows then {Object(windows[i])} else {}
    {
      if i in windows && windows[i].HistogramRef? then windows[i].histogram.observations else []
    }

    ghost function View(): (m: Manager)
      requires Valid()
      reads this, Windows()
      ensures m.Valid() && m.rules == rules
    {
      Manager(rules, states,
        seq(|rules|, i requires 0 <= i < |rules| reads this, Windows() => InView(i); OutcomesOf(i)),
        seq(|rules|, i requires 0 <= i < |rules| reads this, Windows() => InView(i); ObservationsOf(i)),
        latestStorageSize, dispatched)
    }

    lemma InView(i: nat)
      ensures i in windows ==> Object(windows[i]) in Windows()
    {
    }

    constructor (rules: seq<Rule>)
      ensures Valid() && View() == Initial(rules) && fresh(Windows())
    {
      this.rules := rules;
      states := Repeat(|rules|, AlertState(Idle, 0.0, None, None));
      latestStorageSize, dispatched := 0.0, [];
      var created := NewWindows(rules);
      windows := created;
      new;
      hide Sound, Suits;
      StartsEmpty();
    }

    lemma StartsEmpty()
      requires Valid() && latestStorageSize == 0.0 && dispatched == []
      requires states == Repeat(|rules|, AlertState(Idle, 0.0, None, None))
      requires forall i :: i in windows ==> Empty(windows[i])
      ensures View() == Initial(rules)
    {
      hide Sound, Suits;
      assert View().outcomes == Initial(rules).outcomes;
      assert View().observations == Initial(rules).observations;
    }

    method RecordOutcomeAt(i: nat, at: int, failed: bool)
      requires Valid() && i < |rules| && rules[i].metric == FailureRate
      modifies Windows()
      ensures Valid() && windows == old(windows)
      ensures View() == Apply(old(View()), RecordOutcome(i, at, failed))
    {
      hide Pruned, CounterWindow.Valid, HistogramWindow.Valid;
      var counter := windows[i].counter;
      ghost var before := View();
      counter.Record(at, failed);
      assert forall j :: j in windows && j != i ==> Object(windows[j]) != counter;
      assert View().outcomes == before.outcomes[i := counter.events];
      assert View().observations == before.observations;
    }

    method RecordDurationAt(i: nat, at: int, duration: real)
      requires Valid() && i < |rules| && rules[i].metric == P99Duration
      modifies Windows()
      ensures Valid() && windows == old(windows)
      ensures View() == Apply(old(View()), RecordDuration(i, at, duration))
    {
      hide Pruned, CounterWindow.Valid, HistogramWindow.Valid;
      var histogram := windows[i].histogram;
      ghost var before := View();
      histogram.Record(at, duration);
      assert forall j :: j in windows && j != i ==> Object(windows[j]) != histogram;
      assert View().observations == before.observations[i := histogram.observations];
      assert View().outcomes == before.outcomes;
    }

    /** Reads a rule's metric, which prunes its window. */
    method ReadMetric(i: nat, now: int) returns (value: real)
      requires Valid() && i < |rules|
      modifies Windows()
      ensures Valid() && windows == old(windows)
      ensures View() == PrunedFor(old(View()), i, now) && value == MetricValue(View(), i)
    {
      hide Pruned, RateOf, PercentileOf, ValuesOf, CounterWindow.Valid, HistogramWindow.Valid;
      value := 0.0;
      ghost var before := View();
      match rules[i].metric
      case FailureRate =>
        var counter := windows[i].counter;
        value := counter.Rate(now);
        assert forall j :: j in windows && j != i ==> Object(windows[j]) != counter;
        assert View().outcomes == before.outcomes[i := counter.events] && View().observations == before.observations;
      case P99Duration =>
        var histogram := windows[i].histogram;
        value := histogram.Percentile(99.0, now);
        assert forall j :: j in windows && j != i ==> Object(windows[j]) != histogram;
        assert View().observations == before.observations[i := histogram.observations] && View().outcomes == before.outcomes;
      case StorageSize =>
        value := latestStorageSize;
    }

    /** The metric is read and stored in the rule's state. */
    method Measure(i: nat, now: int)
      requires Valid() && i < |rules|
      modifies this`states, Windows()
      ensures Valid() && windows == old(windows)
      ensures View() == Read(old(View()), i, now)
    {
      hide Shaped, Sound, PrunedFor, MetricValue;
      var value := ReadMetric(i, now);
      StoreValue(i, value);
    }

    method StoreValue(i: nat, value: real)
      requires Valid() && i < |rules|
      modifies this`states
      ensures Valid() && windows == old(windows)
      ensures View() == old(View()).(states := old(View()).states[i := old(View()).states[i].(currentValue := value)])
    {
      hide Sound, Suits;
      states := states[i := states[i].(currentValue := value)];
      assert View().outcomes == old(View()).outcomes && View().observations == old(View()).observations;
    }

    /** The comparison with the threshold; a change of status is stored and is to be announced. */
    method Settle(i: nat, now: int) returns (notice: Option<Notice>)
      requires Valid() && i < |rules|
      modifies this`states
      ensures Valid() && windows == old(windows)
      ensures notice == NoticeFor(old(View()), i, now)
      ensures View() == if notice.Some? then Mark(old(View()), notice.value) else old(View())
    {
      hide Sound, Suits;
      var value, threshold := states[i].currentValue, rules[i].threshold;
      notice := None;
      if value >= threshold && states[i].status == Idle {
        states := states[i := states[i].(status := Firing, lastFiredAt := Some(now))];
        notice := Some(Fired(i, value, now));
      } else if value < threshold && states[i].status == Firing {
        states := states[i := states[i].(status := Idle, lastResolvedAt := Some(now))];
        notice := Some(Resolved(i, value, now));
      }
      assert View().outcomes == old(View()).outcomes && View().observations == old(View()).observations;
    }

    method Announce(notice: Notice)
      requires Valid()
      modifies this`dispatched
      ensures Valid() && windows == old(windows)
      ensures View() == Send(old(View()), notice)
    {
      hide Sound, Suits;
      dispatched := dispatched + [notice];
      assert View().outcomes == old(View()).outcomes && View().observations == old(View()).observations;
    }

    /** `#evaluate`: the status is set, then the notice is dispatched, and listeners may call back meanwhile. */
    method EvaluateRule(i: nat, turn: Turn)
      requires Valid() && i < |rules| && TurnFits(turn, |rules|)
      modifies this`states, this`dispatched, this`latestStorageSize, Windows()
      ensures Valid() && windows == old(windows)
      ensures View() == Evaluated(StatusFirst, old(View()), i, turn)
      decreases turn, 0
    {
      hide Shaped, Sound, Read, Mark, Send, NoticeFor;
      Measure(i, turn.at);
      var notice := Settle(i, turn.at);
      if notice.None? { return; }
      Announce(notice.value);
      ghost var sent := View();
      hide Fits, Handle;
      for k := 0 to |turn.reaction|
        invariant Valid() && windows == old(windows)
        invariant View() == React(StatusFirst, sent, turn, k)
      {
        HandleCall(turn.reaction[k]);
      }
    }

    /** The entry points, as listeners reach them. */
    method HandleCall(call: Call)
      requires Valid() && Fits(call, |rules|)
      modifies this`states, this`dispatched, this`latestStorageSize, Windows()
      ensures Valid() && windows == old(windows)
      ensures View() == Handle(StatusFirst, old(View()), call)
      decreases call, 1
    {
      hide Handle, Fits, Shaped, Sound;
      match call
      case WorkflowSettled(_, _, _) => OnWorkflowSettled(call);
      case ActivityCompleted(_, _, _) => OnActivityCompleted(call);
      case StorageSizeReported(_, _) => OnStorageSizeReported(call);
      case Ticked(_) => Tick(call);
    }

    /** `workflow:completed` and the three failure events. */
    method OnWorkflowSettled(call: Call)
      requires Valid() && Fits(call, |rules|) && call.WorkflowSettled?
      modifies this`states, this`dispatched, this`latestStorageSize, Windows()
      ensures Valid() && windows == old(windows)
      ensures View() == Handle(StatusFirst, old(View()), call)
      decreases call, 0
    {
      hide Shaped, Sound, Apply, RunRules, Evaluated, Run, TurnFits;
      ghost var start := View();
      OpenedWithoutChange(start, call);
      for i := 0 to |rules|
        invariant Valid() && windows == old(windows)
        invariant View() == RunRules(StatusFirst, start, call, i)
      {
        if rules[i].metric != FailureRate {
          SkippedRule(start, call, i);
          continue;
        }
        NextRule(start, call, i);
        RunOne(View(), RecordOutcome(i, call.recordedAt, call.failed));
        RecordOutcomeAt(i, call.recordedAt, call.failed);
        EvaluateRule(i, call.turns[i]);
      }
    }

    /** `activity:completed` */
    method OnActivityCompleted(call: Call)
      requires Valid() && Fits(call, |rules|) && call.ActivityCompleted?
      modifies this`states, this`dispatched, this`latestStorageSize, Windows()
      ensures Valid() && windows == old(windows)
      ensures View() == Handle(StatusFirst, old(View()), call)
      decreases call, 0
    {
      hide Shaped, Sound, Apply, RunRules, Evaluated, Run, TurnFits;
      ghost var start := View();
      OpenedWithoutChange(start, call);
      for i := 0 to |rules|
        invariant Valid() && windows == old(windows)
        invariant View() == RunRules(StatusFirst, start, call, i)
      {
        if rules[i].metric != P99Duration {
          SkippedRule(start, call, i);
          continue;
        }
        NextRule(start, call, i);
        RunOne(View(), RecordDuration(i, call.recordedAt, call.duration));
        RecordDurationAt(i, call.recordedAt, call.duration);
        EvaluateRule(i, call.turns[i]);
      }
    }

    /** `storage:size-reported`; without a storage rule no listener is attached, and the size is not even stored. */
    method OnStorageSizeReported(call: Call)
      requires Valid() && Fits(call, |rules|) && call.StorageSizeReported?
      modifies this`states, this`dispatched, this`latestStorageSize, Windows()
      ensures Valid() && windows == old(windows)
      ensures View() == Handle(StatusFirst, old(View()), call)
      decreases call, 0
    {
      hide Shaped, Sound, Apply, RunRules, Evaluated, TurnFits;
      ghost var start := View();
      if !exists i :: 0 <= i < |rules| && rules[i].metric == StorageSize {
        NotAttached(start, call, |rules|);
        return;
      }
      SizeStored(start, call);
      hide Run;
      StoreSize(call.size);
      for i := 0 to |rules|
        invariant Valid() && windows == old(windows)
        invariant View() == RunRules(StatusFirst, start, call, i)
      {
        if rules[i].metric != StorageSize {
          SkippedRule(start, call, i);
          continue;
        }
        NextRule(start, call, i);
        NothingRecorded(View());
        EvaluateRule(i, call.turns[i]);
      }
    }

    method StoreSize(size: real)
      requires Valid()
      modifies this`latestStorageSize
      ensures Valid() && windows == old(windows)
      ensures View() == Apply(old(View()), ReportSize(size))
    {
      hide Sound, Suits;
      latestStorageSize := size;
      assert View().outcomes == old(View()).outcomes && View().observations == old(View()).observations;
    }

    /** `tick` and the periodic re-evaluation. */
    method Tick(call: Call)
      requires Valid() && Fits(call, |rules|) && call.Ticked?
      modifies this`states, this`dispatched, this`latestStorageSize, Windows()
      ensures Valid() && windows == old(windows)
      ensures View() == Handle(StatusFirst, old(View()), call)
      decreases call, 0
    {
      hide Shaped, Sound, RunRules, Evaluated, Run, TurnFits;
      ghost var start := View();
      OpenedWithoutChange(start, call);
      for i := 0 to |rules|
        invariant Valid() && windows == old(windows)
        invariant View() == RunRules(StatusFirst, start, call, i)
      {
        NextRule(start, call, i);
        NothingRecorded(View());
        EvaluateRule(i, call.turns[i]);
      }
    }
  }

  lemma SizeStored(m: Manager, call: Call)
    requires m.Valid() && Fits(call, |m.rules|) && call.StorageSizeReported? && Attached(m.rules, call)
    ensures RunRules(StatusFirst, m, call, 0) == Apply(m, ReportSize(call.size))
  {
    hide Fits;
    RunOne(m, ReportSize(call.size));
  }
}
