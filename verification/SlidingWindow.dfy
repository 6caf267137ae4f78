/** The sliding windows behind alert metrics: a failure counter and a sorted histogram beside a deque. */
module SlidingWindow {
  import opened Sorting

  // ---------- the binary search for the cutoff ----------

  /** The search interval narrowed to a point, for entries in any order. */
  function SearchFrom<T>(entries: seq<T>, stamp: T -> int, cutoff: int, lo: nat, hi: nat): (r: nat)
    requires lo <= hi <= |entries|
    ensures lo <= r <= hi
    decreases hi - lo
  {
    if lo == hi then lo
    else
      var mid := (lo + hi) / 2;
      if stamp(entries[mid]) < cutoff then SearchFrom(entries, stamp, cutoff, mid + 1, hi)
      else SearchFrom(entries, stamp, cutoff, lo, mid)
  }

  function FirstKept<T>(entries: seq<T>, stamp: T -> int, cutoff: int): (r: nat)
    ensures r <= |entries|
  {
    SearchFrom(entries, stamp, cutoff, 0, |entries|)
  }

  method LowerBound<T>(entries: seq<T>, stamp: T -> int, cutoff: int) returns (r: nat)
    ensures r == FirstKept(entries, stamp, cutoff)
  {
    var lo, hi := 0, |entries|;
    while lo < hi
      invariant 0 <= lo <= hi <= |entries|
      invariant SearchFrom(entries, stamp, cutoff, lo, hi) == FirstKept(entries, stamp, cutoff)
    {
      var mid := (lo + hi) / 2;
      if stamp(entries[mid]) < cutoff {
        lo := mid + 1;
      } else {
        hi := mid;
      }
    }
    return lo;
  }

  ghost predicate Chronological<T>(entries: seq<T>, stamp: T -> int) {
    forall i, j :: 0 <= i < j < |entries| ==> stamp(entries[i]) <= stamp(entries[j])
  }

  /** Once an entry is recent enough, so are all that follow it. */
  ghost predicate SplitAt<T>(entries: seq<T>, stamp: T -> int, cutoff: int) {
    forall i, j :: 0 <= i < j < |entries| && cutoff <= stamp(entries[i]) ==> cutoff <= stamp(entries[j])
  }

  lemma ChronologicalSplits<T>(entries: seq<T>, stamp: T -> int, cutoff: int)
    requires Chronological(entries, stamp)
    ensures SplitAt(entries, stamp, cutoff)
  {
  }

  /** Where the entries do split, the search finds the place. */
  lemma {:induction false} SearchSplits<T>(entries: seq<T>, stamp: T -> int, cutoff: int, lo: nat, hi: nat)
    requires lo <= hi <= |entries| && SplitAt(entries, stamp, cutoff)
    requires forall i :: 0 <= i < lo ==> stamp(entries[i]) < cutoff
    requires forall i :: hi <= i < |entries| ==> cutoff <= stamp(entries[i])
    ensures var r := SearchFrom(entries, stamp, cutoff, lo, hi);
            && (forall i :: 0 <= i < r ==> stamp(entries[i]) < cutoff)
            && (forall i :: r <= i < |entries| ==> cutoff <= stamp(entries[i]))
    decreases hi - lo
  {
    if lo == hi {
    } else {
      var mid := (lo + hi) / 2;
      assert lo <= mid < hi;
      if stamp(entries[mid]) < cutoff {
        assert forall i :: 0 <= i < mid ==> stamp(entries[i]) < cutoff;
        SearchSplits(entries, stamp, cutoff, mid + 1, hi);
      } else {
        assert forall i :: mid < i < |entries| ==> cutoff <= stamp(entries[i]);
        SearchSplits(entries, stamp, cutoff, lo, mid);
      }
    }
  }

  function Pruned<T>(entries: seq<T>, stamp: T -> int, cutoff: int): seq<T> {
    entries[FirstKept(entries, stamp, cutoff)..]
  }

  /** The plain meaning of a window: the entries no older than the cutoff. */
  ghost function Within<T>(entries: seq<T>, stamp: T -> int, cutoff: int): seq<T> {
    if entries == [] then []
    else
      var last := entries[|entries| - 1];
      Within(entries[..|entries| - 1], stamp, cutoff) + if cutoff <= stamp(last) then [last] else []
  }

  lemma {:induction false} WithinSplit<T>(entries: seq<T>, stamp: T -> int, cutoff: int, n: nat)
    requires n <= |entries|
    requires forall i :: 0 <= i < n ==> stamp(entries[i]) < cutoff
    requires forall i :: n <= i < |entries| ==> cutoff <= stamp(entries[i])
    ensures Within(entries, stamp, cutoff) == entries[n..]
    decreases |entries|
  {
    if entries == [] {
    } else {
      var front, last := entries[..|entries| - 1], entries[|entries| - 1];
      if n == |entries| {
        WithinSplit(front, stamp, cutoff, n - 1);
      } else {
        WithinSplit(front, stamp, cutoff, n);
        assert entries[n..] == front[n..] + [last];
      }
    }
  }

  lemma {:induction false} WithinConcat<T>(a: seq<T>, b: seq<T>, stamp: T -> int, cutoff: int)
    ensures Within(a + b, stamp, cutoff) == Within(a, stamp, cutoff) + Within(b, stamp, cutoff)
  {
    if b == [] {
      assert a + b == a;
    } else {
      assert (a + b)[..|a + b| - 1] == a + b[..|b| - 1];
      WithinConcat(a, b[..|b| - 1], stamp, cutoff);
    }
  }

  lemma {:induction false} WithinIsRecent<T>(entries: seq<T>, stamp: T -> int, cutoff: int)
    ensures forall e :: e in Within(entries, stamp, cutoff) ==> cutoff <= stamp(e)
    ensures Within(entries, stamp, cutoff) == [] ==> forall i :: 0 <= i < |entries| ==> stamp(entries[i]) < cutoff
  {
    if entries == [] {
    } else {
      WithinIsRecent(entries[..|entries| - 1], stamp, cutoff);
    }
  }

  /** What a suffix holds is within the window only if it is all recent and nothing before it is. */
  lemma SuffixIsWithin<T>(entries: seq<T>, stamp: T -> int, cutoff: int, r: nat)
    requires r <= |entries| && entries[r..] == Within(entries, stamp, cutoff)
    ensures forall i :: 0 <= i < r ==> stamp(entries[i]) < cutoff
    ensures forall i :: r <= i < |entries| ==> cutoff <= stamp(entries[i])
  {
    hide Within;
    var before, after := entries[..r], entries[r..];
    assert before + after == entries;
    WithinConcat(before, after, stamp, cutoff);
    WithinIsRecent(entries, stamp, cutoff);
    WithinIsRecent(before, stamp, cutoff);
    forall i | r <= i < |entries| ensures cutoff <= stamp(entries[i]) {
      assert after[i - r] in after;
    }
    WithinSplit(after, stamp, cutoff, 0);
    assert |Within(before, stamp, cutoff)| == 0;
    assert forall i :: 0 <= i < r ==> before[i] == entries[i];
  }

  /** Pruning keeps exactly the entries within the window if and only if the deque splits at the cutoff. */
  lemma PrunedIsWithin<T>(entries: seq<T>, stamp: T -> int, cutoff: int)
    ensures Pruned(entries, stamp, cutoff) == Within(entries, stamp, cutoff) <==> SplitAt(entries, stamp, cutoff)
  {
    hide Within;
    if SplitAt(entries, stamp, cutoff) {
      SearchSplits(entries, stamp, cutoff, 0, |entries|);
      WithinSplit(entries, stamp, cutoff, FirstKept(entries, stamp, cutoff));
    }
    if Pruned(entries, stamp, cutoff) == Within(entries, stamp, cutoff) {
      SuffixIsWithin(entries, stamp, cutoff, FirstKept(entries, stamp, cutoff));
    }
  }

  /** Entries pruned earlier are not missed by a later, no smaller cutoff. */
  lemma {:induction false} WithinTwice<T>(entries: seq<T>, stamp: T -> int, earlier: int, later: int)
    requires earlier <= later
    ensures Within(Within(entries, stamp, earlier), stamp, later) == Within(entries, stamp, later)
  {
    if entries == [] {
    } else {
      var front, last := entries[..|entries| - 1], entries[|entries| - 1];
      WithinTwice(front, stamp, earlier, later);
      if earlier <= stamp(last) {
        var w := Within(front, stamp, earlier);
        assert (w + [last])[..|w|] == w;
      } else {
        assert Within(front, stamp, earlier) + [] == Within(front, stamp, earlier);
      }
    }
  }

  // ---------- CounterWindow ----------

  datatype Outcome = Outcome(timestamp: int, failed: bool)

  function OutcomeTime(e: Outcome): int { e.timestamp }

  function Failures(events: seq<Outcome>): nat {
    if events == [] then 0
    else Failures(events[..|events| - 1]) + if events[|events| - 1].failed then 1 else 0
  }

  lemma {:induction false} FailuresSplit(a: seq<Outcome>, b: seq<Outcome>)
    ensures Failures(a + b) == Failures(a) + Failures(b)
  {
    if b == [] {
      assert a + b == a;
    } else {
      assert (a + b)[..|a + b| - 1] == a + b[..|b| - 1];
      FailuresSplit(a, b[..|b| - 1]);
    }
  }

  lemma FailuresAppend(events: seq<Outcome>, e: Outcome)
    ensures Failures(events + [e]) == Failures(events) + if e.failed then 1 else 0
  {
    assert (events + [e])[..|events|] == events;
  }

  lemma FailuresNext(events: seq<Outcome>, i: nat)
    requires i < |events|
    ensures Failures(events[..i + 1]) == Failures(events[..i]) + if events[i].failed then 1 else 0
  {
    assert events[..i + 1][..i] == events[..i];
  }

  function RateOf(events: seq<Outcome>): real {
    if events == [] then 0.0 else Failures(events) as real / |events| as real
  }

  lemma {:induction false} FailuresAreFailed(events: seq<Outcome>)
    ensures Failures(events) == |set i | 0 <= i < |events| && events[i].failed|
  {
    var all := set i | 0 <= i < |events| && events[i].failed;
    if events == [] {
    } else {
      var n := |events| - 1;
      FailuresAreFailed(events[..n]);
      var before := set i | 0 <= i < n && events[..n][i].failed;
      assert all == before + if events[n].failed then {n} else {};
    }
  }

  /** The rate is the share of failed events; with no events it is zero. */
  lemma RateIsShare(events: seq<Outcome>)
    ensures RateOf(events) * |events| as real == |set i | 0 <= i < |events| && events[i].failed| as real
    ensures events == [] ==> RateOf(events) == 0.0
  {
    FailuresAreFailed(events);
    hide Failures;
  }

  class CounterWindow {
    const windowMs: int
    var events: seq<Outcome>
    var failureCount: int

    /** The incremental counter agrees with the deque, whatever the clock did. */
    ghost predicate Valid()
      reads this
    {
      failureCount == Failures(events)
    }

    constructor (windowMs: int)
      ensures Valid() && this.windowMs == windowMs && events == []
    {
      this.windowMs := windowMs;
      events, failureCount := [], 0;
    }

    method Record(timestamp: int, failed: bool)
      requires Valid()
      modifies this
      ensures Valid()
      ensures events == Pruned(old(events) + [Outcome(timestamp, failed)], OutcomeTime, timestamp - windowMs)
    {
      hide Failures, Pruned;
      FailuresAppend(events, Outcome(timestamp, failed));
      events := events + [Outcome(timestamp, failed)];
      if failed { failureCount := failureCount + 1; }
      Prune(timestamp);
    }

    method Rate(now: int) returns (rate: real)
      requires Valid()
      modifies this
      ensures Valid()
      ensures events == Pruned(old(events), OutcomeTime, now - windowMs)
      ensures rate == RateOf(events)
    {
      Prune(now);
      if |events| == 0 { return 0.0; }
      return failureCount as real / |events| as real;
    }

    method Prune(now: int)
      requires Valid()
      modifies this
      ensures Valid()
      ensures events == Pruned(old(events), OutcomeTime, now - windowMs)
    {
      var cutoff := now - windowMs;
      var start := LowerBound(events, OutcomeTime, cutoff);
      if start == 0 { return; }
      hide Failures, FirstKept, Chronological;
      assert Failures(events[..0]) == 0 by { FailuresSplit(events[..0], events[..0]); }
      for i := 0 to start
        invariant events == old(events) && start <= |events|
        invariant failureCount == Failures(events) - Failures(events[..i])
      {
        FailuresNext(events, i);
        if events[i].failed { failureCount := failureCount - 1; }
      }
      FailuresSplit(events[..start], events[start..]);
      assert events[..start] + events[start..] == events;
      events := events[start..];
    }
  }

  // ---------- HistogramWindow ----------

  datatype Observation = Observation(timestamp: int, value: real)

  function ObservationTime(e: Observation): int { e.timestamp }

  function ValuesOf(observations: seq<Observation>): (r: seq<real>)
    ensures |r| == |observations|
    ensures forall i :: 0 <= i < |r| ==> r[i] == observations[i].value
  {
    seq(|observations|, i requires 0 <= i < |observations| => observations[i].value)
  }

  predicate AtMost(a: real, b: real) { a <= b }

  lemma AtMostOrder()
    ensures TotalPreorder(AtMost) && Antisymmetric(AtMost)
  {
  }

  function Ceil(x: real): int { -((-x).Floor) }

  /** `Math.max(0, Math.ceil((p / 100) * n) - 1)` */
  function PercentileIndex(p: real, n: nat): nat {
    var index := Ceil(p / 100.0 * n as real) - 1;
    if index < 0 then 0 else index
  }

  /** `sorted[index] ?? 0` */
  function Pick(sorted: seq<real>, p: real): real {
    var at := PercentileIndex(p, |sorted|);
    if at < |sorted| then sorted[at] else 0.0
  }

  /** The percentile of values in any order, 0 when there are none. */
  function PercentileOf(values: seq<real>, p: real): real {
    Pick(SortBy(AtMost, values), p)
  }

  ghost function CountAtMost(values: seq<real>, bound: real): nat {
    if values == [] then 0 else (if values[0] <= bound then 1 else 0) + CountAtMost(values[1..], bound)
  }

  lemma {:induction false} CountInsert(x: real, s: seq<real>, bound: real)
    ensures CountAtMost(Insert(AtMost, x, s), bound) == CountAtMost(s, bound) + if x <= bound then 1 else 0
  {
    if s == [] || AtMost(x, s[0]) {
      assert ([x] + s)[1..] == s;
    } else {
      CountInsert(x, s[1..], bound);
      var rest := Insert(AtMost, x, s[1..]);
      assert ([s[0]] + rest)[1..] == rest;
    }
  }

  lemma {:induction false} CountSorted(values: seq<real>, bound: real)
    ensures CountAtMost(SortBy(AtMost, values), bound) == CountAtMost(values, bound)
  {
    if values == [] {
    } else {
      CountSorted(values[1..], bound);
      CountInsert(values[0], SortBy(AtMost, values[1..]), bound);
    }
  }

  /** In ascending order, at least `n` values are at most the bound if the first `n` are, and no more if the rest are above. */
  lemma {:induction false} CountPrefix(s: seq<real>, n: nat, bound: real)
    requires n <= |s|
    ensures (forall i :: 0 <= i < n ==> s[i] <= bound) ==> CountAtMost(s, bound) >= n
    ensures (forall i :: n <= i < |s| ==> bound < s[i]) ==> CountAtMost(s, bound) <= n
    decreases |s|
  {
    if s == [] {
    } else {
      CountPrefix(s[1..], if n == 0 then 0 else n - 1, bound);
    }
  }

  lemma CeilBounds(x: real)
    ensures Ceil(x) as real - 1.0 < x <= Ceil(x) as real
  {
  }

  lemma FractionOf(f: real, n: real)
    requires 0.0 < f <= 1.0 && n >= 1.0
    ensures 0.0 < f * n <= n
  {
  }

  /** For 0 < p <= 100 the result is the least stored value with at least p percent of the values at or below it. */
  lemma PercentileIsLeast(values: seq<real>, p: real)
    requires values != [] && 0.0 < p <= 100.0
    ensures var r := PercentileOf(values, p);
            && r in values
            && p / 100.0 * |values| as real <= CountAtMost(values, r) as real
            && forall w :: w in values && w < r ==> CountAtMost(values, w) as real < p / 100.0 * |values| as real
  {
    PercentileIndexBounds(p, |values|);
    LeastAt(values, PercentileIndex(p, |values|), p / 100.0 * |values| as real);
    MultisetMembers(SortBy(AtMost, values), values);
  }

  lemma NoValuesNoPercentile(p: real)
    ensures PercentileOf([], p) == 0.0
  {
    assert SortBy(AtMost, []) == [];
  }

  lemma LeastAt(values: seq<real>, at: nat, share: real)
    requires at < |values| && at as real < share <= at as real + 1.0
    ensures var s := SortBy(AtMost, values);
            && |s| == |values| && s[at] in values
            && share <= CountAtMost(values, s[at]) as real
            && forall w :: w in values && w < s[at] ==> CountAtMost(values, w) as real < share
  {
    var s := SortBy(AtMost, values);
    SortedByAtMost(values);
    MultisetMembers(s, values);
    hide SortBy, CountAtMost, Ascending;
    RankReached(s, at);
    CountSorted(values, s[at]);
    forall w | w in values && w < s[at] ensures CountAtMost(values, w) as real < share {
      RankMissed(s, at, w);
      CountSorted(values, w);
    }
  }

  lemma RankReached(s: seq<real>, at: nat)
    requires Ascending(s) && at < |s|
    ensures CountAtMost(s, s[at]) >= at + 1
  {
    hide CountAtMost;
    CountPrefix(s, at + 1, s[at]);
  }

  lemma RankMissed(s: seq<real>, at: nat, w: real)
    requires Ascending(s) && at < |s| && w < s[at]
    ensures CountAtMost(s, w) <= at
  {
    hide CountAtMost;
    CountPrefix(s, at, w);
  }

  lemma PercentileIndexBounds(p: real, n: nat)
    requires n >= 1 && 0.0 < p <= 100.0
    ensures PercentileIndex(p, n) < n
    ensures PercentileIndex(p, n) as real < p / 100.0 * n as real <= PercentileIndex(p, n) as real + 1.0
  {
    FractionOf(p / 100.0, n as real);
    CeilBounds(p / 100.0 * n as real);
  }

  lemma SortedByAtMost(values: seq<real>)
    ensures Ascending(SortBy(AtMost, values))
  {
    AtMostOrder();
    SortBySorted(AtMost, values);
    var s := SortBy(AtMost, values);
    assert forall i, j :: 0 <= i < j < |s| ==> AtMost(s[i], s[j]);
  }

  lemma RemovedStaysSorted(s: seq<real>, at: nat)
    requires Ascending(s) && at < |s|
    ensures Ascending(s[..at] + s[at + 1..])
    ensures multiset(s[..at] + s[at + 1..]) == multiset(s) - multiset{s[at]}
  {
    RemovedAscending(s, at, s[..at] + s[at + 1..]);
    hide Ascending;
    assert s == s[..at] + [s[at]] + s[at + 1..];
  }

  lemma RemovedAscending(s: seq<real>, at: nat, t: seq<real>)
    requires Ascending(s) && at < |s| && t == s[..at] + s[at + 1..]
    ensures Ascending(t)
  {
    forall i, j | 0 <= i < j < |t| ensures t[i] <= t[j] {
      assert t[i] == s[if i < at then i else i + 1] && t[j] == s[if j < at then j else j + 1];
    }
  }

  lemma AbsentValue(s: seq<real>, at: nat, value: real)
    requires at <= |s| && (forall i :: 0 <= i < at ==> s[i] < value) && (forall i :: at <= i < |s| ==> value < s[i])
    ensures multiset(s) - multiset{value} == multiset(s)
  {
    assert value !in s;
    assert value !in multiset(s);
  }

  /** The sorted array holds the deque's values, each as often, in ascending order. */
  ghost predicate Mirrors(sorted: seq<real>, observations: seq<Observation>) {
    Ascending(sorted) && multiset(sorted) == multiset(ValuesOf(observations))
  }

  lemma MirrorsAscending(sorted: seq<real>, observations: seq<Observation>)
    requires Mirrors(sorted, observations)
    ensures Ascending(sorted)
  {
  }

  lemma OldestLeaves(before: seq<real>, after: seq<real>, observations: seq<Observation>, i: nat)
    requires i < |observations| && Mirrors(before, observations[i..])
    requires Ascending(after) && multiset(after) == multiset(before) - multiset{observations[i].value}
    ensures Mirrors(after, observations[i + 1..])
  {
    hide Ascending;
    assert ValuesOf(observations[i..]) == [observations[i].value] + ValuesOf(observations[i + 1..]);
  }

  class HistogramWindow {
    const windowMs: int
    var observations: seq<Observation>
    var sortedValues: seq<real>

    /** The sorted array mirrors the deque, whatever the clock did. */
    ghost predicate Valid()
      reads this
    {
      Mirrors(sortedValues, observations)
    }

    constructor (windowMs: int)
      ensures Valid() && this.windowMs == windowMs && observations == []
    {
      this.windowMs := windowMs;
      observations, sortedValues := [], [];
    }

    method Record(timestamp: int, value: real)
      requires Valid()
      modifies this
      ensures Valid()
      ensures observations == Pruned(old(observations) + [Observation(timestamp, value)], ObservationTime, timestamp - windowMs)
    {
      var all := observations + [Observation(timestamp, value)];
      assert ValuesOf(all) == ValuesOf(observations) + [value];
      observations := all;
      InsertSorted(value);
      Prune(timestamp);
    }

    method Percentile(p: real, now: int) returns (r: real)
      requires Valid()
      modifies this
      ensures Valid()
      ensures observations == Pruned(old(observations), ObservationTime, now - windowMs)
      ensures r == PercentileOf(ValuesOf(observations), p)
    {
      hide PercentileIndex, SortBy, Pruned;
      Prune(now);
      AscendingIsSorted(sortedValues, ValuesOf(observations));
      if |sortedValues| == 0 { return 0.0; }
      var index := PercentileIndex(p, |sortedValues|);
      return if index < |sortedValues| then sortedValues[index] else 0.0;
    }

    method InsertSorted(value: real)
      requires Ascending(sortedValues)
      modifies this`sortedValues
      ensures Ascending(sortedValues) && multiset(sortedValues) == multiset(old(sortedValues)) + multiset{value}
    {
      var lo := FirstAtLeast(sortedValues, value);
      var s := sortedValues;
      sortedValues := s[..lo] + [value] + s[lo..];
      assert s == s[..lo] + s[lo..];
    }

    method RemoveSorted(value: real)
      requires Ascending(sortedValues)
      modifies this`sortedValues
      ensures Ascending(sortedValues) && multiset(sortedValues) == multiset(old(sortedValues)) - multiset{value}
    {
      var lo := FirstAtLeast(sortedValues, value);
      var s := sortedValues;
      if lo < |s| && s[lo] == value {
        RemovedStaysSorted(s, lo);
        sortedValues := s[..lo] + s[lo + 1..];
      } else {
        assert lo < |s| ==> value < s[lo];
        AbsentValue(s, lo, value);
      }
    }

    method Prune(now: int)
      requires Valid()
      modifies this
      ensures Valid()
      ensures observations == Pruned(old(observations), ObservationTime, now - windowMs)
    {
      var cutoff := now - windowMs;
      var start := LowerBound(observations, ObservationTime, cutoff);
      assert observations[0..] == observations;
      if start == 0 { return; }
      hide Mirrors, ValuesOf, Ascending, FirstKept;
      for i := 0 to start
        invariant observations == old(observations) && start <= |observations|
        invariant Mirrors(sortedValues, observations[i..])
      {
        ghost var before := sortedValues;
        MirrorsAscending(before, observations[i..]);
        RemoveSorted(observations[i].value);
        OldestLeaves(before, sortedValues, observations, i);
      }
      observations := observations[start..];
    }
  }

  ghost predicate Ascending(s: seq<real>) {
    forall i, j :: 0 <= i < j < |s| ==> s[i] <= s[j]
  }

  lemma AscendingIsSorted(s: seq<real>, values: seq<real>)
    requires Ascending(s) && multiset(s) == multiset(values)
    ensures s == SortBy(AtMost, values)
  {
    AtMostOrder();
    SortBySorted(AtMost, values);
    SortedUnique(AtMost, s, SortBy(AtMost, values));
  }

  /** The search loop shared by `#insertSorted` and `#removeSorted`. */
  method FirstAtLeast(s: seq<real>, value: real) returns (lo: nat)
    requires Ascending(s)
    ensures lo <= |s|
    ensures forall i :: 0 <= i < lo ==> s[i] < value
    ensures forall i :: lo <= i < |s| ==> value <= s[i]
  {
    lo := 0;
    var hi := |s|;
    while lo < hi
      invariant lo <= hi <= |s|
      invariant forall i :: 0 <= i < lo ==> s[i] < value
      invariant forall i :: hi <= i < |s| ==> value <= s[i]
    {
      var mid := (lo + hi) / 2;
      if s[mid] < value {
        lo := mid + 1;
      } else {
        hi := mid;
      }
    }
  }
}
