/** One window over a whole run: what it holds against everything that was ever pushed into it. */
module WindowRuns {
  import opened SlidingWindow

  /** A window is pushed to, which prunes it at the entry's own time, or only pruned. */
  datatype Operation<T> = Push(entry: T) | Prune(at: int)

  function TimeOf<T>(op: Operation<T>, stamp: T -> int): int {
    match op
    case Push(entry) => stamp(entry)
    case Prune(at) => at
  }

  /** The deque when an operation is about to prune it. */
  function Facing<T>(deque: seq<T>, op: Operation<T>): seq<T> {
    if op.Push? then deque + [op.entry] else deque
  }

  function Deque<T>(ops: seq<Operation<T>>, stamp: T -> int, windowMs: int): seq<T> {
    if ops == [] then []
    else
      var front, last := ops[..|ops| - 1], ops[|ops| - 1];
      Pruned(Facing(Deque(front, stamp, windowMs), last), stamp, TimeOf(last, stamp) - windowMs)
  }

  /** Everything ever pushed. */
  ghost function Pushed<T>(ops: seq<Operation<T>>): seq<T> {
    if ops == [] then [] else Facing(Pushed(ops[..|ops| - 1]), ops[|ops| - 1])
  }

  /** Every prune of the run met a deque that splits at its cutoff. */
  ghost predicate AlwaysSplit<T>(ops: seq<Operation<T>>, stamp: T -> int, windowMs: int) {
    ops == [] ||
    var front, last := ops[..|ops| - 1], ops[|ops| - 1];
    AlwaysSplit(front, stamp, windowMs) &&
    SplitAt(Facing(Deque(front, stamp, windowMs), last), stamp, TimeOf(last, stamp) - windowMs)
  }

  ghost predicate NoneAfter<T>(ops: seq<Operation<T>>, stamp: T -> int, now: int) {
    forall k :: 0 <= k < |ops| ==> TimeOf(ops[k], stamp) <= now
  }

  lemma FacingWithin<T>(deque: seq<T>, history: seq<T>, op: Operation<T>, stamp: T -> int, cutoff: int)
    requires Within(deque, stamp, cutoff) == Within(history, stamp, cutoff)
    ensures Within(Facing(deque, op), stamp, cutoff) == Within(Facing(history, op), stamp, cutoff)
  {
    hide Within;
    if op.Push? {
      WithinConcat(deque, [op.entry], stamp, cutoff);
      WithinConcat(history, [op.entry], stamp, cutoff);
    }
  }

  lemma NoOperation<T>(stamp: T -> int, windowMs: int)
    ensures Deque<T>([], stamp, windowMs) == [] && Pushed<T>([]) == [] && AlwaysSplit<T>([], stamp, windowMs)
  {
  }

  lemma NothingWithin<T>(stamp: T -> int, cutoff: int)
    ensures Within([], stamp, cutoff) == []
  {
  }

  lemma NoneAfterFront<T>(ops: seq<Operation<T>>, stamp: T -> int, now: int)
    requires ops != [] && NoneAfter(ops, stamp, now)
    ensures NoneAfter(ops[..|ops| - 1], stamp, now) && TimeOf(ops[|ops| - 1], stamp) <= now
  {
    hide TimeOf;
  }

  /** What the last operation of a run does. */
  lemma LastOperation<T>(ops: seq<Operation<T>>, stamp: T -> int, windowMs: int)
    requires ops != []
    ensures var front, last := ops[..|ops| - 1], ops[|ops| - 1];
            var facing := Facing(Deque(front, stamp, windowMs), last);
            && Deque(ops, stamp, windowMs) == Pruned(facing, stamp, TimeOf(last, stamp) - windowMs)
            && Pushed(ops) == Facing(Pushed(front), last)
            && (AlwaysSplit(ops, stamp, windowMs) <==>
                  AlwaysSplit(front, stamp, windowMs) && SplitAt(facing, stamp, TimeOf(last, stamp) - windowMs))
  {
    hide Pruned, SplitAt, Facing, TimeOf;
  }

  lemma AgreesAfter<T>(deque: seq<T>, history: seq<T>, op: Operation<T>, stamp: T -> int, windowMs: int, cutoff: int)
    requires Within(deque, stamp, cutoff) == Within(history, stamp, cutoff) && TimeOf(op, stamp) - windowMs <= cutoff
    requires SplitAt(Facing(deque, op), stamp, TimeOf(op, stamp) - windowMs)
    ensures Within(Pruned(Facing(deque, op), stamp, TimeOf(op, stamp) - windowMs), stamp, cutoff) == Within(Facing(history, op), stamp, cutoff)
  {
    hide Within, Pruned, SplitAt, Facing, TimeOf;
    var facing, earlier := Facing(deque, op), TimeOf(op, stamp) - windowMs;
    PrunedIsWithin(facing, stamp, earlier);
    WithinTwice(facing, stamp, earlier, cutoff);
    FacingWithin(deque, history, op, stamp, cutoff);
  }

  /** Seen from any later time, the deque holds what the history holds. */
  lemma {:induction false} DequeAgrees<T>(ops: seq<Operation<T>>, stamp: T -> int, windowMs: int, now: int)
    requires AlwaysSplit(ops, stamp, windowMs) && NoneAfter(ops, stamp, now)
    ensures Within(Deque(ops, stamp, windowMs), stamp, now - windowMs) == Within(Pushed(ops), stamp, now - windowMs)
  {
    hide *;
    if ops == [] {
      NoOperation(stamp, windowMs);
      NothingWithin<T>(stamp, now - windowMs);
    } else {
      var front, last := ops[..|ops| - 1], ops[|ops| - 1];
      LastOperation(ops, stamp, windowMs);
      NoneAfterFront(ops, stamp, now);
      DequeAgrees(front, stamp, windowMs, now);
      AgreesAfter(Deque(front, stamp, windowMs), Pushed(front), last, stamp, windowMs, now - windowMs);
    }
  }

  /** What has been pushed and is no longer in the deque. */
  ghost function Dropped<T>(ops: seq<Operation<T>>, stamp: T -> int, windowMs: int): seq<T> {
    var n := |Pushed(ops)| - |Deque(ops, stamp, windowMs)|;
    if n < 0 then [] else Pushed(ops)[..n]
  }

  /** Pruning only ever takes from the front, in whatever order entries were pushed. */
  lemma {:induction false} DequeIsSuffix<T>(ops: seq<Operation<T>>, stamp: T -> int, windowMs: int)
    ensures Pushed(ops) == Dropped(ops, stamp, windowMs) + Deque(ops, stamp, windowMs)
  {
    hide Deque, Pushed, Pruned;
    if ops == [] {
      NoOperation(stamp, windowMs);
    } else {
      var front, last := ops[..|ops| - 1], ops[|ops| - 1];
      DequeIsSuffix(front, stamp, windowMs);
      LastOperation(ops, stamp, windowMs);
      var dropped, facing := Dropped(front, stamp, windowMs), Facing(Deque(front, stamp, windowMs), last);
      assert Pushed(ops) == dropped + facing;
      PrunedIsSuffix(facing, stamp, TimeOf(last, stamp) - windowMs);
      SuffixOfSuffix(dropped, facing, Deque(ops, stamp, windowMs));
    }
  }

  lemma PrunedIsSuffix<T>(entries: seq<T>, stamp: T -> int, cutoff: int)
    ensures |Pruned(entries, stamp, cutoff)| <= |entries|
    ensures entries[|entries| - |Pruned(entries, stamp, cutoff)|..] == Pruned(entries, stamp, cutoff)
  {
    hide FirstKept;
  }

  lemma SuffixOfSuffix<T>(dropped: seq<T>, facing: seq<T>, kept: seq<T>)
    requires |kept| <= |facing| && facing[|facing| - |kept|..] == kept
    ensures var all := dropped + facing;
            |kept| <= |all| && all == all[..|all| - |kept|] + kept
  {
    var all := dropped + facing;
    assert all[|all| - |kept|..] == kept;
  }

  ghost predicate AllOld<T>(entries: seq<T>, stamp: T -> int, cutoff: int) {
    forall i :: 0 <= i < |entries| ==> stamp(entries[i]) < cutoff
  }

  /**
   * After any run at all, a prune shows exactly what the full history holds within its window if and only
   * if the deque splits at its cutoff and nothing that was dropped earlier is within the window.
   */
  lemma PruneShowsHistory<T>(ops: seq<Operation<T>>, stamp: T -> int, windowMs: int, cutoff: int)
    ensures Pruned(Deque(ops, stamp, windowMs), stamp, cutoff) == Within(Pushed(ops), stamp, cutoff)
      <==> SplitAt(Deque(ops, stamp, windowMs), stamp, cutoff) && AllOld(Dropped(ops, stamp, windowMs), stamp, cutoff)
  {
    hide Deque, Pushed, Dropped;
    DequeIsSuffix(ops, stamp, windowMs);
    SuffixShows(Dropped(ops, stamp, windowMs), Deque(ops, stamp, windowMs), stamp, cutoff);
  }

  lemma SuffixShows<T>(dropped: seq<T>, deque: seq<T>, stamp: T -> int, cutoff: int)
    ensures Pruned(deque, stamp, cutoff) == Within(dropped + deque, stamp, cutoff)
      <==> SplitAt(deque, stamp, cutoff) && AllOld(dropped, stamp, cutoff)
  {
    hide Within, FirstKept;
    var all, r := dropped + deque, FirstKept(deque, stamp, cutoff);
    WithinConcat(dropped, deque, stamp, cutoff);
    PrunedIsWithin(deque, stamp, cutoff);
    if SplitAt(deque, stamp, cutoff) && AllOld(dropped, stamp, cutoff) {
      WithinSplit(dropped, stamp, cutoff, |dropped|);
    }
    if Pruned(deque, stamp, cutoff) == Within(all, stamp, cutoff) {
      assert all[|dropped| + r..] == deque[r..];
      SuffixIsWithin(all, stamp, cutoff, |dropped| + r);
      forall i | 0 <= i < |dropped| ensures stamp(dropped[i]) < cutoff {
        assert all[i] == dropped[i];
      }
      forall i, j | 0 <= i < j < |deque| && cutoff <= stamp(deque[i]) ensures cutoff <= stamp(deque[j]) {
        assert all[|dropped| + i] == deque[i] && all[|dropped| + j] == deque[j];
      }
    }
  }

  /** A run whose prunes all met split deques has dropped nothing that a later prune should show. */
  lemma SplitPrunesShowHistory<T>(ops: seq<Operation<T>>, stamp: T -> int, windowMs: int, now: int)
    requires AlwaysSplit(ops, stamp, windowMs) && NoneAfter(ops, stamp, now)
    requires SplitAt(Deque(ops, stamp, windowMs), stamp, now - windowMs)
    ensures AllOld(Dropped(ops, stamp, windowMs), stamp, now - windowMs)
  {
    hide Deque, Within, Pruned, SplitAt, Dropped, AllOld;
    DequeAgrees(ops, stamp, windowMs, now);
    PrunedIsWithin(Deque(ops, stamp, windowMs), stamp, now - windowMs);
    PruneShowsHistory(ops, stamp, windowMs, now - windowMs);
  }

  ghost predicate InTimeOrder<T>(ops: seq<Operation<T>>, stamp: T -> int) {
    forall j, k :: 0 <= j < k < |ops| ==> TimeOf(ops[j], stamp) <= TimeOf(ops[k], stamp)
  }

  ghost predicate NoneLater<T>(deque: seq<T>, stamp: T -> int, now: int) {
    forall i :: 0 <= i < |deque| ==> stamp(deque[i]) <= now
  }

  lemma OrderKept<T>(deque: seq<T>, op: Operation<T>, stamp: T -> int, cutoff: int)
    requires Chronological(deque, stamp) && NoneLater(deque, stamp, TimeOf(op, stamp))
    ensures SplitAt(Facing(deque, op), stamp, cutoff)
    ensures var next := Pruned(Facing(deque, op), stamp, cutoff);
            Chronological(next, stamp) && NoneLater(next, stamp, TimeOf(op, stamp))
  {
    hide FirstKept, SplitAt;
    var facing := Facing(deque, op);
    assert Chronological(facing, stamp);
    ChronologicalSplits(facing, stamp, cutoff);
  }

  /** Operations in order of time keep the deque in order, and so always split. */
  lemma {:induction false} OrderedAlwaysSplits<T>(ops: seq<Operation<T>>, stamp: T -> int, windowMs: int, now: int)
    requires InTimeOrder(ops, stamp) && NoneAfter(ops, stamp, now)
    ensures AlwaysSplit(ops, stamp, windowMs)
    ensures Chronological(Deque(ops, stamp, windowMs), stamp) && NoneLater(Deque(ops, stamp, windowMs), stamp, now)
  {
    hide Pruned, SplitAt, Facing, TimeOf, Deque, Pushed, AlwaysSplit;
    if ops == [] {
      NoOperation(stamp, windowMs);
    } else {
      hide Chronological;
      var front, last := ops[..|ops| - 1], ops[|ops| - 1];
      var time := TimeOf(last, stamp);
      LastOperation(ops, stamp, windowMs);
      NoneAfterFront(ops, stamp, now);
      assert forall k :: 0 <= k < |front| ==> ops[k] == front[k];
      OrderedAlwaysSplits(front, stamp, windowMs, time);
      OrderKept(Deque(front, stamp, windowMs), last, stamp, time - windowMs);
    }
  }
}
