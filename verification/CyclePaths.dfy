/** `compareCyclePaths`, `rotateCycle` and `normalizeCycle`: one spelling for every way to walk a cycle. */
module CyclePaths {
  import opened ImportGraph
  import opened Sorting

  /** Negative, zero or positive as `left` sorts before, equals or sorts after `right`. */
  function Compare(left: seq<Path>, right: seq<Path>): int {
    if left == [] || right == [] then |left| - |right|
    else if Less(left[0], right[0]) then -1
    else if Less(right[0], left[0]) then 1
    else Compare(left[1..], right[1..])
  }

  function DropLast(p: seq<Path>): seq<Path> {
    if p == [] then [] else p[..|p| - 1]
  }

  function Reverse(p: seq<Path>): (r: seq<Path>)
    ensures |r| == |p|
    ensures forall i :: 0 <= i < |p| ==> r[i] == p[|p| - 1 - i]
  {
    seq(|p|, i requires 0 <= i < |p| => p[|p| - 1 - i])
  }

  /** `findIndex`, with -1 for absent. */
  function FindIndex(p: seq<Path>, x: Path): (i: int)
    ensures -1 <= i < |p|
    ensures i == -1 ==> x !in p
    ensures i >= 0 ==> p[i] == x && forall k :: 0 <= k < i ==> p[k] != x
  {
    if p == [] then -1
    else if p[0] == x then 0
    else
      var rest := FindIndex(p[1..], x);
      if rest < 0 then -1 else rest + 1
  }

  function Smallest(p: seq<Path>): (m: Path)
    requires p != []
    ensures m in p
  {
    if |p| == 1 then p[0]
    else
      var before := Smallest(p[..|p| - 1]);
      if Less(p[|p| - 1], before) then p[|p| - 1] else before
  }

  /** An empty string is falsy, so a rotation that starts with one is dropped. */
  function Close(p: seq<Path>): seq<Path> {
    if p == [] || p[0] == "" then [] else p + [p[0]]
  }

  /** `slice` clamps an index beyond the end. */
  function Clamp(i: nat, n: nat): nat {
    if i <= n then i else n
  }

  function Rotate(cycle: seq<Path>, startIndex: int): seq<Path> {
    if startIndex < 0 then []
    else
      var open := DropLast(cycle);
      var at := Clamp(startIndex, |open|);
      Close(open[at..] + open[..at])
  }

  /** The cycle without the closing repetition of its first path. */
  function Open(cycle: seq<Path>): seq<Path> {
    if cycle == [] || cycle[0] == cycle[|cycle| - 1] then DropLast(cycle) else cycle
  }

  function Normalize(cycle: seq<Path>): seq<Path> {
    var open := Open(cycle);
    if open == [] || open[0] == "" then []
    else
      var closed := open + [open[0]];
      var smallest := Smallest(open);
      var reversed := Reverse(DropLast(closed));
      var closedReversed := Close(reversed);
      var forwardRotation := Rotate(closed, FindIndex(closed, smallest));
      var reverseRotation := Rotate(closedReversed, FindIndex(closedReversed, smallest));
      if Compare(reverseRotation, forwardRotation) < 0 then reverseRotation else forwardRotation
  }

  // ---------- the order ----------

  lemma {:induction false} CompareTrichotomy(a: seq<Path>, b: seq<Path>)
    ensures Compare(a, b) == 0 <==> a == b
    ensures Compare(a, b) < 0 <==> Compare(b, a) > 0
  {
    if a == [] || b == [] {
    } else {
      LessTrichotomy(a[0], b[0]);
      CompareTrichotomy(a[1..], b[1..]);
      assert a == [a[0]] + a[1..] && b == [b[0]] + b[1..];
    }
  }

  /** The lists agree on their first `k` paths, and there `a` either ends or has the lesser path. */
  ghost predicate ComesFirstAt(a: seq<Path>, b: seq<Path>, k: nat) {
    k <= |a| && k < |b| && a[..k] == b[..k] && (k < |a| ==> Less(a[k], b[k]))
  }

  /** The order is that of a dictionary: a list comes before its continuations and before what first differs upwards. */
  lemma {:induction false} CompareIsLexicographic(a: seq<Path>, b: seq<Path>)
    ensures Compare(a, b) < 0 <==> exists k :: ComesFirstAt(a, b, k)
  {
    if a == [] || b == [] {
      if b != [] { assert ComesFirstAt(a, b, 0); }
    } else {
      LessTrichotomy(a[0], b[0]);
      CompareIsLexicographic(a[1..], b[1..]);
      if a[0] == b[0] && Compare(a, b) < 0 {
        var k: nat :| ComesFirstAt(a[1..], b[1..], k);
        assert a[..k + 1] == [a[0]] + a[1..][..k] && b[..k + 1] == [b[0]] + b[1..][..k];
        assert ComesFirstAt(a, b, k + 1);
      } else if Less(a[0], b[0]) {
        assert ComesFirstAt(a, b, 0);
      }
      if k: nat :| ComesFirstAt(a, b, k) {
        if k > 0 {
          assert a[..k][0] == b[..k][0];
          assert a[1..][..k - 1] == a[..k][1..] && b[1..][..k - 1] == b[..k][1..];
          assert ComesFirstAt(a[1..], b[1..], k - 1);
        }
      }
    }
  }

  lemma {:induction false} CompareTransitive(a: seq<Path>, b: seq<Path>, c: seq<Path>)
    requires Compare(a, b) <= 0 && Compare(b, c) <= 0
    ensures Compare(a, c) <= 0
  {
    if a == [] || b == [] || c == [] {
    } else {
      LessTrichotomy(a[0], b[0]);
      LessTrichotomy(b[0], c[0]);
      LessTrichotomy(a[0], c[0]);
      if Less(a[0], b[0]) && Less(b[0], c[0]) {
        LessTransitive(a[0], b[0], c[0]);
      } else if a[0] == b[0] == c[0] {
        CompareTransitive(a[1..], b[1..], c[1..]);
      }
    }
  }

  lemma {:induction false} SmallestIsLeast(p: seq<Path>, i: nat)
    requires i < |p|
    ensures LessEq(Smallest(p), p[i])
    decreases |p|
  {
    LessEqOrder();
    if |p| > 1 {
      if i < |p| - 1 {
        SmallestIsLeast(p[..|p| - 1], i);
        assert LessEq(Smallest(p), Smallest(p[..|p| - 1]));
        assert LessEq(Smallest(p[..|p| - 1]), p[i]);
      }
    } else {
      LessTrichotomy(p[0], p[0]);
    }
  }

  lemma SmallestOfSame(p: seq<Path>, q: seq<Path>)
    requires p != [] && q != [] && forall x :: x in p <==> x in q
    ensures Smallest(p) == Smallest(q)
  {
    var i :| 0 <= i < |q| && q[i] == Smallest(p);
    var j :| 0 <= j < |p| && p[j] == Smallest(q);
    SmallestIsLeast(q, i);
    SmallestIsLeast(p, j);
    LessTrichotomy(Smallest(p), Smallest(q));
  }

  lemma EmptyIsSmallest(p: seq<Path>)
    requires p != []
    ensures Smallest(p) == "" <==> "" in p
  {
    if "" in p {
      var i :| 0 <= i < |p| && p[i] == "";
      SmallestIsLeast(p, i);
    }
  }

  // ---------- walks around a cycle ----------

  /** Position `i` brought back into `0..n` after one step too far in either direction. */
  function Wrap(i: int, n: nat): int {
    if i < 0 then i + n else if i >= n then i - n else i
  }

  /** `k` steps from `i` in the given direction. */
  function Along(i: int, k: int, forward: bool): int {
    if forward then i + k else i - k
  }

  /** The cycle walked once from position `start`, forwards or backwards. */
  function Walk(p: seq<Path>, start: nat, forward: bool): (w: seq<Path>)
    requires start < |p|
    ensures |w| == |p|
    ensures forall k {:trigger w[k]} :: 0 <= k < |p| ==>
      w[k] == p[Wrap(Along(start, k, forward), |p|)]
  {
    seq(|p|, k requires 0 <= k < |p| => p[Wrap(Along(start, k, forward), |p|)])
  }

  /** The two spell the same cycle: one is a rotation, or a rotation of the reversal, of the other. */
  ghost predicate SameCycle(p: seq<Path>, q: seq<Path>) {
    exists start: nat, forward: bool :: start < |p| && q == Walk(p, start, forward)
  }

  lemma WrapTwice(i: int, j: int, k: int, a: bool, b: bool, n: nat)
    requires 0 <= i < n && 0 <= j < n && 0 <= k < n
    ensures 0 <= Wrap(Along(i, j, a), n) < n && 0 <= Wrap(Along(j, k, b), n) < n
    ensures Wrap(Along(i, Wrap(Along(j, k, b), n), a), n) == Wrap(Along(Wrap(Along(i, j, a), n), k, a == b), n)
  {
  }

  lemma WalkWalk(p: seq<Path>, i: nat, a: bool, j: nat, b: bool)
    requires i < |p| && j < |p|
    ensures 0 <= Wrap(Along(i, j, a), |p|) < |p|
    ensures Walk(Walk(p, i, a), j, b) == Walk(p, Wrap(Along(i, j, a), |p|), a == b)
  {
    WrapTwice(i, j, 0, a, b, |p|);
    var start := Wrap(Along(i, j, a), |p|);
    var l, r := Walk(Walk(p, i, a), j, b), Walk(p, start, a == b);
    forall k | 0 <= k < |p| ensures l[k] == r[k] {
      WrapTwice(i, j, k, a, b, |p|);
      hide Wrap;
      assert l[k] == Walk(p, i, a)[Wrap(Along(j, k, b), |p|)];
    }
  }

  lemma WalkIdentity(p: seq<Path>)
    requires p != []
    ensures Walk(p, 0, true) == p
  {
  }

  lemma SameCycleSymmetric(p: seq<Path>, q: seq<Path>)
    requires SameCycle(p, q)
    ensures SameCycle(q, p)
  {
    var start: nat, forward: bool :| start < |p| && q == Walk(p, start, forward);
    var back := if forward then Wrap(|p| - start, |p|) else start;
    WalkWalk(p, start, forward, back, forward);
    WalkIdentity(p);
    assert back < |q| && p == Walk(q, back, forward);
  }

  lemma SameCycleTransitive(p: seq<Path>, q: seq<Path>, r: seq<Path>)
    requires SameCycle(p, q) && SameCycle(q, r)
    ensures SameCycle(p, r)
  {
    var i: nat, a: bool :| i < |p| && q == Walk(p, i, a);
    var j: nat, b: bool :| j < |q| && r == Walk(q, j, b);
    WalkWalk(p, i, a, j, b);
    var start: nat := Wrap(Along(i, j, a), |p|);
    assert start < |p| && r == Walk(p, start, a == b);
  }

  lemma WalkMembers(p: seq<Path>, start: nat, forward: bool)
    requires start < |p|
    ensures forall x :: x in p <==> x in Walk(p, start, forward)
  {
    var w := Walk(p, start, forward);
    forall i | 0 <= i < |p| ensures p[i] in w {
      var k := Wrap(if forward then i - start else start - i, |p|);
      assert w[k] == p[i];
    }
  }

  // ---------- normalizeCycle as the lesser of two walks ----------

  function FirstSmallest(p: seq<Path>): (i: nat)
    requires p != []
    ensures i < |p| && p[i] == Smallest(p) && forall k :: 0 <= k < i ==> p[k] != Smallest(p)
  {
    FindIndex(p, Smallest(p))
  }

  function LastSmallest(p: seq<Path>): (i: nat)
    requires p != []
    ensures i < |p| && p[i] == Smallest(p) && forall k :: i < k < |p| ==> p[k] != Smallest(p)
  {
    assert exists k :: 0 <= k < |p| && Reverse(p)[k] == Smallest(p) by {
      var k :| 0 <= k < |p| && p[k] == Smallest(p);
      assert Reverse(p)[|p| - 1 - k] == Smallest(p);
    }
    var k := FindIndex(Reverse(p), Smallest(p));
    assert forall j :: 0 <= j < |p| ==> p[j] == Reverse(p)[|p| - 1 - j];
    |p| - 1 - k
  }

  function ForwardWalk(p: seq<Path>): seq<Path>
    requires p != []
  {
    Walk(p, FirstSmallest(p), true)
  }

  function BackwardWalk(p: seq<Path>): seq<Path>
    requires p != []
  {
    Walk(p, LastSmallest(p), false)
  }

  function Lesser(backward: seq<Path>, forward: seq<Path>): seq<Path> {
    if Compare(backward, forward) < 0 then backward else forward
  }

  lemma FindIndexInClosed(p: seq<Path>, x: Path)
    requires x in p
    ensures FindIndex(p + [p[0]], x) == FindIndex(p, x)
  {
    var c := p + [p[0]];
    var i, j := FindIndex(c, x), FindIndex(p, x);
    assert c[j] == x;
    assert i <= j;
    assert i < |p| && p[i] == c[i];
  }

  lemma RotateIsWalk(p: seq<Path>, i: nat)
    requires i < |p| && "" !in p
    ensures Rotate(p + [p[0]], i) == Close(Walk(p, i, true))
  {
    var open := DropLast(p + [p[0]]);
    assert open == p;
    assert p[i..] + p[..i] == Walk(p, i, true);
  }

  lemma WalkOfReverse(p: seq<Path>, r: nat)
    requires r < |p|
    ensures Walk(Reverse(p), r, true) == Walk(p, |p| - 1 - r, false)
  {
    assert Reverse(p) == Walk(p, |p| - 1, false);
    WalkWalk(p, |p| - 1, false, r, true);
  }

  lemma ReverseMembers(p: seq<Path>)
    ensures forall x :: x in p <==> x in Reverse(p)
  {
    forall i | 0 <= i < |p| ensures p[i] in Reverse(p) {
      assert Reverse(p)[|p| - 1 - i] == p[i];
    }
  }

  lemma ReverseRotationIsWalk(open: seq<Path>)
    requires open != [] && "" !in open
    ensures var closedReversed := Close(Reverse(open));
            Rotate(closedReversed, FindIndex(closedReversed, Smallest(open))) == Close(BackwardWalk(open))
  {
    ReverseMembers(open);
    hide Walk, Smallest, Rotate, FirstSmallest, Reverse, FindIndex;
    var m, reversed := Smallest(open), Reverse(open);
    FindIndexInClosed(reversed, m);
    var r := FindIndex(reversed, m);
    RotateIsWalk(reversed, r);
    WalkOfReverse(open, r);
  }

  lemma NormalizeIsLesserWalk(cycle: seq<Path>)
    requires Open(cycle) != [] && "" !in Open(cycle)
    ensures Normalize(cycle) == Lesser(Close(BackwardWalk(Open(cycle))), Close(ForwardWalk(Open(cycle))))
  {
    hide Walk, Close, Compare, Smallest, Rotate;
    var open := Open(cycle);
    var closed := open + [open[0]];
    assert DropLast(closed) == open;
    FindIndexInClosed(open, Smallest(open));
    RotateIsWalk(open, FirstSmallest(open));
    ReverseRotationIsWalk(open);
  }

  /** The empty list marks a cycle with nothing to spell or with an empty path in it. */
  lemma NormalizeEmptyExactly(cycle: seq<Path>)
    ensures Normalize(cycle) == [] <==> Open(cycle) == [] || "" in Open(cycle)
  {
    var open := Open(cycle);
    if open != [] && "" !in open {
      NormalizeIsLesserWalk(cycle);
      WalkMembers(open, FirstSmallest(open), true);
      WalkMembers(open, LastSmallest(open), false);
      assert ForwardWalk(open)[0] != "" && BackwardWalk(open)[0] != "";
    } else if open != [] && open[0] != "" {
      EmptyIsSmallest(open);
      NormalizeWithEmptyPath(cycle);
    }
  }

  lemma NormalizeWithEmptyPath(cycle: seq<Path>)
    requires Open(cycle) != [] && Smallest(Open(cycle)) == ""
    ensures Normalize(cycle) == []
  {
    var open := Open(cycle);
    if open[0] != "" {
      var closed := open + [open[0]];
      assert DropLast(closed) == open;
      FindIndexInClosed(open, "");
      var i := FindIndex(open, "");
      assert (open[i..] + open[..i])[0] == "";
      var reversed := Reverse(open);
      if reversed[0] != "" {
        assert open[i] == reversed[|open| - 1 - i];
        FindIndexInClosed(reversed, "");
        var r := FindIndex(reversed, "");
        assert DropLast(reversed + [reversed[0]]) == reversed;
        assert (reversed[r..] + reversed[..r])[0] == "";
      }
    }
  }

  // ---------- idempotence ----------

  lemma OpenOfClosed(w: seq<Path>)
    requires w != [] && w[0] != ""
    ensures Open(Close(w)) == w
  {
  }

  lemma WalkEndsAtSmallest(p: seq<Path>, forward: bool)
    requires p != []
    ensures var w := Walk(p, if forward then FirstSmallest(p) else LastSmallest(p), forward);
            Smallest(w) == Smallest(p) && FirstSmallest(w) == 0
            && LastSmallest(w) == LastSmallest(p) - FirstSmallest(p)
  {
    hide Walk, Smallest, FirstSmallest, LastSmallest;
    var first, last := FirstSmallest(p), LastSmallest(p);
    var start := if forward then first else last;
    var w := Walk(p, start, forward);
    WalkMembers(p, start, forward);
    SmallestOfSame(p, w);
    assert w[0] == Smallest(p);
    assert last >= first;
    assert w[last - first] == Smallest(p);
    var end := LastSmallest(w);
    assert w[end] == p[Wrap(Along(start, end, forward), |p|)];
    assert end <= last - first;
  }

  /** The walk taken in the other direction from the last smallest path is the other candidate. */
  lemma OtherWalk(p: seq<Path>, forward: bool)
    requires p != []
    ensures var w := if forward then ForwardWalk(p) else BackwardWalk(p);
            && ForwardWalk(w) == w
            && BackwardWalk(w) == if forward then BackwardWalk(p) else ForwardWalk(p)
  {
    hide Walk, Smallest, FirstSmallest, LastSmallest, FindIndex;
    WalkEndsAtSmallest(p, forward);
    var first, last := FirstSmallest(p), LastSmallest(p);
    var start := if forward then first else last;
    var w := Walk(p, start, forward);
    WalkIdentity(w);
    WalkWalk(p, start, forward, last - first, false);
    assert Wrap(Along(start, last - first, forward), |p|) == if forward then last else first;
  }

  /** For every input whatever. */
  lemma NormalizeIdempotent(cycle: seq<Path>)
    ensures Normalize(Normalize(cycle)) == Normalize(cycle)
  {
    var open := Open(cycle);
    NormalizeEmptyExactly(cycle);
    if open != [] && "" !in open {
      NormalizeIsLesserWalk(cycle);
      var f, b := ForwardWalk(open), BackwardWalk(open);
      WalkMembers(open, FirstSmallest(open), true);
      WalkMembers(open, LastSmallest(open), false);
      var forward := !(Compare(Close(b), Close(f)) < 0);
      var w := if forward then f else b;
      OpenOfClosed(w);
      NormalizeIsLesserWalk(Close(w));
      OtherWalk(open, forward);
      CompareTrichotomy(Close(f), Close(b));
    }
  }
}
