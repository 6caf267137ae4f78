/** When all the ways to walk one cycle get one spelling. */
module CanonicalCycles {
  import opened ImportGraph
  import opened Sorting
  import opened CyclePaths

  // ---------- the spellings of one cycle ----------

  /** How far it is from `before` forward to `at`, at least one step and at most once round. */
  function Gap(p: seq<Path>, before: nat, at: nat): int
    requires before < |p| && at < |p|
  {
    if before < at then at - before else at - before + |p|
  }

  /** `before` and `at` hold the smallest path, and nothing strictly between them does. */
  ghost predicate Neighbours(p: seq<Path>, before: nat, at: nat) {
    && before < |p| && at < |p|
    && p[before] == Smallest(p) == p[at]
    && forall k :: 0 < k < Gap(p, before, at) ==> p[Ahead(before, k, |p|)] != Smallest(p)
  }

  /** The position `k` steps on from `before`, round a cycle of length `n`. */
  function Ahead(before: nat, k: nat, n: nat): (r: int)
    requires before < n && k < n
    ensures 0 <= r < n
  {
    Wrap(before + k, n)
  }

  /** The lesser of the walk back from one smallest path and the walk on from the next. */
  ghost function SpellingAt(p: seq<Path>, before: nat, at: nat): seq<Path>
    requires before < |p| && at < |p|
  {
    Lesser(Close(Walk(p, before, false)), Close(Walk(p, at, true)))
  }

  /** Wherever the smallest path stands, the spelling found there is the same. */
  ghost predicate OneSpelling(p: seq<Path>) {
    forall b, a, d, c {:trigger Neighbours(p, b, a), Neighbours(p, d, c)} ::
      Neighbours(p, b, a) && Neighbours(p, d, c) ==> SpellingAt(p, b, a) == SpellingAt(p, d, c)
  }

  lemma LesserSymmetric(a: seq<Path>, b: seq<Path>)
    ensures Lesser(a, b) == Lesser(b, a)
  {
    CompareTrichotomy(a, b);
    CompareTrichotomy(b, a);
  }

  /** The spelling of a list with no empty path in it, whatever its closed form. */
  ghost function SpellingOf(q: seq<Path>): seq<Path>
    requires q != []
  {
    Lesser(Close(BackwardWalk(q)), Close(ForwardWalk(q)))
  }

  /** From the first to the last smallest path of a walk, nothing lies round the outside. */
  lemma OuterNeighbours(p: seq<Path>, start: nat, forward: bool) returns (before: nat, at: nat)
    requires start < |p|
    ensures Neighbours(p, before, at)
    ensures var q := Walk(p, start, forward);
            if forward then at == Wrap(Along(start, FirstSmallest(q), true), |p|) && before == Wrap(Along(start, LastSmallest(q), true), |p|)
            else before == Wrap(Along(start, FirstSmallest(q), false), |p|) && at == Wrap(Along(start, LastSmallest(q), false), |p|)
  {
    hide Walk, Smallest, FirstSmallest, LastSmallest;
    var q, n := Walk(p, start, forward), |p|;
    WalkMembers(p, start, forward);
    SmallestOfSame(p, q);
    var first, last := FirstSmallest(q), LastSmallest(q);
    assert q[first] == p[Wrap(Along(start, first, forward), n)];
    assert q[last] == p[Wrap(Along(start, last, forward), n)];
    assert first <= last;
    var x, y := Wrap(Along(start, first, forward), n), Wrap(Along(start, last, forward), n);
    before, at := if forward then y else x, if forward then x else y;
    forall k | 0 < k < Gap(p, before, at) ensures p[Ahead(before, k, n)] != Smallest(p) {
      var j := OutsideIndex(n, start, forward, first, last, k);
      assert q[j] == p[Wrap(Along(start, j, forward), n)];
    }
  }

  /** The step of a walk that reaches the place `k` steps on from its last smallest path, or back from its first. */
  lemma OutsideIndex(n: nat, start: nat, forward: bool, first: nat, last: nat, k: nat) returns (j: nat)
    requires start < n && first <= last < n && 0 < k
    requires
      var x, y := Wrap(Along(start, first, forward), n), Wrap(Along(start, last, forward), n);
      var before, at := if forward then y else x, if forward then x else y;
      k < if before < at then at - before else at - before + n
    ensures j < n && (j < first || last < j)
    ensures k < n
    ensures Ahead(Wrap(Along(start, if forward then last else first, forward), n), k, n) == Wrap(Along(start, j, forward), n)
  {
    if forward {
      j := if last + k < n then last + k else last + k - n;
    } else {
      j := if first - k >= 0 then first - k else first - k + n;
    }
  }

  /** Every way to walk a cycle is spelled as at some pair of neighbouring smallest paths. */
  lemma WalkSpelling(p: seq<Path>, start: nat, forward: bool) returns (before: nat, at: nat)
    requires start < |p|
    ensures Neighbours(p, before, at)
    ensures SpellingOf(Walk(p, start, forward)) == SpellingAt(p, before, at)
  {
    hide Walk, Smallest, FirstSmallest, LastSmallest, Compare, Close, Wrap, Along, Neighbours;
    before, at := OuterNeighbours(p, start, forward);
    var q := Walk(p, start, forward);
    WalkWalk(p, start, forward, FirstSmallest(q), true);
    WalkWalk(p, start, forward, LastSmallest(q), false);
    LesserSymmetric(Close(BackwardWalk(q)), Close(ForwardWalk(q)));
  }

  lemma NeighboursFound(p: seq<Path>, before: nat, at: nat)
    requires Neighbours(p, before, at)
    ensures var q := Walk(p, at, true);
            FirstSmallest(q) == 0 && Wrap(Along(at, LastSmallest(q), true), |p|) == before
  {
    hide Walk, Smallest, FirstSmallest, LastSmallest;
    var q, n := Walk(p, at, true), |p|;
    WalkMembers(p, at, true);
    SmallestOfSame(p, q);
    assert q[0] == p[Wrap(Along(at, 0, true), n)];
    var last, there := LastSmallest(q), n - Gap(p, before, at);
    assert Wrap(Along(at, there, true), n) == before;
    assert q[there] == p[before];
    forall j | there < j < n ensures q[j] != Smallest(q) {
      assert Ahead(before, j - there, n) == Wrap(Along(at, j, true), n);
      assert p[Ahead(before, j - there, n)] != Smallest(p);
    }
    assert last == there;
  }

  /** And at every pair of neighbouring smallest paths some way to walk the cycle is spelled. */
  lemma NeighboursSpelling(p: seq<Path>, before: nat, at: nat)
    requires Neighbours(p, before, at)
    ensures SpellingOf(Walk(p, at, true)) == SpellingAt(p, before, at)
  {
    hide Walk, Smallest, FirstSmallest, LastSmallest, Compare, Close, Wrap, Along;
    var q := Walk(p, at, true);
    NeighboursFound(p, before, at);
    WalkIdentity(q);
    WalkWalk(p, at, true, LastSmallest(q), false);
  }

  // ---------- canonicity ----------

  lemma NormalizeIsSpelling(cycle: seq<Path>)
    requires Open(cycle) != [] && "" !in Open(cycle)
    ensures Normalize(cycle) == SpellingOf(Open(cycle))
  {
    hide Normalize, Walk, Compare;
    NormalizeIsLesserWalk(cycle);
  }

  lemma WalkedStaysNonEmpty(p: seq<Path>, q: seq<Path>)
    requires SameCycle(p, q) && "" !in p
    ensures q != [] && "" !in q
  {
    var start: nat, forward: bool :| start < |p| && q == Walk(p, start, forward);
    WalkMembers(p, start, forward);
  }

  lemma OneSpellingSuffices(a: seq<Path>, b: seq<Path>)
    requires Open(a) != [] && "" !in Open(a) && OneSpelling(Open(a)) && SameCycle(Open(a), Open(b))
    ensures Normalize(a) == Normalize(b)
  {
    hide Walk, Normalize, Open, SpellingOf, SpellingAt, Neighbours;
    var p, q := Open(a), Open(b);
    WalkedStaysNonEmpty(p, q);
    var start: nat, forward: bool :| start < |p| && q == Walk(p, start, forward);
    var b0, a0 := WalkSpelling(p, 0, true);
    var b1, a1 := WalkSpelling(p, start, forward);
    WalkIdentity(p);
    NormalizeIsSpelling(a);
    NormalizeIsSpelling(b);
  }

  lemma OneSpellingNeeded(p: seq<Path>, before: nat, at: nat)
    requires p != [] && "" !in p && Neighbours(p, before, at)
    requires forall b :: SameCycle(p, Open(b)) ==> Normalize(b) == Normalize(Close(p))
    ensures SpellingAt(p, before, at) == Normalize(Close(p))
  {
    hide Walk, Normalize, SpellingOf, SpellingAt, Open, Close;
    var q := Walk(p, at, true);
    assert SameCycle(p, q);
    WalkedStaysNonEmpty(p, q);
    OpenOfClosed(q);
    assert SameCycle(p, Open(Close(q)));
    NormalizeIsSpelling(Close(q));
    NeighboursSpelling(p, before, at);
  }

  /**
   * All rotations and reflected rotations of a cycle get one spelling exactly when the same spelling
   * is found at every pair of neighbouring smallest paths in it.
   */
  lemma CanonicalExactly(p: seq<Path>)
    requires p != [] && "" !in p
    ensures OneSpelling(p) <==> forall b :: SameCycle(p, Open(b)) ==> Normalize(b) == Normalize(Close(p))
  {
    hide Walk, Normalize, SameCycle, SpellingAt, Open, Close;
    OpenOfClosed(p);
    if OneSpelling(p) {
      forall b | SameCycle(p, Open(b)) ensures Normalize(b) == Normalize(Close(p)) {
        OneSpellingSuffices(Close(p), b);
      }
    }
    if forall b :: SameCycle(p, Open(b)) ==> Normalize(b) == Normalize(Close(p)) {
      forall before, at | Neighbours(p, before, at) ensures SpellingAt(p, before, at) == Normalize(Close(p)) {
        OneSpellingNeeded(p, before, at);
      }
    }
  }

  lemma NormalizedSpellsSameCycle(cycle: seq<Path>)
    requires Open(cycle) != [] && "" !in Open(cycle)
    ensures Normalize(cycle) != [] && SameCycle(Open(cycle), DropLast(Normalize(cycle)))
  {
    hide Normalize, Compare, Walk;
    var open := Open(cycle);
    NormalizeIsLesserWalk(cycle);
    NormalizeEmptyExactly(cycle);
    var f, b := ForwardWalk(open), BackwardWalk(open);
    WalkMembers(open, FirstSmallest(open), true);
    WalkMembers(open, LastSmallest(open), false);
    ClosedDropsLast(f);
    ClosedDropsLast(b);
  }

  lemma ClosedDropsLast(w: seq<Path>)
    requires w != [] && "" !in w
    ensures DropLast(Close(w)) == w
  {
  }

  /** Cycles that are spelled alike are the same cycle, whatever the paths. */
  lemma SameSpellingSameCycle(a: seq<Path>, b: seq<Path>)
    requires Open(a) != [] && "" !in Open(a) && Open(b) != [] && "" !in Open(b)
    requires Normalize(a) == Normalize(b)
    ensures SameCycle(Open(a), Open(b))
  {
    hide Walk, Normalize, Open, DropLast, SameCycle;
    NormalizedSpellsSameCycle(a);
    NormalizedSpellsSameCycle(b);
    SameCycleSymmetric(Open(b), DropLast(Normalize(b)));
    SameCycleTransitive(Open(a), DropLast(Normalize(a)), Open(b));
  }

  /** Two cycles get one spelling exactly when they are rotations or reflected rotations of each other. */
  lemma NormalizeCanonical(a: seq<Path>, b: seq<Path>)
    requires Open(a) != [] && "" !in Open(a) && OneSpelling(Open(a))
    ensures Normalize(a) == Normalize(b) <==> SameCycle(Open(a), Open(b))
  {
    hide *;
    NormalizeEmptyExactly(a);
    NormalizeEmptyExactly(b);
    if SameCycle(Open(a), Open(b)) {
      OneSpellingSuffices(a, b);
    }
    if Normalize(a) == Normalize(b) {
      SameSpellingSameCycle(a, b);
    }
  }

  // ---------- cycles that meet the condition, and cycles that do not ----------

  /** The paths are pairwise distinct, so the smallest one has only itself for a neighbour. */
  lemma DistinctHasOneSpelling(p: seq<Path>)
    requires p != [] && forall i, j :: 0 <= i < j < |p| ==> p[i] != p[j]
    ensures OneSpelling(p)
  {
    hide Walk, Smallest, Compare, Close;
    forall b, a, d, c {:trigger Neighbours(p, b, a), Neighbours(p, d, c)} | Neighbours(p, b, a) && Neighbours(p, d, c)
      ensures b == d && a == c
    {
    }
  }

  /** A repeated smallest path does no harm in a cycle walked twice over. */
  lemma RepetitionCanBeCanonical(x: Path, y: Path)
    requires Less(x, y)
    ensures OneSpelling([x, y, x, y])
  {
    hide Walk, Smallest, Compare, Close, Less;
    var p := [x, y, x, y];
    SmallestAlternates(p);
    LessTrichotomy(x, y);
    AlternatingWalks(x, y);
    forall b, a | Neighbours(p, b, a) ensures SpellingAt(p, b, a) == Lesser(Close(p), Close(p)) {
      assert (b == 0 || b == 2) && (a == 0 || a == 2);
    }
    hide SpellingAt, Neighbours, Lesser;
  }

  lemma AlternatingWalks(x: Path, y: Path)
    ensures var p := [x, y, x, y];
            Walk(p, 0, true) == p == Walk(p, 2, true) && Walk(p, 0, false) == p == Walk(p, 2, false)
  {
    hide Walk;
  }

  lemma SmallestAlternates(p: seq<Path>)
    requires |p| == 4 && p[0] == p[2] && Less(p[0], p[1]) && Less(p[0], p[3])
    ensures Smallest(p) == p[0] && FirstSmallest(p) == 0 && LastSmallest(p) == 2
  {
    hide Smallest, Less;
    LessTrichotomy(p[0], p[1]);
    LessTrichotomy(p[0], p[3]);
    SmallestIsLeast(p, 0);
    var i :| 0 <= i < |p| && p[i] == Smallest(p);
    assert i == 0 || i == 1 || i == 2 || i == 3;
  }

  lemma PalindromicWalks(p: seq<Path>)
    requires |p| == 4 && p[0] == p[2]
    ensures Walk(p, 0, true) == p && Walk(p, 2, false) == p
  {
    hide Walk;
    var w := Walk(p, 2, false);
    assert w[0] == p[2] && w[1] == p[1] && w[2] == p[0] && w[3] == p[3];
    WalkIdentity(p);
  }

  /** A cycle `[x, y, x, z]` with `x` smallest reads the same in both candidate walks. */
  lemma NormalizedWhenPalindromic(p: seq<Path>)
    requires |p| == 4 && p[0] == p[2] && Less(p[0], p[1]) && Less(p[0], p[3]) && p[0] != ""
    ensures Open(p) == p && Normalize(p) == Close(p)
  {
    hide Smallest, Less, FirstSmallest, LastSmallest, Walk, Normalize, Close, Compare;
    SmallestAlternates(p);
    LessTrichotomy(p[0], p[3]);
    EmptyIsSmallest(p);
    PalindromicWalks(p);
    NormalizeIsLesserWalk(p);
  }

  /** With the smallest path repeated, two rotations of one cycle can get different spellings. */
  lemma RepeatedSmallestNotCanonical(x: Path, y: Path, z: Path)
    requires x != "" && Less(x, y) && Less(x, z) && y != z
    ensures SameCycle(Open([x, y, x, z]), Open([x, z, x, y]))
    ensures Normalize([x, y, x, z]) != Normalize([x, z, x, y])
  {
    hide Normalize, Less, Walk;
    var p, q := [x, y, x, z], [x, z, x, y];
    NormalizedWhenPalindromic(p);
    NormalizedWhenPalindromic(q);
    assert Close(p)[1] == y && Close(q)[1] == z;
    assert q == Walk(p, 2, true);
  }
}
