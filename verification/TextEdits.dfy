/** Rewriting import paths: applying replacements, and the line ranges a diff prints. */
module TextEdits {
  import opened Sorting

  // ---------- applyReplacements ----------

  datatype Replacement = Replacement(start: nat, length: nat, newText: string)
  {
    function End(): nat { start + length }
  }

  predicate StartsLater(left: Replacement, right: Replacement) {
    left.start >= right.start
  }

  function ApplyOne(text: string, r: Replacement): string {
    var start := if r.start <= |text| then r.start else |text|;
    var end := if r.End() <= |text| then r.End() else |text|;
    text[..start] + r.newText + text[end..]
  }

  function Fold(text: string, rs: seq<Replacement>): string
    decreases rs
  {
    if rs == [] then text else Fold(ApplyOne(text, rs[0]), rs[1..])
  }

  /** Sorted by descending start and folded over the text. */
  function ApplyReplacements(text: string, rs: seq<Replacement>): string {
    Fold(text, SortBy(StartsLater, rs))
  }

  /** In range, starting at different places, and not overlapping. */
  ghost predicate Separate(rs: seq<Replacement>, n: nat) {
    && (forall i :: 0 <= i < |rs| ==> rs[i].End() <= n)
    && (forall i, j :: 0 <= i < |rs| && 0 <= j < |rs| && i != j ==>
          rs[i].start != rs[j].start && (rs[i].start < rs[j].start ==> rs[i].End() <= rs[j].start))
  }

  ghost predicate InOrder(rs: seq<Replacement>, from: nat, n: nat) {
    && from <= n
    && (forall i :: 0 <= i < |rs| ==> from <= rs[i].start && rs[i].End() <= n)
    && (forall i, j :: 0 <= i < j < |rs| ==> rs[i].End() <= rs[j].start)
  }

  /** All replacements at once, copying the text between them from left to right. */
  function LeftToRight(text: string, rs: seq<Replacement>, from: nat): string
    requires InOrder(rs, from, |text|)
  {
    if rs == [] then text[from..]
    else text[from..rs[0].start] + rs[0].newText + LeftToRight(text, rs[1..], rs[0].End())
  }

  lemma CopyFirst(text: string, rs: seq<Replacement>, from: nat)
    requires rs != [] && InOrder(rs, from, |text|)
    ensures InOrder(rs[1..], rs[0].End(), |text|)
    ensures LeftToRight(text, rs, from)
         == text[from..rs[0].start] + rs[0].newText + LeftToRight(text, rs[1..], rs[0].End())
  {
  }

  lemma PrefixInOrder(rs: seq<Replacement>, from: nat, n: nat)
    requires rs != [] && InOrder(rs, from, n)
    ensures InOrder(rs[..|rs| - 1], from, rs[|rs| - 1].start)
  {
  }

  lemma {:induction false} LastFromRight(text: string, rs: seq<Replacement>, from: nat)
    requires rs != [] && InOrder(rs, from, |text|)
    ensures var last := rs[|rs| - 1];
            InOrder(rs[..|rs| - 1], from, last.start) &&
            LeftToRight(text, rs, from) == LeftToRight(text[..last.start], rs[..|rs| - 1], from) + last.newText + text[last.End()..]
    decreases |rs|
  {
    var front, last := rs[..|rs| - 1], rs[|rs| - 1];
    PrefixInOrder(rs, from, |text|);
    if |rs| == 1 {
      assert rs[1..] == [];
      assert text[from..last.start] == text[..last.start][from..];
    } else {
      CopyFirst(text, rs, from);
      CopyFirst(text[..last.start], front, from);
      hide LeftToRight, InOrder;
      LastFromRight(text, rs[1..], rs[0].End());
      assert rs[1..][..|rs| - 2] == front[1..];
      var middle := LeftToRight(text[..last.start], front[1..], rs[0].End());
      Reassociate(text[from..rs[0].start], rs[0].newText, middle, last.newText, text[last.End()..]);
      assert text[..last.start][from..rs[0].start] == text[from..rs[0].start];
    }
  }

  lemma Reassociate(a: string, b: string, c: string, d: string, e: string)
    ensures a + b + (c + d + e) == a + b + c + d + e
  {
  }

  /** Replacements that end by `k` leave what follows `k` alone. */
  lemma {:induction false} TailUntouched(text: string, rs: seq<Replacement>, from: nat, k: nat)
    requires InOrder(rs, from, k) && k <= |text|
    ensures InOrder(rs, from, |text|) && LeftToRight(text, rs, from) == LeftToRight(text[..k], rs, from) + text[k..]
    decreases |rs|
  {
    if rs == [] {
      assert text[from..] == text[..k][from..] + text[k..];
    } else {
      CopyFirst(text[..k], rs, from);
      assert InOrder(rs, from, |text|);
      CopyFirst(text, rs, from);
      hide LeftToRight, InOrder;
      TailUntouched(text, rs[1..], rs[0].End(), k);
      assert text[..k][from..rs[0].start] == text[from..rs[0].start];
    }
  }

  function Reverse(rs: seq<Replacement>): (r: seq<Replacement>)
    ensures |r| == |rs|
    ensures forall i :: 0 <= i < |rs| ==> r[i] == rs[|rs| - 1 - i]
  {
    seq(|rs|, i requires 0 <= i < |rs| => rs[|rs| - 1 - i])
  }

  lemma {:induction false} FoldIsLeftToRight(text: string, rs: seq<Replacement>)
    requires InOrder(rs, 0, |text|)
    ensures Fold(text, Reverse(rs)) == LeftToRight(text, rs, 0)
    decreases |rs|
  {
    if rs == [] {
      assert text[0..] == text;
    } else {
      var front, last := rs[..|rs| - 1], rs[|rs| - 1];
      var once := ApplyOne(text, last);
      assert Reverse(rs)[1..] == Reverse(front);
      assert once[..last.start] == text[..last.start];
      assert once[last.start..] == last.newText + text[last.End()..];
      LastFromRight(text, rs, 0);
      TailUntouched(once, front, 0, last.start);
      FoldIsLeftToRight(once, front);
    }
  }

  lemma StartsLaterOrder()
    ensures TotalPreorder(StartsLater)
  {
  }

  // ---------- replacements that start at the same place ----------

  /** `right`, applied after `left`, lies wholly before it. */
  predicate Before(right: Replacement, left: Replacement) {
    right.End() <= left.start
  }

  /** Of two replacements, the one listed first may share its start only with a mere insertion. */
  ghost predicate Compatible(x: Replacement, y: Replacement) {
    if x.start < y.start then Before(x, y)
    else if y.start < x.start then Before(y, x)
    else y.length == 0
  }

  ghost predicate AllCompatible(rs: seq<Replacement>, n: nat) {
    && (forall i :: 0 <= i < |rs| ==> rs[i].End() <= n)
    && (forall i, j :: 0 <= i < j < |rs| ==> Compatible(rs[i], rs[j]))
  }

  ghost predicate FromTheRight(rs: seq<Replacement>) {
    forall i, j :: 0 <= i < j < |rs| ==> Before(rs[j], rs[i])
  }

  lemma {:induction false} InsertFromTheRight(x: Replacement, s: seq<Replacement>)
    requires FromTheRight(s) && forall y :: y in s ==> Compatible(x, y)
    ensures FromTheRight(Insert(StartsLater, x, s))
  {
    if s == [] {
    } else if StartsLater(x, s[0]) {
      forall j | 0 <= j < |s| ensures Before(s[j], x) {
        assert s[j] in s && Compatible(x, s[j]);
        assert j > 0 ==> Before(s[j], s[0]);
      }
    } else {
      var rest := Insert(StartsLater, x, s[1..]);
      InsertFromTheRight(x, s[1..]);
      assert s[0] in s;
      forall j | 0 <= j < |rest| ensures Before(rest[j], s[0]) {
        assert rest[j] in multiset(rest);
        assert rest[j] == x || rest[j] in multiset(s[1..]);
      }
    }
  }

  lemma {:induction false} SortedFromTheRight(rs: seq<Replacement>, n: nat)
    requires AllCompatible(rs, n)
    ensures FromTheRight(SortBy(StartsLater, rs))
  {
    if rs == [] {
    } else {
      var rest := SortBy(StartsLater, rs[1..]);
      SortedFromTheRight(rs[1..], n);
      MultisetMembers(rest, rs[1..]);
      forall y | y in rest ensures Compatible(rs[0], y) {
        assert y in rs[1..];
      }
      InsertFromTheRight(rs[0], rest);
    }
  }

  lemma {:induction false} InsertedCompatible(x: Replacement, s: seq<Replacement>)
    requires FromTheRight(Insert(StartsLater, x, s))
    ensures FromTheRight(s) && forall y :: y in s ==> Compatible(x, y)
  {
    if s == [] {
    } else if StartsLater(x, s[0]) {
      var r := [x] + s;
      forall i, j | 0 <= i < j < |s| ensures Before(s[j], s[i]) {
        assert Before(r[j + 1], r[i + 1]);
      }
      forall j | 0 <= j < |s| ensures Compatible(x, s[j]) {
        assert Before(r[j + 1], r[0]);
      }
    } else {
      var rest := Insert(StartsLater, x, s[1..]);
      var r := [s[0]] + rest;
      forall i, j | 0 <= i < j < |rest| ensures Before(rest[j], rest[i]) {
        assert Before(r[j + 1], r[i + 1]);
      }
      InsertedCompatible(x, s[1..]);
      forall y | y in rest ensures Before(y, s[0]) {
        var j :| 0 <= j < |rest| && rest[j] == y;
        assert Before(r[j + 1], r[0]);
      }
      InsertMembers(x, s[1..]);
    }
  }

  lemma InsertMembers(x: Replacement, s: seq<Replacement>)
    ensures forall y :: y in Insert(StartsLater, x, s) <==> y == x || y in s
  {
    var r := Insert(StartsLater, x, s);
    forall y ensures y in r <==> y == x || y in s {
      assert y in r <==> y in multiset(r);
      assert y in s <==> y in multiset(s);
    }
  }

  lemma {:induction false} SortedCompatible(rs: seq<Replacement>)
    requires FromTheRight(SortBy(StartsLater, rs))
    ensures forall i, j :: 0 <= i < j < |rs| ==> Compatible(rs[i], rs[j])
  {
    if rs == [] {
    } else {
      var rest := SortBy(StartsLater, rs[1..]);
      InsertedCompatible(rs[0], rest);
      SortedCompatible(rs[1..]);
      MultisetMembers(rest, rs[1..]);
      hide Compatible, SortBy;
      forall i, j | 0 <= i < j < |rs| ensures Compatible(rs[i], rs[j]) {
        if i == 0 {
          assert rs[1..][j - 1] in rest;
        } else {
          assert rs[1..][i - 1] == rs[i] && rs[1..][j - 1] == rs[j];
        }
      }
    }
  }

  lemma InOrderReversed(sorted: seq<Replacement>, n: nat)
    ensures InOrder(Reverse(sorted), 0, n) <==>
      FromTheRight(sorted) && forall i :: 0 <= i < |sorted| ==> sorted[i].End() <= n
  {
    var r := Reverse(sorted);
    if InOrder(r, 0, n) {
      forall i, j | 0 <= i < j < |sorted| ensures Before(sorted[j], sorted[i]) {
        assert r[|r| - 1 - j] == sorted[j] && r[|r| - 1 - i] == sorted[i];
      }
      forall i | 0 <= i < |sorted| ensures sorted[i].End() <= n {
        assert r[|r| - 1 - i] == sorted[i];
      }
    }
  }

  /** What is folded, read backwards, is an order to copy in exactly when the replacements are compatible as listed. */
  lemma CompatibleExactly(rs: seq<Replacement>, n: nat)
    ensures InOrder(Reverse(SortBy(StartsLater, rs)), 0, n) <==> AllCompatible(rs, n)
  {
    var sorted := SortBy(StartsLater, rs);
    MultisetMembers(sorted, rs);
    InOrderReversed(sorted, n);
    if AllCompatible(rs, n) {
      SortedFromTheRight(rs, n);
      forall i | 0 <= i < |sorted| ensures sorted[i].End() <= n {
        assert sorted[i] in rs;
      }
    }
    if InOrder(Reverse(sorted), 0, n) {
      SortedCompatible(rs);
      forall i | 0 <= i < |rs| ensures rs[i].End() <= n {
        assert rs[i] in sorted;
      }
    }
  }

  // ---------- the order they are copied in ----------

  function AtStart(k: nat): Replacement -> bool {
    (r: Replacement) => r.start == k
  }

  /** From left to right, and among those that start together in the reverse of their listed order. */
  ghost predicate Arranged(ascending: seq<Replacement>, rs: seq<Replacement>) {
    && (forall i, j :: 0 <= i < j < |ascending| ==> ascending[i].start <= ascending[j].start)
    && forall k: nat :: Only(ascending, AtStart(k)) == Reverse(Only(rs, AtStart(k)))
  }

  lemma {:induction false} OnlyAppend(a: seq<Replacement>, x: Replacement, p: Replacement -> bool)
    ensures Only(a + [x], p) == Only(a, p) + if p(x) then [x] else []
  {
    if a == [] {
      assert [x][1..] == [] && [] + [x] == [x];
    } else {
      hide Only;
      OnlyAppend(a[1..], x, p);
      OnlyCons(a[0], a[1..] + [x], p);
      OnlyCons(a[0], a[1..], p);
      assert [a[0]] + a[1..] == a && [a[0]] + (a[1..] + [x]) == a + [x];
    }
  }

  lemma ReverseCons(x: Replacement, s: seq<Replacement>)
    ensures Reverse([x] + s) == Reverse(s) + [x]
  {
  }

  lemma {:induction false} OnlyReverse(s: seq<Replacement>, p: Replacement -> bool)
    ensures Only(Reverse(s), p) == Reverse(Only(s, p))
  {
    if s == [] {
    } else {
      hide Only, Reverse;
      OnlyReverse(s[1..], p);
      ReverseCons(s[0], s[1..]);
      ReverseCons(s[0], Only(s[1..], p));
      OnlyAppend(Reverse(s[1..]), s[0], p);
      OnlyCons(s[0], s[1..], p);
      assert [s[0]] + s[1..] == s;
      assert [] + Only(s[1..], p) == Only(s[1..], p);
    }
  }

  lemma SortedIsArranged(rs: seq<Replacement>)
    ensures Arranged(Reverse(SortBy(StartsLater, rs)), rs)
  {
    var sorted := SortBy(StartsLater, rs);
    StartsLaterOrder();
    SortBySorted(StartsLater, rs);
    hide SortBy;
    var r := Reverse(sorted);
    forall i, j | 0 <= i < j < |r| ensures r[i].start <= r[j].start {
      assert StartsLater(sorted[|r| - 1 - j], sorted[|r| - 1 - i]);
    }
    forall k: nat ensures Only(r, AtStart(k)) == Reverse(Only(rs, AtStart(k))) {
      SortByStable(StartsLater, rs, AtStart(k));
      OnlyReverse(sorted, AtStart(k));
    }
  }

  lemma {:induction false} OnlyMembers(s: seq<Replacement>, p: Replacement -> bool)
    ensures forall r :: r in Only(s, p) <==> r in s && p(r)
  {
    if s == [] {
    } else {
      OnlyMembers(s[1..], p);
      assert s == [s[0]] + s[1..];
    }
  }

  lemma SameFirst(a: seq<Replacement>, b: seq<Replacement>)
    requires a != [] && forall k: nat :: Only(a, AtStart(k)) == Only(b, AtStart(k))
    requires forall i, j :: 0 <= i < j < |b| ==> b[i].start <= b[j].start
    ensures b != [] && b[0].start <= a[0].start
  {
    var p := AtStart(a[0].start);
    assert p(a[0]);
    OnlyMembers(a, p);
    OnlyMembers(b, p);
    assert a[0] in Only(b, p);
    var j :| 0 <= j < |b| && b[j] == a[0];
  }

  lemma {:induction false} ArrangementUnique(a: seq<Replacement>, b: seq<Replacement>)
    requires forall i, j :: 0 <= i < j < |a| ==> a[i].start <= a[j].start
    requires forall i, j :: 0 <= i < j < |b| ==> b[i].start <= b[j].start
    requires forall k: nat :: Only(a, AtStart(k)) == Only(b, AtStart(k))
    ensures a == b
  {
    if a == [] && b == [] {
    } else {
      if a != [] { SameFirst(a, b); }
      if b != [] { SameFirst(b, a); }
      SameHead(a, b);
      forall k: nat ensures Only(a[1..], AtStart(k)) == Only(b[1..], AtStart(k)) {
        TailOfOnly(a, AtStart(k));
        TailOfOnly(b, AtStart(k));
      }
      ArrangementUnique(a[1..], b[1..]);
      assert a == [a[0]] + a[1..] && b == [b[0]] + b[1..];
    }
  }

  lemma TailOfOnly(a: seq<Replacement>, p: Replacement -> bool)
    requires a != []
    ensures p(a[0]) ==> Only(a, p) != [] && Only(a[1..], p) == Only(a, p)[1..]
    ensures !p(a[0]) ==> Only(a[1..], p) == Only(a, p)
  {
  }

  lemma SameHead(a: seq<Replacement>, b: seq<Replacement>)
    requires a != [] && b != [] && a[0].start == b[0].start
    requires forall k: nat :: Only(a, AtStart(k)) == Only(b, AtStart(k))
    ensures a[0] == b[0]
  {
    var p := AtStart(a[0].start);
    OnlyCons(a[0], a[1..], p);
    OnlyCons(b[0], b[1..], p);
    assert [a[0]] + a[1..] == a && [b[0]] + b[1..] == b;
    assert Only(a, p)[0] == a[0] && Only(b, p)[0] == b[0];
  }

  /**
   * Compatible replacements, listed in any order, are applied as if all at once: the result is the text
   * copied from left to right with each replaced stretch exchanged, and of those that start together the
   * one listed later comes first.
   */
  lemma ReplacementsAreSimultaneous(text: string, rs: seq<Replacement>, ascending: seq<Replacement>)
    requires AllCompatible(rs, |text|) && Arranged(ascending, rs)
    ensures InOrder(ascending, 0, |text|)
    ensures ApplyReplacements(text, rs) == LeftToRight(text, ascending, 0)
  {
    hide AllCompatible, InOrder, SortBy, LeftToRight;
    var sorted := SortBy(StartsLater, rs);
    CompatibleExactly(rs, |text|);
    SortedIsArranged(rs);
    ArrangementUnique(ascending, Reverse(sorted));
    assert Reverse(ascending) == sorted;
    FoldIsLeftToRight(text, ascending);
  }

  // ---------- replacements that all start at different places ----------

  lemma SeparateMembers(rs: seq<Replacement>, s: seq<Replacement>, n: nat)
    requires Separate(rs, n) && multiset(rs) == multiset(s)
    ensures Separate(s, n)
  {
    MultisetMembers(rs, s);
    forall i, j | 0 <= i < |s| && 0 <= j < |s| && i != j
      ensures s[i].start != s[j].start && (s[i].start < s[j].start ==> s[i].End() <= s[j].start)
    {
      assert s[i] in rs && s[j] in rs;
      var a :| 0 <= a < |rs| && rs[a] == s[i];
      var b :| 0 <= b < |rs| && rs[b] == s[j];
      if a == b {
        TwiceInSequence(s, i, j);
        OnceWhenSeparate(rs, n, a);
      }
    }
    forall i | 0 <= i < |s| ensures s[i].End() <= n {
      assert s[i] in rs;
    }
  }

  lemma TwiceInSequence(s: seq<Replacement>, i: nat, j: nat)
    requires i < |s| && j < |s| && i != j && s[i] == s[j]
    ensures multiset(s)[s[i]] >= 2
  {
    var a, b := if i < j then i else j, if i < j then j else i;
    assert s == s[..a] + [s[a]] + s[a + 1..b] + [s[b]] + s[b + 1..];
  }

  lemma OnceWhenSeparate(rs: seq<Replacement>, n: nat, a: nat)
    requires Separate(rs, n) && a < |rs|
    ensures multiset(rs)[rs[a]] == 1
  {
    assert rs == rs[..a] + [rs[a]] + rs[a + 1..];
    assert rs[a] !in rs[..a] && rs[a] !in rs[a + 1..];
    assert multiset(rs[..a])[rs[a]] == 0 && multiset(rs[a + 1..])[rs[a]] == 0;
  }

  lemma SeparateRest(s: seq<Replacement>, n: nat)
    requires s != [] && Separate(s, n)
    ensures Separate(s[1..], n) && forall y :: y in s[1..] ==> y.start != s[0].start
  {
    forall i | 0 <= i < |s| - 1 ensures s[1..][i].start != s[0].start {
      assert s[1..][i] == s[i + 1];
    }
  }

  lemma {:induction false} SingleAt(s: seq<Replacement>, n: nat, r: Replacement)
    requires Separate(s, n) && r in s
    ensures Only(s, AtStart(r.start)) == [r]
  {
    var p := AtStart(r.start);
    SeparateRest(s, n);
    OnlyCons(s[0], s[1..], p);
    assert [s[0]] + s[1..] == s;
    if s[0] == r {
      NothingAt(s[1..], r.start);
    } else {
      SingleAt(s[1..], n, r);
    }
  }

  /** Then any arrangement by start will do. */
  lemma SeparateAreArranged(rs: seq<Replacement>, ascending: seq<Replacement>, n: nat)
    requires Separate(rs, n) && multiset(ascending) == multiset(rs)
    requires forall i, j :: 0 <= i < j < |ascending| ==> ascending[i].start <= ascending[j].start
    ensures AllCompatible(rs, n) && Arranged(ascending, rs)
  {
    SeparateMembers(rs, ascending, n);
    MultisetMembers(rs, ascending);
    forall k: nat ensures Only(ascending, AtStart(k)) == Reverse(Only(rs, AtStart(k))) {
      OnlyMembers(rs, AtStart(k));
      OnlyMembers(ascending, AtStart(k));
      if r :| r in rs && r.start == k {
        SingleAt(rs, n, r);
        SingleAt(ascending, n, r);
      } else {
        NothingAt(rs, k);
        NothingAt(ascending, k);
      }
    }
  }

  lemma {:induction false} NothingAt(s: seq<Replacement>, k: nat)
    requires forall r :: r in s ==> r.start != k
    ensures Only(s, AtStart(k)) == []
  {
    if s == [] {
    } else {
      NothingAt(s[1..], k);
    }
  }

  /** An insertion listed before a replacement that starts at the same place is overwritten by it. */
  lemma SameStartOverwrites(text: string, at: nat, inserted: string, length: nat, newText: string)
    requires at + length <= |text| && |inserted| <= length
    ensures ApplyReplacements(text, [Replacement(at, 0, inserted), Replacement(at, length, newText)])
         == text[..at] + newText + text[at + length - |inserted|..]
  {
    var a, b := Replacement(at, 0, inserted), Replacement(at, length, newText);
    assert [b][1..] == [] && [a, b][1..] == [b];
    assert SortBy(StartsLater, [b]) == [b];
    assert SortBy(StartsLater, [a, b]) == [a] + [b];
    var once := ApplyOne(text, a);
    assert once == text[..at] + inserted + text[at..];
    assert once[at + length..] == text[at + length - |inserted|..];
    assert once[..at] == text[..at];
    assert [a, b] == [a] + [b];
    assert Fold(text, [a, b]) == Fold(once, [b]) == ApplyOne(once, b);
  }

  // ---------- createDiffRanges ----------

  const DIFF_CONTEXT_LINES := 2

  datatype DiffRange = DiffRange(start: int, end: int)

  ghost predicate Covers(ranges: seq<DiffRange>, line: int) {
    exists i :: 0 <= i < |ranges| && ranges[i].start <= line <= ranges[i].end
  }

  /** The line is in the file and near one of the changed lines. */
  ghost predicate NearChange(changed: seq<int>, lineCount: int, line: int) {
    0 <= line < lineCount && exists i :: 0 <= i < |changed| && changed[i] - 2 <= line <= changed[i] + 2
  }

  /** Ranges are non-empty and leave at least one line between neighbours. */
  ghost predicate Spaced(ranges: seq<DiffRange>) {
    && (forall i :: 0 <= i < |ranges| ==> ranges[i].start <= ranges[i].end)
    && (forall i :: 0 <= i < |ranges| - 1 ==> ranges[i].end + 1 < ranges[i + 1].start)
  }

  method CreateDiffRanges(changed: seq<int>, lineCount: int) returns (ranges: seq<DiffRange>)
    requires forall i :: 0 <= i < |changed| ==> 0 <= changed[i] < lineCount
    requires forall i, j :: 0 <= i < j < |changed| ==> changed[i] <= changed[j]
    ensures forall line :: Covers(ranges, line) <==> NearChange(changed, lineCount, line)
    ensures Spaced(ranges)
  {
    ranges := [];
    NothingYet(changed, lineCount);
    hide Covers, NearChange;
    for n := 0 to |changed|
      invariant forall line :: Covers(ranges, line) <==> NearChange(changed[..n], lineCount, line)
      invariant Spaced(ranges)
      invariant ranges == [] <==> n == 0
      invariant n > 0 ==> LastReaches(ranges, changed[n - 1], lineCount)
    {
      var start := if changed[n] - DIFF_CONTEXT_LINES < 0 then 0 else changed[n] - DIFF_CONTEXT_LINES;
      var end := if lineCount - 1 < changed[n] + DIFF_CONTEXT_LINES then lineCount - 1 else changed[n] + DIFF_CONTEXT_LINES;
      OneMoreChange(changed, n, lineCount, start, end);
      if n > 0 && start <= ranges[|ranges| - 1].end + 1 {
        var previous := ranges[|ranges| - 1];
        var longer := previous.(end := if previous.end < end then end else previous.end);
        assert longer == previous.(end := end);
        Extended(ranges, start, end);
        ghost var before := ranges;
        ranges := ranges[|ranges| - 1 := longer];
        assert forall line :: Covers(ranges, line) <==> Covers(before, line) || start <= line <= end;
      } else {
        Appended(ranges, start, end);
        ranges := ranges + [DiffRange(start, end)];
      }
    }
    assert changed[..|changed|] == changed;
  }

  /** The last range ends where the window of the last change ends, and starts no later than that window. */
  ghost predicate LastReaches(ranges: seq<DiffRange>, change: int, lineCount: int) {
    && ranges != []
    && ranges[|ranges| - 1].end == (if lineCount - 1 < change + DIFF_CONTEXT_LINES then lineCount - 1 else change + DIFF_CONTEXT_LINES)
    && ranges[|ranges| - 1].start <= (if change - DIFF_CONTEXT_LINES < 0 then 0 else change - DIFF_CONTEXT_LINES)
  }

  lemma NothingYet(changed: seq<int>, lineCount: int)
    ensures forall line :: !Covers([], line) && !NearChange(changed[..0], lineCount, line)
  {
  }

  lemma OneMoreChange(changed: seq<int>, n: nat, lineCount: int, start: int, end: int)
    requires n < |changed|
    requires start == if changed[n] - DIFF_CONTEXT_LINES < 0 then 0 else changed[n] - DIFF_CONTEXT_LINES
    requires end == if lineCount - 1 < changed[n] + DIFF_CONTEXT_LINES then lineCount - 1 else changed[n] + DIFF_CONTEXT_LINES
    ensures forall line :: NearChange(changed[..n + 1], lineCount, line) <==>
      NearChange(changed[..n], lineCount, line) || start <= line <= end
  {
    forall line ensures NearChange(changed[..n + 1], lineCount, line) <==>
      NearChange(changed[..n], lineCount, line) || start <= line <= end
    {
      if NearChange(changed[..n], lineCount, line) {
        var i :| 0 <= i < n && changed[..n][i] - DIFF_CONTEXT_LINES <= line <= changed[..n][i] + DIFF_CONTEXT_LINES;
        assert changed[..n + 1][i] == changed[..n][i];
      }
      if start <= line <= end {
        assert changed[..n + 1][n] == changed[n];
      }
      if NearChange(changed[..n + 1], lineCount, line) {
        var i :| 0 <= i < n + 1 && changed[..n + 1][i] - DIFF_CONTEXT_LINES <= line <= changed[..n + 1][i] + DIFF_CONTEXT_LINES;
        if i < n { assert changed[..n][i] == changed[..n + 1][i]; }
      }
    }
  }

  lemma Appended(ranges: seq<DiffRange>, start: int, end: int)
    ensures forall line :: Covers(ranges + [DiffRange(start, end)], line) <==> Covers(ranges, line) || start <= line <= end
  {
    var longer := ranges + [DiffRange(start, end)];
    forall line ensures Covers(longer, line) <==> Covers(ranges, line) || start <= line <= end {
      if Covers(ranges, line) {
        var i :| 0 <= i < |ranges| && ranges[i].start <= line <= ranges[i].end;
        assert longer[i] == ranges[i];
      }
      if start <= line <= end {
        assert longer[|ranges|].start <= line <= longer[|ranges|].end;
      }
    }
  }

  lemma Extended(ranges: seq<DiffRange>, start: int, end: int)
    requires ranges != []
    requires ranges[|ranges| - 1].start <= start <= ranges[|ranges| - 1].end + 1
    requires ranges[|ranges| - 1].end <= end
    ensures var last := ranges[|ranges| - 1];
            forall line :: Covers(ranges[|ranges| - 1 := last.(end := end)], line) <==> Covers(ranges, line) || start <= line <= end
  {
    var last := ranges[|ranges| - 1];
    var longer := ranges[|ranges| - 1 := last.(end := end)];
    forall line ensures Covers(longer, line) <==> Covers(ranges, line) || start <= line <= end {
      if Covers(ranges, line) {
        var i :| 0 <= i < |ranges| && ranges[i].start <= line <= ranges[i].end;
        assert longer[i].start <= line <= longer[i].end;
      }
      if start <= line <= end {
        assert longer[|ranges| - 1].start <= line <= longer[|ranges| - 1].end;
      }
      if Covers(longer, line) {
        var i :| 0 <= i < |longer| && longer[i].start <= line <= longer[i].end;
        assert ranges[i].start <= line <= ranges[i].end || start <= line <= end;
      }
    }
  }
}
