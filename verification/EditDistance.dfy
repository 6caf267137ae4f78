/** Command suggestions: the two-row edit distance and the nearest candidate. */
module EditDistance {
  import opened Basics

  function Min(a: nat, b: nat): nat {
    if a <= b then a else b
  }

  function Front(s: string): string
    requires s != ""
  {
    s[..|s| - 1]
  }

  function Last(s: string): char
    requires s != ""
  {
    s[|s| - 1]
  }

  function Cost(x: char, y: char): nat {
    if x == y then 0 else 1
  }

  /** Levenshtein distance, by the last characters. */
  function Distance(a: string, b: string): nat
    decreases |a| + |b|
  {
    if a == "" then |b|
    else if b == "" then |a|
    else LeastOf(Distance(Front(a), b), Distance(a, Front(b)), Distance(Front(a), Front(b)), Cost(Last(a), Last(b)))
  }

  /** The cheapest way to finish: a deletion, an insertion, or a substitution at the given cost. */
  function LeastOf(deletion: nat, insertion: nat, substitution: nat, cost: nat): nat {
    Min(Min(deletion + 1, insertion + 1), substitution + cost)
  }

  // ---------- the two-row loop ----------

  /** The row holds the distances of a prefix of `left` to the first `n` prefixes of `right`. */
  ghost predicate RowHolds(row: seq<nat>, left: string, right: string, i: nat, n: nat)
    requires i <= |left| && n <= |row| && n <= |right| + 1
  {
    forall j :: 0 <= j < n ==> row[j] == Distance(left[..i], right[..j])
  }

  method ComputeDistance(left: string, right: string) returns (d: nat)
    ensures d == Distance(left, right)
  {
    hide Distance;
    var width := |right| + 1;
    var previous := new nat[width](i => i);
    var current := new nat[width](_ => 0);
    FirstRow(left, right);
    for leftIndex := 1 to |left| + 1
      invariant RowHolds(previous[..], left, right, leftIndex - 1, width)
    {
      current[0] := leftIndex;
      FirstColumn(left, right, leftIndex);
      for rightIndex := 1 to |right| + 1
        invariant RowHolds(previous[..], left, right, leftIndex - 1, width)
        invariant RowHolds(current[..], left, right, leftIndex, rightIndex)
      {
        CellFromNeighbours(left, right, leftIndex, rightIndex);
        var substitutionCost := if left[leftIndex - 1] == right[rightIndex - 1] then 0 else 1;
        current[rightIndex] := Min(Min(previous[rightIndex] + 1, current[rightIndex - 1] + 1),
                                   previous[rightIndex - 1] + substitutionCost);
      }
      forall j | 0 <= j < width {
        previous[j] := current[j];
      }
      assert previous[..] == current[..];
    }
    assert left[..|left|] == left && right[..|right|] == right;
    return previous[|right|];
  }

  lemma FirstRow(left: string, right: string)
    ensures forall j :: 0 <= j <= |right| ==> Distance(left[..0], right[..j]) == j
  {
  }

  lemma FirstColumn(left: string, right: string, i: nat)
    requires i <= |left|
    ensures Distance(left[..i], right[..0]) == i
  {
  }

  lemma {:induction false} Unfold(a: string, b: string)
    requires a != "" && b != ""
    ensures Distance(a, b) ==
      LeastOf(Distance(Front(a), b), Distance(a, Front(b)), Distance(Front(a), Front(b)), Cost(Last(a), Last(b)))
  {
    hide LeastOf, Cost, Front, Last;
  }

  lemma {:induction false} CellFromNeighbours(left: string, right: string, i: nat, j: nat)
    requires 1 <= i <= |left| && 1 <= j <= |right|
    ensures Distance(left[..i], right[..j]) ==
      Min(Min(Distance(left[..i - 1], right[..j]) + 1, Distance(left[..i], right[..j - 1]) + 1),
          Distance(left[..i - 1], right[..j - 1]) + Cost(left[i - 1], right[j - 1]))
  {
    hide Distance;
    var a, b := left[..i], right[..j];
    assert Front(a) == left[..i - 1] && Front(b) == right[..j - 1];
    Unfold(a, b);
  }

  // ---------- a metric ----------

  lemma {:induction false} ZeroExactlyWhenEqual(a: string, b: string)
    ensures Distance(a, b) == 0 <==> a == b
    decreases |a| + |b|
  {
    if a == "" || b == "" {
    } else {
      ZeroExactlyWhenEqual(Front(a), Front(b));
      assert a == Front(a) + [Last(a)] && b == Front(b) + [Last(b)];
    }
  }

  lemma {:induction false} Symmetric(a: string, b: string)
    ensures Distance(a, b) == Distance(b, a)
    decreases |a| + |b|
  {
    if a == "" || b == "" {
    } else {
      Symmetric(Front(a), b);
      Symmetric(a, Front(b));
      Symmetric(Front(a), Front(b));
    }
  }

  lemma {:induction false} LengthBounds(a: string, b: string)
    ensures |a| - |b| <= Distance(a, b) && |b| - |a| <= Distance(a, b) <= |a| + |b|
    decreases |a| + |b|
  {
    if a == "" || b == "" {
    } else {
      LengthBounds(Front(a), b);
      LengthBounds(a, Front(b));
      LengthBounds(Front(a), Front(b));
    }
  }

  lemma {:induction false} TriangleInequality(a: string, b: string, c: string)
    ensures Distance(a, c) <= Distance(a, b) + Distance(b, c)
    decreases |a| + |b| + |c|
  {
    hide Distance;
    if a == "" || b == "" || c == "" {
      LengthBounds(a, b);
      LengthBounds(b, c);
      LengthBounds(a, c);
      DistanceToEmpty(a, b);
      DistanceToEmpty(b, c);
      DistanceToEmpty(a, c);
    } else {
      Unfold(a, b);
      Unfold(b, c);
      Unfold(a, c);
      TriangleInequality(Front(a), b, c);
      TriangleInequality(a, b, Front(c));
      TriangleInequality(a, Front(b), c);
      TriangleInequality(a, Front(b), Front(c));
      TriangleInequality(Front(a), Front(b), c);
      TriangleInequality(Front(a), Front(b), Front(c));
    }
  }

  // ---------- the least number of edits ----------

  /** One insertion, deletion or substitution of a single character. */
  ghost predicate OneEdit(x: string, y: string) {
    || (exists p, s, c :: x == p + s && y == p + [c] + s)
    || (exists p, s, c :: x == p + [c] + s && y == p + s)
    || (exists p, s, c, d :: x == p + [c] + s && y == p + [d] + s)
  }

  ghost predicate EditChain(chain: seq<string>, a: string, b: string) {
    && |chain| >= 1 && chain[0] == a && chain[|chain| - 1] == b
    && forall i :: 0 <= i < |chain| - 1 ==> OneEdit(chain[i], chain[i + 1])
  }

  lemma {:induction false} CommonSuffix(a: string, b: string, s: string)
    ensures Distance(a + s, b + s) <= Distance(a, b)
    decreases |s|
  {
    if s == "" {
      assert a + s == a && b + s == b;
    } else {
      CommonSuffix(a, b, Front(s));
      assert Front(a + s) == a + Front(s) && Front(b + s) == b + Front(s);
    }
  }

  lemma EditCostsOne(x: string, y: string)
    requires OneEdit(x, y)
    ensures Distance(x, y) <= 1
  {
    if p, s, c :| x == p + s && y == p + [c] + s {
      CommonSuffix(p, p + [c], s);
      AppendCostsOne(p, c);
    } else if p, s, c :| x == p + [c] + s && y == p + s {
      CommonSuffix(p + [c], p, s);
      AppendCostsOne(p, c);
      Symmetric(p, p + [c]);
    } else {
      var p, s, c, d :| x == p + [c] + s && y == p + [d] + s;
      CommonSuffix(p + [c], p + [d], s);
      ReplaceCostsOne(p, c, d);
    }
  }

  lemma AppendCostsOne(p: string, c: char)
    ensures Distance(p, p + [c]) <= 1
  {
    ZeroExactlyWhenEqual(p, p);
    assert Front(p + [c]) == p;
  }

  lemma ReplaceCostsOne(p: string, c: char, d: char)
    ensures Distance(p + [c], p + [d]) <= 1
  {
    ZeroExactlyWhenEqual(p, p);
    assert Front(p + [c]) == p && Front(p + [d]) == p;
  }

  /** No chain of edits is shorter than the distance. */
  lemma {:induction false} ChainIsNoShorter(chain: seq<string>, a: string, b: string)
    requires EditChain(chain, a, b)
    ensures Distance(a, b) <= |chain| - 1
    decreases |chain|
  {
    hide OneEdit, Distance;
    if |chain| == 1 {
      ZeroExactlyWhenEqual(a, b);
    } else {
      var rest := chain[1..];
      assert EditChain(rest, chain[1], b) by {
        forall i | 0 <= i < |rest| - 1 ensures OneEdit(rest[i], rest[i + 1]) {
          assert OneEdit(chain[i + 1], chain[i + 2]);
        }
      }
      ChainIsNoShorter(rest, chain[1], b);
      assert OneEdit(chain[0], chain[1]);
      EditCostsOne(a, chain[1]);
      TriangleInequality(a, chain[1], b);
    }
  }

  function WithSuffix(chain: seq<string>, c: char): (r: seq<string>)
    ensures |r| == |chain| && forall i :: 0 <= i < |r| ==> r[i] == chain[i] + [c]
  {
    seq(|chain|, i requires 0 <= i < |chain| => chain[i] + [c])
  }

  lemma EditUnderSuffix(x: string, y: string, e: char)
    requires OneEdit(x, y)
    ensures OneEdit(x + [e], y + [e])
  {
    if p, s, c :| x == p + s && y == p + [c] + s {
      assert x + [e] == p + (s + [e]) && y + [e] == p + [c] + (s + [e]);
    } else if p, s, c :| x == p + [c] + s && y == p + s {
      assert x + [e] == p + [c] + (s + [e]) && y + [e] == p + (s + [e]);
    } else {
      var p, s, c, d :| x == p + [c] + s && y == p + [d] + s;
      assert x + [e] == p + [c] + (s + [e]) && y + [e] == p + [d] + (s + [e]);
    }
  }

  lemma ChainAppend(chain: seq<string>, a: string, b: string, c: string)
    requires EditChain(chain, a, b) && OneEdit(b, c)
    ensures EditChain(chain + [c], a, c)
  {
    hide OneEdit;
    var longer := chain + [c];
    forall i | 0 <= i < |longer| - 1 ensures OneEdit(longer[i], longer[i + 1]) {
      if i < |chain| - 1 {
        assert OneEdit(chain[i], chain[i + 1]);
      }
    }
  }

  lemma ChainPrepend(a: string, chain: seq<string>, b: string, c: string)
    requires EditChain(chain, b, c) && OneEdit(a, b)
    ensures EditChain([a] + chain, a, c)
  {
    hide OneEdit;
    var longer := [a] + chain;
    forall i | 0 <= i < |longer| - 1 ensures OneEdit(longer[i], longer[i + 1]) {
      if i > 0 {
        assert OneEdit(chain[i - 1], chain[i]);
      }
    }
  }

  lemma ChainUnderSuffix(chain: seq<string>, a: string, b: string, c: char)
    requires EditChain(chain, a, b)
    ensures EditChain(WithSuffix(chain, c), a + [c], b + [c])
  {
    hide OneEdit;
    var longer := WithSuffix(chain, c);
    forall i | 0 <= i < |longer| - 1 ensures OneEdit(longer[i], longer[i + 1]) {
      assert OneEdit(chain[i], chain[i + 1]);
      EditUnderSuffix(chain[i], chain[i + 1], c);
    }
  }

  lemma DropLastEdit(a: string)
    requires a != ""
    ensures OneEdit(a, Front(a)) && OneEdit(Front(a), a)
  {
    var p, c := Front(a), Last(a);
    assert a == p + [c] + "" && p == p + "";
  }

  lemma ReplaceLastEdit(p: string, c: char, d: char)
    ensures OneEdit(p + [c], p + [d])
  {
    assert p + [c] == p + [c] + "" && p + [d] == p + [d] + "";
  }

  /** Some chain of edits is as short as the distance, which is therefore the least number of edits. */
  lemma {:induction false} ShortestChain(a: string, b: string) returns (chain: seq<string>)
    ensures EditChain(chain, a, b) && |chain| - 1 == Distance(a, b)
    decreases |a| + |b|
  {
    hide OneEdit, Distance, EditChain;
    DistanceToEmpty(a, b);
    if a == "" && b == "" {
      chain := [a];
      assert EditChain(chain, a, b) by { ChainOfOne(a); }
    } else if a != "" && (b == "" || Distance(a, b) == Distance(Front(a), b) + 1) {
      DistanceToEmpty(Front(a), b);
      var rest := ShortestChain(Front(a), b);
      DropLastEdit(a);
      ChainPrepend(a, rest, Front(a), b);
      chain := [a] + rest;
    } else if b != "" && (a == "" || Distance(a, b) == Distance(a, Front(b)) + 1) {
      DistanceToEmpty(a, Front(b));
      var rest := ShortestChain(a, Front(b));
      DropLastEdit(b);
      ChainAppend(rest, a, Front(b), b);
      chain := rest + [b];
    } else {
      Unfold(a, b);
      var rest := ShortestChain(Front(a), Front(b));
      ChainUnderSuffix(rest, Front(a), Front(b), Last(a));
      chain := WithSuffix(rest, Last(a));
      assert a == Front(a) + [Last(a)] && b == Front(b) + [Last(b)];
      if Last(a) != Last(b) {
        ReplaceLastEdit(Front(b), Last(a), Last(b));
        ChainAppend(chain, a, Front(b) + [Last(a)], b);
        chain := chain + [b];
      }
    }
  }

  lemma ChainOfOne(a: string)
    ensures EditChain([a], a, a)
  {
  }

  lemma DistanceToEmpty(a: string, b: string)
    ensures a == "" ==> Distance(a, b) == |b|
    ensures b == "" ==> Distance(a, b) == |a|
  {
  }

  // ---------- the nearest candidate ----------

  /** `k` is the first candidate at the least distance from `value`. */
  ghost predicate IsNearest(value: string, candidates: seq<string>, k: nat) {
    && k < |candidates|
    && (forall j :: 0 <= j < |candidates| ==> Distance(value, candidates[k]) <= Distance(value, candidates[j]))
    && (forall j :: 0 <= j < k ==> Distance(value, candidates[k]) < Distance(value, candidates[j]))
  }

  method FindNearestCandidate(value: string, candidates: seq<string>, maxDistance: int) returns (r: Option<string>)
    ensures r.Some? <==> exists c :: c in candidates && Distance(value, c) <= maxDistance
    ensures r.Some? ==> exists k: nat :: IsNearest(value, candidates, k) && r.value == candidates[k] && Distance(value, r.value) <= maxDistance
  {
    hide Distance;
    var nearest: Option<string> := None;
    var nearestDistance := 0;  // read only when there is a nearest candidate; until then it is infinite
    ghost var at: nat := 0;
    for n := 0 to |candidates|
      invariant nearest.None? <==> n == 0
      invariant nearest.Some? ==> IsNearest(value, candidates[..n], at) && nearest.value == candidates[at]
      invariant nearest.Some? ==> nearestDistance == Distance(value, nearest.value)
    {
      var distance := ComputeDistance(value, candidates[n]);
      if nearest.None? || distance < nearestDistance {
        nearest, nearestDistance, at := Some(candidates[n]), distance, n;
      }
    }
    assert candidates[..|candidates|] == candidates;
    if nearest.Some? {
      assert IsNearest(value, candidates, at);
      assert candidates[at] in candidates;
    }
    if nearest.Some? && nearestDistance <= maxDistance {
      return nearest;
    }
    return None;
  }
}
