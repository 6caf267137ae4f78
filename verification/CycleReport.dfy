/** What is reported depends on the graph alone, comes out in order, and is accepted once it has been written. */
module CycleReport {
  import opened ImportGraph
  import opened Sorting
  import opened CyclePaths
  import opened Tarjan
  import opened TarjanState
  import opened CycleGate

  // ---------- the order of the report ----------

  lemma NotAfterOrder()
    ensures TotalPreorder(NotAfter) && Antisymmetric(NotAfter)
  {
    forall x, y ensures NotAfter(x, y) || NotAfter(y, x) {
      CompareTrichotomy(x, y);
    }
    forall x, y, z {:trigger NotAfter(x, y), NotAfter(y, z)} | NotAfter(x, y) && NotAfter(y, z) ensures NotAfter(x, z) {
      CompareTransitive(x, y, z);
    }
    forall x, y {:trigger NotAfter(x, y), NotAfter(y, x)} | NotAfter(x, y) && NotAfter(y, x) ensures x == y {
      CompareTrichotomy(x, y);
    }
  }

  lemma ReportIsSorted(components: seq<seq<Path>>)
    ensures Sorted(NotAfter, Report(components))
  {
    NotAfterOrder();
    SortBySorted(NotAfter, SpellAll(components));
  }

  lemma SameSpellingsSameReport(a: seq<seq<Path>>, b: seq<seq<Path>>)
    requires multiset(SpellAll(a)) == multiset(SpellAll(b))
    ensures Report(a) == Report(b)
  {
    NotAfterOrder();
    ReportIsSorted(a);
    ReportIsSorted(b);
    SortedUnique(NotAfter, Report(a), Report(b));
  }

  // ---------- one component, its members listed in any order ----------

  lemma RenameFirst(rename: Path -> Path, x: Path, s: seq<Path>)
    ensures Rename(rename, [x] + s) == [rename(x)] + Rename(rename, s)
  {
  }

  lemma {:induction false} RenameInserted(rename: Path -> Path, x: Path, s: seq<Path>)
    ensures multiset(Rename(rename, Insert(LessEq, x, s))) == multiset(Rename(rename, s)) + multiset{rename(x)}
  {
    hide LessEq;
    if s == [] || LessEq(x, s[0]) {
      RenameFirst(rename, x, s);
    } else {
      hide Rename;
      var rest := Insert(LessEq, x, s[1..]);
      RenameInserted(rename, x, s[1..]);
      RenameFirst(rename, s[0], rest);
      RenameFirst(rename, s[0], s[1..]);
      assert [s[0]] + s[1..] == s;
    }
  }

  lemma {:induction false} RenameSorted(rename: Path -> Path, s: seq<Path>)
    ensures multiset(Rename(rename, SortBy(LessEq, s))) == multiset(Rename(rename, s))
  {
    if s == [] {
    } else {
      var rest := SortBy(LessEq, s[1..]);
      assert SortBy(LessEq, s) == Insert(LessEq, s[0], rest);
      hide SortBy, LessEq, Insert, Rename;
      RenameSorted(rename, s[1..]);
      RenameInserted(rename, s[0], rest);
      RenameFirst(rename, s[0], s[1..]);
      assert [s[0]] + s[1..] == s;
    }
  }

  lemma SameMultisetSameSort(s: seq<Path>, t: seq<Path>)
    requires multiset(s) == multiset(t)
    ensures SortBy(LessEq, s) == SortBy(LessEq, t)
  {
    LessEqOrder();
    SortBySorted(LessEq, s);
    SortBySorted(LessEq, t);
    SortedUnique(LessEq, SortBy(LessEq, s), SortBy(LessEq, t));
  }

  /** The spelling depends on the set of members, whatever the renaming. */
  lemma SpellDependsOnMembers(rename: Path -> Path, c: seq<Path>, d: seq<Path>)
    requires Distinct(c) && Distinct(d) && Elements(c) == Elements(d)
    ensures |c| == |d| && Spell(Rename(rename, c)) == Spell(Rename(rename, d))
  {
    SameElementsSameSort(c, d);
    MultisetMembers(SortBy(LessEq, c), c);
    MultisetMembers(SortBy(LessEq, d), d);
    RenameSorted(rename, c);
    RenameSorted(rename, d);
    SameMultisetSameSort(Rename(rename, c), Rename(rename, d));
  }

  // ---------- the components, listed in any order ----------

  /** Duplicate-free lists with pairwise different member sets. */
  ghost predicate Listing(a: seq<seq<Path>>) {
    && (forall i :: 0 <= i < |a| ==> Distinct(a[i]))
    && (forall i, j :: 0 <= i < j < |a| ==> Elements(a[i]) != Elements(a[j]))
  }

  /** Every component of `a` is, up to the order of its members, among those of `b`. */
  ghost predicate Among(a: seq<seq<Path>>, b: seq<seq<Path>>) {
    forall i :: 0 <= i < |a| ==> Occurs(a[i], b)
  }

  ghost predicate Occurs(c: seq<Path>, b: seq<seq<Path>>) {
    exists j :: 0 <= j < |b| && Elements(c) == Elements(b[j])
  }

  function Without<T>(s: seq<T>, j: nat): seq<T>
    requires j < |s|
  {
    s[..j] + s[j + 1..]
  }

  lemma ListingWithout(b: seq<seq<Path>>, j: nat)
    requires Listing(b) && j < |b|
    ensures Listing(Without(b, j))
  {
    hide Distinct, Elements;
    var r := Without(b, j);
    assert forall i :: 0 <= i < |r| ==> r[i] == b[if i < j then i else i + 1];
  }

  lemma AmongWithout(a: seq<seq<Path>>, b: seq<seq<Path>>, k: nat, j: nat)
    requires Listing(a) && Among(a, b) && k < |a| && j < |b| && Elements(a[k]) == Elements(b[j])
    ensures Among(Without(a, k), Without(b, j))
  {
    hide Distinct, Elements;
    var r, s := Without(a, k), Without(b, j);
    forall i | 0 <= i < |r| ensures Occurs(r[i], s) {
      var at := if i < k then i else i + 1;
      assert r[i] == a[at];
      assert Occurs(a[at], b);
      var m :| 0 <= m < |b| && Elements(a[at]) == Elements(b[m]);
      assert m != j;
      var to := if m < j then m else m - 1;
      assert s[to] == b[m];
      assert 0 <= to < |s| && Elements(r[i]) == Elements(s[to]);
    }
  }

  lemma SpellingsWithout(rename: Path -> Path, a: seq<seq<Path>>, j: nat)
    requires j < |a|
    ensures multiset(SpellAll(RenameAll(rename, a)))
         == multiset(SpellAll(RenameAll(rename, Without(a, j)))) + multiset{Spell(Rename(rename, a[j]))}
  {
    hide Spell, Rename;
    var all, rest := SpellAll(RenameAll(rename, a)), SpellAll(RenameAll(rename, Without(a, j)));
    assert rest == all[..j] + all[j + 1..];
    assert all == all[..j] + [all[j]] + all[j + 1..];
  }

  lemma NothingAmongNone(b: seq<seq<Path>>)
    requires b != []
    ensures !Among(b, [])
  {
    assert !Occurs(b[0], []);
  }

  lemma {:induction false} SameListingSameSpellings(rename: Path -> Path, a: seq<seq<Path>>, b: seq<seq<Path>>)
    requires Listing(a) && Listing(b) && Among(a, b) && Among(b, a)
    ensures multiset(SpellAll(RenameAll(rename, a))) == multiset(SpellAll(RenameAll(rename, b)))
    decreases |a|
  {
    if a == [] {
      if b != [] {
        NothingAmongNone(b);
      }
    } else {
      hide Distinct, Elements, Spell, Rename, SpellAll, RenameAll;
      assert Occurs(a[0], b);
      var j :| 0 <= j < |b| && Elements(a[0]) == Elements(b[j]);
      ListingWithout(a, 0);
      ListingWithout(b, j);
      AmongWithout(a, b, 0, j);
      AmongWithout(b, a, j, 0);
      SameListingSameSpellings(rename, Without(a, 0), Without(b, j));
      SpellDependsOnMembers(rename, a[0], b[j]);
      SpellingsWithout(rename, a, 0);
      SpellingsWithout(rename, b, j);
    }
  }

  // ---------- two condensations of one graph ----------

  ghost predicate PairwiseDisjoint(a: seq<seq<Path>>) {
    forall i, j, v :: 0 <= i < j < |a| && v in a[i] ==> v !in a[j]
  }

  lemma {:induction false} KeepDisjoint(g: Graph, a: seq<seq<Path>>)
    requires PairwiseDisjoint(a)
    ensures PairwiseDisjoint(Keep(g, a))
  {
    if a == [] {
    } else {
      KeepDisjoint(g, a[1..]);
      var rest := Keep(g, a[1..]);
      forall j, v | 0 <= j < |rest| && v in a[0] ensures v !in rest[j] {
        assert rest[j] in rest;
        var k :| 0 <= k < |a| - 1 && a[1..][k] == rest[j];
        assert a[k + 1] == rest[j];
      }
    }
  }

  lemma KeptListing(g: Graph, components: seq<seq<Path>>)
    requires IsCondensation(g, components)
    ensures Listing(Keep(g, components))
  {
    KeepDisjoint(g, components);
    hide Graph.Reaches, Graph.StronglyConnected;
    var kept := Keep(g, components);
    forall i | 0 <= i < |kept| ensures Distinct(kept[i]) && kept[i] != [] {
      assert kept[i] in kept;
    }
    forall i, j | 0 <= i < j < |kept| ensures Elements(kept[i]) != Elements(kept[j]) {
      assert kept[i][0] in Elements(kept[i]);
    }
  }

  lemma SameClass(g: Graph, c: seq<Path>, d: seq<Path>, u: Path)
    requires IsComponent(g, c) && IsComponent(g, d) && u in c && u in d
    ensures Elements(c) == Elements(d)
  {
    hide Graph.StronglyConnected;
    forall v ensures v in c <==> v in d {
      assert v in c <==> g.StronglyConnected(u, v);
    }
  }

  lemma SameElementsSameFilter(g: Graph, c: seq<Path>, d: seq<Path>)
    requires Distinct(c) && Distinct(d) && Elements(c) == Elements(d)
    ensures IsCyclic(g, c) <==> IsCyclic(g, d)
  {
    SpellDependsOnMembers(x => x, c, d);
    if |c| == 1 {
      assert c[0] in Elements(c);
      assert c[0] in d;
    }
  }

  lemma KeptAmong(g: Graph, cs: seq<seq<Path>>, ds: seq<seq<Path>>)
    requires IsCondensation(g, cs) && IsCondensation(g, ds)
    ensures Among(Keep(g, cs), Keep(g, ds))
  {
    hide IsCyclic, Elements, Keep, IsCondensation, Distinct;
    var a, b := Keep(g, cs), Keep(g, ds);
    forall i | 0 <= i < |a| ensures Occurs(a[i], b) {
      assert a[i] in a;
      var d := Counterpart(g, cs, ds, a[i]);
      SameElementsSameFilter(g, a[i], d);
      assert d in b;
      var j :| 0 <= j < |b| && b[j] == d;
      assert Elements(a[i]) == Elements(b[j]);
    }
  }

  lemma Counterpart(g: Graph, cs: seq<seq<Path>>, ds: seq<seq<Path>>, c: seq<Path>) returns (d: seq<Path>)
    requires IsCondensation(g, cs) && IsCondensation(g, ds) && c in cs
    ensures d in ds && Elements(c) == Elements(d) && Distinct(c) && Distinct(d)
  {
    hide Graph.Vertices, Graph.StronglyConnected;
    var i :| 0 <= i < |cs| && cs[i] == c;
    assert IsComponent(g, cs[i]);
    var u := c[0];
    assert u in cs[i];
    assert u in Emitted(cs);
    assert u in g.Vertices();
    var k :| 0 <= k < |ds| && u in ds[k];
    d := ds[k];
    SameClass(g, c, d, u);
  }

  lemma CondensationsReportAlike(g: Graph, cs: seq<seq<Path>>, ds: seq<seq<Path>>, rename: Path -> Path)
    requires IsCondensation(g, cs) && IsCondensation(g, ds)
    ensures Report(RenameAll(rename, Keep(g, cs))) == Report(RenameAll(rename, Keep(g, ds)))
  {
    hide *;
    KeptListing(g, cs);
    KeptListing(g, ds);
    KeptAmong(g, cs, ds);
    KeptAmong(g, ds, cs);
    SameListingSameSpellings(rename, Keep(g, cs), Keep(g, ds));
    SameSpellingsSameReport(RenameAll(rename, Keep(g, cs)), RenameAll(rename, Keep(g, ds)));
  }

  // ---------- two iteration orders of one graph ----------

  /** The same keys and edges, iterated in any order. */
  ghost predicate SameImports(g: Graph, h: Graph) {
    g.Vertices() == h.Vertices() && forall u, v :: g.Edge(u, v) <==> h.Edge(u, v)
  }

  lemma SameReach(g: Graph, h: Graph, u: Path, v: Path)
    requires SameImports(g, h)
    ensures g.Reaches(u, v) <==> h.Reaches(u, v)
  {
    if p :| g.IsPath(p, u, v) {
      assert h.IsPath(p, u, v);
    }
    if p :| h.IsPath(p, u, v) {
      assert g.IsPath(p, u, v);
    }
  }

  lemma SameComponent(g: Graph, h: Graph, c: seq<Path>)
    requires SameImports(g, h) && IsComponent(h, c)
    ensures IsComponent(g, c)
  {
    hide Graph.Reaches, SameImports;
    forall u, v {:trigger g.StronglyConnected(u, v)} | u in c ensures v in c <==> g.StronglyConnected(u, v) {
      SameReach(g, h, u, v);
      SameReach(g, h, v, u);
      assert v in c <==> h.StronglyConnected(u, v);
    }
  }

  lemma SameCondensation(g: Graph, h: Graph, ds: seq<seq<Path>>)
    requires SameImports(g, h) && IsCondensation(h, ds)
    ensures IsCondensation(g, ds)
  {
    hide IsComponent, Graph.Vertices, Graph.Edge;
    forall i | 0 <= i < |ds| ensures IsComponent(g, ds[i]) {
      SameComponent(g, h, ds[i]);
    }
  }

  lemma {:induction false} SameKept(g: Graph, h: Graph, ds: seq<seq<Path>>)
    requires SameImports(g, h)
    ensures Keep(g, ds) == Keep(h, ds)
  {
    if ds == [] {
    } else {
      SameKept(g, h, ds[1..]);
      if |ds[0]| == 1 {
        assert g.Edge(ds[0][0], ds[0][0]) <==> h.Edge(ds[0][0], ds[0][0]);
      }
    }
  }

  /**
   * The report is a function of which files import which: the order in which the maps and sets are
   * iterated, and so the order in which components and their members are found, does not show.
   */
  lemma ReportIndependentOfOrder(g: Graph, h: Graph, cs: seq<seq<Path>>, ds: seq<seq<Path>>, rename: Path -> Path)
    requires SameImports(g, h) && IsCondensation(g, cs) && IsCondensation(h, ds)
    ensures Report(RenameAll(rename, Keep(g, cs))) == Report(RenameAll(rename, Keep(h, ds)))
  {
    hide *;
    SameCondensation(g, h, ds);
    SameKept(g, h, ds);
    CondensationsReportAlike(g, cs, ds, rename);
  }

  // ---------- writing the allowlist ----------

  lemma KeyOfNormalForm(cycle: seq<Path>)
    ensures CycleKey(Normalize(cycle)) == CycleKey(cycle)
  {
    hide Normalize;
    NormalizeIdempotent(cycle);
  }

  /** The gate passes right after the current cycles have been written to the allowlist, whatever they are. */
  lemma GatePassesAfterUpdate(updateMode: bool, cycles: seq<seq<Path>>)
    ensures GatePasses(updateMode, Listed(cycles), cycles)
  {
    hide Normalize, CycleKey, SortBy;
    var listed := SortBy(NotAfter, NormalizeAll(cycles));
    MultisetMembers(listed, NormalizeAll(cycles));
    forall c | c in cycles ensures CycleKey(c) in Keys(listed) {
      var i :| 0 <= i < |cycles| && cycles[i] == c;
      KeyOfNormalForm(c);
      assert NormalizeAll(cycles)[i] in listed;
    }
    forall d | d in listed ensures CycleKey(d) in Keys(cycles) {
      assert d in NormalizeAll(cycles);
      var i :| 0 <= i < |cycles| && NormalizeAll(cycles)[i] == d;
      KeyOfNormalForm(cycles[i]);
      assert cycles[i] in cycles;
    }
    NothingLeft(cycles, Keys(listed));
    NothingLeft(listed, Keys(cycles));
  }

  lemma NothingLeft(cycles: seq<seq<Path>>, keys: set<string>)
    requires forall c :: c in cycles ==> CycleKey(c) in keys
    ensures Unlisted(cycles, keys) == []
  {
    hide CycleKey;
    if Unlisted(cycles, keys) != [] {
      assert Unlisted(cycles, keys)[0] in Unlisted(cycles, keys);
    }
  }
}
