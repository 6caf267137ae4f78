/** `detectCycles`, `cycleKey` and the comparison of current cycles with the allowlist. */
module CycleGate {
  import opened ImportGraph
  import opened Sorting
  import opened CyclePaths
  import opened Tarjan
  import TarjanState

  // ---------- detectCycles ----------

  /** The filter: more than one member, or a single truthy member that imports itself. */
  predicate IsCyclic(g: Graph, component: seq<Path>) {
    |component| > 1 || (|component| == 1 && component[0] != "" && component[0] in g.Successors(component[0]))
  }

  function Keep(g: Graph, components: seq<seq<Path>>): (r: seq<seq<Path>>)
    ensures forall c :: c in r <==> c in components && IsCyclic(g, c)
  {
    if components == [] then []
    else
      assert components == [components[0]] + components[1..];
      (if IsCyclic(g, components[0]) then [components[0]] else []) + Keep(g, components[1..])
  }

  function Rename(rename: Path -> Path, component: seq<Path>): seq<Path> {
    seq(|component|, i requires 0 <= i < |component| => rename(component[i]))
  }

  /** `normalizeCycle(component.map(toRepositoryPath).toSorted())`, once renamed. */
  function Spell(component: seq<Path>): seq<Path> {
    Normalize(SortBy(LessEq, component))
  }

  function SpellAll(components: seq<seq<Path>>): (r: seq<seq<Path>>)
    ensures |r| == |components|
    ensures forall i :: 0 <= i < |r| ==> r[i] == Spell(components[i])
  {
    seq(|components|, i requires 0 <= i < |components| => Spell(components[i]))
  }

  predicate NotAfter(left: seq<Path>, right: seq<Path>) {
    Compare(left, right) <= 0
  }

  function Report(components: seq<seq<Path>>): (r: seq<seq<Path>>)
    ensures multiset(r) == multiset(SpellAll(components))
  {
    SortBy(NotAfter, SpellAll(components))
  }

  function RenameAll(rename: Path -> Path, components: seq<seq<Path>>): seq<seq<Path>> {
    seq(|components|, i requires 0 <= i < |components| => Rename(rename, components[i]))
  }

  /** A component is kept when its members are on a cycle, unless the empty path is all there is in it. */
  lemma OnCycleWithinComponent(g: Graph, c: seq<Path>, u: Path)
    requires TarjanState.IsComponent(g, c) && u in c
    ensures IsCyclic(g, c) <==> g.OnCycle(u) && c != [""]
  {
    OnCycleCharacterised(g, u);
    hide Graph.Reaches, Graph.OnCycle;
    if |c| > 1 {
      var v := if c[0] == u then c[1] else c[0];
      assert v in c && v != u;
      assert g.StronglyConnected(u, v);
    } else {
      assert c == [u];
      assert forall v :: v in c ==> v == u;
      forall v | v != u ensures !g.StronglyConnected(u, v) {
        assert v !in c;
      }
    }
  }

  lemma OnCycleIsVertex(g: Graph, u: Path)
    requires g.OnCycle(u)
    ensures u in g.Vertices()
  {
    var p :| g.IsPath(p, u, u) && 2 <= |p|;
    assert g.Edge(p[0], p[1]);
    SuccessorsAreVertices(g, p[0], p[1]);
  }

  /** Nothing is kept exactly when the graph has no cycle at all. */
  lemma NothingKeptExactlyWhenAcyclic(g: Graph, components: seq<seq<Path>>)
    requires IsCondensation(g, components) && "" !in g.Vertices()
    ensures Keep(g, components) == [] <==> forall u :: !g.OnCycle(u)
  {
    hide IsCyclic, TarjanState.IsComponent, Graph.Vertices, Graph.OnCycle;
    if c :| c in components && IsCyclic(g, c) {
      var i :| 0 <= i < |components| && components[i] == c;
      NonEmptyComponent(g, components, i);
      assert c == components[i];
      OnCycleWithinComponent(g, c, c[0]);
    }
    forall u | g.OnCycle(u) ensures Keep(g, components) != [] {
      OnCycleIsVertex(g, u);
      var i :| 0 <= i < |components| && u in components[i];
      NonEmptyComponent(g, components, i);
      OnCycleWithinComponent(g, components[i], u);
      assert components[i] in Keep(g, components);
    }
    assert forall c :: c in Keep(g, components) ==> c in components && IsCyclic(g, c);
    assert Keep(g, components) != [] ==> Keep(g, components)[0] in Keep(g, components);
  }

  lemma NonEmptyComponent(g: Graph, components: seq<seq<Path>>, i: nat)
    requires IsCondensation(g, components) && "" !in g.Vertices() && i < |components|
    ensures TarjanState.IsComponent(g, components[i]) && components[i] != [] && "" !in components[i]
  {
    assert forall v :: v in components[i] ==> v in TarjanState.Emitted(components);
  }

  method DetectCycles(g: Graph, toRepositoryPath: Path -> Path) returns (r: Result<seq<seq<Path>>>)
    requires g.Valid()
    ensures r.StackUnderflow? <==> "" in g.Vertices()
    ensures r.Success? ==> (r.value == [] <==> forall u :: !g.OnCycle(u))
    ensures r.Success? ==>
      exists components ::
        IsCondensation(g, components) && r.value == Report(RenameAll(toRepositoryPath, Keep(g, components)))
  {
    hide IsCondensation, Graph.OnCycle, Graph.Vertices;
    var found := FindStronglyConnectedComponents(g);
    if found.StackUnderflow? { return StackUnderflow; }
    var cyclic := Keep(g, found.value);
    var renamed := RenameAll(toRepositoryPath, cyclic);
    NothingKeptExactlyWhenAcyclic(g, found.value);
    MultisetMembers(Report(renamed), SpellAll(renamed));
    return Success(Report(renamed));
  }

  // ---------- what a reported cycle says ----------

  ghost predicate Ascending(p: seq<Path>) {
    forall i, j :: 0 <= i < j < |p| ==> Less(p[i], p[j])
  }

  lemma SortedDistinctAscends(p: seq<Path>)
    requires TarjanState.Distinct(p)
    ensures Ascending(SortBy(LessEq, p)) && multiset(SortBy(LessEq, p)) == multiset(p)
  {
    var s := SortBy(LessEq, p);
    LessEqOrder();
    SortBySorted(LessEq, p);
    forall i, j | 0 <= i < j < |s| ensures Less(s[i], s[j]) {
      DistinctMultiplicity(p, s, i, j);
      LessTrichotomy(s[i], s[j]);
    }
  }

  lemma DistinctMultiplicity(p: seq<Path>, s: seq<Path>, i: nat, j: nat)
    requires TarjanState.Distinct(p) && multiset(p) == multiset(s) && i < j < |s|
    ensures s[i] != s[j]
  {
    assert s == s[..i] + [s[i]] + s[i + 1..j] + [s[j]] + s[j + 1..];
    assert s[i] == s[j] ==> multiset(s)[s[i]] >= 2;
    AtMostOnce(p, s[i]);
  }

  lemma {:induction false} AtMostOnce(p: seq<Path>, x: Path)
    requires TarjanState.Distinct(p)
    ensures multiset(p)[x] <= 1
  {
    if p == [] {
    } else {
      assert p == [p[0]] + p[1..];
      AtMostOnce(p[1..], x);
      if x == p[0] {
        assert x !in p[1..];
        assert multiset(p[1..])[x] == 0;
      }
    }
  }

  lemma AscendingBackwardNotLess(p: seq<Path>)
    requires Ascending(p) && |p| >= 2
    ensures Compare(Close(Walk(p, 0, false)), Close(p)) >= 0
  {
    var b := Walk(p, 0, false);
    assert b[0] == p[0] && b[1] == p[|p| - 1];
    LessTrichotomy(p[0], p[0]);
    if p[0] != "" {
      assert Close(b)[1..][0] == b[1] && Close(p)[1..][0] == p[1];
      if |p| == 2 {
        assert b == p;
        CompareTrichotomy(Close(b), Close(p));
      } else {
        assert Less(p[1], p[|p| - 1]);
        LessTrichotomy(p[1], p[|p| - 1]);
      }
    }
  }

  /** A sorted member list is already its own normal form, closed by repeating its first member. */
  lemma AscendingIsNormal(p: seq<Path>)
    requires Ascending(p) && |p| >= 2 && "" !in p
    ensures Normalize(p) == p + [p[0]]
  {
    hide Walk, Compare, Smallest, Normalize;
    assert Less(p[0], p[|p| - 1]);
    LessTrichotomy(p[0], p[|p| - 1]);
    assert Open(p) == p;
    SmallestIsLeast(p, 0);
    var i :| 0 <= i < |p| && p[i] == Smallest(p);
    assert i == 0;
    forall k | 1 <= k < |p| ensures p[k] != p[0] {
      LessTrichotomy(p[0], p[k]);
    }
    NormalizeIsLesserWalk(p);
    AscendingBackwardNotLess(p);
    WalkIdentity(p);
  }

  /** A component of two or more is reported as its members in order, the first one repeated. */
  lemma SpellOfComponent(c: seq<Path>)
    requires TarjanState.Distinct(c) && |c| >= 2 && "" !in c
    ensures var s := SortBy(LessEq, c); s != [] && Spell(c) == s + [s[0]]
  {
    SortedDistinctAscends(c);
    MultisetMembers(SortBy(LessEq, c), c);
    AscendingIsNormal(SortBy(LessEq, c));
  }

  /** A lone self-import is reported as the empty list, whatever file it is. */
  lemma SpellOfSelfLoop(c: seq<Path>)
    requires |c| == 1
    ensures Spell(c) == []
  {
    MultisetMembers(SortBy(LessEq, c), c);
  }

  /** Reported spellings identify the member sets of components of two or more. */
  lemma SpellIdentifiesMembers(c: seq<Path>, d: seq<Path>)
    requires TarjanState.Distinct(c) && |c| >= 1 && "" !in c
    requires TarjanState.Distinct(d) && |d| >= 1 && "" !in d
    ensures Spell(c) == Spell(d) <==>
      (|c| == 1 && |d| == 1) || (|c| > 1 && |d| > 1 && TarjanState.Elements(c) == TarjanState.Elements(d))
  {
    hide Spell, SortBy, TarjanState.Distinct, TarjanState.Elements;
    if |c| == 1 { SpellOfSelfLoop(c); } else { SpellOfComponent(c); }
    if |d| == 1 { SpellOfSelfLoop(d); } else { SpellOfComponent(d); }
    if |c| > 1 && |d| > 1 {
      if Spell(c) == Spell(d) {
        assert SortBy(LessEq, c) == DropLast(Spell(c)) == SortBy(LessEq, d);
        SameSortSameElements(c, d);
      }
      if TarjanState.Elements(c) == TarjanState.Elements(d) {
        SameElementsSameSort(c, d);
      }
    }
  }

  lemma SameSortSameElements(c: seq<Path>, d: seq<Path>)
    requires SortBy(LessEq, c) == SortBy(LessEq, d)
    ensures TarjanState.Elements(c) == TarjanState.Elements(d)
  {
    MultisetMembers(SortBy(LessEq, c), c);
    MultisetMembers(SortBy(LessEq, d), d);
  }

  lemma SameElementsSameSort(c: seq<Path>, d: seq<Path>)
    requires TarjanState.Distinct(c) && TarjanState.Distinct(d)
    requires TarjanState.Elements(c) == TarjanState.Elements(d)
    ensures SortBy(LessEq, c) == SortBy(LessEq, d)
  {
    forall x ensures multiset(c)[x] == multiset(d)[x] {
      AtMostOnce(c, x);
      AtMostOnce(d, x);
      assert x in TarjanState.Elements(c) <==> x in TarjanState.Elements(d);
      assert x in c <==> x in multiset(c);
      assert x in d <==> x in multiset(d);
    }
    assert multiset(c) == multiset(d);
    LessEqOrder();
    SortBySorted(LessEq, c);
    SortBySorted(LessEq, d);
    SortedUnique(LessEq, SortBy(LessEq, c), SortBy(LessEq, d));
  }

  // ---------- cycleKey and the gate ----------

  /** `join('\n')` */
  function Join(p: seq<Path>): string {
    if p == [] then "" else if |p| == 1 then p[0] else p[0] + "\n" + Join(p[1..])
  }

  function CycleKey(cycle: seq<Path>): string {
    Join(Normalize(cycle))
  }

  function Keys(cycles: seq<seq<Path>>): set<string> {
    set c | c in cycles :: CycleKey(c)
  }

  function NormalizeAll(cycles: seq<seq<Path>>): (r: seq<seq<Path>>)
    ensures |r| == |cycles|
    ensures forall i :: 0 <= i < |r| ==> r[i] == Normalize(cycles[i])
  {
    seq(|cycles|, i requires 0 <= i < |cycles| => Normalize(cycles[i]))
  }

  /** `cycles.filter((cycle) => !keys.has(cycleKey(cycle)))` */
  function Unlisted(cycles: seq<seq<Path>>, keys: set<string>): (r: seq<seq<Path>>)
    ensures forall c :: c in r <==> c in cycles && CycleKey(c) !in keys
  {
    if cycles == [] then []
    else
      assert cycles == [cycles[0]] + cycles[1..];
      (if CycleKey(cycles[0]) in keys then [] else [cycles[0]]) + Unlisted(cycles[1..], keys)
  }

  datatype Allowlist = MissingOrEmpty | Listed(cycles: seq<seq<Path>>)

  /** Whether the script ends with exit code 0. */
  predicate GatePasses(updateMode: bool, allowlist: Allowlist, cycles: seq<seq<Path>>) {
    match allowlist
    case MissingOrEmpty =>
      updateMode && (|cycles| > 0 || KeysAgree(cycles, []))
    case Listed(listed) =>
      KeysAgree(cycles, SortBy(NotAfter, NormalizeAll(listed)))
  }

  predicate KeysAgree(cycles: seq<seq<Path>>, allowlisted: seq<seq<Path>>) {
    Unlisted(cycles, Keys(allowlisted)) == [] && Unlisted(allowlisted, Keys(cycles)) == []
  }

  /** Without an allowlist the script ends well exactly when it was asked to write one. */
  lemma MissingAllowlistNeedsUpdate(updateMode: bool, cycles: seq<seq<Path>>)
    ensures GatePasses(updateMode, MissingOrEmpty, cycles) <==> updateMode
  {
    hide CycleKey;
    if cycles == [] {
      assert KeysAgree([], []);
    }
  }

  predicate NewlineFree(p: seq<Path>) {
    forall i :: 0 <= i < |p| ==> '\n' !in p[i]
  }

  lemma {:induction false} JoinSplits(a: string, b: string, x: string, y: string)
    requires '\n' !in a && '\n' !in b
    requires a + "\n" + x == b + "\n" + y
    ensures a == b && x == y
  {
    var l, r := a + "\n" + x, b + "\n" + y;
    assert l[|a|] == '\n' && r[|b|] == '\n';
    assert forall i :: 0 <= i < |b| ==> r[i] == b[i];
    assert forall i :: 0 <= i < |a| ==> l[i] == a[i];
    assert |a| == |b|;
    assert a == l[..|a|] && b == r[..|b|];
    assert x == l[|a| + 1..] && y == r[|b| + 1..];
  }

  lemma NewlineExactly(p: seq<Path>)
    requires NewlineFree(p) && p != []
    ensures '\n' in Join(p) <==> |p| > 1
  {
    if |p| > 1 {
      assert Join(p)[|p[0]|] == '\n';
    }
  }

  lemma {:induction false} JoinInjective(p: seq<Path>, q: seq<Path>)
    requires NewlineFree(p) && NewlineFree(q) && "" !in p && "" !in q
    requires Join(p) == Join(q)
    ensures p == q
  {
    if p == [] || q == [] {
      assert p != [] ==> Join(p) != "";
      assert q != [] ==> Join(q) != "";
    } else if |p| == 1 || |q| == 1 {
      NewlineExactly(p);
      NewlineExactly(q);
    } else {
      JoinSplits(p[0], q[0], Join(p[1..]), Join(q[1..]));
      JoinInjective(p[1..], q[1..]);
      assert p == [p[0]] + p[1..] && q == [q[0]] + q[1..];
    }
  }

  lemma NormalizeMembers(cycle: seq<Path>, x: Path)
    requires x in Normalize(cycle)
    ensures x in cycle && x != ""
  {
    var open := Open(cycle);
    NormalizeEmptyExactly(cycle);
    NormalizeIsLesserWalk(cycle);
    WalkMembers(open, FirstSmallest(open), true);
    WalkMembers(open, LastSmallest(open), false);
    assert x in open;
  }

  lemma KeyIdentifiesNormalForm(a: seq<Path>, b: seq<Path>)
    requires NewlineFree(a) && NewlineFree(b)
    ensures CycleKey(a) == CycleKey(b) <==> Normalize(a) == Normalize(b)
  {
    hide Normalize, Join;
    var p, q := Normalize(a), Normalize(b);
    forall x | x in p ensures x != "" && '\n' !in x {
      NormalizeMembers(a, x);
      var i :| 0 <= i < |a| && a[i] == x;
    }
    forall x | x in q ensures x != "" && '\n' !in x {
      NormalizeMembers(b, x);
      var i :| 0 <= i < |b| && b[i] == x;
    }
    if CycleKey(a) == CycleKey(b) {
      JoinInjective(p, q);
    }
  }

  ghost predicate Subsumed(cycles: seq<seq<Path>>, others: seq<seq<Path>>) {
    forall c :: c in cycles ==> exists d :: d in others && Normalize(c) == Normalize(d)
  }

  lemma UnlistedNoneExactly(cycles: seq<seq<Path>>, others: seq<seq<Path>>)
    requires forall c :: c in cycles ==> NewlineFree(c)
    requires forall c :: c in others ==> NewlineFree(c)
    ensures Unlisted(cycles, Keys(others)) == [] <==> Subsumed(cycles, others)
  {
    hide Normalize, NewlineFree, CycleKey;
    var u := Unlisted(cycles, Keys(others));
    if u == [] {
      forall c | c in cycles ensures exists d :: d in others && Normalize(c) == Normalize(d) {
        assert c !in u;
        var d :| d in others && CycleKey(c) == CycleKey(d);
        KeyIdentifiesNormalForm(c, d);
      }
    } else {
      var c := u[0];
      assert c in u;
      forall d | d in others ensures Normalize(c) != Normalize(d) {
        assert CycleKey(d) in Keys(others);
        KeyIdentifiesNormalForm(c, d);
      }
    }
  }

  /** A present allowlist passes exactly when it and the current cycles have the same normal forms. */
  lemma GateComparesNormalForms(updateMode: bool, listed: seq<seq<Path>>, cycles: seq<seq<Path>>)
    requires forall c :: c in cycles ==> NewlineFree(c)
    requires forall c :: c in listed ==> NewlineFree(c)
    ensures GatePasses(updateMode, Listed(listed), cycles) <==> Subsumed(cycles, listed) && Subsumed(listed, cycles)
  {
    hide Normalize;
    var normal := NormalizeAll(listed);
    var sorted := SortBy(NotAfter, normal);
    MultisetMembers(sorted, normal);
    forall c | c in sorted ensures NewlineFree(c) && exists d :: d in listed && Normalize(c) == Normalize(d) == c {
      var i :| 0 <= i < |normal| && normal[i] == c;
      NormalizeIdempotent(listed[i]);
      assert listed[i] in listed;
      forall k | 0 <= k < |c| ensures '\n' !in c[k] {
        NormalizeMembers(listed[i], c[k]);
      }
    }
    forall d | d in listed ensures exists c :: c in sorted && Normalize(c) == Normalize(d) {
      var i :| 0 <= i < |listed| && listed[i] == d;
      assert normal[i] in sorted;
      NormalizeIdempotent(d);
    }
    UnlistedNoneExactly(cycles, sorted);
    UnlistedNoneExactly(sorted, cycles);
  }

  // ---------- the gate over components ----------

  /** Renamed cyclic components as `detectCycles` sees them: no repetition and no empty or broken path. */
  ghost predicate Presentable(c: seq<Path>) {
    |c| >= 1 && TarjanState.Distinct(c) && "" !in c && NewlineFree(c)
  }

  /** The member sets of the components with two or more members. */
  ghost function MutualImports(components: seq<seq<Path>>): set<set<Path>> {
    set c | c in components && |c| > 1 :: TarjanState.Elements(c)
  }

  ghost predicate HasSelfImport(components: seq<seq<Path>>) {
    exists c :: c in components && |c| == 1
  }

  lemma ReportMembers(components: seq<seq<Path>>, r: seq<Path>)
    ensures r in Report(components) <==> exists c :: c in components && r == Spell(c)
  {
    hide Spell;
    var all := SpellAll(components);
    MultisetMembers(Report(components), all);
    if r in all {
      var i :| 0 <= i < |all| && all[i] == r;
      assert components[i] in components;
    }
    if c :| c in components && r == Spell(c) {
      var i :| 0 <= i < |components| && components[i] == c;
      assert all[i] == r;
    }
  }

  lemma SpellIsNormal(c: seq<Path>)
    requires Presentable(c)
    ensures Normalize(Spell(c)) == Spell(c) && NewlineFree(Spell(c))
  {
    hide Normalize;
    var s := SortBy(LessEq, c);
    MultisetMembers(s, c);
    NormalizeIdempotent(s);
    forall k | 0 <= k < |Spell(c)| ensures '\n' !in Spell(c)[k] {
      NormalizeMembers(s, Spell(c)[k]);
    }
  }

  lemma SubsumedReports(now: seq<seq<Path>>, before: seq<seq<Path>>)
    requires forall c :: c in now ==> Presentable(c)
    requires forall c :: c in before ==> Presentable(c)
    ensures Subsumed(Report(now), Report(before)) <==>
      MutualImports(now) <= MutualImports(before) && (HasSelfImport(now) ==> HasSelfImport(before))
  {
    hide Spell, Normalize, Report, Presentable;
    if Subsumed(Report(now), Report(before)) {
      forall c | c in now ensures exists d :: d in before && Spell(c) == Spell(d) {
        SubsumedSpelling(now, before, c);
      }
      forall c | c in now ensures if |c| > 1 then TarjanState.Elements(c) in MutualImports(before) else HasSelfImport(before) {
        var d :| d in before && Spell(c) == Spell(d);
        PresentableSpell(c, d);
      }
    } else {
      var r :| r in Report(now) && forall d :: d in Report(before) ==> Normalize(r) != Normalize(d);
      ReportMembers(now, r);
      var c :| c in now && r == Spell(c);
      forall d | d in before ensures Spell(c) != Spell(d) {
        ReportMembers(before, Spell(d));
        assert Spell(d) in Report(before);
      }
      forall d | d in before ensures !(|c| == 1 && |d| == 1) && !(|c| > 1 && |d| > 1 && TarjanState.Elements(c) == TarjanState.Elements(d)) {
        PresentableSpell(c, d);
      }
      if |c| > 1 {
        assert TarjanState.Elements(c) in MutualImports(now);
        assert TarjanState.Elements(c) !in MutualImports(before);
      } else {
        PresentableSpell(c, c);
      }
    }
  }

  lemma PresentableSpell(c: seq<Path>, d: seq<Path>)
    requires Presentable(c) && Presentable(d)
    ensures |c| >= 1 && |d| >= 1
    ensures Spell(c) == Spell(d) <==>
      (|c| == 1 && |d| == 1) || (|c| > 1 && |d| > 1 && TarjanState.Elements(c) == TarjanState.Elements(d))
  {
    SpellIdentifiesMembers(c, d);
  }

  lemma SubsumedSpelling(now: seq<seq<Path>>, before: seq<seq<Path>>, c: seq<Path>)
    requires forall c :: c in now ==> Presentable(c)
    requires forall c :: c in before ==> Presentable(c)
    requires Subsumed(Report(now), Report(before)) && c in now
    ensures exists d :: d in before && Spell(c) == Spell(d)
  {
    hide Spell, Normalize, Report, Presentable;
    ReportMembers(now, Spell(c));
    var r :| r in Report(before) && Normalize(Spell(c)) == Normalize(r);
    ReportMembers(before, r);
    var d :| d in before && r == Spell(d);
    SpellIsNormal(c);
    SpellIsNormal(d);
  }

  /**
   * Against an allowlist written from earlier components, the gate passes exactly when the same
   * groups of files import each other and self-imports are present in both or in neither.
   * Which files import themselves is not compared.
   */
  lemma GateComparesComponents(updateMode: bool, before: seq<seq<Path>>, now: seq<seq<Path>>)
    requires forall c :: c in before ==> Presentable(c)
    requires forall c :: c in now ==> Presentable(c)
    ensures GatePasses(updateMode, Listed(Report(before)), Report(now)) <==>
      MutualImports(before) == MutualImports(now) && (HasSelfImport(before) <==> HasSelfImport(now))
  {
    hide Spell, Normalize, Report, Presentable, NewlineFree, GatePasses, Subsumed;
    ReportNewlineFree(before);
    ReportNewlineFree(now);
    GateComparesNormalForms(updateMode, Report(before), Report(now));
    SubsumedReports(now, before);
    SubsumedReports(before, now);
  }

  lemma ReportNewlineFree(components: seq<seq<Path>>)
    requires forall c :: c in components ==> Presentable(c)
    ensures forall r :: r in Report(components) ==> NewlineFree(r)
  {
    hide Spell, Normalize, Report, Presentable, NewlineFree;
    forall r | r in Report(components) ensures NewlineFree(r) {
      ReportMembers(components, r);
      var c :| c in components && r == Spell(c);
      SpellIsNormal(c);
    }
  }

  /** Two files that import themselves are told apart by no allowlist. */
  lemma SelfImportsAreNotToldApart(a: Path, b: Path)
    requires a != b && Presentable([a]) && Presentable([b])
    ensures GatePasses(false, Listed(Report([[a]])), Report([[b]]))
  {
    hide Report, GatePasses;
    GateComparesComponents(false, [[a]], [[b]]);
    assert [a] in [[a]] && [b] in [[b]];
    assert MutualImports([[a]]) == {} && MutualImports([[b]]) == {};
  }
}
