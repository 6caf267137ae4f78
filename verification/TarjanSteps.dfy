/** The three ways a scanned vertex moves on: a child call returns, the call returns unemitted, or it emits. */
module TarjanSteps {
  import opened ImportGraph
  import opened TarjanState

  lemma StackDistinct(s: Search, i: nat, j: nat)
    requires Numbered(s) && i < j < |s.stack|
    ensures s.stack[i] != s.stack[j]
  {
  }

  lemma StackedIsNumbered(s: Search, i: nat)
    requires Numbered(s) && i < |s.stack|
    ensures s.stack[i] in s.onStack && s.stack[i] in s.indices
  {
  }

  lemma ChildAttained(g: Graph, s: Search, t: Search, v: Path, w: Path)
    requires Numbered(s) && Numbered(t) && Continues(s, t) && g.Edge(v, w)
    requires v in s.indices && LowlinkAttained(g, s, v) && s.lowlinks[v] < s.nextIndex
    requires w in t.indices && t.indices[w] == s.nextIndex
    requires if w in t.onStack then LowlinkAttained(g, t, w) else t.lowlinks[w] == t.indices[w]
    ensures exists y :: y in t.onStack && t.indices[y] == Min(t.lowlinks[v], t.lowlinks[w]) && g.Reaches(v, y)
  {
    hide Graph.Reaches;
    if t.lowlinks[v] <= t.lowlinks[w] {
      var y :| y in s.onStack && s.indices[y] == s.lowlinks[v] && g.Reaches(v, y);
      assert y in s.stack;
      var i :| 0 <= i < |s.stack| && s.stack[i] == y;
      assert t.stack[i] == y;
      assert y in t.onStack;
    } else {
      var y :| y in t.onStack && t.indices[y] == t.lowlinks[w] && g.Reaches(w, y);
      ReachesEdge(g, v, w);
      ReachesTransitive(g, v, w, y);
    }
  }

  lemma ChildBounds(g: Graph, s: Search, t: Search, v: Path, w: Path, base: nat, k: nat, low: nat)
    requires Numbered(s) && Numbered(t) && Continues(s, t)
    requires base < |s.stack| && s.stack[base] == v && v in s.indices
    requires k < |g.Successors(v)| && g.Successors(v)[k] == w && w !in s.indices
    requires LowlinkBounds(g, s, v, base, k)
    requires w in t.indices
    requires if w in t.onStack then LowlinkBounds(g, t, w, |s.stack|, |g.Successors(w)|) else t.stack == s.stack
    requires low <= t.lowlinks[v] && low <= t.lowlinks[w]
    requires Numbered(SetLowlink(t, v, low))
    ensures LowlinkBounds(g, SetLowlink(t, v, low), v, base, k + 1)
  {
    hide Emitted, StackOrdered;
    assert g.Successors(v)[..k + 1] == g.Successors(v)[..k] + [w];
    assert g.Successors(w)[..|g.Successors(w)|] == g.Successors(w);
    forall i, j |
      0 <= i < base <= j < |t.stack| &&
      (if t.stack[j] == v then t.stack[i] in g.Successors(v)[..k + 1] else g.Edge(t.stack[j], t.stack[i]))
      ensures low <= t.indices[t.stack[i]]
    {
      assert t.stack[i] == s.stack[i];
      StackedIsNumbered(s, i);
      if j < |s.stack| {
        assert t.stack[j] == s.stack[j];
      } else {
        StackDistinct(t, base, j);
      }
    }
  }

  /** The `!indices.has(neighbor)` branch, once `connect(neighbor)` has returned in `t`. */
  lemma ChildStep(g: Graph, open: set<Path>, s0: Search, s: Search, t: Search, v: Path, k: nat)
    requires k < |g.Successors(v)| && Scanning(g, open, s0, s, v, k)
    requires v !in s0.indices && v !in s0.lowlinks
    requires g.Successors(v)[k] !in s.indices
    requires Connected(g, open + {v}, s, t, g.Successors(v)[k])
    ensures Scanning(g, open, s0, SetLowlink(t, v, Min(t.lowlinks[v], t.lowlinks[g.Successors(v)[k]])), v, k + 1)
  {
    hide EmittedFinal, Graph.Reaches, LeadsToOpen, StackReachesUpward, LowlinkBounds, Emitted, Elements, LowlinkAttained, StackOrdered;
    var w := g.Successors(v)[k];
    var low := Min(t.lowlinks[v], t.lowlinks[w]);
    assert g.Edge(v, w);
    LoweringKeepsInv(g, open + {v}, t, v, low);
    ChildAttained(g, s, t, v, w);
    ChildBounds(g, s, t, v, w, |s0.stack|, k, low);
    LowlinkAttainedAfter(g, t, v, low);
    assert s0.stack <= t.stack && s0.components <= t.components;
  }

  lemma LowlinkAttainedAfter(g: Graph, t: Search, v: Path, low: nat)
    requires Numbered(t) && v in t.indices && Numbered(SetLowlink(t, v, low))
    requires exists y :: y in t.onStack && t.indices[y] == low && g.Reaches(v, y)
    ensures LowlinkAttained(g, SetLowlink(t, v, low), v)
  {
    hide Graph.Reaches;
    var y :| y in t.onStack && t.indices[y] == low && g.Reaches(v, y);
    assert y in SetLowlink(t, v, low).onStack && SetLowlink(t, v, low).indices[y] == low;
  }

  lemma UnemittedLeadsToOpen(g: Graph, open: set<Path>, s: Search, v: Path, y: Path)
    requires Inv(g, open + {v}, s) && v in s.indices
    requires LowlinkAttained(g, s, v) && s.lowlinks[v] < s.indices[v]
    requires y in s.onStack
    ensures LeadsToOpen(g, open, s, y)
  {
    hide EmittedFinal, Graph.Reaches, Emitted, Elements, StackReachesUpward;
    assert LeadsToOpen(g, open + {v}, s, y);
    var z :| z in open + {v} && NumberedNoLater(s, z, y) && g.Reaches(y, z);
    if z == v {
      var x :| x in s.onStack && s.indices[x] == s.lowlinks[v] && g.Reaches(v, x);
      assert LeadsToOpen(g, open + {v}, s, x);
      var z' :| z' in open + {v} && NumberedNoLater(s, z', x) && g.Reaches(x, z');
      ReachesTransitive(g, y, v, x);
      ReachesTransitive(g, y, x, z');
      assert z' in open && NumberedNoLater(s, z', y);
    }
  }

  /** The early `return` when the lowlink is below the vertex's own number. */
  lemma ReturnUnemitted(g: Graph, open: set<Path>, s0: Search, s: Search, v: Path)
    requires Scanning(g, open, s0, s, v, |g.Successors(v)|)
    requires open <= s0.onStack && Numbered(s0)
    requires s.lowlinks[v] != s.indices[v]
    ensures Connected(g, open, s0, s, v)
  {
    hide EmittedFinal, Graph.Reaches, LeadsToOpen, StackReachesUpward, LowlinkBounds, Emitted, LowlinkAttained;
    forall y {:trigger LeadsToOpen(g, open, s, y)} | y in s.onStack ensures LeadsToOpen(g, open, s, y) {
      UnemittedLeadsToOpen(g, open, s, v, y);
    }
    StackedIsNumbered(s, |s0.stack|);
  }

  lemma SegmentNotOpen(open: set<Path>, s0: Search, s: Search, j: nat)
    requires Numbered(s) && Numbered(s0) && open <= s0.onStack && s0.stack <= s.stack
    requires |s0.stack| <= j < |s.stack|
    ensures s.stack[j] !in open
  {
    hide Emitted;
    forall i | 0 <= i < |s0.stack| ensures s0.stack[i] != s.stack[j] {
      StackDistinct(s, i, j);
    }
  }

  lemma SegmentAvoidsBelow(g: Graph, s: Search, v: Path, base: nat, i: nat, j: nat)
    requires Numbered(s) && v in s.indices && i < base <= j < |s.stack| && s.stack[base] == v
    requires LowlinkBounds(g, s, v, base, |g.Successors(v)|) && s.lowlinks[v] == s.indices[v]
    ensures !g.Edge(s.stack[j], s.stack[i])
  {
    StackedIsNumbered(s, i);
    StackedIsNumbered(s, base);
    hide Emitted, Elements;
    assert g.Successors(v)[..|g.Successors(v)|] == g.Successors(v);
    assert s.indices[s.stack[i]] < s.indices[s.stack[base]];
  }

  /** No edge leaves the popped segment except into emitted components. */
  lemma SegmentClosed(g: Graph, open: set<Path>, s0: Search, s: Search, v: Path, j: nat, w: Path)
    requires Scanning(g, open, s0, s, v, |g.Successors(v)|)
    requires open <= s0.onStack && Numbered(s0)
    requires s.lowlinks[v] == s.indices[v]
    requires |s0.stack| <= j < |s.stack| && g.Edge(s.stack[j], w)
    ensures w in s.stack[|s0.stack|..] || w in Emitted(s.components)
  {
    hide EmittedFinal, Graph.Reaches, LeadsToOpen, StackReachesUpward, LowlinkAttained, LowlinkBounds, Emitted, StackOrdered;
    var base := |s0.stack|;
    StackedIsNumbered(s, j);
    SegmentNotOpen(open, s0, s, j);
    if j == base {
      var k :| 0 <= k < |g.Successors(v)| && g.Successors(v)[k] == w;
    }
    assert w in s.indices;
    if w in s.onStack {
      var i :| 0 <= i < |s.stack| && s.stack[i] == w;
      if i < base {
        SegmentAvoidsBelow(g, s, v, base, i, j);
      }
      assert s.stack[base..][i - base] == w;
    }
  }

  lemma SegmentMutuallyReaches(g: Graph, open: set<Path>, s0: Search, s: Search, v: Path, j: nat)
    requires Scanning(g, open, s0, s, v, |g.Successors(v)|)
    requires open <= s0.onStack && Numbered(s0)
    requires |s0.stack| <= j < |s.stack|
    ensures g.StronglyConnected(v, s.stack[j])
  {
    hide EmittedFinal, Graph.Reaches, LowlinkBounds, LowlinkAttained, Emitted;
    var u := s.stack[j];
    StackedIsNumbered(s, j);
    assert s.stack[|s0.stack|] == v;
    assert g.Reaches(v, u);
    assert LeadsToOpen(g, open + {v}, s, u);
    var z :| z in open + {v} && NumberedNoLater(s, z, u) && g.Reaches(u, z);
    OpenReachesScanned(g, open, s0, s, v, |g.Successors(v)|, z);
    ReachesTransitive(g, u, z, v);
  }

  lemma EmittedAppend(components: seq<seq<Path>>, c: seq<Path>)
    ensures Emitted(components + [c]) == Emitted(components) + Elements(c)
  {
    var all := components + [c];
    forall v | v in Emitted(components) + Elements(c) ensures v in Emitted(all) {
      if v in c {
        assert v in all[|components|];
      } else {
        var i :| 0 <= i < |components| && v in components[i];
        assert v in all[i];
      }
    }
  }

  lemma ReversedElements(p: seq<Path>)
    ensures Elements(Reversed(p)) == Elements(p)
  {
    forall v | v in p ensures v in Reversed(p) {
      var i :| 0 <= i < |p| && p[i] == v;
      assert Reversed(p)[|p| - 1 - i] == v;
    }
  }

  /** The popped segment together with what was emitted before is closed under edges. */
  lemma EmissionClosed(g: Graph, open: set<Path>, s0: Search, s: Search, v: Path)
    requires Scanning(g, open, s0, s, v, |g.Successors(v)|)
    requires open <= s0.onStack && Numbered(s0)
    requires s.lowlinks[v] == s.indices[v]
    ensures g.Closed(Emitted(s.components) + Elements(s.stack[|s0.stack|..]))
  {
    EmittedClosed(g, s.components);
    var segment, reach := s.stack[|s0.stack|..], Emitted(s.components) + Elements(s.stack[|s0.stack|..]);
    hide EmittedFinal, Graph.Reaches, LowlinkBounds, LowlinkAttained, LeadsToOpen, StackReachesUpward, Emitted, Numbered, Inv, Continues;
    forall u, w {:trigger g.Edge(u, w)} | u in reach && g.Edge(u, w) ensures w in reach {
      if u in Elements(segment) {
        var j :| 0 <= j < |segment| && segment[j] == u;
        SegmentClosed(g, open, s0, s, v, |s0.stack| + j, w);
      }
    }
  }

  lemma SegmentExact(g: Graph, open: set<Path>, s0: Search, s: Search, v: Path, u: Path, w: Path)
    requires Scanning(g, open, s0, s, v, |g.Successors(v)|)
    requires open <= s0.onStack && Numbered(s0)
    requires s.lowlinks[v] == s.indices[v]
    requires u in s.stack[|s0.stack|..]
    ensures w in s.stack[|s0.stack|..] <==> g.StronglyConnected(u, w)
  {
    var segment := s.stack[|s0.stack|..];
    EmittedClosed(g, s.components);
    EmissionClosed(g, open, s0, s, v);
    SegmentMember(g, open, s0, s, v, u);
    assert u in Elements(segment);
    if w in segment {
      SegmentMember(g, open, s0, s, v, w);
      hide Scanning, Graph.Reaches, Numbered, Emitted;
      ReachesTransitive(g, u, v, w);
      ReachesTransitive(g, w, v, u);
    } else if g.StronglyConnected(u, w) {
      hide Scanning, Graph.Reaches, Graph.Closed, Numbered, Emitted;
      ReachesStaysInClosedSet(g, Emitted(s.components) + Elements(segment), u, w);
      ReachesStaysInClosedSet(g, Emitted(s.components), w, u);
    }
  }

  lemma SegmentDistinct(s: Search, base: nat)
    requires Numbered(s) && base <= |s.stack|
    ensures Distinct(Reversed(s.stack[base..]))
  {
    hide Numbered;
    var c := Reversed(s.stack[base..]);
    forall i, j | 0 <= i < j < |c| ensures c[i] != c[j] {
      StackDistinct(s, base + |c| - 1 - j, base + |c| - 1 - i);
    }
  }

  /** The popped segment is exactly one class of mutual reachability. */
  lemma SegmentIsComponent(g: Graph, open: set<Path>, s0: Search, s: Search, v: Path)
    requires Scanning(g, open, s0, s, v, |g.Successors(v)|)
    requires open <= s0.onStack && Numbered(s0)
    requires s.lowlinks[v] == s.indices[v]
    ensures IsComponent(g, Reversed(s.stack[|s0.stack|..]))
  {
    hide Graph.StronglyConnected, Distinct, Inv, LowlinkBounds, LowlinkAttained, Continues, Emitted;
    var segment := s.stack[|s0.stack|..];
    var c := Reversed(segment);
    assert Numbered(s) by { ScanningNumbered(g, open, s0, s, v); }
    SegmentDistinct(s, |s0.stack|);
    hide Numbered;
    ReversedElements(segment);
    assert forall x :: x in c <==> x in segment by {
      assert forall x :: x in c <==> x in Elements(c);
      assert forall x :: x in segment <==> x in Elements(segment);
    }
    forall u, w {:trigger g.StronglyConnected(u, w)} | u in c ensures w in c <==> g.StronglyConnected(u, w) {
      SegmentExact(g, open, s0, s, v, u, w);
    }
  }

  lemma ScanningNumbered(g: Graph, open: set<Path>, s0: Search, s: Search, v: Path)
    requires Scanning(g, open, s0, s, v, |g.Successors(v)|)
    ensures Numbered(s)
  {
  }

  lemma EmittedClosed(g: Graph, components: seq<seq<Path>>)
    requires EmittedFinal(g, components)
    ensures g.Closed(Emitted(components)) && "" !in Emitted(components)
  {
    assert components[..|components|] == components;
  }

  lemma SegmentMember(g: Graph, open: set<Path>, s0: Search, s: Search, v: Path, u: Path)
    requires Scanning(g, open, s0, s, v, |g.Successors(v)|)
    requires open <= s0.onStack && Numbered(s0)
    requires u in s.stack[|s0.stack|..]
    ensures g.StronglyConnected(v, u) && u in s.onStack && u !in Emitted(s.components)
  {
    hide EmittedFinal, Graph.Reaches, LowlinkBounds, LowlinkAttained, LeadsToOpen, StackReachesUpward, Emitted;
    var segment := s.stack[|s0.stack|..];
    var j :| 0 <= j < |segment| && segment[j] == u;
    SegmentMutuallyReaches(g, open, s0, s, v, |s0.stack| + j);
    StackedIsNumbered(s, |s0.stack| + j);
  }

  /** Appending a component that is disjoint from the emitted ones and closed together with them. */
  lemma EmissionStaysFinal(g: Graph, components: seq<seq<Path>>, c: seq<Path>)
    requires EmittedFinal(g, components) && IsComponent(g, c)
    requires Elements(c) !! Emitted(components) && "" !in c
    requires g.Closed(Emitted(components) + Elements(c))
    ensures EmittedFinal(g, components + [c])
  {
    hide Graph.StronglyConnected, Graph.Closed, IsComponent;
    var all := components + [c];
    EmittedAppend(components, c);
    forall i, j, v | 0 <= i < j < |all| && v in all[i] ensures v !in all[j] {
      if j == |components| {
        assert v in components[i];
        assert v in Emitted(components);
      }
    }
    forall n | 0 <= n <= |all| ensures g.Closed(Emitted(all[..n])) {
      if n <= |components| {
        assert all[..n] == components[..n];
      } else {
        assert all[..n] == all;
      }
    }
  }

  lemma EmitSplitsStack(s: Search, base: nat)
    requires Numbered(s) && base <= |s.stack|
    ensures Elements(s.stack) == Elements(s.stack[..base]) + Elements(s.stack[base..])
    ensures Elements(s.stack[..base]) !! Elements(s.stack[base..])
  {
    var below, segment := s.stack[..base], s.stack[base..];
    assert s.stack == below + segment;
    forall x | x in below ensures x !in segment {
      var i :| 0 <= i < base && below[i] == x;
      hide Numbered;
      forall j | 0 <= j < |segment| ensures segment[j] != x {
        StackDistinct(s, i, base + j);
      }
    }
  }

  /** Moving `moved` from the stacked to the emitted vertices. */
  lemma SetsAfterEmission(onStack: set<Path>, below: set<Path>, moved: set<Path>, emitted: set<Path>)
    requires onStack == below + moved && below !! moved && onStack !! emitted
    ensures onStack - moved == below && below + (emitted + moved) == onStack + emitted
    ensures below !! emitted + moved && moved !! emitted
  {
  }

  lemma EmitNumbered(s: Search, base: nat)
    requires Numbered(s) && base <= |s.stack|
    ensures Numbered(Emit(s, base))
    ensures Elements(Reversed(s.stack[base..])) !! Emitted(s.components)
  {
    var t, segment := Emit(s, base), s.stack[base..];
    assert t.onStack == s.onStack - Elements(segment);
    EmitSplitsStack(s, base);
    assert StackOrdered(t.stack, t.indices) by {
      hide Elements, Emitted, Reversed;
    }
    hide Emitted, Elements, StackOrdered, Reversed;
    EmittedAppend(s.components, Reversed(segment));
    ReversedElements(segment);
    SetsAfterEmission(s.onStack, Elements(t.stack), Elements(segment), Emitted(s.components));
  }

  /** Below an emitted segment, open calls are found as before. */
  lemma EmitLeadsToOpen(g: Graph, open: set<Path>, s: Search, v: Path, base: nat, y: Path)
    requires Inv(g, open + {v}, s) && base < |s.stack| && s.stack[base] == v
    requires y in s.stack[..base]
    ensures LeadsToOpen(g, open, Emit(s, base), y)
  {
    hide EmittedFinal, Graph.Reaches, Emitted, StackReachesUpward;
    var i :| 0 <= i < base && s.stack[i] == y;
    StackedIsNumbered(s, i);
    assert LeadsToOpen(g, open + {v}, s, y);
    var z :| z in open + {v} && NumberedNoLater(s, z, y) && g.Reaches(y, z);
    assert s.indices[s.stack[i]] < s.indices[s.stack[base]];
    assert z in open && NumberedNoLater(Emit(s, base), z, y);
  }

  lemma EmitFinal(g: Graph, open: set<Path>, s0: Search, s: Search, v: Path)
    requires Scanning(g, open, s0, s, v, |g.Successors(v)|)
    requires open <= s0.onStack && Numbered(s0)
    requires s.lowlinks[v] == s.indices[v]
    requires "" !in s.stack[|s0.stack|..]
    ensures EmittedFinal(g, Emit(s, |s0.stack|).components)
  {
    hide Graph.Reaches, LowlinkBounds, LowlinkAttained, LeadsToOpen, EmittedFinal, Emitted, IsComponent, Graph.Closed, StackReachesUpward;
    var segment := s.stack[|s0.stack|..];
    EmitNumbered(s, |s0.stack|);
    ReversedElements(segment);
    EmissionClosed(g, open, s0, s, v);
    SegmentIsComponent(g, open, s0, s, v);
    assert "" !in Elements(segment);
    EmissionStaysFinal(g, s.components, Reversed(segment));
  }

  lemma ExploredAfterScan(g: Graph, open: set<Path>, s0: Search, s: Search, v: Path, u: Path, w: Path)
    requires Scanning(g, open, s0, s, v, |g.Successors(v)|)
    requires u in s.indices && u !in open && g.Edge(u, w)
    ensures w in s.indices
  {
  }

  lemma EmitKeepsReach(g: Graph, s: Search, base: nat)
    requires StackReachesUpward(g, s) && base <= |s.stack|
    ensures StackReachesUpward(g, Emit(s, base))
  {
    assert forall i :: 0 <= i < base ==> s.stack[..base][i] == s.stack[i];
  }

  lemma EmitInv(g: Graph, open: set<Path>, s0: Search, s: Search, v: Path, t: Search)
    requires Scanning(g, open, s0, s, v, |g.Successors(v)|)
    requires open <= s0.onStack && Numbered(s0)
    requires t == Emit(s, |s0.stack|) && EmittedFinal(g, t.components)
    ensures Inv(g, open, t) && t.stack == s0.stack
  {
    var base := |s0.stack|;
    assert t.indices == s.indices && t.stack == s.stack[..base] == s0.stack;
    EmitNumbered(s, base);
    EmitKeepsReach(g, s, base);
    hide Emit, Graph.Reaches, LowlinkBounds, LowlinkAttained, LeadsToOpen, EmittedFinal, Emitted, StackReachesUpward;
    forall u, w {:trigger g.Edge(u, w)} | u in t.indices && u !in open && g.Edge(u, w) ensures w in t.indices {
      ExploredAfterScan(g, open, s0, s, v, u, w);
    }
    assert t.onStack == s0.onStack;
    forall y {:trigger LeadsToOpen(g, open, t, y)} | y in t.onStack ensures LeadsToOpen(g, open, t, y) {
      EmitLeadsToOpen(g, open, s, v, base, y);
    }
  }

  lemma EmitContinues(s0: Search, s: Search, t: Search)
    requires Continues(s0, s) && t == Emit(s, |s0.stack|)
    ensures Continues(s0, t) && t.indices == s.indices && t.lowlinks == s.lowlinks
  {
  }

  /** The pop loop: the invariant holds again without `v`, and one whole component has been emitted. */
  lemma EmitStep(g: Graph, open: set<Path>, s0: Search, s: Search, v: Path, t: Search)
    requires Scanning(g, open, s0, s, v, |g.Successors(v)|)
    requires open <= s0.onStack && Numbered(s0) && v !in s0.indices
    requires s.lowlinks[v] == s.indices[v]
    requires "" !in s.stack[|s0.stack|..]
    requires t == Emit(s, |s0.stack|)
    ensures Connected(g, open, s0, t, v)
  {
    hide Emit, Graph.Reaches, LowlinkBounds, LowlinkAttained, LeadsToOpen, EmittedFinal, Emitted, StackReachesUpward;
    EmitFinal(g, open, s0, s, v);
    EmitInv(g, open, s0, s, v, t);
    EmitContinues(s0, s, t);
    assert v !in s0.onStack;
  }
}
