/**
 * The shared variables of `findStronglyConnectedComponents` as one value, the invariant the
 * recursive closure keeps over them, and the lemmas for each thing the closure does.
 */
module TarjanState {
  import opened ImportGraph

  datatype Search = Search(
    nextIndex: nat,
    stack: seq<Path>,
    onStack: set<Path>,
    indices: map<Path, nat>,
    lowlinks: map<Path, nat>,
    components: seq<seq<Path>>)

  ghost function Elements(p: seq<Path>): set<Path> {
    set v | v in p
  }

  /** The vertices of the components emitted so far. */
  ghost function Emitted(components: seq<seq<Path>>): set<Path> {
    set i, v | 0 <= i < |components| && v in components[i] :: v
  }

  ghost predicate Distinct(p: seq<Path>) {
    forall i, j :: 0 <= i < j < |p| ==> p[i] != p[j]
  }

  /** `c` lists, without repetition, exactly one class of mutual reachability. */
  ghost predicate IsComponent(g: Graph, c: seq<Path>) {
    && |c| > 0
    && Distinct(c)
    && forall u, v {:trigger g.StronglyConnected(u, v)} :: u in c ==> (v in c <==> g.StronglyConnected(u, v))
  }

  /** The stack, its membership set and the two numberings agree. */
  ghost predicate Numbered(s: Search) {
    && s.onStack == Elements(s.stack)
    && s.lowlinks.Keys == s.indices.Keys == s.onStack + Emitted(s.components)
    && s.onStack !! Emitted(s.components)
    && (forall v :: v in s.indices ==> s.indices[v] < s.nextIndex)
    && StackOrdered(s.stack, s.indices)
  }

  ghost predicate StackOrdered(stack: seq<Path>, indices: map<Path, nat>) {
    forall i, j :: 0 <= i < j < |stack| ==>
      stack[i] in indices && stack[j] in indices && indices[stack[i]] < indices[stack[j]]
  }

  ghost predicate StackReachesUpward(g: Graph, s: Search) {
    forall i, j :: 0 <= i <= j < |s.stack| ==> g.Reaches(s.stack[i], s.stack[j])
  }

  ghost predicate NumberedNoLater(s: Search, z: Path, y: Path) {
    z in s.indices && y in s.indices && s.indices[z] <= s.indices[y]
  }

  /** `y` leads back to a vertex whose call is still open and which was numbered no later. */
  ghost predicate LeadsToOpen(g: Graph, open: set<Path>, s: Search, y: Path)
  {
    exists z :: z in open && NumberedNoLater(s, z, y) && g.Reaches(y, z)
  }

  /** What was emitted is final: whole components, pairwise disjoint, each prefix closed under edges. */
  ghost predicate EmittedFinal(g: Graph, components: seq<seq<Path>>) {
    && (forall i :: 0 <= i < |components| ==> IsComponent(g, components[i]))
    && (forall i, j, v :: 0 <= i < j < |components| && v in components[i] ==> v !in components[j])
    && (forall n :: 0 <= n <= |components| ==> g.Closed(Emitted(components[..n])))
    && "" !in Emitted(components)
  }

  /** The invariant, for the set `open` of vertices whose `connect` call has not returned. */
  ghost predicate Inv(g: Graph, open: set<Path>, s: Search) {
    && Numbered(s)
    && open <= s.onStack
    && s.indices.Keys <= g.Vertices()
    && (forall u, v {:trigger g.Edge(u, v)} :: u in s.indices && u !in open && g.Edge(u, v) ==> v in s.indices)
    && StackReachesUpward(g, s)
    && (forall y {:trigger LeadsToOpen(g, open, s, y)} :: y in s.onStack ==> LeadsToOpen(g, open, s, y))
    && EmittedFinal(g, s.components)
  }

  /** `s1` continues `s0`: older numbers, lowlinks, stack entries and components are untouched. */
  ghost predicate Continues(s0: Search, s1: Search) {
    && (forall u :: u in s0.indices ==> u in s1.indices && s1.indices[u] == s0.indices[u])
    && (forall u :: u in s0.lowlinks ==> u in s1.lowlinks && s1.lowlinks[u] == s0.lowlinks[u])
    && s0.stack <= s1.stack
    && s0.components <= s1.components
    && s0.nextIndex <= s1.nextIndex
  }

  /** The lowlink of `v` is the number of some stacked vertex that `v` reaches. */
  ghost predicate LowlinkAttained(g: Graph, s: Search, v: Path)
    requires Numbered(s) && v in s.indices
  {
    exists y :: y in s.onStack && s.indices[y] == s.lowlinks[v] && g.Reaches(v, y)
  }

  /**
   * Each edge from the part of the stack above `base` to the part below it ends no earlier
   * than the lowlink of `v`; of `v`'s own edges only the first `k` are considered.
   */
  ghost predicate LowlinkBounds(g: Graph, s: Search, v: Path, base: nat, k: nat)
    requires Numbered(s) && v in s.indices && base <= |s.stack| && k <= |g.Successors(v)|
  {
    forall i, j ::
      0 <= i < base <= j < |s.stack| &&
      (if s.stack[j] == v then s.stack[i] in g.Successors(v)[..k] else g.Edge(s.stack[j], s.stack[i]))
      ==> s.lowlinks[v] <= s.indices[s.stack[i]]
  }

  /** The state inside `connect(v)`, entered in `s0`, after `k` neighbours. */
  ghost predicate Scanning(g: Graph, open: set<Path>, s0: Search, s: Search, v: Path, k: nat)
    requires k <= |g.Successors(v)|
  {
    && Inv(g, open + {v}, s)
    && Continues(s0, s)
    && |s0.stack| < |s.stack| && s.stack[|s0.stack|] == v
    && v in s.indices && s.indices[v] == s0.nextIndex
    && (forall i :: 0 <= i < k ==> g.Successors(v)[i] in s.indices)
    && s.lowlinks[v] <= s.indices[v]
    && LowlinkAttained(g, s, v)
    && LowlinkBounds(g, s, v, |s0.stack|, k)
  }

  /** The state when `connect(v)`, entered in `s0`, returns. */
  ghost predicate Connected(g: Graph, open: set<Path>, s0: Search, s: Search, v: Path) {
    && Inv(g, open, s)
    && Continues(s0, s)
    && v in s.indices && s.indices[v] == s0.nextIndex
    && if v in s.onStack then
         && |s0.stack| < |s.stack| && s.stack[|s0.stack|] == v
         && s.lowlinks[v] < s.indices[v]
         && LowlinkAttained(g, s, v)
         && LowlinkBounds(g, s, v, |s0.stack|, |g.Successors(v)|)
       else
         s.stack == s0.stack && s.lowlinks[v] == s.indices[v]
  }

  /** When `connect(v)` may be called: `v` is new and every stacked vertex reaches it. */
  ghost predicate MayConnect(g: Graph, open: set<Path>, s: Search, v: Path) {
    && Inv(g, open, s)
    && v in g.Vertices()
    && v !in s.indices
    && (forall x :: x in s.onStack ==> g.Reaches(x, v))
  }

  /** The first five statements of `connect`. */
  function Push(s: Search, v: Path): Search {
    Search(s.nextIndex + 1, s.stack + [v], s.onStack + {v},
           s.indices[v := s.nextIndex], s.lowlinks[v := s.nextIndex], s.components)
  }

  function SetLowlink(s: Search, v: Path, low: nat): Search {
    s.(lowlinks := s.lowlinks[v := low])
  }

  function Min(a: nat, b: nat): nat {
    if a <= b then a else b
  }

  /** The pop loop's effect: everything from `base` up becomes a component, top of stack first. */
  function Emit(s: Search, base: nat): Search
    requires base <= |s.stack|
  {
    s.(stack := s.stack[..base],
       onStack := s.onStack - (set v | v in s.stack[base..]),
       components := s.components + [Reversed(s.stack[base..])])
  }

  function Reversed(p: seq<Path>): (r: seq<Path>)
    ensures |r| == |p|
    ensures forall i :: 0 <= i < |p| ==> r[i] == p[|p| - 1 - i]
  {
    if p == [] then [] else Reversed(p[1..]) + [p[0]]
  }

  lemma PushedNumbered(s: Search, v: Path)
    requires Numbered(s) && v !in s.indices
    ensures Numbered(Push(s, v))
  {
    assert Elements(s.stack + [v]) == Elements(s.stack) + {v};
    forall x | x in s.stack ensures x in s.indices {
      assert x in s.onStack;
    }
  }

  lemma PushedLeadsToOpen(g: Graph, open: set<Path>, s: Search, v: Path, y: Path)
    requires MayConnect(g, open, s, v) && y in Push(s, v).onStack
    ensures LeadsToOpen(g, open + {v}, Push(s, v), y)
  {
    var t := Push(s, v);
    if y == v {
      ReachesSelf(g, v);
      assert v in open + {v} && NumberedNoLater(t, v, y) && g.Reaches(y, v);
    } else {
      assert LeadsToOpen(g, open, s, y);
      var z :| z in open && NumberedNoLater(s, z, y) && g.Reaches(y, z);
      assert z in open + {v} && NumberedNoLater(t, z, y);
    }
  }

  lemma PushedInv(g: Graph, open: set<Path>, s: Search, v: Path)
    requires MayConnect(g, open, s, v)
    ensures Inv(g, open + {v}, Push(s, v))
  {
    hide EmittedFinal, Graph.Reaches, LeadsToOpen;
    var t := Push(s, v);
    PushedNumbered(s, v);
    ReachesSelf(g, v);
    forall i, j | 0 <= i <= j < |t.stack| ensures g.Reaches(t.stack[i], t.stack[j]) {
      if j == |s.stack| && i < j {
        assert t.stack[i] in s.onStack;
      }
    }
    forall y {:trigger LeadsToOpen(g, open + {v}, t, y)} | y in t.onStack
      ensures LeadsToOpen(g, open + {v}, t, y)
    {
      PushedLeadsToOpen(g, open, s, v, y);
    }
  }

  lemma PushedBounds(g: Graph, s: Search, v: Path)
    requires Numbered(Push(s, v))
    ensures LowlinkBounds(g, Push(s, v), v, |s.stack|, 0)
  {
    hide Numbered;
    assert forall j :: |s.stack| <= j < |Push(s, v).stack| ==> Push(s, v).stack[j] == v;
  }

  lemma PushedAttained(g: Graph, s: Search, v: Path)
    requires Numbered(Push(s, v))
    ensures LowlinkAttained(g, Push(s, v), v)
  {
    ReachesSelf(g, v);
    hide Numbered, Graph.Reaches;
    var t := Push(s, v);
    assert v in t.onStack && t.indices[v] == t.lowlinks[v];
  }

  lemma PushedContinues(s: Search, v: Path)
    requires v !in s.indices && v !in s.lowlinks
    ensures Continues(s, Push(s, v))
  {
  }

  lemma PushEstablishesScanning(g: Graph, open: set<Path>, s: Search, v: Path)
    requires MayConnect(g, open, s, v)
    ensures Scanning(g, open, s, Push(s, v), v, 0)
  {
    PushedInv(g, open, s, v);
    hide EmittedFinal, Graph.Reaches, LeadsToOpen, StackReachesUpward, Emitted, LowlinkBounds, LowlinkAttained, Continues, Elements;
    PushedBounds(g, s, v);
    PushedAttained(g, s, v);
    PushedContinues(s, v);
  }

  /** While `v` is scanned every stacked vertex reaches it, so an unvisited neighbour may be entered. */
  lemma NeighbourMayConnect(g: Graph, open: set<Path>, s0: Search, s: Search, v: Path, k: nat)
    requires k < |g.Successors(v)| && Scanning(g, open, s0, s, v, k)
    requires open <= s0.onStack && Numbered(s0)
    requires g.Successors(v)[k] !in s.indices
    ensures MayConnect(g, open + {v}, s, g.Successors(v)[k])
  {
    var w := g.Successors(v)[k];
    assert g.Edge(v, w);
    SuccessorsAreVertices(g, v, w);
    ReachesEdge(g, v, w);
    forall x | x in s.onStack ensures g.Reaches(x, w) {
      assert LeadsToOpen(g, open + {v}, s, x);
      var z :| z in open + {v} && NumberedNoLater(s, z, x) && g.Reaches(x, z);
      OpenReachesScanned(g, open, s0, s, v, k, z);
      ReachesTransitive(g, x, z, v);
      ReachesTransitive(g, x, v, w);
    }
  }

  lemma OpenReachesScanned(g: Graph, open: set<Path>, s0: Search, s: Search, v: Path, k: nat, z: Path)
    requires k <= |g.Successors(v)| && Scanning(g, open, s0, s, v, k)
    requires open <= s0.onStack && Numbered(s0)
    requires z in open + {v}
    ensures g.Reaches(z, v)
  {
    if z == v {
      ReachesSelf(g, v);
    } else {
      assert z in s0.stack;
      var i :| 0 <= i < |s0.stack| && s0.stack[i] == z;
      assert s.stack[i] == z;
    }
  }

  /** Lowering `lowlinks[v]` to the number of a stacked vertex that `v` reaches keeps the invariant. */
  lemma LoweringKeepsInv(g: Graph, open: set<Path>, s: Search, v: Path, low: nat)
    requires Inv(g, open, s) && v in s.indices
    ensures Inv(g, open, SetLowlink(s, v, low))
  {
    hide EmittedFinal, Graph.Reaches;
    var t := SetLowlink(s, v, low);
    forall y {:trigger LeadsToOpen(g, open, t, y)} | y in t.onStack
      ensures LeadsToOpen(g, open, t, y)
    {
      assert LeadsToOpen(g, open, s, y);
      var z :| z in open && NumberedNoLater(s, z, y) && g.Reaches(y, z);
      assert NumberedNoLater(t, z, y);
    }
  }

  lemma LoweringBounds(g: Graph, s: Search, v: Path, base: nat, k: nat, low: nat)
    requires Numbered(s) && v in s.indices && base <= |s.stack| && k < |g.Successors(v)|
    requires LowlinkBounds(g, s, v, base, k)
    requires low <= s.lowlinks[v]
    requires g.Successors(v)[k] in s.onStack && low <= s.indices[g.Successors(v)[k]]
    requires Numbered(SetLowlink(s, v, low))
    ensures LowlinkBounds(g, SetLowlink(s, v, low), v, base, k + 1)
  {
    assert g.Successors(v)[..k + 1] == g.Successors(v)[..k] + [g.Successors(v)[k]];
  }

  /** The `else if (onStack.has(neighbor))` branch. */
  lemma StackedNeighbourStep(g: Graph, open: set<Path>, s0: Search, s: Search, v: Path, k: nat)
    requires k < |g.Successors(v)| && Scanning(g, open, s0, s, v, k)
    requires v !in s0.indices && v !in s0.lowlinks
    requires g.Successors(v)[k] in s.onStack
    ensures Scanning(g, open, s0, SetLowlink(s, v, Min(s.lowlinks[v], s.indices[g.Successors(v)[k]])), v, k + 1)
  {
    hide EmittedFinal, Graph.Reaches, LeadsToOpen, StackReachesUpward, LowlinkBounds, Emitted, Elements, StackOrdered;
    var w := g.Successors(v)[k];
    var low := Min(s.lowlinks[v], s.indices[w]);
    var t := SetLowlink(s, v, low);
    LoweringKeepsInv(g, open + {v}, s, v, low);
    assert g.Edge(v, w);
    ReachesEdge(g, v, w);
    var y :| y in s.onStack && s.indices[y] == s.lowlinks[v] && g.Reaches(v, y);
    assert t.indices[if low == s.indices[w] then w else y] == t.lowlinks[v];
    LoweringBounds(g, s, v, |s0.stack|, k, low);
  }

  lemma EmittedBounds(g: Graph, s: Search, v: Path, base: nat, k: nat)
    requires Numbered(s) && v in s.indices && base <= |s.stack| && k < |g.Successors(v)|
    requires LowlinkBounds(g, s, v, base, k) && g.Successors(v)[k] !in s.onStack
    ensures LowlinkBounds(g, s, v, base, k + 1)
  {
    hide Emitted;
    var w := g.Successors(v)[k];
    assert g.Successors(v)[..k + 1] == g.Successors(v)[..k] + [w];
    forall i | 0 <= i < |s.stack| ensures s.stack[i] != w {
      assert s.stack[i] in s.onStack;
    }
  }

  /** A visited neighbour that is no longer stacked changes nothing. */
  lemma EmittedNeighbourStep(g: Graph, open: set<Path>, s0: Search, s: Search, v: Path, k: nat)
    requires k < |g.Successors(v)| && Scanning(g, open, s0, s, v, k)
    requires g.Successors(v)[k] in s.indices && g.Successors(v)[k] !in s.onStack
    ensures Scanning(g, open, s0, s, v, k + 1)
  {
    hide EmittedFinal, Graph.Reaches, LeadsToOpen, StackReachesUpward, LowlinkBounds, LowlinkAttained, Numbered, Continues;
    EmittedBounds(g, s, v, |s0.stack|, k);
  }
}
