/** `findStronglyConnectedComponents`: the recursive search over shared variables. */
module Tarjan {
  import opened ImportGraph
  import opened TarjanState
  import opened TarjanSteps

  /**
   * Each call of `getRequiredMapValue` is a map selection below, so the verifier shows that its
   * `Missing ...` error is never thrown. The one error that remains is the falsy pop.
   */
  datatype Result<T> = Success(value: T) | StackUnderflow

  class ComponentSearch {
    const graph: Graph
    var nextIndex: nat
    var stack: seq<Path>
    var onStack: set<Path>
    var indices: map<Path, nat>
    var lowlinks: map<Path, nat>
    var components: seq<seq<Path>>

    ghost function View(): Search
      reads this
    {
      Search(nextIndex, stack, onStack, indices, lowlinks, components)
    }

    constructor (g: Graph)
      ensures graph == g
      ensures View() == Search(0, [], {}, map[], map[], [])
    {
      graph := g;
      nextIndex, stack, onStack, indices, lowlinks, components := 0, [], {}, map[], map[], [];
    }

    /**
     * The `do ... while (poppedVertex !== vertex)` loop. It pops down to and including `vertex`,
     * unless it pops the empty path, which the source takes for an exhausted stack.
     */
    method PopComponent(vertex: Path, ghost base: nat) returns (underflow: bool)
      requires Numbered(View()) && base < |stack| && stack[base] == vertex
      modifies this`stack, this`onStack, this`components
      ensures underflow <==> "" in old(stack[base..])
      ensures !underflow ==> View() == Emit(old(View()), base)
    {
      hide Numbered, Reversed;
      ghost var s := View();
      var component: seq<Path> := [];
      assert Reversed(s.stack[|stack|..]) == [];
      var done := false;
      while !done
        invariant base <= |stack| <= |s.stack| && stack == s.stack[..|stack|]
        invariant done <==> |stack| == base
        invariant component == Reversed(s.stack[|stack|..])
        invariant onStack == s.onStack - (set v | v in s.stack[|stack|..])
        invariant "" !in s.stack[|stack|..]
        invariant View() == s.(stack := stack, onStack := onStack)
        decreases |stack|
      {
        var poppedVertex := stack[|stack| - 1];
        var top := |stack| - 1;
        PopOne(s.stack, base, top);
        stack := stack[..top];
        if poppedVertex == "" {
          return true;
        }
        onStack := onStack - {poppedVertex};
        component := component + [poppedVertex];
        assert top > base ==> poppedVertex != vertex by {
          if top > base { StackDistinct(s, base, top); }
        }
        done := poppedVertex == vertex;
      }
      components := components + [component];
      return false;
    }

    method Connect(vertex: Path, ghost open: set<Path>) returns (underflow: bool)
      requires MayConnect(graph, open, View(), vertex)
      modifies this
      ensures !underflow ==> Connected(graph, open, old(View()), View(), vertex)
      ensures underflow ==> "" in graph.Vertices()
      decreases graph.Vertices() - indices.Keys
    {
      hide Inv, Emitted, EmittedFinal, Elements, LowlinkBounds, LowlinkAttained;
      ghost var s0 := View();
      InvGives(graph, open, s0);
      PushEstablishesScanning(graph, open, s0, vertex);
      indices := indices[vertex := nextIndex];
      lowlinks := lowlinks[vertex := nextIndex];
      nextIndex := nextIndex + 1;
      stack := stack + [vertex];
      onStack := onStack + {vertex};
      assert View() == Push(s0, vertex);

      var neighbors := graph.Successors(vertex);
      for k := 0 to |neighbors|
        invariant Scanning(graph, open, s0, View(), vertex, k)
      {
        var neighbor := neighbors[k];
        ghost var s := View();
        InvGives(graph, open + {vertex}, s);
        if neighbor !in indices {
          NeighbourMayConnect(graph, open, s0, s, vertex, k);
          underflow := Connect(neighbor, open + {vertex});
          if underflow { return; }
          ghost var t := View();
          InvGives(graph, open + {vertex}, t);
          ChildStep(graph, open, s0, s, t, vertex, k);
          lowlinks := lowlinks[vertex := Min(lowlinks[vertex], lowlinks[neighbor])];
        } else if neighbor in onStack {
          StackedNeighbourStep(graph, open, s0, s, vertex, k);
          lowlinks := lowlinks[vertex := Min(lowlinks[vertex], indices[neighbor])];
        } else {
          EmittedNeighbourStep(graph, open, s0, s, vertex, k);
        }
      }

      ghost var s := View();
      InvGives(graph, open + {vertex}, s);
      if lowlinks[vertex] != indices[vertex] {
        ReturnUnemitted(graph, open, s0, s, vertex);
        return false;
      }
      underflow := PopComponent(vertex, |s0.stack|);
      if !underflow {
        EmitStep(graph, open, s0, s, vertex, View());
      } else {
        StackInVertices(graph, open + {vertex}, s, "", |s0.stack|);
      }
    }
  }

  lemma PopOne(p: seq<Path>, base: nat, top: nat)
    requires base <= top < |p|
    ensures Reversed(p[top..]) == Reversed(p[top + 1..]) + [p[top]]
    ensures forall v :: v in p[top..] <==> v == p[top] || v in p[top + 1..]
    ensures forall v :: v in p[top..] ==> v in p[base..]
  {
    assert p[top..] == [p[top]] + p[top + 1..];
    assert p[base..] == p[base..top] + p[top..];
  }

  lemma InvGives(g: Graph, open: set<Path>, s: Search)
    requires Inv(g, open, s)
    ensures Numbered(s) && open <= s.onStack <= s.indices.Keys && s.lowlinks.Keys == s.indices.Keys <= g.Vertices()
  {
  }

  lemma StackInVertices(g: Graph, open: set<Path>, s: Search, v: Path, base: nat)
    requires Inv(g, open, s) && base <= |s.stack| && v in s.stack[base..]
    ensures v in g.Vertices()
  {
  }

  /**
   * What the caller is promised: every vertex is in exactly one component, components are
   * exactly the classes of mutual reachability, and edges only lead to components already listed.
   */
  ghost predicate IsCondensation(g: Graph, components: seq<seq<Path>>) {
    && (forall v :: v in g.Vertices() <==> v in Emitted(components))
    && (forall i, j, v :: 0 <= i < j < |components| && v in components[i] ==> v !in components[j])
    && (forall i :: 0 <= i < |components| ==> IsComponent(g, components[i]))
    && (forall i, j, u, v {:trigger g.Edge(u, v), components[i], components[j]} ::
          && 0 <= i < |components| && u in components[i]
          && 0 <= j < |components| && v in components[j]
          && g.Edge(u, v)
          ==> j <= i)
  }

  lemma NothingOpenNothingStacked(g: Graph, s: Search)
    requires Inv(g, {}, s)
    ensures s.stack == [] && s.onStack == {} && s.indices.Keys == Emitted(s.components)
  {
    hide EmittedFinal, Graph.Reaches, Emitted, StackReachesUpward;
    assert s.stack != [] ==> s.stack[0] in s.onStack;
    assert forall y :: !LeadsToOpen(g, {}, s, y);
    assert forall y :: y in s.onStack ==> LeadsToOpen(g, {}, s, y);
  }

  lemma EdgeLeadsToEarlier(g: Graph, components: seq<seq<Path>>, i: nat, j: nat, u: Path, v: Path)
    requires EmittedFinal(g, components)
    requires i < |components| && j < |components| && u in components[i] && v in components[j] && g.Edge(u, v)
    ensures j <= i
  {
    hide IsComponent;
    var prefix := components[..i + 1];
    assert u in prefix[i];
    assert u in Emitted(prefix);
    assert g.Closed(Emitted(prefix));
    var k :| 0 <= k < |prefix| && v in prefix[k];
    assert v in components[k];
  }

  lemma SearchedEverything(g: Graph, s: Search)
    requires g.Valid() && Inv(g, {}, s)
    requires forall v :: v in g.order ==> v in s.indices
    ensures IsCondensation(g, s.components) && "" !in g.Vertices()
  {
    hide IsComponent, Graph.Reaches, StackReachesUpward;
    NothingOpenNothingStacked(g, s);
    forall v | v in g.Vertices() ensures v in s.indices {
      if v !in g.adjacency {
        var u :| u in g.adjacency && v in g.adjacency[u];
        assert g.Edge(u, v);
      }
    }
    forall i, j, u, v {:trigger g.Edge(u, v), s.components[i], s.components[j]} |
      0 <= i < |s.components| && 0 <= j < |s.components| &&
      u in s.components[i] && v in s.components[j] && g.Edge(u, v)
      ensures j <= i
    {
      EdgeLeadsToEarlier(g, s.components, i, j, u, v);
    }
  }

  lemma InitialInv(g: Graph)
    ensures Inv(g, {}, Search(0, [], {}, map[], map[], []))
  {
    var none: seq<seq<Path>> := [];
    assert forall n :: 0 <= n <= |none| ==> Emitted(none[..n]) == {};
  }

  method FindStronglyConnectedComponents(g: Graph) returns (r: Result<seq<seq<Path>>>)
    requires g.Valid()
    ensures r.StackUnderflow? <==> "" in g.Vertices()
    ensures r.Success? ==> IsCondensation(g, r.value)
  {
    hide Inv, EmittedFinal, IsCondensation;
    var search := new ComponentSearch(g);
    InitialInv(g);
    for k := 0 to |g.order|
      invariant search.graph == g
      invariant Inv(g, {}, search.View())
      invariant forall i :: 0 <= i < k ==> g.order[i] in search.indices
    {
      var vertex := g.order[k];
      if vertex !in search.indices {
        NothingOpenNothingStacked(g, search.View());
        var underflow := search.Connect(vertex, {});
        if underflow { return StackUnderflow; }
      }
    }
    SearchedEverything(g, search.View());
    return Success(search.components);
  }
}
