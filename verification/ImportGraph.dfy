/** The runtime import graph of the repository, and reachability in it. */
module ImportGraph {

  type Path = string

  /**
   * An insertion-ordered `Map<string, Set<string>>`: `order` lists the keys as the map
   * iterates them, and each adjacency list holds a set's elements as the set iterates them.
   */
  datatype Graph = Graph(order: seq<Path>, adjacency: map<Path, seq<Path>>)
  {
    ghost predicate Valid() {
      forall v :: v in order <==> v in adjacency
    }

    /** `graph.get(vertex) ?? []` */
    function Successors(v: Path): seq<Path> {
      if v in adjacency then adjacency[v] else []
    }

    ghost predicate Edge(u: Path, v: Path) {
      v in Successors(u)
    }

    /** The keys together with every imported path, which need not be a key. */
    ghost function Vertices(): set<Path> {
      adjacency.Keys + set u, v | u in adjacency && v in adjacency[u] :: v
    }

    ghost predicate IsPath(p: seq<Path>, u: Path, v: Path) {
      && 1 <= |p| && p[0] == u && p[|p| - 1] == v
      && forall i :: 0 <= i < |p| - 1 ==> Edge(p[i], p[i + 1])
    }

    ghost predicate Reaches(u: Path, v: Path) {
      exists p :: IsPath(p, u, v)
    }

    /** `u` lies on a cycle: one edge or more lead from it back to itself. */
    ghost predicate OnCycle(u: Path) {
      exists p :: IsPath(p, u, u) && 2 <= |p|
    }

    ghost predicate Closed(s: set<Path>) {
      forall u, v {:trigger Edge(u, v)} :: u in s && Edge(u, v) ==> v in s
    }

    ghost predicate StronglyConnected(u: Path, v: Path) {
      Reaches(u, v) && Reaches(v, u)
    }
  }

  lemma ReachesSelf(g: Graph, u: Path)
    ensures g.Reaches(u, u)
  {
    assert g.IsPath([u], u, u);
  }

  lemma ReachesEdge(g: Graph, u: Path, v: Path)
    requires g.Edge(u, v)
    ensures g.Reaches(u, v)
  {
    assert g.IsPath([u, v], u, v);
  }

  lemma PathsJoin(g: Graph, p: seq<Path>, q: seq<Path>, u: Path, v: Path, w: Path)
    requires g.IsPath(p, u, v) && g.IsPath(q, v, w)
    ensures g.IsPath(p + q[1..], u, w)
  {
    var r := p + q[1..];
    forall i | 0 <= i < |r| - 1 ensures g.Edge(r[i], r[i + 1]) {
      if i < |p| - 1 {
        assert r[i] == p[i] && r[i + 1] == p[i + 1];
      } else {
        assert r[i] == q[i - (|p| - 1)] && r[i + 1] == q[i - (|p| - 1) + 1];
      }
    }
  }

  lemma ReachesTransitive(g: Graph, u: Path, v: Path, w: Path)
    requires g.Reaches(u, v) && g.Reaches(v, w)
    ensures g.Reaches(u, w)
  {
    var p :| g.IsPath(p, u, v);
    var q :| g.IsPath(q, v, w);
    PathsJoin(g, p, q, u, v, w);
  }

  lemma {:induction false} PathStaysInClosedSet(g: Graph, s: set<Path>, p: seq<Path>, u: Path, v: Path)
    requires g.Closed(s) && u in s && g.IsPath(p, u, v)
    ensures v in s
    decreases |p|
  {
    if |p| <= 1 {
    } else {
      assert g.Edge(p[0], p[1]);
      assert g.IsPath(p[1..], p[1], v) by {
        forall i | 0 <= i < |p[1..]| - 1 ensures g.Edge(p[1..][i], p[1..][i + 1]) {
          assert g.Edge(p[i + 1], p[i + 2]);
        }
      }
      PathStaysInClosedSet(g, s, p[1..], p[1], v);
    }
  }

  lemma ReachesStaysInClosedSet(g: Graph, s: set<Path>, u: Path, v: Path)
    requires g.Closed(s) && u in s && g.Reaches(u, v)
    ensures v in s
  {
    var p :| g.IsPath(p, u, v);
    PathStaysInClosedSet(g, s, p, u, v);
  }

  /** Every successor is a vertex, so a search that follows edges never leaves `Vertices()`. */
  lemma SuccessorsAreVertices(g: Graph, u: Path, v: Path)
    requires g.Edge(u, v)
    ensures u in g.Vertices() && v in g.Vertices()
  {
  }

  /** A vertex on a cycle has a self-loop or a distinct strongly connected partner, and conversely. */
  lemma OnCycleCharacterised(g: Graph, u: Path)
    ensures g.OnCycle(u) <==> g.Edge(u, u) || exists v :: v != u && g.StronglyConnected(u, v)
  {
    if g.OnCycle(u) {
      var p :| g.IsPath(p, u, u) && 2 <= |p|;
      assert g.Edge(p[0], p[1]);
      if p[1] != u {
        ReachesEdge(g, u, p[1]);
        assert g.IsPath(p[1..], p[1], u) by {
          forall i | 0 <= i < |p[1..]| - 1 ensures g.Edge(p[1..][i], p[1..][i + 1]) {
            assert g.Edge(p[i + 1], p[i + 2]);
          }
        }
        assert g.StronglyConnected(u, p[1]);
      }
    }
    if g.Edge(u, u) {
      assert g.IsPath([u, u], u, u);
    }
    if v :| v != u && g.StronglyConnected(u, v) {
      var p :| g.IsPath(p, u, v);
      var q :| g.IsPath(q, v, u);
      PathsJoin(g, p, q, u, v, u);
      assert |p| >= 2;
      assert 2 <= |p + q[1..]|;
    }
  }
}
