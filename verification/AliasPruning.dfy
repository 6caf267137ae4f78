/** Why pruning aliases that are referred to once never changes how often the others are. */
module AliasPruning {
  import opened TypeNodes
  import opened AliasReferences

  // ---------- occurrences ----------

  ghost function SubnodesUpTo(node: TypeNode, n: nat): set<TypeNode>
    requires n <= |Children(node)|
    decreases node, 0, n
  {
    if n == 0 then {} else SubnodesUpTo(node, n - 1) + Subnodes(Children(node)[n - 1])
  }

  ghost function Subnodes(node: TypeNode): set<TypeNode>
    decreases node, 1
  {
    {node} + SubnodesUpTo(node, |Children(node)|)
  }

  ghost function RootSubnodes(roots: seq<TypeNode>): set<TypeNode> {
    if roots == [] then {} else RootSubnodes(roots[..|roots| - 1]) + Subnodes(roots[|roots| - 1])
  }

  lemma {:induction false} BodyRefsMonotone(s: set<TypeNode>, t: set<TypeNode>, hoisted: set<TypeNode>, k: TypeNode)
    requires s <= t
    ensures BodyRefs(s, hoisted, k) <= BodyRefs(t, hoisted, k)
  {
    hide BodyRefs;
    BodyRefsSplit(s, t - s, hoisted, k);
    assert s + (t - s) == t;
  }

  lemma BodyRefsAtLeast(s: set<TypeNode>, x: TypeNode, hoisted: set<TypeNode>, k: TypeNode)
    requires x in s
    ensures BodyRefs(s, hoisted, k) >= ChildRefs(x, hoisted, k)
  {
    hide BodyRefs, ChildRefs;
    BodyRefsRemove(s, x, hoisted, k);
  }

  lemma {:induction false} ChildRefsAtLeast(node: TypeNode, n: nat, i: nat, hoisted: set<TypeNode>, k: TypeNode)
    requires i < n <= |Children(node)|
    ensures ChildRefsUpTo(node, n, hoisted, k) >= SiteRefs(Children(node)[i], hoisted, k)
    decreases n
  {
    hide SiteRefs;
    if i == n - 1 {
    } else {
      ChildRefsAtLeast(node, n - 1, i, hoisted, k);
    }
  }

  lemma {:induction false} SubnodeOfChild(node: TypeNode, n: nat, k: TypeNode) returns (i: nat)
    requires n <= |Children(node)| && k in SubnodesUpTo(node, n)
    ensures i < n && k in Subnodes(Children(node)[i])
    decreases n
  {
    hide Subnodes;
    if k in Subnodes(Children(node)[n - 1]) {
      i := n - 1;
    } else {
      i := SubnodeOfChild(node, n - 1, k);
    }
  }

  lemma {:induction false} ChildSubnodes(node: TypeNode, n: nat, i: nat)
    requires i < n <= |Children(node)|
    ensures Subnodes(Children(node)[i]) <= SubnodesUpTo(node, n)
    decreases n
  {
    hide Subnodes;
    if i == n - 1 {
    } else {
      ChildSubnodes(node, n - 1, i);
    }
  }

  /** A hoisted shape that occurs below a node is referred to from the node or from a hoisted body below it. */
  lemma {:induction false} OccurringIsReferenced(node: TypeNode, hoisted: set<TypeNode>, k: TypeNode)
    requires k in hoisted && k in Subnodes(node)
    ensures SiteRefs(node, hoisted, k) + BodyRefs(hoisted * Subnodes(node), hoisted, k) >= 1
    decreases node
  {
    if node == k {
    } else {
      var i := SubnodeOfChild(node, |Children(node)|, k);
      var child := Children(node)[i];
      OccurringIsReferenced(child, hoisted, k);
      ChildSubnodes(node, |Children(node)|, i);
      BodyRefsMonotone(hoisted * Subnodes(child), hoisted * Subnodes(node), hoisted, k);
      ChildRefsAtLeast(node, |Children(node)|, i, hoisted, k);
      if node in hoisted {
        BodyRefsAtLeast(hoisted * Subnodes(node), node, hoisted, k);
      }
    }
  }

  lemma {:induction false} RootRefsAtLeast(roots: seq<TypeNode>, i: nat, hoisted: set<TypeNode>, k: TypeNode)
    requires i < |roots|
    ensures RootRefs(roots, hoisted, k) >= SiteRefs(roots[i], hoisted, k)
  {
    hide SiteRefs;
    if i == |roots| - 1 {
    } else {
      RootRefsAtLeast(roots[..|roots| - 1], i, hoisted, k);
    }
  }

  lemma {:induction false} RootOfSubnode(roots: seq<TypeNode>, k: TypeNode) returns (i: nat)
    requires k in RootSubnodes(roots)
    ensures i < |roots| && k in Subnodes(roots[i])
  {
    hide Subnodes;
    if k in Subnodes(roots[|roots| - 1]) {
      i := |roots| - 1;
    } else {
      i := RootOfSubnode(roots[..|roots| - 1], k);
    }
  }

  /** Every candidate is referred to at least once. */
  lemma CandidateIsReferenced(roots: seq<TypeNode>, hoisted: set<TypeNode>, k: TypeNode)
    requires k in hoisted && hoisted <= RootSubnodes(roots)
    ensures TotalRefs(roots, hoisted, k) >= 1
  {
    hide SiteRefs, BodyRefs, Subnodes, RootRefs;
    var i := RootOfSubnode(roots, k);
    OccurringIsReferenced(roots[i], hoisted, k);
    RootRefsAtLeast(roots, i, hoisted, k);
    BodyRefsMonotone(hoisted * Subnodes(roots[i]), hoisted, hoisted, k);
  }

  // ---------- inlining one shape ----------

  lemma {:induction false} NotInSmaller(node: TypeNode, n: nat, hoisted: set<TypeNode>, k: TypeNode)
    requires n <= |Children(node)| && Size(node) <= Size(k)
    ensures ChildRefsUpTo(node, n, hoisted, k) == 0
    decreases node, n
  {
    hide Size;
    if n == 0 {
    } else {
      NotInSmaller(node, n - 1, hoisted, k);
      var child := Children(node)[n - 1];
      ChildIsSmaller(node, n - 1);
      if child !in hoisted {
        NotInSmaller(child, |Children(child)|, hoisted, k);
        assert SiteRefs(child, hoisted, k) == ChildRefs(child, hoisted, k);
      }
    }
  }

  /** No shape occurs inside itself. */
  lemma NotInItself(k: TypeNode, hoisted: set<TypeNode>)
    ensures ChildRefs(k, hoisted, k) == 0
  {
    hide ChildRefsUpTo, Size;
    NotInSmaller(k, |Children(k)|, hoisted, k);
  }

  lemma Distribute(a: int, b: int, w: int)
    ensures (a + b) * w == a * w + b * w
  {
  }

  lemma {:induction false} InlineChildren(node: TypeNode, n: nat, hoisted: set<TypeNode>, d: TypeNode, k: TypeNode)
    requires n <= |Children(node)| && d in hoisted && k != d
    ensures ChildRefsUpTo(node, n, hoisted - {d}, k)
         == ChildRefsUpTo(node, n, hoisted, k) + ChildRefsUpTo(node, n, hoisted, d) * ChildRefs(d, hoisted - {d}, k)
    decreases node, n, 0
  {
    hide SiteRefs, ChildRefs;
    if n == 0 {
    } else {
      InlineChildren(node, n - 1, hoisted, d, k);
      InlineSite(Children(node)[n - 1], hoisted, d, k);
      Distribute(ChildRefsUpTo(node, n - 1, hoisted, d), SiteRefs(Children(node)[n - 1], hoisted, d),
        ChildRefs(d, hoisted - {d}, k));
    }
  }

  /** Without `d` hoisted, each reference to it is replaced by the references in its body. */
  lemma {:induction false} InlineSite(node: TypeNode, hoisted: set<TypeNode>, d: TypeNode, k: TypeNode)
    requires d in hoisted && k != d
    ensures SiteRefs(node, hoisted - {d}, k)
         == SiteRefs(node, hoisted, k) + SiteRefs(node, hoisted, d) * ChildRefs(d, hoisted - {d}, k)
    decreases node, |Children(node)|, 1
  {
    hide ChildRefsUpTo;
    if node !in hoisted {
      InlineChildren(node, |Children(node)|, hoisted, d, k);
    }
  }

  lemma {:induction false} InlineRoots(roots: seq<TypeNode>, hoisted: set<TypeNode>, d: TypeNode, k: TypeNode)
    requires d in hoisted && k != d
    ensures RootRefs(roots, hoisted - {d}, k)
         == RootRefs(roots, hoisted, k) + RootRefs(roots, hoisted, d) * ChildRefs(d, hoisted - {d}, k)
  {
    hide SiteRefs, ChildRefs;
    if roots == [] {
    } else {
      var last := roots[|roots| - 1];
      InlineRoots(roots[..|roots| - 1], hoisted, d, k);
      InlineSite(last, hoisted, d, k);
      Distribute(RootRefs(roots[..|roots| - 1], hoisted, d), SiteRefs(last, hoisted, d), ChildRefs(d, hoisted - {d}, k));
    }
  }

  lemma {:induction false} InlineBodies(s: set<TypeNode>, hoisted: set<TypeNode>, d: TypeNode, k: TypeNode)
    requires d in hoisted && k != d
    ensures BodyRefs(s, hoisted - {d}, k)
         == BodyRefs(s, hoisted, k) + BodyRefs(s, hoisted, d) * ChildRefs(d, hoisted - {d}, k)
    decreases |s|
  {
    hide ChildRefsUpTo;
    if s == {} {
    } else {
      var x :| x in s;
      InlineBodies(s - {x}, hoisted, d, k);
      InlineChildren(x, |Children(x)|, hoisted, d, k);
      BodyRefsRemove(s, x, hoisted - {d}, k);
      BodyRefsRemove(s, x, hoisted, k);
      BodyRefsRemove(s, x, hoisted, d);
      Distribute(BodyRefs(s - {x}, hoisted, d), ChildRefs(x, hoisted, d), ChildRefs(d, hoisted - {d}, k));
    }
  }

  /** Dropping an alias that is referred to once leaves every other count as it was. */
  lemma DropOne(roots: seq<TypeNode>, hoisted: set<TypeNode>, d: TypeNode, k: TypeNode)
    requires d in hoisted && k in hoisted && k != d && TotalRefs(roots, hoisted, d) == 1
    ensures TotalRefs(roots, hoisted - {d}, k) == TotalRefs(roots, hoisted, k)
  {
    hide ChildRefs, BodyRefs, RootRefs;
    var rest := hoisted - {d};
    var w := ChildRefs(d, rest, k);
    InlineRoots(roots, hoisted, d, k);
    InlineBodies(rest, hoisted, d, k);
    BodyRefsRemove(hoisted, d, hoisted, k);
    BodyRefsRemove(hoisted, d, hoisted, d);
    NotInItself(d, hoisted);
    SameBody(d, hoisted, k);
    Distribute(RootRefs(roots, hoisted, d), BodyRefs(rest, hoisted, d), w);
  }

  lemma SameBody(d: TypeNode, hoisted: set<TypeNode>, k: TypeNode)
    requires d in hoisted && k != d
    ensures ChildRefs(d, hoisted - {d}, k) == ChildRefs(d, hoisted, k)
  {
    hide ChildRefsUpTo;
    InlineChildren(d, |Children(d)|, hoisted, d, k);
    NotInItself(d, hoisted);
  }

  /** Dropping any number of aliases that are referred to once leaves every survivor's count as it was. */
  lemma {:induction false} DropAll(roots: seq<TypeNode>, hoisted: set<TypeNode>, dropped: set<TypeNode>, k: TypeNode)
    requires dropped <= hoisted && k in hoisted - dropped
    requires forall d :: d in dropped ==> TotalRefs(roots, hoisted, d) == 1
    ensures TotalRefs(roots, hoisted - dropped, k) == TotalRefs(roots, hoisted, k)
    decreases |dropped|
  {
    hide TotalRefs;
    if dropped == {} {
      assert hoisted - dropped == hoisted;
    } else {
      var d :| d in dropped;
      DropOne(roots, hoisted, d, k);
      forall e | e in dropped - {d} ensures TotalRefs(roots, hoisted - {d}, e) == 1 {
        DropOne(roots, hoisted, d, e);
      }
      DropAll(roots, hoisted - {d}, dropped - {d}, k);
      assert hoisted - {d} - (dropped - {d}) == hoisted - dropped;
    }
  }

  /** The aliases kept by one round of pruning. */
  ghost function Survivors(roots: seq<TypeNode>, hoisted: set<TypeNode>): set<TypeNode> {
    set k | k in hoisted && TotalRefs(roots, hoisted, k) >= 2
  }

  /** One round reaches the fixed point: survivors keep their counts, so none of them is dropped later. */
  lemma OneRoundSuffices(roots: seq<TypeNode>, hoisted: set<TypeNode>)
    requires hoisted <= RootSubnodes(roots)
    ensures var kept := Survivors(roots, hoisted);
            && (forall k :: k in kept ==> TotalRefs(roots, kept, k) == TotalRefs(roots, hoisted, k) >= 2)
            && Survivors(roots, kept) == kept
  {
    hide TotalRefs, RootSubnodes;
    var kept := Survivors(roots, hoisted);
    var dropped := hoisted - kept;
    forall d | d in dropped ensures TotalRefs(roots, hoisted, d) == 1 {
      CandidateIsReferenced(roots, hoisted, d);
    }
    assert hoisted - dropped == kept;
    forall k | k in kept ensures TotalRefs(roots, kept, k) == TotalRefs(roots, hoisted, k) {
      DropAll(roots, hoisted, dropped, k);
    }
  }
}
