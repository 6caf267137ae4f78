/** How often each alias is referred to: the structural counter, and the references in the emitted text. */
module AliasReferences {
  import opened Basics
  import opened TypeNodes

  // ---------- specification of the counter ----------

  /** References to `k` among the first `n` children of `node`, stopping at hoisted shapes. */
  ghost function ChildRefsUpTo(node: TypeNode, n: nat, hoisted: set<TypeNode>, k: TypeNode): nat
    requires n <= |Children(node)|
    decreases node, 0, n
  {
    if n == 0 then 0 else ChildRefsUpTo(node, n - 1, hoisted, k) + SiteRefs(Children(node)[n - 1], hoisted, k)
  }

  /** `countChildren` */
  ghost function ChildRefs(node: TypeNode, hoisted: set<TypeNode>, k: TypeNode): nat
    decreases node, 1
  {
    ChildRefsUpTo(node, |Children(node)|, hoisted, k)
  }

  /** `visitChild`, and equally what one operation position contributes. */
  ghost function SiteRefs(node: TypeNode, hoisted: set<TypeNode>, k: TypeNode): nat
    decreases node, 2
  {
    if node in hoisted then (if node == k then 1 else 0) else ChildRefs(node, hoisted, k)
  }

  ghost function RootRefs(roots: seq<TypeNode>, hoisted: set<TypeNode>, k: TypeNode): nat {
    if roots == [] then 0 else RootRefs(roots[..|roots| - 1], hoisted, k) + SiteRefs(roots[|roots| - 1], hoisted, k)
  }

  /** References to `k` in the bodies of the shapes in `s`. */
  ghost function BodyRefs(s: set<TypeNode>, hoisted: set<TypeNode>, k: TypeNode): nat {
    if s == {} then 0
    else
      var x :| x in s;
      BodyRefs(s - {x}, hoisted, k) + ChildRefs(x, hoisted, k)
  }

  ghost function TotalRefs(roots: seq<TypeNode>, hoisted: set<TypeNode>, k: TypeNode): nat {
    RootRefs(roots, hoisted, k) + BodyRefs(hoisted, hoisted, k)
  }

  lemma {:induction false} BodyRefsRemove(s: set<TypeNode>, x: TypeNode, hoisted: set<TypeNode>, k: TypeNode)
    requires x in s
    ensures BodyRefs(s, hoisted, k) == BodyRefs(s - {x}, hoisted, k) + ChildRefs(x, hoisted, k)
    decreases |s|
  {
    hide ChildRefs;
    var y :| y in s && BodyRefs(s, hoisted, k) == BodyRefs(s - {y}, hoisted, k) + ChildRefs(y, hoisted, k);
    if y == x {
    } else {
      BodyRefsRemove(s - {y}, x, hoisted, k);
      BodyRefsRemove(s - {x}, y, hoisted, k);
      assert s - {y} - {x} == s - {x} - {y};
    }
  }

  lemma {:induction false} BodyRefsSplit(s: set<TypeNode>, t: set<TypeNode>, hoisted: set<TypeNode>, k: TypeNode)
    requires s !! t
    ensures BodyRefs(s + t, hoisted, k) == BodyRefs(s, hoisted, k) + BodyRefs(t, hoisted, k)
    decreases |t|
  {
    hide ChildRefs;
    if t == {} {
      assert s + t == s;
    } else {
      var x :| x in t;
      BodyRefsRemove(t, x, hoisted, k);
      BodyRefsRemove(s + t, x, hoisted, k);
      assert s + t - {x} == s + (t - {x});
      BodyRefsSplit(s, t - {x}, hoisted, k);
    }
  }

  // ---------- the counter agrees with the emitted text ----------

  ghost function CountIn(t: Text, name: string): nat
    decreases t, 1
  {
    match t
    case Ref(other) => if other == name then 1 else 0
    case Shape(_, parts) => CountInFirst(t, |parts|, name)
  }

  ghost function CountInFirst(t: Text, n: nat, name: string): nat
    requires t.Shape? && n <= |t.parts|
    decreases t, 0, n
  {
    if n == 0 then 0 else CountInFirst(t, n - 1, name) + CountIn(t.parts[n - 1], name)
  }

  lemma {:induction false} RenderedChildrenCount(node: TypeNode, n: nat, aliases: Aliases, suppress: Option<TypeNode>, k: TypeNode)
    requires Injective(aliases) && k in aliases && n <= |Children(node)|
    requires suppress.Some? ==> Size(node) <= Size(suppress.value)
    ensures CountInFirst(Render(node, aliases, suppress), n, aliases[k]) == ChildRefsUpTo(node, n, aliases.Keys, k)
    decreases node, n
  {
    hide Size;
    if n == 0 {
    } else {
      RenderedChildrenCount(node, n - 1, aliases, suppress, k);
      var child := Children(node)[n - 1];
      ChildIsSmaller(node, n - 1);
      assert suppress.Some? ==> suppress.value != child;
      var part := Render(node, aliases, suppress).parts[n - 1];
      if child in aliases {
        assert part == Ref(aliases[child]);
      } else {
        assert part == Render(child, aliases, suppress);
        RenderedChildrenCount(child, |Children(child)|, aliases, suppress, k);
        assert CountIn(part, aliases[k]) == CountInFirst(part, |Children(child)|, aliases[k]);
        assert SiteRefs(child, aliases.Keys, k) == ChildRefsUpTo(child, |Children(child)|, aliases.Keys, k);
      }
    }
  }

  lemma RenderedRootCount(node: TypeNode, aliases: Aliases, k: TypeNode)
    requires Injective(aliases) && k in aliases
    ensures CountIn(RenderRoot(node, aliases), aliases[k]) == SiteRefs(node, aliases.Keys, k)
  {
    hide ChildRefsUpTo, CountInFirst;
    if node !in aliases {
      RenderedChildrenCount(node, |Children(node)|, aliases, None, k);
    }
  }

  lemma RenderedBodyCount(node: TypeNode, aliases: Aliases, k: TypeNode)
    requires Injective(aliases) && k in aliases
    ensures CountIn(Body(node, aliases), aliases[k]) == ChildRefs(node, aliases.Keys, k)
  {
    hide ChildRefsUpTo, CountInFirst, Size;
    RenderedChildrenCount(node, |Children(node)|, aliases, Some(node), k);
  }

  /** References to a name in the rendered operation entries. */
  ghost function CountInEntries(roots: seq<TypeNode>, aliases: Aliases, name: string): nat {
    if roots == [] then 0
    else CountInEntries(roots[..|roots| - 1], aliases, name) + CountIn(RenderRoot(roots[|roots| - 1], aliases), name)
  }

  /** References to a name in the rendered declarations, listed in any order. */
  ghost function CountInDeclarations(order: seq<TypeNode>, aliases: Aliases, name: string): nat {
    if order == [] then 0
    else CountInDeclarations(order[..|order| - 1], aliases, name) + CountIn(Body(order[|order| - 1], aliases), name)
  }

  lemma {:induction false} EntriesCount(roots: seq<TypeNode>, aliases: Aliases, k: TypeNode)
    requires Injective(aliases) && k in aliases
    ensures CountInEntries(roots, aliases, aliases[k]) == RootRefs(roots, aliases.Keys, k)
  {
    hide SiteRefs, CountIn;
    if roots == [] {
    } else {
      EntriesCount(roots[..|roots| - 1], aliases, k);
      RenderedRootCount(roots[|roots| - 1], aliases, k);
    }
  }

  ghost function Elements(nodes: seq<TypeNode>): set<TypeNode> {
    set x | x in nodes
  }

  lemma {:induction false} DeclarationsCount(order: seq<TypeNode>, aliases: Aliases, k: TypeNode)
    requires Injective(aliases) && k in aliases
    requires forall i, j :: 0 <= i < j < |order| ==> order[i] != order[j]
    ensures CountInDeclarations(order, aliases, aliases[k]) == BodyRefs(Elements(order), aliases.Keys, k)
  {
    hide ChildRefs, CountIn;
    if order == [] {
    } else {
      var rest, last := order[..|order| - 1], order[|order| - 1];
      DeclarationsCount(rest, aliases, k);
      RenderedBodyCount(last, aliases, k);
      BodyRefsRemove(Elements(order), last, aliases.Keys, k);
      assert Elements(order) - {last} == Elements(rest);
    }
  }

  /**
   * The structural count of an alias is the number of times its name appears in all rendered
   * operation entries and all rendered declarations together.
   */
  lemma CounterMatchesText(roots: seq<TypeNode>, order: seq<TypeNode>, aliases: Aliases, k: TypeNode)
    requires Injective(aliases) && k in aliases
    requires Elements(order) == aliases.Keys
    requires forall i, j :: 0 <= i < j < |order| ==> order[i] != order[j]
    ensures CountInEntries(roots, aliases, aliases[k]) + CountInDeclarations(order, aliases, aliases[k])
         == TotalRefs(roots, aliases.Keys, k)
  {
    EntriesCount(roots, aliases, k);
    DeclarationsCount(order, aliases, k);
  }
}
