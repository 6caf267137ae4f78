/** `selectAliases` and the counters and name map it fills. */
module AliasSelection {
  import opened TypeNodes
  import opened AliasReferences
  import opened AliasPruning

  const MINIMUM_OCCURRENCES := 2
  const LARGE_FIELD_COUNT := 3
  const SMALL_FIELD_COUNT := 2
  const FREQUENT_OCCURRENCES := 3

  predicate IsHoistWorthy(node: TypeNode, count: nat) {
    && node.Object?
    && count >= MINIMUM_OCCURRENCES
    && (|node.fields| >= LARGE_FIELD_COUNT || (|node.fields| >= SMALL_FIELD_COUNT && count >= FREQUENT_OCCURRENCES))
  }

  // ---------- collectCounts ----------

  ghost function OccurrencesUpTo(node: TypeNode, n: nat, k: TypeNode): nat
    requires n <= |Children(node)|
    decreases node, 0, n
  {
    if n == 0 then 0 else OccurrencesUpTo(node, n - 1, k) + Occurrences(Children(node)[n - 1], k)
  }

  /** How many positions of the tree hold the shape `k`. */
  ghost function Occurrences(node: TypeNode, k: TypeNode): nat
    decreases node, 1
  {
    (if node == k then 1 else 0) + OccurrencesUpTo(node, |Children(node)|, k)
  }

  ghost function RootOccurrences(roots: seq<TypeNode>, k: TypeNode): nat {
    if roots == [] then 0 else RootOccurrences(roots[..|roots| - 1], k) + Occurrences(roots[|roots| - 1], k)
  }

  lemma {:induction false} OccursExactlyBelow(node: TypeNode, n: nat, k: TypeNode)
    requires n <= |Children(node)|
    ensures k in SubnodesUpTo(node, n) <==> OccurrencesUpTo(node, n, k) > 0
    decreases node, n
  {
    if n == 0 {
    } else {
      OccursExactlyBelow(node, n - 1, k);
      var child := Children(node)[n - 1];
      OccursExactlyBelow(child, |Children(child)|, k);
      assert k in Subnodes(child) <==> Occurrences(child, k) > 0;
    }
  }

  lemma {:induction false} OccursExactly(roots: seq<TypeNode>, k: TypeNode)
    ensures k in RootSubnodes(roots) <==> RootOccurrences(roots, k) > 0
  {
    if roots == [] {
    } else {
      var last := roots[|roots| - 1];
      OccursExactly(roots[..|roots| - 1], k);
      OccursExactlyBelow(last, |Children(last)|, k);
      assert k in Subnodes(last) <==> Occurrences(last, k) > 0;
    }
  }

  class OccurrenceCounter {
    var counts: map<TypeNode, nat>

    constructor ()
      ensures counts == map[]
    {
      counts := map[];
    }

    /** The count of a shape, 0 when it has not been met. */
    ghost function Count(k: TypeNode): nat
      reads this
    {
      if k in counts then counts[k] else 0
    }

    ghost predicate OnlyPositive()
      reads this
    {
      forall k :: k in counts ==> counts[k] > 0
    }

    method Collect(node: TypeNode)
      requires OnlyPositive()
      modifies this
      ensures OnlyPositive()
      ensures forall k :: Count(k) == old(Count(k)) + Occurrences(node, k)
      decreases node
    {
      counts := counts[node := (if node in counts then counts[node] else 0) + 1];
      var children := Children(node);
      for n := 0 to |children|
        invariant OnlyPositive()
        invariant forall k :: Count(k) == old(Count(k)) + (if node == k then 1 else 0) + OccurrencesUpTo(node, n, k)
      {
        Collect(children[n]);
      }
    }
  }

  // ---------- countAliasReferences ----------

  class ReferenceCounter {
    const aliasKeys: set<TypeNode>
    var references: map<TypeNode, nat>
    var seen: set<TypeNode>

    constructor (aliasKeys: set<TypeNode>)
      ensures this.aliasKeys == aliasKeys && seen == {}
      ensures references.Keys == aliasKeys && forall k :: k in aliasKeys ==> references[k] == 0
    {
      this.aliasKeys := aliasKeys;
      references := map k | k in aliasKeys :: 0;
      seen := {};
    }

    ghost predicate Valid()
      reads this
    {
      references.Keys == aliasKeys
    }

    method CountChildren(node: TypeNode)
      requires Valid()
      modifies this`references
      ensures Valid()
      ensures forall k :: k in aliasKeys ==> references[k] == old(references)[k] + ChildRefs(node, aliasKeys, k)
      decreases node, 0
    {
      var children := Children(node);
      for n := 0 to |children|
        invariant Valid()
        invariant forall k :: k in aliasKeys ==> references[k] == old(references)[k] + ChildRefsUpTo(node, n, aliasKeys, k)
      {
        VisitChild(children[n]);
      }
    }

    method VisitChild(child: TypeNode)
      requires Valid()
      modifies this`references
      ensures Valid()
      ensures forall k :: k in aliasKeys ==> references[k] == old(references)[k] + SiteRefs(child, aliasKeys, k)
      decreases child, 1
    {
      if child in aliasKeys {
        references := references[child := references[child] + 1];
      } else {
        CountChildren(child);
      }
    }

    method CollectBodies(node: TypeNode)
      requires Valid()
      modifies this
      ensures Valid()
      ensures seen == old(seen) + aliasKeys * Subnodes(node)
      ensures forall k :: k in aliasKeys ==> references[k] == old(references)[k] + BodyRefs(seen - old(seen), aliasKeys, k)
      decreases node
    {
      hide ChildRefs, BodyRefs;
      NoBodies(aliasKeys);
      if node in aliasKeys && node !in seen {
        seen := seen + {node};
        CountChildren(node);
        OneBody(node, aliasKeys);
        assert seen - old(seen) == {node};
      } else {
        assert seen - old(seen) == {};
      }
      var children := Children(node);
      for n := 0 to |children|
        invariant Valid()
        invariant old(seen) <= seen == old(seen) + aliasKeys * ({node} + SubnodesUpTo(node, n))
        invariant forall k :: k in aliasKeys ==> references[k] == old(references)[k] + BodyRefs(seen - old(seen), aliasKeys, k)
      {
        ghost var before := seen;
        CollectBodies(children[n]);
        forall k | k in aliasKeys
          ensures BodyRefs(seen - old(seen), aliasKeys, k)
               == BodyRefs(before - old(seen), aliasKeys, k) + BodyRefs(seen - before, aliasKeys, k)
        {
          BodyRefsSplit(before - old(seen), seen - before, aliasKeys, k);
          assert (before - old(seen)) + (seen - before) == seen - old(seen);
        }
      }
    }
  }

  lemma NoBodies(hoisted: set<TypeNode>)
    ensures forall k :: BodyRefs({}, hoisted, k) == 0
  {
  }

  lemma OneBody(node: TypeNode, hoisted: set<TypeNode>)
    ensures forall k :: BodyRefs({node}, hoisted, k) == ChildRefs(node, hoisted, k)
  {
    forall k ensures BodyRefs({node}, hoisted, k) == ChildRefs(node, hoisted, k) {
      BodyRefsRemove({node}, node, hoisted, k);
      assert {node} - {node} == {};
    }
  }

  method CountAliasReferences(aliasKeys: set<TypeNode>, roots: seq<TypeNode>) returns (references: map<TypeNode, nat>)
    ensures references.Keys == aliasKeys
    ensures forall k :: k in aliasKeys ==>
      references[k] == RootRefs(roots, aliasKeys, k) + BodyRefs(aliasKeys * RootSubnodes(roots), aliasKeys, k)
    ensures aliasKeys <= RootSubnodes(roots) ==>
      forall k :: k in aliasKeys ==> references[k] == TotalRefs(roots, aliasKeys, k)
  {
    hide ChildRefs, BodyRefs, SiteRefs, Subnodes;
    NoBodies(aliasKeys);
    var counter := new ReferenceCounter(aliasKeys);
    for n := 0 to |roots|
      invariant fresh(counter) && counter.Valid() && counter.aliasKeys == aliasKeys && counter.seen == {}
      invariant forall k :: k in aliasKeys ==> counter.references[k] == RootRefs(roots[..n], aliasKeys, k)
    {
      counter.VisitChild(roots[n]);
      assert roots[..n + 1][..n] == roots[..n];
    }
    assert roots[..|roots|] == roots;
    for n := 0 to |roots|
      invariant fresh(counter) && counter.Valid() && counter.aliasKeys == aliasKeys
      invariant counter.seen == aliasKeys * RootSubnodes(roots[..n])
      invariant forall k :: k in aliasKeys ==>
        counter.references[k] == RootRefs(roots, aliasKeys, k) + BodyRefs(counter.seen, aliasKeys, k)
    {
      ghost var before := counter.seen;
      counter.CollectBodies(roots[n]);
      assert roots[..n + 1][..n] == roots[..n];
      forall k | k in aliasKeys
        ensures BodyRefs(counter.seen, aliasKeys, k) == BodyRefs(before, aliasKeys, k) + BodyRefs(counter.seen - before, aliasKeys, k)
      {
        BodyRefsSplit(before, counter.seen - before, aliasKeys, k);
        assert before + (counter.seen - before) == counter.seen;
      }
    }
    assert aliasKeys <= RootSubnodes(roots) ==> aliasKeys * RootSubnodes(roots) == aliasKeys;
    return counter.references;
  }

  // ---------- assignAliasNames ----------

  datatype Naming = Named(aliases: Aliases) | NameCollision

  /** The names are those of the naming function, and the error is thrown exactly when two shapes share one. */
  method AssignAliasNames(candidates: set<TypeNode>, nameFor: TypeNode -> string) returns (r: Naming)
    ensures r.NameCollision? <==> exists a, b :: a in candidates && b in candidates && a != b && nameFor(a) == nameFor(b)
    ensures r.Named? ==> Injective(r.aliases) && r.aliases == map k | k in candidates :: nameFor(k)
  {
    var aliases: Aliases := map[];
    var keyByName: map<string, TypeNode> := map[];
    var rest := candidates;
    while rest != {}
      invariant rest <= candidates
      invariant aliases == map k | k in candidates - rest :: nameFor(k)
      invariant forall name :: name in keyByName ==> keyByName[name] in aliases && nameFor(keyByName[name]) == name
      invariant forall k :: k in aliases ==> nameFor(k) in keyByName && keyByName[nameFor(k)] == k
      decreases rest
    {
      var key :| key in rest;
      var name := nameFor(key);
      if name in keyByName && keyByName[name] != key {
        assert keyByName[name] in candidates;
        return NameCollision;
      }
      keyByName := keyByName[name := key];
      aliases := aliases[key := name];
      rest := rest - {key};
    }
    return Named(aliases);
  }

  // ---------- selectAliases ----------

  /** The object types worth a name: with three fields or more from the second occurrence on, with two from the third on. */
  ghost function Candidates(roots: seq<TypeNode>): set<TypeNode> {
    set k | k in RootSubnodes(roots) && k.Object? &&
      if |k.fields| < 3 then |k.fields| == 2 && RootOccurrences(roots, k) > 2 else RootOccurrences(roots, k) > 1
  }

  method CollectCandidates(roots: seq<TypeNode>) returns (candidates: set<TypeNode>)
    ensures candidates == Candidates(roots)
  {
    hide Occurrences;
    var counter := new OccurrenceCounter();
    for n := 0 to |roots|
      invariant fresh(counter) && counter.OnlyPositive()
      invariant forall k :: counter.Count(k) == RootOccurrences(roots[..n], k)
    {
      counter.Collect(roots[n]);
      assert roots[..n + 1][..n] == roots[..n];
    }
    assert roots[..|roots|] == roots;
    var counts := counter.counts;
    candidates := set k | k in counts && IsHoistWorthy(k, counts[k]);
    forall k ensures k in candidates <==> k in Candidates(roots) {
      OccursExactly(roots, k);
      assert counter.Count(k) == RootOccurrences(roots, k);
    }
  }

  /**
   * The pruning loop drops aliases at most once, although the source allows for more rounds, and
   * every alias that is left is referred to at least twice.
   */
  method SelectAliases(roots: seq<TypeNode>, nameFor: TypeNode -> string) returns (r: Naming, ghost shrinkings: nat)
    ensures shrinkings <= 1
    ensures r.NameCollision? <==>
      exists a, b :: a in Survivors(roots, Candidates(roots)) && b in Survivors(roots, Candidates(roots)) &&
        a != b && nameFor(a) == nameFor(b)
    ensures r.Named? ==> Injective(r.aliases) && r.aliases.Keys == Survivors(roots, Candidates(roots))
    ensures r.Named? ==> forall k :: k in r.aliases ==> TotalRefs(roots, r.aliases.Keys, k) >= MINIMUM_OCCURRENCES
  {
    hide TotalRefs, RootSubnodes;
    var candidates := CollectCandidates(roots);
    ghost var all := candidates;
    OneRoundSuffices(roots, all);
    shrinkings := 0;
    while true
      invariant candidates <= all <= RootSubnodes(roots)
      invariant (shrinkings == 0 && candidates == all) || (shrinkings == 1 && candidates == Survivors(roots, all))
      decreases candidates
    {
      var references := CountAliasReferences(candidates, roots);
      var survivors := set k | k in candidates && references[k] >= MINIMUM_OCCURRENCES;
      assert survivors == Survivors(roots, candidates);
      SameSizeSubset(survivors, candidates);
      if |survivors| == |candidates| { break; }
      candidates := survivors;
      shrinkings := shrinkings + 1;
    }
    assert candidates == Survivors(roots, all);
    r := AssignAliasNames(candidates, nameFor);
  }

  lemma SameSizeSubset(s: set<TypeNode>, t: set<TypeNode>)
    requires s <= t
    ensures |s| == |t| <==> s == t
  {
    assert t == s + (t - s);
    assert |t| == |s| + |t - s|;
  }

  /** In the emitted entries and declarations together, each selected alias name appears at least twice. */
  lemma SelectedAliasAppearsTwice(roots: seq<TypeNode>, order: seq<TypeNode>, aliases: Aliases, k: TypeNode)
    requires Injective(aliases) && aliases.Keys == Survivors(roots, Candidates(roots)) && k in aliases
    requires Elements(order) == aliases.Keys
    requires forall i, j :: 0 <= i < j < |order| ==> order[i] != order[j]
    ensures CountInEntries(roots, aliases, aliases[k]) + CountInDeclarations(order, aliases, aliases[k]) >= 2
  {
    hide TotalRefs, CountInEntries, CountInDeclarations, RootSubnodes;
    CounterMatchesText(roots, order, aliases, k);
    OneRoundSuffices(roots, Candidates(roots));
  }
}
