/**
 * The type nodes of the operation-client generator, their rendering with alias names in place of
 * hoisted shapes, and the expansion that undoes it.
 *
 * A node stands for its own `canonicalKey`: the key is the JSON text of the node, which determines it.
 */
module TypeNodes {
  import opened Basics

  datatype ObjectField = ObjectField(name: string, optional: bool, value: TypeNode)

  datatype TypeNode =
    | Primitive(text: string)
    | Array(element: TypeNode)
    | Union(members: seq<TypeNode>)
    | Record
    | Object(fields: seq<ObjectField>)

  /** What a node contributes to its text besides its children. */
  datatype Label =
    | PrimitiveLabel(text: string)
    | ArrayLabel
    | UnionLabel
    | RecordLabel
    | ObjectLabel(keys: seq<(string, bool)>)

  /** Rendered text as a tree; `Ref` is the name of an alias. */
  datatype Text = Shape(head: Label, parts: seq<Text>) | Ref(name: string)

  function Values(fields: seq<ObjectField>): (r: seq<TypeNode>)
    ensures |r| == |fields|
    ensures forall i :: 0 <= i < |r| ==> r[i] == fields[i].value
  {
    seq(|fields|, i requires 0 <= i < |fields| => fields[i].value)
  }

  function Children(node: TypeNode): (r: seq<TypeNode>)
    ensures forall i :: 0 <= i < |r| ==> r[i] < node
  {
    match node
    case Array(element) => [element]
    case Union(members) => members
    case Object(fields) => Values(fields)
    case _ => []
  }

  function LabelOf(node: TypeNode): Label {
    match node
    case Primitive(text) => PrimitiveLabel(text)
    case Array(_) => ArrayLabel
    case Union(_) => UnionLabel
    case Record => RecordLabel
    case Object(fields) => ObjectLabel(seq(|fields|, i requires 0 <= i < |fields| => (fields[i].name, fields[i].optional)))
  }

  function Size(node: TypeNode): nat
    decreases node, 1
  {
    1 + SizeOfFirst(node, |Children(node)|)
  }

  function SizeOfFirst(node: TypeNode, n: nat): nat
    requires n <= |Children(node)|
    decreases node, 0, n
  {
    if n == 0 then 0 else SizeOfFirst(node, n - 1) + Size(Children(node)[n - 1])
  }

  lemma {:induction false} ChildOfFirstIsSmaller(node: TypeNode, n: nat, i: nat)
    requires i < n <= |Children(node)|
    ensures Size(Children(node)[i]) <= SizeOfFirst(node, n)
    decreases n
  {
    if i == n - 1 {
    } else {
      ChildOfFirstIsSmaller(node, n - 1, i);
    }
  }

  lemma ChildIsSmaller(node: TypeNode, i: nat)
    requires i < |Children(node)|
    ensures Size(Children(node)[i]) < Size(node)
  {
    ChildOfFirstIsSmaller(node, |Children(node)|, i);
  }

  // ---------- rendering ----------

  type Aliases = map<TypeNode, string>

  /** `renderNode`: the node's own level inline, its children substituted where hoisted. */
  function Render(node: TypeNode, aliases: Aliases, suppress: Option<TypeNode>): Text
    decreases node
  {
    var children := Children(node);
    Shape(LabelOf(node), seq(|children|, i requires 0 <= i < |children| =>
      if Some(children[i]) != suppress && children[i] in aliases then Ref(aliases[children[i]])
      else Render(children[i], aliases, suppress)))
  }

  function RenderRoot(node: TypeNode, aliases: Aliases): Text {
    if node in aliases then Ref(aliases[node]) else Render(node, aliases, None)
  }

  /** The right-hand side of an alias declaration, rendered with its own key suppressed. */
  function Body(node: TypeNode, aliases: Aliases): Text {
    Render(node, aliases, Some(node))
  }

  /** The text without any alias. */
  function Plain(node: TypeNode): Text {
    Render(node, map[], None)
  }

  ghost predicate Injective(aliases: Aliases) {
    forall a, b :: a in aliases && b in aliases && aliases[a] == aliases[b] ==> a == b
  }

  // ---------- declarations and their expansion ----------

  ghost function NodeNamed(aliases: Aliases, name: string): TypeNode
    requires name in aliases.Values
  {
    var node :| node in aliases && aliases[node] == name;
    node
  }

  /** `type <name> = <body>;` for every alias. */
  ghost function Declarations(aliases: Aliases): map<string, Text> {
    map name | name in aliases.Values :: Body(NodeNamed(aliases, name), aliases)
  }

  /** Every reference in the text is declared and has a rank below the limit. */
  ghost predicate RefsBelow(t: Text, rank: map<string, nat>, limit: nat) {
    match t
    case Ref(name) => name in rank && rank[name] < limit
    case Shape(_, parts) => forall i :: 0 <= i < |parts| ==> RefsBelow(parts[i], rank, limit)
  }

  /** Each declaration refers only to declarations of lower rank. */
  ghost predicate WellRanked(declarations: map<string, Text>, rank: map<string, nat>) {
    && rank.Keys == declarations.Keys
    && forall name :: name in declarations ==> RefsBelow(declarations[name], rank, rank[name])
  }

  /** The text with every reference replaced by what it stands for. */
  ghost function Expand(t: Text, declarations: map<string, Text>, rank: map<string, nat>, limit: nat): Text
    requires WellRanked(declarations, rank) && RefsBelow(t, rank, limit)
    decreases limit, t
  {
    match t
    case Ref(name) => Expand(declarations[name], declarations, rank, rank[name])
    case Shape(head, parts) =>
      Shape(head, seq(|parts|, i requires 0 <= i < |parts| => Expand(parts[i], declarations, rank, limit)))
  }

  ghost function SizeRank(aliases: Aliases): map<string, nat> {
    map name | name in aliases.Values :: Size(NodeNamed(aliases, name))
  }

  lemma NamedIsUnique(aliases: Aliases, node: TypeNode)
    requires Injective(aliases) && node in aliases
    ensures aliases[node] in aliases.Values && NodeNamed(aliases, aliases[node]) == node
  {
    assert aliases[node] in aliases.Values;
  }

  /** Rendering a node refers only to strictly smaller shapes. */
  lemma {:induction false} RenderRefsBelow(node: TypeNode, aliases: Aliases, suppress: Option<TypeNode>, limit: nat)
    requires Injective(aliases) && Size(node) <= limit
    ensures RefsBelow(Render(node, aliases, suppress), SizeRank(aliases), limit)
    decreases node
  {
    hide Size;
    var t := Render(node, aliases, suppress);
    var children := Children(node);
    forall i | 0 <= i < |children| ensures RefsBelow(t.parts[i], SizeRank(aliases), limit) {
      ChildIsSmaller(node, i);
      if Some(children[i]) != suppress && children[i] in aliases {
        NamedIsUnique(aliases, children[i]);
      } else {
        RenderRefsBelow(children[i], aliases, suppress, limit);
      }
    }
  }

  /** No alias refers to itself, directly or through others: declarations have a rank. */
  lemma DeclarationsWellRanked(aliases: Aliases)
    requires Injective(aliases)
    ensures WellRanked(Declarations(aliases), SizeRank(aliases))
  {
    hide Size;
    var declarations, rank := Declarations(aliases), SizeRank(aliases);
    assert rank.Keys == declarations.Keys;
    forall name | name in declarations ensures RefsBelow(declarations[name], rank, rank[name]) {
      var node := NodeNamed(aliases, name);
      RenderRefsBelow(node, aliases, Some(node), Size(node));
    }
  }

  lemma {:induction false} ExpandRender(node: TypeNode, aliases: Aliases, suppress: Option<TypeNode>, limit: nat)
    requires Injective(aliases) && Size(node) <= limit
    requires WellRanked(Declarations(aliases), SizeRank(aliases))
    requires RefsBelow(Render(node, aliases, suppress), SizeRank(aliases), limit)
    ensures Expand(Render(node, aliases, suppress), Declarations(aliases), SizeRank(aliases), limit) == Plain(node)
    decreases Size(node)
  {
    hide Size, WellRanked;
    var declarations, rank := Declarations(aliases), SizeRank(aliases);
    var t := Render(node, aliases, suppress);
    var children := Children(node);
    forall i | 0 <= i < |children| ensures Expand(t.parts[i], declarations, rank, limit) == Plain(children[i]) {
      ChildIsSmaller(node, i);
      if Some(children[i]) != suppress && children[i] in aliases {
        NamedIsUnique(aliases, children[i]);
        RenderRefsBelow(children[i], aliases, Some(children[i]), Size(children[i]));
        ExpandRender(children[i], aliases, Some(children[i]), Size(children[i]));
      } else {
        RenderRefsBelow(children[i], aliases, suppress, limit);
        ExpandRender(children[i], aliases, suppress, limit);
      }
    }
    assert Expand(t, declarations, rank, limit).parts == Plain(node).parts;
  }

  /** Hoisting preserves meaning: a rendered operation position expands to the text without aliases. */
  lemma HoistingPreservesRoot(node: TypeNode, aliases: Aliases)
    requires Injective(aliases)
    ensures WellRanked(Declarations(aliases), SizeRank(aliases))
    ensures RefsBelow(RenderRoot(node, aliases), SizeRank(aliases), Size(node) + 1)
    ensures Expand(RenderRoot(node, aliases), Declarations(aliases), SizeRank(aliases), Size(node) + 1) == Plain(node)
  {
    hide Size, WellRanked;
    DeclarationsWellRanked(aliases);
    if node in aliases {
      NamedIsUnique(aliases, node);
      RenderRefsBelow(node, aliases, Some(node), Size(node));
      ExpandRender(node, aliases, Some(node), Size(node));
    } else {
      RenderRefsBelow(node, aliases, None, Size(node) + 1);
      ExpandRender(node, aliases, None, Size(node) + 1);
    }
  }

  /** Hoisting preserves meaning: each declaration expands to the shape it was made from. */
  lemma HoistingPreservesDeclaration(node: TypeNode, aliases: Aliases)
    requires Injective(aliases) && node in aliases
    ensures WellRanked(Declarations(aliases), SizeRank(aliases))
    ensures aliases[node] in Declarations(aliases) && RefsBelow(Declarations(aliases)[aliases[node]], SizeRank(aliases), Size(node))
    ensures Expand(Declarations(aliases)[aliases[node]], Declarations(aliases), SizeRank(aliases), Size(node)) == Plain(node)
  {
    hide Size, WellRanked;
    DeclarationsWellRanked(aliases);
    NamedIsUnique(aliases, node);
    RenderRefsBelow(node, aliases, Some(node), Size(node));
    ExpandRender(node, aliases, Some(node), Size(node));
  }

  ghost predicate Mentions(t: Text, name: string) {
    match t
    case Ref(other) => other == name
    case Shape(_, parts) => exists i :: 0 <= i < |parts| && Mentions(parts[i], name)
  }

  lemma {:induction false} MentionedIsBelow(t: Text, name: string, rank: map<string, nat>, limit: nat)
    requires RefsBelow(t, rank, limit) && Mentions(t, name)
    ensures name in rank && rank[name] < limit
  {
    match t
    case Ref(_) =>
    case Shape(_, parts) =>
      var i :| 0 <= i < |parts| && Mentions(parts[i], name);
      MentionedIsBelow(parts[i], name, rank, limit);
  }

  /** Following references from alias to alias never comes back. */
  lemma {:induction false} NoAliasReachesItself(aliases: Aliases, chain: seq<string>)
    requires Injective(aliases) && |chain| >= 2
    requires forall i :: 0 <= i < |chain| ==> chain[i] in aliases.Values
    requires forall i :: 0 <= i < |chain| - 1 ==> Mentions(Declarations(aliases)[chain[i]], chain[i + 1])
    ensures SizeRank(aliases)[chain[|chain| - 1]] < SizeRank(aliases)[chain[0]]
    ensures chain[0] != chain[|chain| - 1]
    decreases |chain|
  {
    hide Mentions, Size, RefsBelow;
    DeclarationsWellRanked(aliases);
    MentionedIsBelow(Declarations(aliases)[chain[0]], chain[1], SizeRank(aliases), SizeRank(aliases)[chain[0]]);
    if |chain| == 2 {
    } else {
      forall i | 0 <= i < |chain[1..]| - 1 ensures Mentions(Declarations(aliases)[chain[1..][i]], chain[1..][i + 1]) {
        assert Mentions(Declarations(aliases)[chain[i + 1]], chain[i + 2]);
      }
      NoAliasReachesItself(aliases, chain[1..]);
    }
  }
}
