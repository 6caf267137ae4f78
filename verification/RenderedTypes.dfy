/** What the text of the operation client means: the values a rendered type stands for, aliases looked up. */
module RenderedTypes {
  import opened JsonValues
  import opened OperationSchemas
  import T = TypeNodes

  /** The values of a text, read off what is printed; a name without its declaration stands for nothing. */
  ghost predicate TextContains(t: T.Text, v: Json, quote: string -> string) {
    match t
    case Ref(_) => false
    case Shape(PrimitiveLabel(text), _) =>
      || text == "unknown"
      || (text == "string" && v.Str?)
      || (text == "number" && v.Num?)
      || (text == "boolean" && v.Bool?)
      || (text == "null" && v.Null?)
      || (v.Str? && text == quote(v.s))
    case Shape(ArrayLabel, parts) => v.Arr? && |parts| == 1 && forall i :: 0 <= i < |v.items| ==> TextContains(parts[0], v.items[i], quote)
    case Shape(UnionLabel, parts) => exists i :: 0 <= i < |parts| && TextContains(parts[i], v, quote)
    case Shape(RecordLabel, _) => v.Obj?
    case Shape(ObjectLabel(keys), parts) =>
      v.Obj? && |parts| == |keys| && forall i :: 0 <= i < |keys| ==>
        if keys[i].0 in v.members then TextContains(parts[i], v.members[keys[i].0], quote) else keys[i].1
  }

  /** Rendering keeps the meaning of every node. */
  lemma {:induction false} PlainTextMeans(node: T.TypeNode, v: Json, quote: string -> string)
    ensures TextContains(T.Plain(node), v, quote) <==> Contains(node, v, quote)
    decreases node, 1
  {
    match node
    case Primitive(_) =>
    case Record =>
    case Array(element) =>
      assert T.Plain(node) == T.Shape(T.ArrayLabel, [T.Plain(element)]);
      if v.Arr? {
        forall i | 0 <= i < |v.items| ensures TextContains(T.Plain(element), v.items[i], quote) <==> Contains(element, v.items[i], quote) {
          PlainTextMeans(element, v.items[i], quote);
        }
      }
    case Union(members) =>
      var parts := T.Plain(node).parts;
      forall i | 0 <= i < |members|
        ensures parts[i] == T.Plain(members[i]) && (TextContains(parts[i], v, quote) <==> Contains(members[i], v, quote))
      {
        PlainTextMeans(members[i], v, quote);
      }
    case Object(fields) =>
      ObjectTextMeans(fields, v, quote);
  }

  lemma {:induction false} ObjectTextMeans(fields: seq<T.ObjectField>, v: Json, quote: string -> string)
    ensures TextContains(T.Plain(T.Object(fields)), v, quote) <==> Contains(T.Object(fields), v, quote)
    decreases T.Object(fields), 0
  {
    var node := T.Object(fields);
    var keys, parts := T.LabelOf(node).keys, T.Plain(node).parts;
    assert T.Plain(node) == T.Shape(T.ObjectLabel(keys), parts) && |parts| == |keys| == |fields|;
    assert forall i :: 0 <= i < |fields| ==> keys[i] == (fields[i].name, fields[i].optional) && parts[i] == T.Plain(fields[i].value);
    hide T.Plain, T.LabelOf;
    if v.Obj? {
      forall i | 0 <= i < |fields| && fields[i].name in v.members
        ensures TextContains(parts[i], v.members[fields[i].name], quote) <==> Contains(fields[i].value, v.members[fields[i].name], quote)
      {
        PlainTextMeans(fields[i].value, v.members[fields[i].name], quote);
      }
    }
  }

  /** The values of an operation position as printed, every alias replaced by what it is declared as. */
  ghost predicate PrintedContains(node: T.TypeNode, aliases: T.Aliases, v: Json, quote: string -> string)
    requires T.Injective(aliases)
  {
    T.HoistingPreservesRoot(node, aliases);
    TextContains(T.Expand(T.RenderRoot(node, aliases), T.Declarations(aliases), T.SizeRank(aliases), T.Size(node) + 1), v, quote)
  }

  /** From schema to text: under any aliases, the type printed for a schema stands for exactly what the schema admits. */
  lemma PrintedTypeMeans(schema: map<string, Json>, aliases: T.Aliases, v: Json, quote: string -> string)
    requires QuotesApart(quote) && T.Injective(aliases)
    ensures PrintedContains(SchemaToNode(schema, quote), aliases, v, quote) <==> Admits(schema, v)
  {
    hide SchemaToNode, Contains, TextContains, T.Size, T.Expand, T.RenderRoot, T.Plain, T.Declarations, T.SizeRank, T.WellRanked, T.RefsBelow, Admits;
    var node := SchemaToNode(schema, quote);
    T.HoistingPreservesRoot(node, aliases);
    PlainTextMeans(node, v, quote);
    NodeIsExact(schema, v, quote);
  }
}
