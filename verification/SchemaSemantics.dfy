/**
 * What a schema accepts and what a type expression contains.
 *
 * Acceptance follows JSON Schema draft 2020-12 (Core, sections 10.2.1.1 to 10.2.1.3, 10.3.1.1,
 * 10.3.1.2, 10.3.2.1 and 10.3.2.3; Validation, sections 6.1.1 to 6.1.3 and 6.5.3) and the draft-07
 * list form of `items` with `additionalItems`. A keyword whose value has the wrong shape asserts nothing.
 */
module SchemaSemantics {
  import opened Basics
  import opened JsonValues
  import opened SchemaEmitter

  /** Every keyword not spelled out below, as an arbitrary assertion on the node and the value. */
  type OtherKeywords = (map<string, Json>, Json) -> bool

  predicate HasType(v: Json, name: string) {
    match v
    case Null => name == "null"
    case Bool(_) => name == "boolean"
    case Num(n) => name == "number" || (name == "integer" && n == n.Floor as real)
    case Str(_) => name == "string"
    case Arr(_) => name == "array"
    case Obj(_) => name == "object"
  }

  ghost predicate TypeAccepts(typeKeyword: Option<Json>, v: Json) {
    match typeKeyword
    case Some(Str(name)) => HasType(v, name)
    case Some(Arr(names)) => exists i :: 0 <= i < |names| && names[i].Str? && HasType(v, names[i].s)
    case _ => true
  }

  ghost predicate EnumAndConstAccept(node: map<string, Json>, v: Json) {
    && ("const" in node ==> node["const"] == v)
    && ("enum" in node && node["enum"].Arr? ==> v in node["enum"].items)
  }

  ghost predicate RequiredAccepts(node: map<string, Json>, v: Json) {
    v.Obj? ==> RequiredNames(node) <= v.members.Keys
  }

  // ---------- acceptance ----------

  ghost predicate Validates(x: OtherKeywords, schema: Json, v: Json)
    decreases schema, 1
  {
    match schema
    case Bool(b) => b
    case Obj(node) =>
      && x(node, v)
      && TypeAccepts(At(node, "type"), v)
      && EnumAndConstAccept(node, v)
      && RequiredAccepts(node, v)
      && ValidatesBranches(x, node, v)
      && (v.Obj? ==> ValidatesMembers(x, node, v.members))
      && (v.Arr? ==> ValidatesItems(x, node, v.items))
    case _ => true
  }

  /** `oneOf`, `anyOf` and `allOf`. */
  ghost predicate ValidatesBranches(x: OtherKeywords, node: map<string, Json>, v: Json)
    decreases Obj(node), 0
  {
    && ("oneOf" in node && node["oneOf"].Arr? ==>
          exists i :: 0 <= i < |node["oneOf"].items| && Validates(x, node["oneOf"].items[i], v) &&
            forall j :: 0 <= j < |node["oneOf"].items| && j != i ==> !Validates(x, node["oneOf"].items[j], v))
    && ("anyOf" in node && node["anyOf"].Arr? ==>
          exists i :: 0 <= i < |node["anyOf"].items| && Validates(x, node["anyOf"].items[i], v))
    && ("allOf" in node && node["allOf"].Arr? ==>
          forall i :: 0 <= i < |node["allOf"].items| ==> Validates(x, node["allOf"].items[i], v))
  }

  /** `properties` and, where `patternProperties` does not interfere, `additionalProperties`. */
  ghost predicate ValidatesMembers(x: OtherKeywords, node: map<string, Json>, members: map<string, Json>)
    decreases Obj(node), 0
  {
    && ("properties" in node && node["properties"].Obj? ==>
          forall k :: k in node["properties"].members && k in members ==> Validates(x, node["properties"].members[k], members[k]))
    && ("additionalProperties" in node && "patternProperties" !in node ==>
          forall k :: k in members && k !in DeclaredProperties(node) ==> Validates(x, node["additionalProperties"], members[k]))
  }

  /** `prefixItems` and `items`, or a draft-07 list of `items` and `additionalItems`. */
  ghost predicate ValidatesItems(x: OtherKeywords, node: map<string, Json>, items: seq<Json>)
    decreases Obj(node), 0
  {
    if "prefixItems" in node && node["prefixItems"].Arr? then
      var positions := node["prefixItems"].items;
      && (forall i :: 0 <= i < |positions| && i < |items| ==> Validates(x, positions[i], items[i]))
      && ("items" in node ==> forall i :: |positions| <= i < |items| ==> Validates(x, node["items"], items[i]))
    else if "items" in node && node["items"].Arr? then
      var positions := node["items"].items;
      && (forall i :: 0 <= i < |positions| && i < |items| ==> Validates(x, positions[i], items[i]))
      && ("additionalItems" in node ==>
            forall i :: |positions| <= i < |items| ==> Validates(x, node["additionalItems"], items[i]))
    else
      "items" in node ==> forall i :: 0 <= i < |items| ==> Validates(x, node["items"], items[i])
  }

  // ---------- the reading the emitter takes ----------

  predicate Untyped(node: map<string, Json>) {
    match At(node, "type")
    case Some(Str(_)) => false
    case Some(Arr(_)) => false
    case _ => true
  }

  /** Object keywords without a `type`, which the emitter takes for an object schema. */
  predicate ReadAsObject(node: map<string, Json>) {
    Untyped(node) && ("properties" in node || "additionalProperties" in node)
    && !HasUnexpectedSibling(node, OBJECT_SUPPORTED_KEYS)
  }

  /** Array keywords without a `type`, which the emitter takes for an array schema. */
  predicate ReadAsArray(node: map<string, Json>) {
    Untyped(node) && "properties" !in node && "additionalProperties" !in node
    && ("items" in node || "prefixItems" in node)
    && !HasUnexpectedSibling(node, ARRAY_SUPPORTED_KEYS)
  }

  /** A node emitted as a tuple, whose positions all become mandatory. */
  predicate ReadAsTuple(node: map<string, Json>) {
    Positions(node).Some? &&
    var typeArray := At(node, "type").Some? && node["type"].Arr?;
    !HasUnexpectedSibling(node, ARRAY_SUPPORTED_KEYS + if typeArray then OBJECT_ONLY_KEYWORDS else {})
  }

  /** At this one node, `v` is the kind of value the emitted type assumes. */
  predicate ReadingHolds(node: map<string, Json>, v: Json) {
    && (ReadAsObject(node) ==> v.Obj?)
    && (ReadAsArray(node) ==> v.Arr?)
    && (ReadAsTuple(node) && v.Arr? ==> |Positions(node).value| <= |v.items|)
  }

  predicate TypeList(node: map<string, Json>) {
    At(node, "type").Some? && node["type"].Arr?
  }

  const TYPE_NAMES: set<string> := {"string", "number", "integer", "boolean", "null", "array", "object"}

  /** An entry of a list of types that the emitter can only answer with `unknown`. */
  predicate CatchAll(entry: Json) {
    !entry.Str? || entry.s !in TYPE_NAMES
  }

  predicate HasCatchAll(node: map<string, Json>) {
    TypeList(node) && exists i :: 0 <= i < |node["type"].items| && CatchAll(node["type"].items[i])
  }

  /** The emitter looks into the branches of a lone combinator with nothing beside it. */
  predicate ReadsBranches(node: map<string, Json>) {
    && !HasUnexpectedSibling(node, COMBINATOR_KEYS)
    && (if AsArray(At(node, "oneOf")).Some? then 1 else 0) + (if AsArray(At(node, "anyOf")).Some? then 1 else 0)
         + (if AsArray(At(node, "allOf")).Some? then 1 else 0) == 1
  }

  /** It looks below object keywords with no other assertion beside them; a list of types sets array keywords aside. */
  predicate ReadsMembers(node: map<string, Json>) {
    !HasUnexpectedSibling(node, OBJECT_SUPPORTED_KEYS + if TypeList(node) then ARRAY_ONLY_KEYWORDS else {})
  }

  /** And the same for array keywords. */
  predicate ReadsItems(node: map<string, Json>) {
    !HasUnexpectedSibling(node, ARRAY_SUPPORTED_KEYS + if TypeList(node) then OBJECT_ONLY_KEYWORDS else {})
  }

  /**
   * `v` is met as the emitter reads the schema, wherever the emitter looks: an untyped object or array
   * schema meets only objects or arrays, and a tuple schema only arrays that fill its positions. Nothing
   * is asked below a node that degrades to `unknown`, and of alternatives only one that accepts `v`.
   */
  ghost predicate WithinReading(x: OtherKeywords, schema: Json, v: Json)
    decreases schema, 2
  {
    schema.Obj? ==> HasCatchAll(schema.members) || (ReadingHolds(schema.members, v) && BelowWithinReading(x, schema.members, v))
  }

  /** The same of what lies below the node. */
  ghost predicate BelowWithinReading(x: OtherKeywords, node: map<string, Json>, v: Json)
    decreases Obj(node), 1
  {
    && (ReadsBranches(node) ==> BranchesWithinReading(x, node, v))
    && (v.Obj? && ReadsMembers(node) ==> MembersWithinReading(x, node, v.members))
    && (v.Arr? && ReadsItems(node) ==> ItemsWithinReading(x, node, v.items))
  }

  ghost predicate BranchesWithinReading(x: OtherKeywords, node: map<string, Json>, v: Json)
    decreases Obj(node), 0
  {
    && ("oneOf" in node && node["oneOf"].Arr? ==>
          exists i :: 0 <= i < |node["oneOf"].items| && Validates(x, node["oneOf"].items[i], v)
            && WithinReading(x, node["oneOf"].items[i], v))
    && ("anyOf" in node && node["anyOf"].Arr? ==>
          exists i :: 0 <= i < |node["anyOf"].items| && Validates(x, node["anyOf"].items[i], v)
            && WithinReading(x, node["anyOf"].items[i], v))
    && ("allOf" in node && node["allOf"].Arr? ==>
          forall i :: 0 <= i < |node["allOf"].items| ==> WithinReading(x, node["allOf"].items[i], v))
  }

  ghost predicate MembersWithinReading(x: OtherKeywords, node: map<string, Json>, members: map<string, Json>)
    decreases Obj(node), 0
  {
    && ("properties" in node && node["properties"].Obj? ==>
          forall k :: k in node["properties"].members && k in members
            ==> WithinReading(x, node["properties"].members[k], members[k]))
    && ("additionalProperties" in node && "patternProperties" !in node ==>
          forall k :: k in members && k !in DeclaredProperties(node)
            ==> WithinReading(x, node["additionalProperties"], members[k]))
  }

  ghost predicate ItemsWithinReading(x: OtherKeywords, node: map<string, Json>, items: seq<Json>)
    decreases Obj(node), 0
  {
    if "prefixItems" in node && node["prefixItems"].Arr? then
      var positions := node["prefixItems"].items;
      && (forall i :: 0 <= i < |positions| && i < |items| ==> WithinReading(x, positions[i], items[i]))
      && ("items" in node ==> forall i :: |positions| <= i < |items| ==> WithinReading(x, node["items"], items[i]))
    else if "items" in node && node["items"].Arr? then
      var positions := node["items"].items;
      && (forall i :: 0 <= i < |positions| && i < |items| ==> WithinReading(x, positions[i], items[i]))
      && ("additionalItems" in node ==>
            forall i :: |positions| <= i < |items| ==> WithinReading(x, node["additionalItems"], items[i]))
    else
      "items" in node ==> forall i :: 0 <= i < |items| ==> WithinReading(x, node["items"], items[i])
  }

  // ---------- what a type expression contains ----------

  /**
   * Read strictly: a closed object type allows no further members, and an index signature covers
   * the named members as well, as TypeScript requires of it.
   */
  ghost predicate Inhabits(t: TsType, v: Json) {
    match t
    case Unknown => true
    case Never => false
    case Undefined => false
    case String => v.Str?
    case Number => v.Num?
    case Boolean => v.Bool?
    case NullType => v.Null?
    case Literal(literal) => v == literal
    case Union(members) => exists i :: 0 <= i < |members| && Inhabits(members[i], v)
    case Intersection(members) => forall i :: 0 <= i < |members| ==> Inhabits(members[i], v)
    case ArrayOf(element) => v.Arr? && forall i :: 0 <= i < |v.items| ==> Inhabits(element, v.items[i])
    case Tuple(positions, rest) =>
      && v.Arr? && |positions| <= |v.items|
      && (forall i :: 0 <= i < |positions| ==> Inhabits(positions[i], v.items[i]))
      && (match rest
          case None => |v.items| == |positions|
          case Some(r) => forall i :: |positions| <= i < |v.items| ==> Inhabits(r, v.items[i]))
    case Record(value) => v.Obj? && forall k :: k in v.members ==> Inhabits(value, v.members[k])
    case Object(fields, index) =>
      && v.Obj?
      && (forall i :: 0 <= i < |fields| ==>
            (if fields[i].name in v.members then Inhabits(fields[i].value, v.members[fields[i].name]) else fields[i].optional))
      && (match index
          case None => forall k :: k in v.members ==> exists i :: 0 <= i < |fields| && fields[i].name == k
          case Some(r) => forall k :: k in v.members ==> Inhabits(r, v.members[k]))
  }
}
