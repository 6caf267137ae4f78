/** The JSON Schema to TypeScript converter: keyword sets, type expressions, and the dispatch. */
module SchemaEmitter {
  import opened Basics
  import opened JsonValues

  // ---------- codegen-emit-keywords.ts ----------

  const ANNOTATION_ONLY_KEYWORDS: set<string> := {
    "description", "title", "default", "$comment", "examples", "readOnly", "writeOnly", "deprecated",
    "$schema", "$id", "minLength", "maxLength", "pattern", "format", "minimum", "maximum",
    "exclusiveMinimum", "exclusiveMaximum", "multipleOf", "minItems", "maxItems", "uniqueItems",
    "minProperties", "maxProperties" }
  const PRIMITIVE_SUPPORTED_KEYS: set<string> := {"type"}
  const OBJECT_SUPPORTED_KEYS: set<string> := {"type", "properties", "required", "additionalProperties"}
  const ARRAY_SUPPORTED_KEYS: set<string> := {"type", "items", "prefixItems", "additionalItems"}
  const COMBINATOR_KEYS: set<string> := {"oneOf", "anyOf", "allOf"}
  const OBJECT_ONLY_KEYWORDS: set<string> := {"properties", "required", "additionalProperties"}
  const ARRAY_ONLY_KEYWORDS: set<string> := {"items", "prefixItems", "additionalItems"}

  const MAX_RECURSION_DEPTH := 64

  predicate HasUnexpectedSibling(node: map<string, Json>, expected: set<string>) {
    exists key :: key in node && key !in expected && key !in ANNOTATION_ONLY_KEYWORDS
  }

  // ---------- type expressions ----------

  datatype Field = Field(name: string, optional: bool, value: TsType)

  datatype TsType =
    | Unknown
    | Never
    | String
    | Number
    | Boolean
    | NullType
    | Undefined
    | Literal(literal: Json)
    | Union(members: seq<TsType>)
    | Intersection(members: seq<TsType>)
    | ArrayOf(element: TsType)
    | Tuple(positions: seq<TsType>, rest: Option<TsType>)
    | Record(value: TsType)                                  // Record<string, T>
    | Object(fields: seq<Field>, index: Option<TsType>)      // { "a": T; "b"?: U; [index: string]: V; }

  /** `TooDeep` is the thrown `CodegenEmitError`. */
  datatype Result<T> = Ok(value: T) | TooDeep

  /** What a dispatcher in the `??` chain yields: nothing (`undefined`), a type, or the thrown error. */
  datatype Attempt = Passed | Gave(result: Result<TsType>)
  {
    function OrElse(next: Attempt): Attempt {
      if Passed? then next else this
    }
  }

  function Fuel(depth: nat): nat {
    if depth > MAX_RECURSION_DEPTH then 0 else MAX_RECURSION_DEPTH + 1 - depth
  }

  // ---------- leaves ----------

  function PrimitiveTypeFor(typeKeyword: string): Option<TsType> {
    match typeKeyword
    case "string" => Some(String)
    case "number" => Some(Number)
    case "integer" => Some(Number)
    case "boolean" => Some(Boolean)
    case "null" => Some(NullType)
    case _ => None
  }

  function LiteralFromValue(value: Json): TsType {
    match value
    case Null => NullType
    case Arr(_) => Unknown
    case Obj(_) => Unknown
    case _ => Literal(value)
  }

  function Literals(entries: seq<Json>): (r: seq<TsType>)
    ensures |r| == |entries|
    ensures forall i :: 0 <= i < |r| ==> r[i] == LiteralFromValue(entries[i])
  {
    seq(|entries|, i requires 0 <= i < |entries| => LiteralFromValue(entries[i]))
  }

  /** A lone member stands for itself, several are joined. */
  function JoinUnion(types: seq<TsType>): TsType {
    if |types| == 0 then Unknown else if |types| == 1 then types[0] else Union(types)
  }

  function JoinIntersection(types: seq<TsType>): TsType {
    if |types| == 0 then Unknown else if |types| == 1 then types[0] else Intersection(types)
  }

  function EnumLiterals(entries: seq<Json>): TsType {
    var literals := Literals(entries);
    if Unknown in literals then Unknown else JoinUnion(literals)
  }

  function TryEnumOrConst(node: map<string, Json>): Attempt {
    var hasConst := "const" in node;
    var hasEnum := AsArray(At(node, "enum")).Some?;
    if !hasConst && !hasEnum then Passed
    else if hasConst && hasEnum then Gave(Ok(Unknown))
    else if HasUnexpectedSibling(node, {if hasConst then "const" else "enum"}) then Gave(Ok(Unknown))
    else if hasConst then Gave(Ok(LiteralFromValue(node["const"])))
    else Gave(Ok(EnumLiterals(AsArray(At(node, "enum")).value)))
  }

  predicate Projected(key: string, branchType: string) {
    && key != "type"
    && (branchType == "object" || key !in OBJECT_ONLY_KEYWORDS)
    && (branchType == "array" || key !in ARRAY_ONLY_KEYWORDS)
  }

  function Project(node: map<string, Json>, branchType: string): map<string, Json> {
    (map key | key in node && Projected(key, branchType) :: node[key])["type" := Str(branchType)]
  }

  /** `projectNodeForTypeBranch`, key by key. */
  method ProjectNodeForTypeBranch(node: map<string, Json>, branchType: string) returns (projected: map<string, Json>)
    ensures projected == Project(node, branchType)
  {
    projected := map[];
    var keys := node.Keys;
    while keys != {}
      invariant keys <= node.Keys
      invariant projected == map key | key in node && key !in keys && Projected(key, branchType) :: node[key]
      decreases keys
    {
      var key :| key in keys;
      keys := keys - {key};
      if key == "type" { continue; }
      if branchType != "object" && key in OBJECT_ONLY_KEYWORDS { continue; }
      if branchType != "array" && key in ARRAY_ONLY_KEYWORDS { continue; }
      projected := projected[key := node[key]];
    }
    projected := projected["type" := Str(branchType)];
  }

  // ---------- the recursion ----------

  function EmitAtDepth(schema: Option<Json>, depth: nat): Result<TsType>
    decreases Fuel(depth), 5
  {
    if depth > MAX_RECURSION_DEPTH then TooDeep
    else match schema
      case None => Ok(Unknown)
      case Some(Bool(b)) => Ok(if b then Unknown else Never)
      case Some(Obj(node)) =>
        match TryCombinator(node, depth)
              .OrElse(TryEnumOrConst(node))
              .OrElse(DispatchByType(node, depth))
              .OrElse(DispatchByShape(node, depth)) {
          case Passed => Ok(Unknown)
          case Gave(result) => result
        }
      case _ => Ok(Unknown)
  }

  function EmitAll(schemas: seq<Json>, depth: nat): (r: Result<seq<TsType>>)
    ensures r.Ok? ==> |r.value| == |schemas|
    ensures r.Ok? ==> forall i :: 0 <= i < |schemas| ==> EmitAtDepth(Some(schemas[i]), depth) == Ok(r.value[i])
    decreases Fuel(depth), 6, |schemas|
  {
    if schemas == [] then Ok([])
    else match EmitAtDepth(Some(schemas[0]), depth)
      case TooDeep => TooDeep
      case Ok(first) =>
        match EmitAll(schemas[1..], depth)
        case TooDeep => TooDeep
        case Ok(rest) => Ok([first] + rest)
  }

  function TryCombinator(node: map<string, Json>, depth: nat): Attempt
    requires depth <= MAX_RECURSION_DEPTH
    decreases Fuel(depth), 4
  {
    var oneOf, anyOf, allOf := AsArray(At(node, "oneOf")), AsArray(At(node, "anyOf")), AsArray(At(node, "allOf"));
    var count := (if oneOf.Some? then 1 else 0) + (if anyOf.Some? then 1 else 0) + (if allOf.Some? then 1 else 0);
    if count == 0 then Passed
    else if count > 1 then Gave(Ok(Unknown))
    else if HasUnexpectedSibling(node, COMBINATOR_KEYS) then Gave(Ok(Unknown))
    else
      var branches := if oneOf.Some? then oneOf.value else if anyOf.Some? then anyOf.value else allOf.value;
      match EmitAll(branches, depth + 1)
      case TooDeep => Gave(TooDeep)
      case Ok(types) => Gave(Ok(if allOf.Some? then JoinIntersection(types) else JoinUnion(types)))
  }

  function DispatchByType(node: map<string, Json>, depth: nat): Attempt
    requires depth <= MAX_RECURSION_DEPTH
    decreases Fuel(depth), 4
  {
    match At(node, "type")
    case Some(Arr(names)) =>
      (match ExpandTypeArray(node, names, depth)
       case TooDeep => Gave(TooDeep)
       case Ok(branches) => Gave(Ok(JoinUnion(branches))))
    case Some(Str(name)) => DispatchTypeString(node, name, depth)
    case _ => Passed
  }

  function ExpandTypeArray(node: map<string, Json>, names: seq<Json>, depth: nat): (r: Result<seq<TsType>>)
    requires depth <= MAX_RECURSION_DEPTH
    ensures r.Ok? ==> |r.value| == |names|
    ensures r.Ok? ==> forall i :: 0 <= i < |names| ==>
      (if names[i].Str? then EmitAtDepth(Some(Obj(Project(node, names[i].s))), depth + 1) else Ok(Unknown)) == Ok(r.value[i])
    decreases Fuel(depth), 3, |names|
  {
    if names == [] then Ok([])
    else match if names[0].Str? then EmitAtDepth(Some(Obj(Project(node, names[0].s))), depth + 1) else Ok(Unknown)
      case TooDeep => TooDeep
      case Ok(first) =>
        match ExpandTypeArray(node, names[1..], depth)
        case TooDeep => TooDeep
        case Ok(rest) =>
          assert forall i :: 0 < i < |names| ==> names[i] == names[1..][i - 1] && ([first] + rest)[i] == rest[i - 1];
          Ok([first] + rest)
  }

  function DispatchTypeString(node: map<string, Json>, name: string, depth: nat): Attempt
    requires depth <= MAX_RECURSION_DEPTH
    decreases Fuel(depth), 3
  {
    if name == "array" then
      if HasUnexpectedSibling(node, ARRAY_SUPPORTED_KEYS) then Gave(Ok(Unknown)) else Gave(ArrayType(node, depth))
    else if name == "object" then
      if HasUnexpectedSibling(node, OBJECT_SUPPORTED_KEYS) then Gave(Ok(Unknown)) else Gave(ObjectType(node, depth))
    else match PrimitiveTypeFor(name)
      case None => Passed
      case Some(primitive) =>
        if HasUnexpectedSibling(node, PRIMITIVE_SUPPORTED_KEYS) then Gave(Ok(Unknown)) else Gave(Ok(primitive))
  }

  function DispatchByShape(node: map<string, Json>, depth: nat): Attempt
    requires depth <= MAX_RECURSION_DEPTH
    decreases Fuel(depth), 4
  {
    if "properties" in node || "additionalProperties" in node then
      if HasUnexpectedSibling(node, OBJECT_SUPPORTED_KEYS) then Gave(Ok(Unknown)) else Gave(ObjectType(node, depth))
    else if "items" in node || "prefixItems" in node then
      if HasUnexpectedSibling(node, ARRAY_SUPPORTED_KEYS) then Gave(Ok(Unknown)) else Gave(ArrayType(node, depth))
    else Passed
  }

  /** The position schemas of a tuple node: `prefixItems`, or a draft-07 `items` list. */
  function Positions(node: map<string, Json>): Option<seq<Json>> {
    var prefixItems := AsArray(At(node, "prefixItems"));
    if prefixItems.Some? then prefixItems else AsArray(At(node, "items"))
  }

  /** The schema for what follows the positions, `undefined` when the node leaves it open. */
  function RestSchema(node: map<string, Json>): Option<Json> {
    if AsArray(At(node, "prefixItems")).Some? then At(node, "items") else At(node, "additionalItems")
  }

  function ArrayType(node: map<string, Json>, depth: nat): Result<TsType>
    requires depth <= MAX_RECURSION_DEPTH
    decreases Fuel(depth), 2
  {
    var positions := Positions(node);
    if positions.Some? then
      match EmitAll(positions.value, depth + 1)
      case TooDeep => TooDeep
      case Ok(types) =>
        var rest := RestSchema(node);
        if rest == Some(Bool(false)) then Ok(Tuple(types, None))
        else if rest == None then Ok(Tuple(types, Some(Unknown)))
        else match EmitAtDepth(rest, depth + 1)
          case TooDeep => TooDeep
          case Ok(restType) => Ok(Tuple(types, Some(restType)))
    else
      var items := At(node, "items");
      if items == None || items == Some(Bool(true)) then Ok(ArrayOf(Unknown))
      else if items == Some(Bool(false)) then Ok(Tuple([], None))
      else match EmitAtDepth(items, depth + 1)
        case TooDeep => TooDeep
        case Ok(element) => Ok(ArrayOf(element))
  }

  function DeclaredProperties(node: map<string, Json>): map<string, Json> {
    var properties := AsObject(At(node, "properties"));
    if properties.Some? then properties.value else map[]
  }

  function RequiredNames(node: map<string, Json>): set<string> {
    var required := AsArray(At(node, "required"));
    if required.Some? then set entry | entry in required.value && entry.Str? :: entry.s else {}
  }

  function FieldsFor(keys: seq<string>, properties: map<string, Json>, required: set<string>, depth: nat): (r: Result<seq<Field>>)
    requires depth <= MAX_RECURSION_DEPTH
    ensures r.Ok? ==> |r.value| == |keys|
    ensures r.Ok? ==> forall i :: 0 <= i < |keys| ==>
      && r.value[i].name == keys[i] && r.value[i].optional == (keys[i] !in required)
      && EmitAtDepth(At(properties, keys[i]), depth + 1) == Ok(r.value[i].value)
    decreases Fuel(depth), 1, |keys|
  {
    if keys == [] then Ok([])
    else match EmitAtDepth(At(properties, keys[0]), depth + 1)
      case TooDeep => TooDeep
      case Ok(valueType) =>
        match FieldsFor(keys[1..], properties, required, depth)
        case TooDeep => TooDeep
        case Ok(rest) => Ok([Field(keys[0], keys[0] !in required, valueType)] + rest)
  }

  function ObjectType(node: map<string, Json>, depth: nat): Result<TsType>
    requires depth <= MAX_RECURSION_DEPTH
    decreases Fuel(depth), 2
  {
    var properties, required := DeclaredProperties(node), RequiredNames(node);
    match FieldsFor(SortedKeys(properties.Keys + required), properties, required, depth)
    case TooDeep => TooDeep
    case Ok(fields) =>
      match IndexSignature(At(node, "additionalProperties"), fields, depth)
      case TooDeep => TooDeep
      case Ok(index) => Ok(RenderObject(fields, index))
  }

  /** The three renderings of an object type. */
  function RenderObject(fields: seq<Field>, index: Option<TsType>): TsType {
    if fields != [] then Object(fields, index)
    else if index == None then Record(Never)
    else if index == Some(Unknown) then Record(Unknown)
    else Object([], index)
  }

  /** `new Set([...])`: later repetitions are dropped. */
  function Dedupe(types: seq<TsType>): (r: seq<TsType>)
    ensures forall t :: t in r <==> t in types
    ensures forall i, j :: 0 <= i < j < |r| ==> r[i] != r[j]
  {
    if types == [] then []
    else
      var last := types[|types| - 1];
      var before := Dedupe(types[..|types| - 1]);
      assert types == types[..|types| - 1] + [last];
      if last in before then before else before + [last]
  }

  function FieldTypes(fields: seq<Field>): (r: seq<TsType>)
    ensures |r| == |fields|
    ensures forall i :: 0 <= i < |fields| ==> r[i] == fields[i].value
  {
    seq(|fields|, i requires 0 <= i < |fields| => fields[i].value)
  }

  predicate HasOptional(fields: seq<Field>) {
    exists i :: 0 <= i < |fields| && fields[i].optional
  }

  /** `Ok(None)` is a closed object, without an index signature. */
  function IndexSignature(additional: Option<Json>, fields: seq<Field>, depth: nat): Result<Option<TsType>>
    requires depth <= MAX_RECURSION_DEPTH
    decreases Fuel(depth), 1
  {
    if additional == Some(Bool(false)) then Ok(None)
    else if additional.Some? && additional.value.Obj? then
      match EmitAtDepth(additional, depth + 1)
      case TooDeep => TooDeep
      case Ok(typed) =>
        var members := Dedupe([typed] + FieldTypes(fields) + if HasOptional(fields) then [Undefined] else []);
        Ok(Some(JoinUnion(members)))
    else Ok(Some(Unknown))
  }

  function Emit(schema: Option<Json>): Result<TsType> {
    EmitAtDepth(schema, 0)
  }

  /** `renderObjectProperties`: the lists and the flag it fills, for the keys in their sorted order. */
  method RenderObjectProperties(properties: map<string, Json>, required: set<string>, depth: nat)
    returns (r: Result<seq<Field>>, namedValueTypes: seq<TsType>, hasOptionalNamedProperty: bool)
    requires depth <= MAX_RECURSION_DEPTH
    ensures r == FieldsFor(SortedKeys(properties.Keys + required), properties, required, depth)
    ensures r.Ok? ==> namedValueTypes == FieldTypes(r.value) && hasOptionalNamedProperty == HasOptional(r.value)
  {
    hide *;
    var allKeys := SortedKeys(properties.Keys + required);
    var n := 0;
    var lines: seq<Field> := [];
    namedValueTypes, hasOptionalNamedProperty := [], false;
    FieldsForNothing(allKeys, properties, required, depth);
    while n < |allKeys|
      invariant n <= |allKeys|
      invariant FieldsFor(allKeys[..n], properties, required, depth) == Ok(lines)
      invariant namedValueTypes == FieldTypes(lines)
      invariant hasOptionalNamedProperty == HasOptional(lines)
    {
      var key := allKeys[n];
      var valueType := EmitAtDepth(At(properties, key), depth + 1);
      FieldsForAppend(allKeys, n, properties, required, depth);
      if valueType.TooDeep? {
        FieldsForStops(allKeys, n + 1, properties, required, depth);
        return TooDeep, namedValueTypes, hasOptionalNamedProperty;
      }
      OptionalAppend(lines, Field(key, key !in required, valueType.value));
      namedValueTypes := namedValueTypes + [valueType.value];
      if key !in required { hasOptionalNamedProperty := true; }
      lines := lines + [Field(key, key !in required, valueType.value)];
      n := n + 1;
    }
    assert allKeys[..n] == allKeys;
    return Ok(lines), namedValueTypes, hasOptionalNamedProperty;
  }

  lemma FieldsForNothing(keys: seq<string>, properties: map<string, Json>, required: set<string>, depth: nat)
    requires depth <= MAX_RECURSION_DEPTH
    ensures FieldsFor(keys[..0], properties, required, depth) == Ok([])
    ensures FieldTypes([]) == [] && !HasOptional([])
  {
  }

  lemma OptionalAppend(fields: seq<Field>, field: Field)
    ensures HasOptional(fields + [field]) <==> HasOptional(fields) || field.optional
    ensures FieldTypes(fields + [field]) == FieldTypes(fields) + [field.value]
  {
    var all := fields + [field];
    assert forall i :: 0 <= i < |fields| ==> all[i] == fields[i];
    assert all[|fields|] == field;
  }

  lemma {:induction false} FieldsForAppend(keys: seq<string>, n: nat, properties: map<string, Json>, required: set<string>, depth: nat)
    requires depth <= MAX_RECURSION_DEPTH && n < |keys|
    ensures FieldsFor(keys[..n + 1], properties, required, depth) ==
      match FieldsFor(keys[..n], properties, required, depth)
      case TooDeep => TooDeep
      case Ok(fields) =>
        match EmitAtDepth(At(properties, keys[n]), depth + 1)
        case TooDeep => TooDeep
        case Ok(valueType) => Ok(fields + [Field(keys[n], keys[n] !in required, valueType)])
    decreases n
  {
    hide EmitAtDepth;
    if n > 0 {
      assert keys[..n + 1][1..] == keys[1..][..n] && keys[..n][1..] == keys[1..][..n - 1];
      FieldsForAppend(keys[1..], n - 1, properties, required, depth);
      var first, last := EmitAtDepth(At(properties, keys[0]), depth + 1), EmitAtDepth(At(properties, keys[n]), depth + 1);
      var middle := FieldsFor(keys[1..][..n - 1], properties, required, depth);
      if first.Ok? && middle.Ok? && last.Ok? {
        var a, b := Field(keys[0], keys[0] !in required, first.value), Field(keys[n], keys[n] !in required, last.value);
        assert [a] + (middle.value + [b]) == ([a] + middle.value) + [b];
      }
    } else {
      assert keys[..1][1..] == [] && keys[..0] == [];
      var first := EmitAtDepth(At(properties, keys[0]), depth + 1);
      if first.Ok? {
        var field := Field(keys[0], keys[0] !in required, first.value);
        assert [field] + [] == [] + [field];
      }
    }
  }

  lemma {:induction false} FieldsForStops(keys: seq<string>, n: nat, properties: map<string, Json>, required: set<string>, depth: nat)
    requires depth <= MAX_RECURSION_DEPTH && n <= |keys|
    requires FieldsFor(keys[..n], properties, required, depth) == TooDeep
    ensures FieldsFor(keys, properties, required, depth) == TooDeep
    decreases |keys| - n
  {
    hide EmitAtDepth;
    if n < |keys| {
      FieldsForAppend(keys, n, properties, required, depth);
      FieldsForStops(keys, n + 1, properties, required, depth);
    } else {
      assert keys[..n] == keys;
    }
  }
}
