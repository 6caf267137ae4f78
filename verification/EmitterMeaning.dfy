/**
 * What every emitted type contains, said of the schema: exactly the values that the schema allows once
 * everything is left out that the emitter does not look at.
 */
module EmitterMeaning {
  import opened Basics
  import opened JsonValues
  import opened SchemaEmitter
  import opened SchemaSemantics
  import opened EmitterSoundness
  import opened EmitterLimits

  // ---------- the meaning ----------

  /** Beside annotations the node holds none but these keywords. */
  predicate Only(node: map<string, Json>, keys: set<string>) {
    forall key :: key in node && key !in ANNOTATION_ONLY_KEYWORDS ==> key in keys
  }

  predicate Lists(node: map<string, Json>, key: string) {
    key in node && node[key].Arr?
  }

  predicate Scalar(j: Json) {
    !j.Arr? && !j.Obj?
  }

  /** One combinator is a list, and the others are not. */
  predicate LoneCombinator(node: map<string, Json>) {
    || (Lists(node, "oneOf") && !Lists(node, "anyOf") && !Lists(node, "allOf"))
    || (!Lists(node, "oneOf") && Lists(node, "anyOf") && !Lists(node, "allOf"))
    || (!Lists(node, "oneOf") && !Lists(node, "anyOf") && Lists(node, "allOf"))
  }

  ghost predicate Means(schema: Json, v: Json)
    decreases schema, 3
  {
    match schema
    case Bool(b) => b
    case Obj(node) => MeansNode(node, v)
    case _ => true
  }

  ghost predicate MeansNode(node: map<string, Json>, v: Json)
    decreases Obj(node), 2
  {
    if Lists(node, "oneOf") || Lists(node, "anyOf") || Lists(node, "allOf") then
      LoneCombinator(node) && Only(node, {"oneOf", "anyOf", "allOf"}) ==> MeansBranches(node, v)
    else if "const" in node then
      !Lists(node, "enum") && Only(node, {"const"}) && Scalar(node["const"]) ==> v == node["const"]
    else if Lists(node, "enum") then
      Only(node, {"enum"}) && node["enum"].items != [] && (forall j :: j in node["enum"].items ==> Scalar(j)) ==> v in node["enum"].items
    else MeansTypes(node, v)
  }

  /** `oneOf` and `anyOf` alike ask for some branch, `allOf` for each. */
  ghost predicate MeansBranches(node: map<string, Json>, v: Json)
    decreases Obj(node), 0
  {
    && ("oneOf" in node && node["oneOf"].Arr? ==>
          node["oneOf"].items == [] || exists i :: 0 <= i < |node["oneOf"].items| && Means(node["oneOf"].items[i], v))
    && ("anyOf" in node && node["anyOf"].Arr? ==>
          node["anyOf"].items == [] || exists i :: 0 <= i < |node["anyOf"].items| && Means(node["anyOf"].items[i], v))
    && ("allOf" in node && node["allOf"].Arr? ==>
          forall i :: 0 <= i < |node["allOf"].items| ==> Means(node["allOf"].items[i], v))
  }

  ghost predicate MeansTypes(node: map<string, Json>, v: Json)
    decreases Obj(node), 1, 1
  {
    match At(node, "type")
    case Some(Arr(names)) =>
      names == [] || exists i :: 0 <= i < |names| && (names[i].Str? ==> MeansType(node, names[i].s, true, v))
    case Some(Str(name)) => if name in TYPE_NAMES then MeansType(node, name, false, v) else MeansShape(node, v)
    case _ => MeansShape(node, v)
  }

  /** Integers are numbers. */
  predicate IsOfKind(name: string, v: Json) {
    || (name == "string" && v.Str?)
    || (name == "number" && v.Num?)
    || (name == "integer" && v.Num?)
    || (name == "boolean" && v.Bool?)
    || (name == "null" && v.Null?)
  }

  const ARRAY_WORDS: set<string> := {"items", "prefixItems", "additionalItems"}
  const OBJECT_WORDS: set<string> := {"properties", "required", "additionalProperties"}

  /** The keywords that may stand beside a type; a list of types sets those of other types aside. */
  function Beside(name: string, listed: bool): set<string> {
    if name == "array" then {"type"} + ARRAY_WORDS + if listed then OBJECT_WORDS else {}
    else if name == "object" then {"type"} + OBJECT_WORDS + if listed then ARRAY_WORDS else {}
    else {"type"} + if listed then OBJECT_WORDS + ARRAY_WORDS else {}
  }

  ghost predicate MeansType(node: map<string, Json>, name: string, listed: bool, v: Json)
    decreases Obj(node), 1, 0
  {
    name in TYPE_NAMES && Only(node, Beside(name, listed)) ==> MeansKind(node, name, v)
  }

  ghost predicate MeansKind(node: map<string, Json>, name: string, v: Json)
    decreases Obj(node), 0, 2
  {
    if name == "array" then MeansArray(node, v) else if name == "object" then MeansObject(node, v) else IsOfKind(name, v)
  }

  ghost predicate MeansShape(node: map<string, Json>, v: Json)
    decreases Obj(node), 1, 0
  {
    if "properties" in node || "additionalProperties" in node then
      Only(node, {"type"} + OBJECT_WORDS) ==> MeansObject(node, v)
    else if "items" in node || "prefixItems" in node then
      Only(node, {"type"} + ARRAY_WORDS) ==> MeansArray(node, v)
    else true
  }

  /** Every position is filled, and what follows suits the schema for the rest. */
  ghost predicate MeansArray(node: map<string, Json>, v: Json)
    decreases Obj(node), 0, 0
  {
    v.Arr? &&
    if "prefixItems" in node && node["prefixItems"].Arr? then
      var positions := node["prefixItems"].items;
      && |positions| <= |v.items|
      && (forall i :: 0 <= i < |positions| ==> Means(positions[i], v.items[i]))
      && ("items" in node ==> forall i :: |positions| <= i < |v.items| ==> Means(node["items"], v.items[i]))
    else if "items" in node && node["items"].Arr? then
      var positions := node["items"].items;
      && |positions| <= |v.items|
      && (forall i :: 0 <= i < |positions| ==> Means(positions[i], v.items[i]))
      && ("additionalItems" in node ==> forall i :: |positions| <= i < |v.items| ==> Means(node["additionalItems"], v.items[i]))
    else
      "items" in node ==> forall i :: 0 <= i < |v.items| ==> Means(node["items"], v.items[i])
  }

  predicate Declares(node: map<string, Json>, k: string) {
    "properties" in node && node["properties"].Obj? && k in node["properties"].members
  }

  predicate Demands(node: map<string, Json>, k: string) {
    "required" in node && node["required"].Arr? && Str(k) in node["required"].items
  }

  /** The value suits the type of the property `k`, which is `unknown` when it is only required. */
  ghost predicate MeansNamed(node: map<string, Json>, k: string, w: Json)
    decreases Obj(node), 0, 0
  {
    "properties" in node && node["properties"].Obj? && k in node["properties"].members ==> Means(node["properties"].members[k], w)
  }

  /**
   * Required members are there, declared ones suit their schemas. A closed object has no others than those;
   * typed further members widen to the types of the named ones.
   */
  ghost predicate MeansObject(node: map<string, Json>, v: Json)
    decreases Obj(node), 0, 1
  {
    && v.Obj?
    && (forall k :: Demands(node, k) ==> k in v.members)
    && (forall k :: Declares(node, k) && k in v.members ==> MeansNamed(node, k, v.members[k]))
    && ("additionalProperties" in node && node["additionalProperties"] == Bool(false) ==>
          forall k :: k in v.members ==> Declares(node, k) || Demands(node, k))
    && ("additionalProperties" in node && node["additionalProperties"].Obj? ==>
          forall k :: k in v.members ==>
            Means(node["additionalProperties"], v.members[k])
            || exists named :: (Declares(node, named) || Demands(node, named)) && MeansNamed(node, named, v.members[k]))
  }

  // ---------- leaves ----------

  lemma SiblingsAre(node: map<string, Json>, keys: set<string>)
    ensures HasUnexpectedSibling(node, keys) <==> !Only(node, keys)
  {
  }

  lemma ListsAre(node: map<string, Json>, key: string)
    ensures Lists(node, key) <==> AsArray(At(node, key)).Some?
  {
  }

  /** Some of the types, or `unknown` when there are none. */
  lemma UnionExact(types: seq<TsType>, v: Json)
    ensures Inhabits(JoinUnion(types), v) <==> types == [] || exists i :: 0 <= i < |types| && Inhabits(types[i], v)
  {
    if types != [] {
      JoinUnionExact(types, v);
    }
  }

  lemma IntersectionExact(types: seq<TsType>, v: Json)
    ensures Inhabits(JoinIntersection(types), v) <==> forall i :: 0 <= i < |types| ==> Inhabits(types[i], v)
  {
    if |types| == 1 {
      assert types == [types[0]];
    }
  }

  lemma LiteralExact(value: Json, v: Json)
    ensures Inhabits(LiteralFromValue(value), v) <==> (Scalar(value) ==> v == value)
    ensures LiteralFromValue(value) == Unknown <==> !Scalar(value)
  {
  }

  lemma EnumExact(entries: seq<Json>, v: Json)
    ensures Inhabits(EnumLiterals(entries), v) <==>
      (entries != [] && (forall j :: j in entries ==> Scalar(j)) ==> v in entries)
  {
    var literals := Literals(entries);
    UnknownSound(v);
    UnionExact(literals, v);
    hide Inhabits, JoinUnion, LiteralFromValue;
    forall i | 0 <= i < |entries|
      ensures Inhabits(literals[i], v) <==> (Scalar(entries[i]) ==> v == entries[i])
      ensures literals[i] == Unknown <==> !Scalar(entries[i])
    {
      LiteralExact(entries[i], v);
    }
    if Unknown in literals {
      var i :| 0 <= i < |literals| && literals[i] == Unknown;
      assert entries[i] in entries;
    } else {
      forall i | 0 <= i < |entries| ensures Scalar(entries[i]) {
        assert literals[i] in literals;
      }
    }
  }

  lemma LiteralNodeExact(node: map<string, Json>, v: Json)
    requires "const" in node || Lists(node, "enum")
    requires !Lists(node, "oneOf") && !Lists(node, "anyOf") && !Lists(node, "allOf")
    ensures TryEnumOrConst(node).Gave? && TryEnumOrConst(node).result.Ok?
    ensures Inhabits(TryEnumOrConst(node).result.value, v) <==> MeansNode(node, v)
  {
    UnknownSound(v);
    SiblingsAre(node, {"const"});
    SiblingsAre(node, {"enum"});
    ListsAre(node, "enum");
    hide Inhabits, HasUnexpectedSibling, EnumLiterals, LiteralFromValue, Only;
    if "const" in node {
      LiteralExact(node["const"], v);
    } else {
      EnumExact(node["enum"].items, v);
    }
  }

  // ---------- the recursion ----------

  /**
   * For every schema that does not throw and every value, the value is in the emitted type exactly when
   * the schema means it.
   */
  lemma {:induction false} EmissionIsExact(schema: Json, depth: nat, v: Json)
    requires EmitAtDepth(Some(schema), depth).Ok?
    ensures Inhabits(EmitAtDepth(Some(schema), depth).value, v) <==> Means(schema, v)
    decreases Fuel(depth), 9
  {
    match schema
    case Obj(node) =>
      hide Inhabits;
      NodeExact(node, depth, v);
    case _ =>
  }

  lemma {:induction false} NodeExact(node: map<string, Json>, depth: nat, v: Json)
    requires EmitAtDepth(Some(Obj(node)), depth).Ok?
    ensures Inhabits(EmitAtDepth(Some(Obj(node)), depth).value, v) <==> MeansNode(node, v)
    decreases Fuel(depth), 8
  {
    hide Inhabits, TryCombinator, TryEnumOrConst, DispatchByType, DispatchByShape, MeansBranches, MeansTypes, Only, LoneCombinator;
    ListsAre(node, "oneOf");
    ListsAre(node, "anyOf");
    ListsAre(node, "allOf");
    ListsAre(node, "enum");
    if Lists(node, "oneOf") || Lists(node, "anyOf") || Lists(node, "allOf") {
      CombinatorExact(node, depth, v);
    } else {
      NothingCombined(node, depth);
      if "const" in node || Lists(node, "enum") {
        LiteralNodeExact(node, v);
      } else {
        NothingLiteral(node);
        TypesExact(node, depth, v);
      }
    }
  }

  lemma NothingCombined(node: map<string, Json>, depth: nat)
    requires depth <= MAX_RECURSION_DEPTH && !Lists(node, "oneOf") && !Lists(node, "anyOf") && !Lists(node, "allOf")
    ensures TryCombinator(node, depth) == Passed
  {
    hide HasUnexpectedSibling, EmitAll;
  }

  lemma NothingLiteral(node: map<string, Json>)
    requires "const" !in node && !Lists(node, "enum")
    ensures TryEnumOrConst(node) == Passed
  {
    hide HasUnexpectedSibling;
  }

  lemma {:induction false} CombinatorExact(node: map<string, Json>, depth: nat, v: Json)
    requires depth <= MAX_RECURSION_DEPTH && (Lists(node, "oneOf") || Lists(node, "anyOf") || Lists(node, "allOf"))
    ensures TryCombinator(node, depth).Gave?
    ensures TryCombinator(node, depth).result.Ok? ==>
      (Inhabits(TryCombinator(node, depth).result.value, v) <==>
        (LoneCombinator(node) && Only(node, {"oneOf", "anyOf", "allOf"}) ==> MeansBranches(node, v)))
    decreases Fuel(depth), 7
  {
    UnknownSound(v);
    SiblingsAre(node, {"oneOf", "anyOf", "allOf"});
    hide Inhabits, HasUnexpectedSibling, Only, EmitAtDepth, Means, JoinUnion, JoinIntersection, EmitAll;
    assert COMBINATOR_KEYS == {"oneOf", "anyOf", "allOf"};
    if LoneCombinator(node) && Only(node, {"oneOf", "anyOf", "allOf"}) && TryCombinator(node, depth).result.Ok? {
      var branches := if Lists(node, "oneOf") then node["oneOf"].items else if Lists(node, "anyOf") then node["anyOf"].items else node["allOf"].items;
      var types := EmitAll(branches, depth + 1).value;
      AllExact(branches, depth + 1, v);
      UnionExact(types, v);
      IntersectionExact(types, v);
    }
  }

  lemma {:induction false} AllExact(schemas: seq<Json>, depth: nat, v: Json)
    requires EmitAll(schemas, depth).Ok?
    ensures forall i :: 0 <= i < |schemas| ==> (Inhabits(EmitAll(schemas, depth).value[i], v) <==> Means(schemas[i], v))
    decreases Fuel(depth), 10
  {
    hide EmitAtDepth, Means, Inhabits, EmitAll;
    forall i | 0 <= i < |schemas| ensures Inhabits(EmitAll(schemas, depth).value[i], v) <==> Means(schemas[i], v) {
      EmissionIsExact(schemas[i], depth, v);
    }
  }

  lemma {:induction false} TypesExact(node: map<string, Json>, depth: nat, v: Json)
    requires depth <= MAX_RECURSION_DEPTH && TryCombinator(node, depth) == Passed && TryEnumOrConst(node) == Passed
    requires !Lists(node, "oneOf") && !Lists(node, "anyOf") && !Lists(node, "allOf") && "const" !in node && !Lists(node, "enum")
    requires EmitAtDepth(Some(Obj(node)), depth).Ok?
    ensures Inhabits(EmitAtDepth(Some(Obj(node)), depth).value, v) <==> MeansTypes(node, v)
    decreases Fuel(depth), 7
  {
    UnknownSound(v);
    ListsAre(node, "type");
    hide Inhabits, TryCombinator, TryEnumOrConst, DispatchTypeString, DispatchByShape, MeansType, MeansShape, ExpandTypeArray, JoinUnion, Lists;
    match At(node, "type")
    case Some(Arr(names)) =>
      NamesExact(node, names, depth, v);
    case Some(Str(name)) =>
      if name in TYPE_NAMES {
        TypeExact(node, name, depth, v);
      } else {
        UnknownTypePasses(node, name, depth);
        ShapeExact(node, depth, v);
      }
    case _ =>
      ShapeExact(node, depth, v);
  }

  lemma UnknownTypePasses(node: map<string, Json>, name: string, depth: nat)
    requires depth <= MAX_RECURSION_DEPTH && name !in TYPE_NAMES
    ensures DispatchTypeString(node, name, depth) == Passed
  {
    hide HasUnexpectedSibling, ArrayType, ObjectType;
  }

  lemma {:induction false} NamesExact(node: map<string, Json>, names: seq<Json>, depth: nat, v: Json)
    requires depth <= MAX_RECURSION_DEPTH && At(node, "type") == Some(Arr(names)) && ExpandTypeArray(node, names, depth).Ok?
    requires Lists(node, "type") && !Lists(node, "oneOf") && !Lists(node, "anyOf") && !Lists(node, "allOf") && "const" !in node && !Lists(node, "enum")
    ensures Inhabits(JoinUnion(ExpandTypeArray(node, names, depth).value), v) <==>
      (names == [] || exists i :: 0 <= i < |names| && (names[i].Str? ==> MeansType(node, names[i].s, true, v)))
    decreases Fuel(depth), 6
  {
    hide Inhabits, JoinUnion, ExpandTypeArray, MeansType, EmitAtDepth, Project, Lists;
    var types := ExpandTypeArray(node, names, depth).value;
    UnionExact(types, v);
    UnknownSound(v);
    forall i | 0 <= i < |names| ensures Inhabits(types[i], v) <==> (names[i].Str? ==> MeansType(node, names[i].s, true, v)) {
      if names[i].Str? {
        NameExact(node, names[i].s, depth + 1, v);
      }
    }
  }

  /** The node cut down to one of its types means what the node means for that type. */
  lemma {:induction false} NameExact(node: map<string, Json>, name: string, depth: nat, v: Json)
    requires Lists(node, "type") && EmitAtDepth(Some(Obj(Project(node, name))), depth).Ok?
    requires !Lists(node, "oneOf") && !Lists(node, "anyOf") && !Lists(node, "allOf") && "const" !in node && !Lists(node, "enum")
    ensures Inhabits(EmitAtDepth(Some(Obj(Project(node, name))), depth).value, v) <==> MeansType(node, name, true, v)
    decreases Fuel(depth), 9
  {
    OkWithinDepth(Some(Obj(Project(node, name))), depth);
    UnknownSound(v);
    hide Inhabits, Project, MeansKind, Only, Beside;
    if name in TYPE_NAMES {
      ProjectedNode(node, name);
      ProjectedMeans(node, name, v);
      SingleTypeExact(Project(node, name), name, depth, v);
    } else {
      UnknownName(node, name, depth);
    }
  }

  lemma {:induction false} SingleTypeExact(node: map<string, Json>, name: string, depth: nat, v: Json)
    requires depth <= MAX_RECURSION_DEPTH && name in TYPE_NAMES && EmitAtDepth(Some(Obj(node)), depth).Ok?
    requires At(node, "type") == Some(Str(name))
    requires !Lists(node, "oneOf") && !Lists(node, "anyOf") && !Lists(node, "allOf") && "const" !in node && !Lists(node, "enum")
    ensures Inhabits(EmitAtDepth(Some(Obj(node)), depth).value, v) <==> MeansType(node, name, false, v)
    decreases Fuel(depth), 8
  {
    hide Inhabits, MeansType, DispatchTypeString, TryCombinator, TryEnumOrConst, Lists, EmitAtDepth;
    NothingCombined(node, depth);
    NothingLiteral(node);
    TypeExact(node, name, depth, v);
    SingleTypeEmits(node, name, depth);
  }

  lemma SingleTypeEmits(node: map<string, Json>, name: string, depth: nat)
    requires depth <= MAX_RECURSION_DEPTH && At(node, "type") == Some(Str(name))
    requires TryCombinator(node, depth) == Passed && TryEnumOrConst(node) == Passed && DispatchTypeString(node, name, depth).Gave?
    ensures EmitAtDepth(Some(Obj(node)), depth) == DispatchTypeString(node, name, depth).result
  {
    hide TryCombinator, TryEnumOrConst, DispatchTypeString, DispatchByShape;
    assert DispatchByType(node, depth) == DispatchTypeString(node, name, depth);
  }

  lemma ProjectedNode(node: map<string, Json>, name: string)
    requires !Lists(node, "oneOf") && !Lists(node, "anyOf") && !Lists(node, "allOf") && "const" !in node && !Lists(node, "enum")
    ensures var p := Project(node, name);
            && !Lists(p, "oneOf") && !Lists(p, "anyOf") && !Lists(p, "allOf") && "const" !in p && !Lists(p, "enum")
            && At(p, "type") == Some(Str(name))
  {
    var p := Project(node, name);
    assert forall k :: k in p && k != "type" ==> k in node && p[k] == node[k];
  }

  lemma ProjectedMeans(node: map<string, Json>, name: string, v: Json)
    requires "type" in node
    ensures MeansType(Project(node, name), name, false, v) <==> MeansType(node, name, true, v)
  {
    ProjectedOnly(node, name);
    ProjectedKeeps(node, name);
    hide Project, Only, Beside, MeansArray, MeansObject;
    if name == "array" {
      SameArray(node, Project(node, name), v);
    } else if name == "object" {
      SameObject(node, Project(node, name), v);
    }
  }

  lemma ProjectedKeeps(node: map<string, Json>, name: string)
    ensures var p := Project(node, name);
            && (name == "array" ==> forall k :: k in ARRAY_WORDS ==> At(p, k) == At(node, k))
            && (name == "object" ==> forall k :: k in OBJECT_WORDS ==> At(p, k) == At(node, k))
  {
  }

  lemma ProjectedOnly(node: map<string, Json>, name: string)
    requires "type" in node
    ensures Only(Project(node, name), Beside(name, false)) <==> Only(node, Beside(name, true))
  {
    var p := Project(node, name);
    assert forall k :: k in p <==> k == "type" || (k in node && Projected(k, name));
    hide Project;
    forall k ensures k in Beside(name, true) <==> k in Beside(name, false) || !Projected(k, name) {
    }
  }

  lemma SameArray(node: map<string, Json>, p: map<string, Json>, v: Json)
    requires forall k :: k in ARRAY_WORDS ==> At(p, k) == At(node, k)
    ensures MeansArray(p, v) <==> MeansArray(node, v)
  {
    hide Means;
    assert At(p, "items") == At(node, "items") && At(p, "prefixItems") == At(node, "prefixItems");
    assert At(p, "additionalItems") == At(node, "additionalItems");
  }

  lemma SameObject(node: map<string, Json>, p: map<string, Json>, v: Json)
    requires forall k :: k in OBJECT_WORDS ==> At(p, k) == At(node, k)
    ensures MeansObject(p, v) <==> MeansObject(node, v)
  {
    hide Means;
    assert At(p, "properties") == At(node, "properties") && At(p, "required") == At(node, "required");
    assert At(p, "additionalProperties") == At(node, "additionalProperties");
    assert forall k :: Declares(p, k) <==> Declares(node, k);
    assert forall k :: Demands(p, k) <==> Demands(node, k);
    assert forall k, w :: MeansNamed(p, k, w) <==> MeansNamed(node, k, w);
    hide Declares, Demands, MeansNamed;
  }

  lemma {:induction false} TypeExact(node: map<string, Json>, name: string, depth: nat, v: Json)
    requires depth <= MAX_RECURSION_DEPTH && name in TYPE_NAMES
    ensures DispatchTypeString(node, name, depth).Gave?
    ensures DispatchTypeString(node, name, depth).result.Ok? ==>
      (Inhabits(DispatchTypeString(node, name, depth).result.value, v) <==> MeansType(node, name, false, v))
    decreases Fuel(depth), 5
  {
    UnknownSound(v);
    SiblingsAre(node, Beside(name, false));
    SupportedAreBeside(name);
    hide Inhabits, HasUnexpectedSibling, Only, ArrayType, ObjectType, MeansArray, MeansObject, PrimitiveTypeFor, Beside;
    if name == "array" {
      if ArrayType(node, depth).Ok? { ArrayExact(node, depth, v); }
    } else if name == "object" {
      if ObjectType(node, depth).Ok? { ObjectExact(node, depth, v); }
    } else {
      PrimitiveExact(name, v);
    }
  }

  lemma SupportedAreBeside(name: string)
    ensures Beside(name, false) ==
      if name == "array" then ARRAY_SUPPORTED_KEYS else if name == "object" then OBJECT_SUPPORTED_KEYS else PRIMITIVE_SUPPORTED_KEYS
  {
  }

  lemma PrimitiveExact(name: string, v: Json)
    requires name in TYPE_NAMES && name != "array" && name != "object"
    ensures PrimitiveTypeFor(name).Some? && (Inhabits(PrimitiveTypeFor(name).value, v) <==> IsOfKind(name, v))
  {
  }

  lemma {:induction false} ShapeExact(node: map<string, Json>, depth: nat, v: Json)
    requires depth <= MAX_RECURSION_DEPTH
    ensures var shape := DispatchByShape(node, depth);
            if shape.Passed? then MeansShape(node, v)
            else shape.result.Ok? ==> (Inhabits(shape.result.value, v) <==> MeansShape(node, v))
    decreases Fuel(depth), 5
  {
    UnknownSound(v);
    SiblingsAre(node, {"type"} + ARRAY_WORDS);
    SiblingsAre(node, {"type"} + OBJECT_WORDS);
    assert ARRAY_SUPPORTED_KEYS == {"type"} + ARRAY_WORDS && OBJECT_SUPPORTED_KEYS == {"type"} + OBJECT_WORDS;
    hide Inhabits, HasUnexpectedSibling, Only, ArrayType, ObjectType, MeansArray, MeansObject;
    if "properties" in node || "additionalProperties" in node {
      if ObjectType(node, depth).Ok? { ObjectExact(node, depth, v); }
    } else if "items" in node || "prefixItems" in node {
      if ArrayType(node, depth).Ok? { ArrayExact(node, depth, v); }
    }
  }

  // ---------- arrays ----------

  lemma {:induction false} ArrayExact(node: map<string, Json>, depth: nat, v: Json)
    requires depth <= MAX_RECURSION_DEPTH && ArrayType(node, depth).Ok?
    ensures Inhabits(ArrayType(node, depth).value, v) <==> MeansArray(node, v)
    decreases Fuel(depth), 4
  {
    hide EmitAtDepth, Means, EmitAll;
    if v.Arr? {
      if Positions(node).Some? {
        TupleExact(node, depth, v);
      } else if "items" in node {
        EachExact(node["items"], depth, v.items, 0);
      }
    }
  }

  /** What the emitter writes for a rest or an element schema, with the two Booleans it does not emit. */
  lemma {:induction false} EachExact(schema: Json, depth: nat, items: seq<Json>, from: nat)
    requires depth <= MAX_RECURSION_DEPTH && from <= |items|
    ensures schema == Bool(true) ==> forall i :: from <= i < |items| ==> Means(schema, items[i])
    ensures schema == Bool(false) ==> ((forall i :: from <= i < |items| ==> Means(schema, items[i])) <==> |items| == from)
    ensures EmitAtDepth(Some(schema), depth + 1).Ok? ==>
      forall i :: from <= i < |items| ==> (Inhabits(EmitAtDepth(Some(schema), depth + 1).value, items[i]) <==> Means(schema, items[i]))
    decreases Fuel(depth), 2
  {
    BooleansMean(items, from);
    hide EmitAtDepth, Means, Inhabits;
    if EmitAtDepth(Some(schema), depth + 1).Ok? {
      forall i | from <= i < |items| ensures Inhabits(EmitAtDepth(Some(schema), depth + 1).value, items[i]) <==> Means(schema, items[i]) {
        EmissionIsExact(schema, depth + 1, items[i]);
      }
    }
  }

  lemma BooleansMean(items: seq<Json>, from: nat)
    requires from <= |items|
    ensures forall i :: from <= i < |items| ==> Means(Bool(true), items[i])
    ensures (forall i :: from <= i < |items| ==> Means(Bool(false), items[i])) <==> |items| == from
  {
    if from < |items| {
      assert !Means(Bool(false), items[from]);
    }
  }

  lemma {:induction false} TupleExact(node: map<string, Json>, depth: nat, v: Json)
    requires depth <= MAX_RECURSION_DEPTH && ArrayType(node, depth).Ok? && v.Arr? && Positions(node).Some?
    ensures Inhabits(ArrayType(node, depth).value, v) <==> MeansArray(node, v)
    decreases Fuel(depth), 3
  {
    hide EmitAtDepth, Means, EmitAll;
    var positions, rest := Positions(node).value, RestSchema(node);
    var types := EmitAll(positions, depth + 1).value;
    if |positions| <= |v.items| {
      forall i | 0 <= i < |positions| ensures Inhabits(types[i], v.items[i]) <==> Means(positions[i], v.items[i]) {
        EmissionIsExact(positions[i], depth + 1, v.items[i]);
      }
      if rest.Some? {
        EachExact(rest.value, depth, v.items, |positions|);
      }
    }
  }

  // ---------- objects ----------

  lemma NamesAre(node: map<string, Json>, k: string)
    ensures k in DeclaredProperties(node) <==> Declares(node, k)
    ensures k in RequiredNames(node) <==> Demands(node, k)
  {
    if "required" in node && node["required"].Arr? && k in RequiredNames(node) {
      var entry :| entry in node["required"].items && entry.Str? && entry.s == k;
      assert entry == Str(k);
    }
  }

  lemma {:induction false} NamedExact(node: map<string, Json>, k: string, depth: nat, w: Json)
    requires depth <= MAX_RECURSION_DEPTH && EmitAtDepth(At(DeclaredProperties(node), k), depth + 1).Ok?
    ensures Inhabits(EmitAtDepth(At(DeclaredProperties(node), k), depth + 1).value, w) <==> MeansNamed(node, k, w)
    decreases Fuel(depth), 0
  {
    EmitUndefined(depth + 1);
    UnknownSound(w);
    hide EmitAtDepth, Inhabits, Means;
    if k in DeclaredProperties(node) {
      EmissionIsExact(DeclaredProperties(node)[k], depth + 1, w);
    }
  }

  /** What an object type asks of an object. */
  lemma RenderedExact(fields: seq<Field>, index: Option<TsType>, v: Json)
    ensures Inhabits(RenderObject(fields, index), v) <==>
      && v.Obj?
      && (forall i :: 0 <= i < |fields| ==> FieldHolds(fields[i], v.members))
      && (forall k :: k in v.members ==> IndexHolds(fields, index, v.members, k))
  {
    if v.Obj? {
      if fields == [] && index == None {
        assert forall k :: k in v.members ==> !Inhabits(Never, v.members[k]);
      }
      assert forall k :: k in v.members && index.None? ==> (IndexHolds(fields, index, v.members, k) <==> exists i :: 0 <= i < |fields| && fields[i].name == k);
    }
  }

  lemma {:induction false} ObjectExact(node: map<string, Json>, depth: nat, v: Json)
    requires depth <= MAX_RECURSION_DEPTH && ObjectType(node, depth).Ok?
    ensures Inhabits(ObjectType(node, depth).value, v) <==> MeansObject(node, v)
    decreases Fuel(depth), 4, 1
  {
    hide EmitAtDepth, FieldsFor, IndexSignature, DeclaredProperties, RequiredNames, SortedKeys, Inhabits, FieldHolds, IndexHolds,
      RenderObject, Means, MeansNamed, Declares, Demands;
    var properties, required := DeclaredProperties(node), RequiredNames(node);
    var keys := SortedKeys(properties.Keys + required);
    var fields := FieldsFor(keys, properties, required, depth).value;
    var index := IndexSignature(At(node, "additionalProperties"), fields, depth).value;
    RenderedExact(fields, index, v);
    if v.Obj? {
      FieldsExact(node, depth, v.members);
      IndicesExact(node, depth, v.members);
    }
  }

  lemma {:induction false} FieldExact(node: map<string, Json>, keys: seq<string>, depth: nat, members: map<string, Json>, i: nat)
    requires depth <= MAX_RECURSION_DEPTH && i < |keys| && FieldsFor(keys, DeclaredProperties(node), RequiredNames(node), depth).Ok?
    ensures var k, field := keys[i], FieldsFor(keys, DeclaredProperties(node), RequiredNames(node), depth).value[i];
            FieldHolds(field, members) <==> NamedHolds(node, k, members)
    decreases Fuel(depth), 2
  {
    hide EmitAtDepth, FieldsFor, DeclaredProperties, RequiredNames, Inhabits, MeansNamed, Declares, Demands;
    NamesAre(node, keys[i]);
    if keys[i] in members { NamedExact(node, keys[i], depth, members[keys[i]]); }
  }

  lemma KeysAre(node: map<string, Json>, k: string)
    ensures k in SortedKeys(DeclaredProperties(node).Keys + RequiredNames(node)) <==> Declares(node, k) || Demands(node, k)
  {
    hide SortedKeys, DeclaredProperties, RequiredNames, Declares, Demands;
    NamesAre(node, k);
  }

  /** What the fields ask of the members, key by key. */
  ghost predicate NamedHolds(node: map<string, Json>, k: string, members: map<string, Json>) {
    if k in members then MeansNamed(node, k, members[k]) else !Demands(node, k)
  }

  lemma {:induction false} FieldsExact(node: map<string, Json>, depth: nat, members: map<string, Json>)
    requires depth <= MAX_RECURSION_DEPTH && ObjectType(node, depth).Ok?
    ensures var keys := SortedKeys(DeclaredProperties(node).Keys + RequiredNames(node));
            var fields := FieldsFor(keys, DeclaredProperties(node), RequiredNames(node), depth).value;
            (forall i :: 0 <= i < |fields| ==> FieldHolds(fields[i], members)) <==>
              && (forall k :: Demands(node, k) ==> k in members)
              && (forall k :: Declares(node, k) && k in members ==> MeansNamed(node, k, members[k]))
    decreases Fuel(depth), 4, 0
  {
    hide *;
    AllKeysAre(node);
    ObjectFieldsOk(node, depth);
    FieldsExactOver(node, SortedKeys(DeclaredProperties(node).Keys + RequiredNames(node)), depth, members);
  }

  lemma AllKeysAre(node: map<string, Json>)
    ensures forall k :: k in SortedKeys(DeclaredProperties(node).Keys + RequiredNames(node)) <==> Declares(node, k) || Demands(node, k)
  {
    hide *;
    forall k ensures k in SortedKeys(DeclaredProperties(node).Keys + RequiredNames(node)) <==> Declares(node, k) || Demands(node, k) {
      KeysAre(node, k);
    }
  }

  lemma ObjectFieldsOk(node: map<string, Json>, depth: nat)
    requires depth <= MAX_RECURSION_DEPTH && ObjectType(node, depth).Ok?
    ensures FieldsFor(SortedKeys(DeclaredProperties(node).Keys + RequiredNames(node)), DeclaredProperties(node), RequiredNames(node), depth).Ok?
  {
    hide EmitAtDepth, FieldsFor, IndexSignature, DeclaredProperties, RequiredNames, SortedKeys, RenderObject;
  }

  lemma {:induction false} FieldsExactOver(node: map<string, Json>, keys: seq<string>, depth: nat, members: map<string, Json>)
    requires depth <= MAX_RECURSION_DEPTH && FieldsFor(keys, DeclaredProperties(node), RequiredNames(node), depth).Ok?
    requires forall k :: k in keys <==> Declares(node, k) || Demands(node, k)
    ensures var fields := FieldsFor(keys, DeclaredProperties(node), RequiredNames(node), depth).value;
            (forall i :: 0 <= i < |fields| ==> FieldHolds(fields[i], members)) <==>
              && (forall k :: Demands(node, k) ==> k in members)
              && (forall k :: Declares(node, k) && k in members ==> MeansNamed(node, k, members[k]))
    decreases Fuel(depth), 3
  {
    hide *;
    var fields := FieldsFor(keys, DeclaredProperties(node), RequiredNames(node), depth).value;
    forall i | 0 <= i < |fields| ensures FieldHolds(fields[i], members) <==> NamedHolds(node, keys[i], members) {
      FieldExact(node, keys, depth, members, i);
    }
    FieldByField(node, fields, keys, members);
    NamedHoldsAll(node, keys, members);
  }

  lemma FieldByField(node: map<string, Json>, fields: seq<Field>, keys: seq<string>, members: map<string, Json>)
    requires |fields| == |keys|
    requires forall i :: 0 <= i < |fields| ==> (FieldHolds(fields[i], members) <==> NamedHolds(node, keys[i], members))
    ensures (forall i :: 0 <= i < |fields| ==> FieldHolds(fields[i], members)) <==> forall k :: k in keys ==> NamedHolds(node, k, members)
  {
    hide FieldHolds, NamedHolds;
    if forall k :: k in keys ==> NamedHolds(node, k, members) {
      forall i | 0 <= i < |fields| ensures FieldHolds(fields[i], members) {
        assert keys[i] in keys;
      }
    }
  }

  lemma NamedHoldsAll(node: map<string, Json>, keys: seq<string>, members: map<string, Json>)
    requires forall k :: k in keys <==> Declares(node, k) || Demands(node, k)
    ensures (forall k :: k in keys ==> NamedHolds(node, k, members)) <==>
              && (forall k :: Demands(node, k) ==> k in members)
              && (forall k :: Declares(node, k) && k in members ==> MeansNamed(node, k, members[k]))
  {
    UndeclaredMeansAnything(node, members);
    hide MeansNamed, Declares, Demands;
    if forall k :: k in keys ==> NamedHolds(node, k, members) {
      forall k | Demands(node, k) ensures k in members {
        assert k in keys && NamedHolds(node, k, members);
      }
      forall k | Declares(node, k) && k in members ensures MeansNamed(node, k, members[k]) {
        assert k in keys && NamedHolds(node, k, members);
      }
    }
  }

  lemma UndeclaredMeansAnything(node: map<string, Json>, members: map<string, Json>)
    ensures forall k, w :: !Declares(node, k) ==> MeansNamed(node, k, w)
  {
  }

  lemma {:induction false} IndicesExact(node: map<string, Json>, depth: nat, members: map<string, Json>)
    requires depth <= MAX_RECURSION_DEPTH && ObjectType(node, depth).Ok?
    ensures var keys := SortedKeys(DeclaredProperties(node).Keys + RequiredNames(node));
            var fields := FieldsFor(keys, DeclaredProperties(node), RequiredNames(node), depth).value;
            var index := IndexSignature(At(node, "additionalProperties"), fields, depth).value;
            (forall k :: k in members ==> IndexHolds(fields, index, members, k)) <==>
              && ("additionalProperties" in node && node["additionalProperties"] == Bool(false) ==>
                    forall k :: k in members ==> Declares(node, k) || Demands(node, k))
              && ("additionalProperties" in node && node["additionalProperties"].Obj? ==>
                    forall k :: k in members ==>
                      Means(node["additionalProperties"], members[k])
                      || exists named :: (Declares(node, named) || Demands(node, named)) && MeansNamed(node, named, members[k]))
    decreases Fuel(depth), 3
  {
    hide EmitAtDepth, FieldsFor, DeclaredProperties, RequiredNames, SortedKeys, Inhabits, MeansNamed, Declares, Demands, RenderObject, Means, IndexSignature;
    var keys := SortedKeys(DeclaredProperties(node).Keys + RequiredNames(node));
    var fields := FieldsFor(keys, DeclaredProperties(node), RequiredNames(node), depth).value;
    var index := IndexSignature(At(node, "additionalProperties"), fields, depth).value;
    hide IndexHolds;
    forall k | k in members ensures IndexHolds(fields, index, members, k) <==> IndexMeans(node, members[k], k) {
      IndexExact(node, depth, members, k);
    }
    hide IndexMeans;
    IndexMeansAll(node, members);
  }

  /** What the index signature asks of one member. */
  ghost predicate IndexMeans(node: map<string, Json>, w: Json, k: string) {
    && ("additionalProperties" in node && node["additionalProperties"] == Bool(false) ==> Declares(node, k) || Demands(node, k))
    && ("additionalProperties" in node && node["additionalProperties"].Obj? ==>
          Means(node["additionalProperties"], w)
          || exists named :: (Declares(node, named) || Demands(node, named)) && MeansNamed(node, named, w))
  }

  lemma IndexMeansAll(node: map<string, Json>, members: map<string, Json>)
    ensures (forall k :: k in members ==> IndexMeans(node, members[k], k)) <==>
              && ("additionalProperties" in node && node["additionalProperties"] == Bool(false) ==>
                    forall k :: k in members ==> Declares(node, k) || Demands(node, k))
              && ("additionalProperties" in node && node["additionalProperties"].Obj? ==>
                    forall k :: k in members ==>
                      Means(node["additionalProperties"], members[k])
                      || exists named :: (Declares(node, named) || Demands(node, named)) && MeansNamed(node, named, members[k]))
  {
    hide Means, MeansNamed, Declares, Demands;
  }

  lemma {:induction false} IndexExact(node: map<string, Json>, depth: nat, members: map<string, Json>, k: string)
    requires depth <= MAX_RECURSION_DEPTH && ObjectType(node, depth).Ok? && k in members
    ensures var keys := SortedKeys(DeclaredProperties(node).Keys + RequiredNames(node));
            var fields := FieldsFor(keys, DeclaredProperties(node), RequiredNames(node), depth).value;
            var index := IndexSignature(At(node, "additionalProperties"), fields, depth).value;
            IndexHolds(fields, index, members, k) <==> IndexMeans(node, members[k], k)
    decreases Fuel(depth), 2
  {
    UnknownSound(members[k]);
    hide EmitAtDepth, FieldsFor, DeclaredProperties, RequiredNames, SortedKeys, Inhabits, MeansNamed, Declares, Demands, RenderObject, Means,
      Dedupe, JoinUnion;
    var keys := SortedKeys(DeclaredProperties(node).Keys + RequiredNames(node));
    var fields := FieldsFor(keys, DeclaredProperties(node), RequiredNames(node), depth).value;
    if "additionalProperties" in node && node["additionalProperties"].Obj? {
      TypedIndexExact(node, depth, members[k]);
    } else if "additionalProperties" in node && node["additionalProperties"] == Bool(false) {
      KeysAre(node, k);
      FieldNamed(fields, keys, k);
    }
  }

  lemma FieldNamed(fields: seq<Field>, keys: seq<string>, k: string)
    requires |fields| == |keys| && forall i :: 0 <= i < |keys| ==> fields[i].name == keys[i]
    ensures (exists i :: 0 <= i < |fields| && fields[i].name == k) <==> k in keys
  {
    if k in keys {
      var i :| 0 <= i < |keys| && keys[i] == k;
      assert fields[i].name == k;
    }
  }

  lemma {:induction false} TypedIndexExact(node: map<string, Json>, depth: nat, w: Json)
    requires depth <= MAX_RECURSION_DEPTH && ObjectType(node, depth).Ok?
    requires "additionalProperties" in node && node["additionalProperties"].Obj?
    ensures var keys := SortedKeys(DeclaredProperties(node).Keys + RequiredNames(node));
            var fields := FieldsFor(keys, DeclaredProperties(node), RequiredNames(node), depth).value;
            var index := IndexSignature(At(node, "additionalProperties"), fields, depth).value;
            index.Some? && (Inhabits(index.value, w) <==>
              Means(node["additionalProperties"], w)
              || exists named :: (Declares(node, named) || Demands(node, named)) && MeansNamed(node, named, w))
    decreases Fuel(depth), 1, 1
  {
    hide EmitAtDepth, FieldsFor, DeclaredProperties, RequiredNames, SortedKeys, Inhabits, MeansNamed, Declares, Demands, RenderObject, Means,
      Dedupe, JoinUnion, HasOptional;
    var keys := SortedKeys(DeclaredProperties(node).Keys + RequiredNames(node));
    var fields := FieldsFor(keys, DeclaredProperties(node), RequiredNames(node), depth).value;
    var typed := EmitAtDepth(Some(node["additionalProperties"]), depth + 1).value;
    var types := [typed] + FieldTypes(fields) + if HasOptional(fields) then [Undefined] else [];
    WidenedExact(typed, fields, w);
    EmissionIsExact(node["additionalProperties"], depth + 1, w);
    forall i | 0 <= i < |fields|
      ensures Declares(node, keys[i]) || Demands(node, keys[i])
      ensures Inhabits(fields[i].value, w) <==> MeansNamed(node, keys[i], w)
    {
      assert keys[i] in keys;
      NamesAre(node, keys[i]);
      NamedExact(node, keys[i], depth, w);
    }
    forall named | Declares(node, named) || Demands(node, named) ensures exists i :: 0 <= i < |fields| && keys[i] == named {
      NamesAre(node, named);
      assert named in keys;
    }
  }

  /** Repetitions are dropped and `undefined` contains nothing, so the union is the typed members with the named ones. */
  lemma WidenedExact(typed: TsType, fields: seq<Field>, w: Json)
    ensures var types := [typed] + FieldTypes(fields) + if HasOptional(fields) then [Undefined] else [];
            Inhabits(JoinUnion(Dedupe(types)), w) <==>
              Inhabits(typed, w) || exists i :: 0 <= i < |fields| && Inhabits(fields[i].value, w)
  {
    var last := if HasOptional(fields) then [Undefined] else [];
    var types := [typed] + FieldTypes(fields) + last;
    var kept := Dedupe(types);
    assert types[0] == typed && typed in kept;
    UnionExact(kept, w);
    assert forall t :: t in last ==> !Inhabits(t, w);
    hide Dedupe, JoinUnion, Inhabits, HasOptional;
    SomeMember(kept, types, w);
    assert forall t :: t in types <==> t == typed || t in FieldTypes(fields) || t in last;
    SomeField(fields, w);
  }

  lemma SomeMember(kept: seq<TsType>, types: seq<TsType>, w: Json)
    requires forall t :: t in kept <==> t in types
    ensures (exists i :: 0 <= i < |kept| && Inhabits(kept[i], w)) <==> exists t :: t in types && Inhabits(t, w)
  {
    hide Inhabits;
    if t :| t in types && Inhabits(t, w) {
      var i :| 0 <= i < |kept| && kept[i] == t;
    }
  }

  lemma SomeField(fields: seq<Field>, w: Json)
    ensures (exists t :: t in FieldTypes(fields) && Inhabits(t, w)) <==> exists i :: 0 <= i < |fields| && Inhabits(fields[i].value, w)
  {
    hide Inhabits;
    if i :| 0 <= i < |fields| && Inhabits(fields[i].value, w) {
      assert FieldTypes(fields)[i] == fields[i].value;
    }
  }
}
