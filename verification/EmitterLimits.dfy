/** Where soundness stops, exactly, and a condition on the schema that rules this out. */
module EmitterLimits {
  import opened Basics
  import opened JsonValues
  import opened SchemaEmitter
  import opened SchemaSemantics
  import opened EmitterSoundness

  // ---------- the reading is exactly what soundness needs ----------

  lemma ObjectTypeOnlyObjects(node: map<string, Json>, depth: nat, v: Json)
    requires depth <= MAX_RECURSION_DEPTH && ObjectType(node, depth).Ok? && !v.Obj?
    ensures !Inhabits(ObjectType(node, depth).value, v)
  {
    hide EmitAtDepth, FieldsFor, IndexSignature, SortedKeys, DeclaredProperties, RequiredNames, RenderObject, Inhabits;
    var properties, required := DeclaredProperties(node), RequiredNames(node);
    var fields := FieldsFor(SortedKeys(properties.Keys + required), properties, required, depth).value;
    RenderedOnlyObjects(fields, IndexSignature(At(node, "additionalProperties"), fields, depth).value, v);
  }

  lemma RenderedOnlyObjects(fields: seq<Field>, index: Option<TsType>, v: Json)
    requires !v.Obj?
    ensures !Inhabits(RenderObject(fields, index), v)
  {
  }

  lemma ArrayTypeOnlyLongArrays(node: map<string, Json>, depth: nat, v: Json)
    requires depth <= MAX_RECURSION_DEPTH && ArrayType(node, depth).Ok?
    requires !v.Arr? || (Positions(node).Some? && |v.items| < |Positions(node).value|)
    ensures !Inhabits(ArrayType(node, depth).value, v)
  {
    hide EmitAtDepth, Positions, RestSchema;
  }

  lemma OnlyArrayKeywords(node: map<string, Json>)
    requires !HasUnexpectedSibling(node, ARRAY_SUPPORTED_KEYS)
    ensures forall key :: key in COMBINATOR_KEYS + OBJECT_ONLY_KEYWORDS + {"const", "enum"} ==> key !in node
  {
  }

  lemma OnlyObjectKeywords(node: map<string, Json>)
    requires !HasUnexpectedSibling(node, OBJECT_SUPPORTED_KEYS)
    ensures forall key :: key in COMBINATOR_KEYS + {"const", "enum"} ==> key !in node
  {
  }

  lemma NotCombined(node: map<string, Json>, depth: nat)
    requires depth <= MAX_RECURSION_DEPTH
    requires forall key :: key in COMBINATOR_KEYS + {"const", "enum"} ==> key !in node
    ensures TryCombinator(node, depth) == Passed && TryEnumOrConst(node) == Passed
  {
    assert forall key :: key in {"oneOf", "anyOf", "allOf", "const", "enum"} ==> key in COMBINATOR_KEYS + {"const", "enum"};
    hide EmitAll, HasUnexpectedSibling;
  }

  /** A value the reading rules out at a node is in the node's type only by way of an entry that names no type. */
  lemma OutsideReadingExcluded(node: map<string, Json>, depth: nat, v: Json)
    requires EmitAtDepth(Some(Obj(node)), depth).Ok?
    requires TypeAccepts(At(node, "type"), v) && !ReadingHolds(node, v)
    ensures Inhabits(EmitAtDepth(Some(Obj(node)), depth).value, v) <==> HasCatchAll(node)
  {
    if TypeList(node) {
      hide Inhabits, EmitAtDepth, HasUnexpectedSibling;
      OutsideListExcluded(node, depth, v);
    } else {
      OutsideSingleExcluded(node, depth, v);
    }
  }

  lemma OutsideSingleExcluded(node: map<string, Json>, depth: nat, v: Json)
    requires EmitAtDepth(Some(Obj(node)), depth).Ok?
    requires !TypeList(node) && TypeAccepts(At(node, "type"), v) && !ReadingHolds(node, v)
    ensures !Inhabits(EmitAtDepth(Some(Obj(node)), depth).value, v)
  {
    if ReadAsObject(node) && !v.Obj? {
      OnlyObjectKeywords(node);
      NotCombined(node, depth);
      ObjectNodeType(node, depth);
      ObjectTypeOnlyObjects(node, depth, v);
    } else {
      assert ReadAsArray(node) || (ReadAsTuple(node) && v.Arr?);
      OnlyArrayKeywords(node);
      NotCombined(node, depth);
      ArrayNodeType(node, depth, v);
      ArrayTypeOnlyLongArrays(node, depth, v);
    }
  }

  // ---------- a list of types ----------

  /** Only array and object keywords stand beside the list of types of a tuple node. */
  lemma OnlyShapeKeywords(node: map<string, Json>)
    requires !HasUnexpectedSibling(node, ARRAY_SUPPORTED_KEYS + OBJECT_ONLY_KEYWORDS)
    ensures forall key :: key in COMBINATOR_KEYS + {"const", "enum"} ==> key !in node
  {
  }

  /** What is left of the node for one of its types. */
  lemma ProjectionKeywords(node: map<string, Json>, name: string)
    requires !HasUnexpectedSibling(node, ARRAY_SUPPORTED_KEYS + OBJECT_ONLY_KEYWORDS)
    ensures var p := Project(node, name);
            && !HasUnexpectedSibling(p, if name == "array" then ARRAY_SUPPORTED_KEYS else if name == "object" then OBJECT_SUPPORTED_KEYS else PRIMITIVE_SUPPORTED_KEYS)
            && (forall key :: key in COMBINATOR_KEYS + {"const", "enum"} ==> key !in p)
            && At(p, "type") == Some(Str(name))
            && (name == "array" ==> Positions(p) == Positions(node))
            && (name != "array" ==> "items" !in p && "prefixItems" !in p)
            && (name != "object" ==> "properties" !in p && "additionalProperties" !in p)
  {
    OnlyShapeKeywords(node);
    var p := Project(node, name);
    assert forall key :: key in p && key != "type" ==> key in node && Projected(key, name);
  }

  lemma ListBranch(node: map<string, Json>, name: string, depth: nat, v: Json)
    requires TypeList(node) && ReadAsTuple(node) && v.Arr? && |v.items| < |Positions(node).value|
    requires EmitAtDepth(Some(Obj(Project(node, name))), depth).Ok?
    ensures Inhabits(EmitAtDepth(Some(Obj(Project(node, name))), depth).value, v) <==> name !in TYPE_NAMES
  {
    ProjectionKeywords(node, name);
    var p := Project(node, name);
    OkWithinDepth(Some(Obj(p)), depth);
    hide Project, HasUnexpectedSibling, Positions, EmitAtDepth, Inhabits, TryCombinator, TryEnumOrConst, ArrayType, ObjectType, PrimitiveTypeFor;
    NotCombined(p, depth);
    ProjectedDispatch(p, name, depth);
    if name == "array" {
      ArrayTypeOnlyLongArrays(p, depth, v);
    } else if name == "object" {
      ObjectTypeOnlyObjects(p, depth, v);
    } else {
      PrimitiveExcludesArrays(name, v);
    }
  }

  lemma PrimitiveExcludesArrays(name: string, v: Json)
    requires v.Arr? && name != "array" && name != "object"
    ensures Inhabits(if PrimitiveTypeFor(name).Some? then PrimitiveTypeFor(name).value else Unknown, v) <==> name !in TYPE_NAMES
  {
  }

  lemma ProjectedDispatch(p: map<string, Json>, name: string, depth: nat)
    requires depth <= MAX_RECURSION_DEPTH && At(p, "type") == Some(Str(name))
    requires TryCombinator(p, depth) == Passed && TryEnumOrConst(p) == Passed
    requires !HasUnexpectedSibling(p, if name == "array" then ARRAY_SUPPORTED_KEYS else if name == "object" then OBJECT_SUPPORTED_KEYS else PRIMITIVE_SUPPORTED_KEYS)
    requires name != "array" ==> "items" !in p && "prefixItems" !in p
    requires name != "object" ==> "properties" !in p && "additionalProperties" !in p
    ensures EmitAtDepth(Some(Obj(p)), depth) ==
      if name == "array" then ArrayType(p, depth)
      else if name == "object" then ObjectType(p, depth)
      else Ok(if PrimitiveTypeFor(name).Some? then PrimitiveTypeFor(name).value else Unknown)
  {
    hide TryCombinator, TryEnumOrConst, HasUnexpectedSibling, ArrayType, ObjectType;
    assert DispatchByType(p, depth) == DispatchTypeString(p, name, depth);
  }

  lemma ListDispatch(node: map<string, Json>, depth: nat)
    requires depth <= MAX_RECURSION_DEPTH && TypeList(node)
    requires TryCombinator(node, depth) == Passed && TryEnumOrConst(node) == Passed
    requires EmitAtDepth(Some(Obj(node)), depth).Ok?
    ensures var branches := ExpandTypeArray(node, node["type"].items, depth);
            branches.Ok? && EmitAtDepth(Some(Obj(node)), depth).value == JoinUnion(branches.value)
  {
    hide TryCombinator, TryEnumOrConst, HasUnexpectedSibling, ExpandTypeArray, JoinUnion;
  }

  lemma JoinUnionExact(types: seq<TsType>, v: Json)
    requires types != []
    ensures Inhabits(JoinUnion(types), v) <==> exists i :: 0 <= i < |types| && Inhabits(types[i], v)
  {
    if |types| == 1 {
      assert types == [types[0]];
    }
  }

  lemma OutsideListExcluded(node: map<string, Json>, depth: nat, v: Json)
    requires EmitAtDepth(Some(Obj(node)), depth).Ok?
    requires TypeList(node) && TypeAccepts(At(node, "type"), v) && !ReadingHolds(node, v)
    ensures Inhabits(EmitAtDepth(Some(Obj(node)), depth).value, v) <==> HasCatchAll(node)
  {
    hide Inhabits, EmitAtDepth, HasUnexpectedSibling, TryCombinator, TryEnumOrConst, Project, ExpandTypeArray, JoinUnion, Positions, CatchAll;
    assert depth <= MAX_RECURSION_DEPTH by { OkWithinDepth(Some(Obj(node)), depth); }
    OnlyShapeKeywords(node);
    NotCombined(node, depth);
    ListDispatch(node, depth);
    var names := node["type"].items;
    var types := ExpandTypeArray(node, names, depth).value;
    JoinUnionExact(types, v);
    forall i | 0 <= i < |names| ensures Inhabits(types[i], v) <==> CatchAll(names[i]) {
      EntryExact(node, names[i], types[i], depth, v);
    }
  }

  lemma EntryExact(node: map<string, Json>, entry: Json, t: TsType, depth: nat, v: Json)
    requires TypeList(node) && ReadAsTuple(node) && v.Arr? && |v.items| < |Positions(node).value|
    requires (if entry.Str? then EmitAtDepth(Some(Obj(Project(node, entry.s))), depth + 1) else Ok(Unknown)) == Ok(t)
    ensures Inhabits(t, v) <==> CatchAll(entry)
  {
    hide EmitAtDepth, Project, HasUnexpectedSibling, Positions;
    if entry.Str? {
      ListBranch(node, entry.s, depth + 1, v);
    }
  }

  lemma OkWithinDepth(schema: Option<Json>, depth: nat)
    requires EmitAtDepth(schema, depth).Ok?
    ensures depth <= MAX_RECURSION_DEPTH
  {
  }

  // ---------- a single type, or none ----------

  lemma ObjectNodeType(node: map<string, Json>, depth: nat)
    requires depth <= MAX_RECURSION_DEPTH && ReadAsObject(node)
    requires TryCombinator(node, depth) == Passed && TryEnumOrConst(node) == Passed
    ensures EmitAtDepth(Some(Obj(node)), depth) == ObjectType(node, depth)
  {
    hide ObjectType, ArrayType, TryCombinator, TryEnumOrConst, HasUnexpectedSibling;
  }

  lemma ArrayNodeType(node: map<string, Json>, depth: nat, v: Json)
    requires depth <= MAX_RECURSION_DEPTH && !HasUnexpectedSibling(node, ARRAY_SUPPORTED_KEYS)
    requires ReadAsArray(node) || (ReadAsTuple(node) && v.Arr? && !TypeList(node) && TypeAccepts(At(node, "type"), v))
    requires TryCombinator(node, depth) == Passed && TryEnumOrConst(node) == Passed
    requires "properties" !in node && "additionalProperties" !in node
    ensures EmitAtDepth(Some(Obj(node)), depth) == ArrayType(node, depth)
  {
    hide ObjectType, ArrayType, TryCombinator, TryEnumOrConst, HasUnexpectedSibling;
    assert "items" in node || "prefixItems" in node;
    match At(node, "type")
    case Some(Str(name)) =>
      assert name == "array";
      assert DispatchByType(node, depth) == Gave(ArrayType(node, depth));
    case _ =>
      assert DispatchByType(node, depth) == Passed;
      assert DispatchByShape(node, depth) == Gave(ArrayType(node, depth));
  }

  /**
   * An accepted value whose parts are within the reading is in the emitted type exactly when the node
   * itself reads it as the emitter does, or lists an entry that names no type.
   */
  lemma ReadingIsExact(x: OtherKeywords, node: map<string, Json>, v: Json)
    requires Emit(Some(Obj(node))).Ok?
    requires Validates(x, Obj(node), v) && BelowWithinReading(x, node, v)
    ensures Inhabits(Emit(Some(Obj(node))).value, v) <==> ReadingHolds(node, v) || HasCatchAll(node)
  {
    hide Inhabits, ReadingHolds, BelowWithinReading,
      EmitAtDepth, TypeAccepts, ValidatesBranches, ValidatesMembers, ValidatesItems, HasCatchAll;
    if ReadingHolds(node, v) {
      Soundness(x, Obj(node), v);
    } else {
      OutsideReadingExcluded(node, 0, v);
    }
  }

  /** Every untyped object schema accepts every value that is no object, and its type contains none of them. */
  lemma UntypedObjectUnsound(x: OtherKeywords, node: map<string, Json>, v: Json)
    requires ReadAsObject(node) && Emit(Some(Obj(node))).Ok?
    requires !v.Obj? && x(node, v)
    ensures Validates(x, Obj(node), v) && !Inhabits(Emit(Some(Obj(node))).value, v)
  {
    OnlyObjectKeywords(node);
    NoArrayKeywords(node);
    hide EmitAtDepth, Inhabits, HasUnexpectedSibling;
    AbsentKeywordsAccept(x, node, v);
    OutsideReadingExcluded(node, 0, v);
  }

  /**
   * Every schema for a non-empty tuple, with or without a type, accepts the empty array unless its type
   * rules arrays out, and its type does not contain it unless an entry of a list names no type.
   */
  lemma EmptyTupleUnsound(x: OtherKeywords, node: map<string, Json>)
    requires ReadAsTuple(node) && Positions(node).value != [] && x(node, Arr([])) && Emit(Some(Obj(node))).Ok?
    ensures Validates(x, Obj(node), Arr([])) <==> TypeAccepts(At(node, "type"), Arr([]))
    ensures TypeAccepts(At(node, "type"), Arr([])) ==>
      (Inhabits(Emit(Some(Obj(node))).value, Arr([])) <==> HasCatchAll(node))
  {
    EmptyArrayAccepted(x, node);
    hide EmitAtDepth, Inhabits, HasUnexpectedSibling, HasCatchAll, TypeAccepts;
    if TypeAccepts(At(node, "type"), Arr([])) {
      OutsideReadingExcluded(node, 0, Arr([]));
    }
  }

  lemma EmptyArrayAccepted(x: OtherKeywords, node: map<string, Json>)
    requires ReadAsTuple(node) && x(node, Arr([]))
    ensures Validates(x, Obj(node), Arr([])) <==> TypeAccepts(At(node, "type"), Arr([]))
  {
    assert !HasUnexpectedSibling(node, ARRAY_SUPPORTED_KEYS + OBJECT_ONLY_KEYWORDS);
    OnlyShapeKeywords(node);
    hide HasUnexpectedSibling, TypeAccepts;
    assert forall key :: key in {"oneOf", "anyOf", "allOf", "const", "enum"} ==> key in COMBINATOR_KEYS + {"const", "enum"};
    assert ValidatesItems(x, node, []);
    assert ValidatesBranches(x, node, Arr([])) && EnumAndConstAccept(node, Arr([]));
  }

  lemma NoArrayKeywords(node: map<string, Json>)
    requires !HasUnexpectedSibling(node, OBJECT_SUPPORTED_KEYS)
    ensures "items" !in node && "prefixItems" !in node
  {
  }

  lemma AbsentKeywordsAccept(x: OtherKeywords, node: map<string, Json>, v: Json)
    requires forall key :: key in COMBINATOR_KEYS + {"const", "enum"} ==> key !in node
    requires "items" !in node && "prefixItems" !in node
    requires Untyped(node) && !v.Obj? && x(node, v)
    ensures Validates(x, Obj(node), v)
  {
    assert "oneOf" !in node && "anyOf" !in node && "allOf" !in node && "const" !in node && "enum" !in node;
    assert ValidatesBranches(x, node, v);
    assert v.Arr? ==> ValidatesItems(x, node, v.items);
  }

  // ---------- a check on the schema alone ----------

  predicate HasMinItems(node: map<string, Json>, n: nat) {
    "minItems" in node && node["minItems"].Num? && n as real <= node["minItems"].n
  }

  /** The node states its type, and a tuple node also states that its positions are filled. */
  predicate ExplicitNode(node: map<string, Json>) {
    && !ReadAsObject(node) && !ReadAsArray(node)
    && (ReadAsTuple(node) ==> HasMinItems(node, |Positions(node).value|))
  }

  /** `sub` stands directly below the node in a position the emitter looks at. */
  ghost predicate IsSubschema(node: map<string, Json>, sub: Json) {
    || (exists key :: key in {"oneOf", "anyOf", "allOf", "prefixItems", "items"} && key in node && node[key].Arr? && sub in node[key].items)
    || (exists key :: key in {"items", "additionalItems", "additionalProperties"} && key in node && sub == node[key])
    || ("properties" in node && node["properties"].Obj? && sub in node["properties"].members.Values)
  }

  ghost predicate Explicit(schema: Json) {
    schema.Obj? ==> ExplicitNode(schema.members) && forall sub :: IsSubschema(schema.members, sub) ==> Explicit(sub)
  }

  /** The other keywords include `minItems` with its meaning from section 6.4.2 of JSON Schema Validation. */
  ghost predicate HonoursMinItems(x: OtherKeywords) {
    forall node: map<string, Json>, items: seq<Json> :: x(node, Arr(items)) && "minItems" in node && node["minItems"].Num?
      ==> node["minItems"].n <= |items| as real
  }

  lemma ExplicitReadingHolds(x: OtherKeywords, node: map<string, Json>, v: Json)
    requires HonoursMinItems(x) && ExplicitNode(node) && x(node, v)
    ensures ReadingHolds(node, v)
  {
    hide ReadAsObject, ReadAsArray, ReadAsTuple;
    if v.Arr? {
      assert x(node, Arr(v.items));
    }
  }

  lemma {:induction false} ExplicitWithinReading(x: OtherKeywords, schema: Json, v: Json)
    requires HonoursMinItems(x) && Explicit(schema) && Validates(x, schema, v)
    ensures WithinReading(x, schema, v)
    decreases schema, 1
  {
    hide ReadingHolds, HonoursMinItems, TypeAccepts, EnumAndConstAccept, RequiredAccepts, ValidatesMembers, ValidatesItems,
      MembersWithinReading, ItemsWithinReading, ValidatesBranches, BranchesWithinReading, ExplicitNode, IsSubschema,
      ReadsBranches, ReadsMembers, ReadsItems, HasCatchAll;
    if schema.Obj? {
      var node := schema.members;
      ExplicitReadingHolds(x, node, v);
      ExplicitBranches(x, node, v);
      if v.Obj? { ExplicitMembers(x, node, v.members); }
      if v.Arr? { ExplicitItems(x, node, v.items); }
    }
  }

  lemma {:induction false} ExplicitBranches(x: OtherKeywords, node: map<string, Json>, v: Json)
    requires HonoursMinItems(x) && ValidatesBranches(x, node, v)
    requires forall sub :: IsSubschema(node, sub) ==> Explicit(sub)
    ensures BranchesWithinReading(x, node, v)
    decreases Obj(node), 0
  {
    hide Validates, WithinReading, Explicit, HonoursMinItems;
    forall key, i | key in COMBINATOR_KEYS && key in node && node[key].Arr? &&
      0 <= i < |node[key].items| && Validates(x, node[key].items[i], v)
      ensures WithinReading(x, node[key].items[i], v)
    {
      assert IsSubschema(node, node[key].items[i]);
      ExplicitWithinReading(x, node[key].items[i], v);
    }
    assert "oneOf" in COMBINATOR_KEYS && "anyOf" in COMBINATOR_KEYS && "allOf" in COMBINATOR_KEYS;
  }

  lemma {:induction false} ExplicitMembers(x: OtherKeywords, node: map<string, Json>, members: map<string, Json>)
    requires HonoursMinItems(x) && ValidatesMembers(x, node, members)
    requires forall sub :: IsSubschema(node, sub) ==> Explicit(sub)
    ensures MembersWithinReading(x, node, members)
    decreases Obj(node), 0
  {
    hide Validates, WithinReading, Explicit, HonoursMinItems;
    if "properties" in node && node["properties"].Obj? {
      var properties := node["properties"].members;
      forall k | k in properties && k in members ensures WithinReading(x, properties[k], members[k]) {
        assert IsSubschema(node, properties[k]);
        ExplicitWithinReading(x, properties[k], members[k]);
      }
    }
    if "additionalProperties" in node && "patternProperties" !in node {
      assert IsSubschema(node, node["additionalProperties"]);
      forall k | k in members && k !in DeclaredProperties(node) ensures WithinReading(x, node["additionalProperties"], members[k]) {
        ExplicitWithinReading(x, node["additionalProperties"], members[k]);
      }
    }
  }

  lemma {:induction false} ExplicitItems(x: OtherKeywords, node: map<string, Json>, items: seq<Json>)
    requires HonoursMinItems(x) && ValidatesItems(x, node, items)
    requires forall sub :: IsSubschema(node, sub) ==> Explicit(sub)
    ensures ItemsWithinReading(x, node, items)
    decreases Obj(node), 0
  {
    hide Validates, WithinReading, Explicit, HonoursMinItems;
    forall key, i, j | key in {"prefixItems", "items"} && key in node && node[key].Arr? &&
      0 <= i < |node[key].items| && 0 <= j < |items| && Validates(x, node[key].items[i], items[j])
      ensures WithinReading(x, node[key].items[i], items[j])
    {
      assert IsSubschema(node, node[key].items[i]);
      ExplicitWithinReading(x, node[key].items[i], items[j]);
    }
    forall key, j | key in {"items", "additionalItems"} && key in node && 0 <= j < |items| && Validates(x, node[key], items[j])
      ensures WithinReading(x, node[key], items[j])
    {
      assert IsSubschema(node, node[key]);
      ExplicitWithinReading(x, node[key], items[j]);
    }
  }

  /** For a schema that states its types and fills its tuples, soundness holds with no condition on the value. */
  lemma SoundnessForExplicit(x: OtherKeywords, schema: Json, v: Json)
    requires HonoursMinItems(x) && Explicit(schema)
    requires Emit(Some(schema)).Ok? && Validates(x, schema, v)
    ensures Inhabits(Emit(Some(schema)).value, v)
  {
    hide *;
    ExplicitWithinReading(x, schema, v);
    Soundness(x, schema, v);
  }
}
