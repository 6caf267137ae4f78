/** On the schemas the emitter understands in full, the emitted type contains nothing else. */
module EmitterPrecision {
  import opened Basics
  import opened JsonValues
  import opened SchemaEmitter
  import opened SchemaSemantics
  import opened EmitterSoundness
  import opened EmitterLimits

  /** No other keyword constrains the value. */
  const NoOther: OtherKeywords := (node, v) => true

  predicate IsScalar(j: Json) {
    !j.Arr? && !j.Obj?
  }

  /** One `anyOf` or `allOf`; a union does not count its members, so `oneOf` is not among them. */
  predicate CombinatorFaithful(node: map<string, Json>) {
    && AsArray(At(node, "oneOf")).None?
    && AsArray(At(node, "anyOf")).Some? != AsArray(At(node, "allOf")).Some?
    && (AsArray(At(node, "anyOf")).Some? ==> AsArray(At(node, "anyOf")).value != [])
    && !HasUnexpectedSibling(node, COMBINATOR_KEYS)
  }

  predicate HasCombinator(node: map<string, Json>) {
    AsArray(At(node, "oneOf")).Some? || AsArray(At(node, "anyOf")).Some? || AsArray(At(node, "allOf")).Some?
  }

  predicate HasLiteral(node: map<string, Json>) {
    "const" in node || AsArray(At(node, "enum")).Some?
  }

  predicate LiteralFaithful(node: map<string, Json>) {
    if "const" in node then
      "enum" !in node && IsScalar(node["const"]) && !HasUnexpectedSibling(node, {"const"})
    else
      var entries := AsArray(At(node, "enum"));
      && entries.Some? && entries.value != [] && (forall i :: 0 <= i < |entries.value| ==> IsScalar(entries.value[i]))
      && !HasUnexpectedSibling(node, {"enum"})
  }

  /**
   * Typed further members are exact only when nothing is named, since the index widens to the named
   * types; a closed object must declare what it requires, or its type asks for what the schema forbids.
   */
  predicate ObjectFaithful(node: map<string, Json>) {
    && !HasUnexpectedSibling(node, OBJECT_SUPPORTED_KEYS)
    && (AsObject(At(node, "additionalProperties")).Some? ==> DeclaredProperties(node) == map[] && RequiredNames(node) == {})
    && (At(node, "additionalProperties") == Some(Bool(false)) ==> RequiredNames(node) <= DeclaredProperties(node).Keys)
  }

  /** `integer` is emitted as `number`, so it is not among them. */
  predicate TypeFaithful(node: map<string, Json>, name: string) {
    if name == "array" then !HasUnexpectedSibling(node, ARRAY_SUPPORTED_KEYS)
    else if name == "object" then ObjectFaithful(node)
    else name in {"string", "number", "boolean", "null"} && !HasUnexpectedSibling(node, PRIMITIVE_SUPPORTED_KEYS)
  }

  predicate DispatchFaithful(node: map<string, Json>) {
    match At(node, "type")
    case Some(Str(name)) => TypeFaithful(node, name)
    case Some(Arr(names)) =>
      names != [] && forall i :: 0 <= i < |names| ==> names[i].Str? && TypeFaithful(Project(node, names[i].s), names[i].s)
    case _ =>
      if "properties" in node || "additionalProperties" in node then ObjectFaithful(node)
      else if "items" in node || "prefixItems" in node then !HasUnexpectedSibling(node, ARRAY_SUPPORTED_KEYS)
      else !HasUnexpectedSibling(node, PRIMITIVE_SUPPORTED_KEYS)
  }

  predicate NodeFaithful(node: map<string, Json>) {
    if HasCombinator(node) then CombinatorFaithful(node)
    else if HasLiteral(node) then LiteralFaithful(node)
    else DispatchFaithful(node)
  }

  ghost predicate Faithful(schema: Json) {
    schema.Obj? ==> NodeFaithful(schema.members) && forall sub :: IsSubschema(schema.members, sub) ==> Faithful(sub)
  }

  ghost predicate BelowFaithful(node: map<string, Json>) {
    forall sub :: IsSubschema(node, sub) ==> Faithful(sub)
  }

  // ---------- leaves ----------

  lemma LiteralTight(value: Json, v: Json)
    requires IsScalar(value) && Inhabits(LiteralFromValue(value), v)
    ensures v == value
  {
  }

  lemma UnionTight(types: seq<TsType>, v: Json) returns (i: nat)
    requires types != [] && Inhabits(JoinUnion(types), v)
    ensures i < |types| && Inhabits(types[i], v)
  {
    if |types| == 1 {
      i := 0;
    } else {
      var k :| 0 <= k < |types| && Inhabits(types[k], v);
      i := k;
    }
  }

  lemma LiteralsKnown(entries: seq<Json>)
    requires forall i :: 0 <= i < |entries| ==> IsScalar(entries[i])
    ensures Unknown !in Literals(entries)
  {
  }

  lemma LiteralNodeTight(node: map<string, Json>, v: Json)
    requires LiteralFaithful(node) && HasLiteral(node)
    requires TryEnumOrConst(node).Gave? && TryEnumOrConst(node).result.Ok? && Inhabits(TryEnumOrConst(node).result.value, v)
    ensures EnumAndConstAccept(node, v)
  {
    hide Inhabits, HasUnexpectedSibling, JoinUnion;
    if "const" in node {
      LiteralTight(node["const"], v);
    } else {
      var entries := AsArray(At(node, "enum")).value;
      LiteralsKnown(entries);
      var i := UnionTight(Literals(entries), v);
      LiteralTight(entries[i], v);
    }
  }

  lemma PrimitiveTight(name: string, v: Json)
    requires name in {"string", "number", "boolean", "null"} && Inhabits(PrimitiveTypeFor(name).value, v)
    ensures HasType(v, name)
  {
  }

  // ---------- keywords that are not there assert nothing ----------

  const SHAPE_KEYWORDS: set<string> :=
    {"required", "properties", "additionalProperties", "items", "prefixItems", "additionalItems"}

  ghost predicate Absent(node: map<string, Json>, keys: set<string>) {
    forall key :: key in keys ==> key !in node
  }

  lemma ShapelessAccepts(x: OtherKeywords, node: map<string, Json>, v: Json)
    requires Absent(node, SHAPE_KEYWORDS)
    ensures RequiredAccepts(node, v)
    ensures v.Obj? ==> ValidatesMembers(x, node, v.members)
    ensures v.Arr? ==> ValidatesItems(x, node, v.items)
  {
    assert "required" !in node && "properties" !in node && "additionalProperties" !in node;
    assert "items" !in node && "prefixItems" !in node;
  }

  lemma UncombinedAccepts(x: OtherKeywords, node: map<string, Json>, v: Json)
    requires Absent(node, COMBINATOR_KEYS)
    ensures ValidatesBranches(x, node, v)
  {
    assert "oneOf" !in node && "anyOf" !in node && "allOf" !in node;
  }

  const ASSERTION_KEYWORDS: set<string> := SHAPE_KEYWORDS + COMBINATOR_KEYS + {"type", "const", "enum"}

  lemma AssertionsAreNoAnnotations()
    ensures ASSERTION_KEYWORDS !! ANNOTATION_ONLY_KEYWORDS
  {
  }

  /** An assertion keyword that the node's reading does not expect is absent. */
  lemma AbsentUnlessExpected(node: map<string, Json>, expected: set<string>)
    requires !HasUnexpectedSibling(node, expected)
    ensures forall key :: key in ASSERTION_KEYWORDS && key in node ==> key in expected
  {
    AssertionsAreNoAnnotations();
  }

  lemma OnlyLiteral(x: OtherKeywords, node: map<string, Json>, v: Json)
    requires LiteralFaithful(node) && HasLiteral(node) && EnumAndConstAccept(node, v) && x(node, v)
    ensures Validates(x, Obj(node), v)
  {
    hide EnumAndConstAccept, HasUnexpectedSibling, ValidatesMembers, ValidatesItems, ValidatesBranches, RequiredAccepts;
    AbsentUnlessExpected(node, {if "const" in node then "const" else "enum"});
    assert Absent(node, SHAPE_KEYWORDS) && Absent(node, COMBINATOR_KEYS) && At(node, "type") == None;
    ShapelessAccepts(x, node, v);
    UncombinedAccepts(x, node, v);
  }

  lemma OnlyCombinator(x: OtherKeywords, node: map<string, Json>, v: Json)
    requires CombinatorFaithful(node) && ValidatesBranches(x, node, v) && x(node, v)
    ensures Validates(x, Obj(node), v)
  {
    hide HasUnexpectedSibling, ValidatesMembers, ValidatesItems, ValidatesBranches, RequiredAccepts;
    AbsentUnlessExpected(node, COMBINATOR_KEYS);
    assert Absent(node, SHAPE_KEYWORDS) && "type" !in node && "const" !in node && "enum" !in node;
    ShapelessAccepts(x, node, v);
  }

  lemma OnlyPrimitive(x: OtherKeywords, node: map<string, Json>, v: Json)
    requires !HasUnexpectedSibling(node, PRIMITIVE_SUPPORTED_KEYS) && TypeAccepts(At(node, "type"), v) && x(node, v)
    ensures Validates(x, Obj(node), v)
  {
    hide HasUnexpectedSibling, ValidatesMembers, ValidatesItems, ValidatesBranches, RequiredAccepts, TypeAccepts;
    AbsentUnlessExpected(node, PRIMITIVE_SUPPORTED_KEYS);
    assert Absent(node, SHAPE_KEYWORDS) && Absent(node, COMBINATOR_KEYS) && "const" !in node && "enum" !in node;
    ShapelessAccepts(x, node, v);
    UncombinedAccepts(x, node, v);
  }

  lemma OnlyArray(x: OtherKeywords, node: map<string, Json>, v: Json)
    requires !HasUnexpectedSibling(node, ARRAY_SUPPORTED_KEYS) && TypeAccepts(At(node, "type"), v) && x(node, v)
    requires v.Arr? && ValidatesItems(x, node, v.items)
    ensures Validates(x, Obj(node), v)
  {
    OnlyArrayKeywords(node);
    hide HasUnexpectedSibling, TypeAccepts, ValidatesItems;
    assert ValidatesBranches(x, node, v);
  }

  lemma OnlyObject(x: OtherKeywords, node: map<string, Json>, v: Json)
    requires !HasUnexpectedSibling(node, OBJECT_SUPPORTED_KEYS) && TypeAccepts(At(node, "type"), v) && x(node, v)
    requires v.Obj? && ValidatesMembers(x, node, v.members) && RequiredNames(node) <= v.members.Keys
    ensures Validates(x, Obj(node), v)
  {
    OnlyObjectKeywords(node);
    hide HasUnexpectedSibling, TypeAccepts, ValidatesMembers;
    assert ValidatesBranches(x, node, v);
  }

  // ---------- the recursion ----------

  lemma {:induction false} Tight(schema: Json, depth: nat, v: Json)
    requires Faithful(schema) && EmitAtDepth(Some(schema), depth).Ok? && Inhabits(EmitAtDepth(Some(schema), depth).value, v)
    ensures Validates(NoOther, schema, v)
    decreases Fuel(depth), 5
  {
    hide Inhabits, TryCombinator, TryEnumOrConst, DispatchByType, DispatchByShape, IsSubschema,
      CombinatorFaithful, LiteralFaithful, DispatchFaithful, HasCombinator, HasLiteral, Validates;
    match schema
    case Bool(b) =>
      BoolTight(b, v);
    case Obj(node) =>
      assert BelowFaithful(node);
      if HasCombinator(node) {
        CombinatorGives(node, depth);
        CombinatorTight(node, depth, v);
      } else {
        NoCombinatorPasses(node, depth);
        if HasLiteral(node) {
          LiteralGives(node);
          LiteralNodeTight(node, v);
          OnlyLiteral(NoOther, node, v);
        } else {
          NoLiteralPasses(node);
          DispatchTight(node, depth, v);
        }
      }
    case _ =>
      MalformedAccepts(schema, v);
  }

  lemma BoolTight(b: bool, v: Json)
    requires Inhabits(if b then Unknown else Never, v)
    ensures Validates(NoOther, Bool(b), v)
  {
  }

  lemma MalformedAccepts(schema: Json, v: Json)
    requires !schema.Obj? && !schema.Bool?
    ensures Validates(NoOther, schema, v)
  {
  }

  lemma CombinatorGives(node: map<string, Json>, depth: nat)
    requires depth <= MAX_RECURSION_DEPTH && HasCombinator(node)
    ensures TryCombinator(node, depth).Gave?
  {
    hide HasUnexpectedSibling, EmitAll;
  }

  lemma NoCombinatorPasses(node: map<string, Json>, depth: nat)
    requires depth <= MAX_RECURSION_DEPTH && !HasCombinator(node)
    ensures TryCombinator(node, depth) == Passed
  {
    hide HasUnexpectedSibling, EmitAll;
  }

  lemma LiteralGives(node: map<string, Json>)
    requires HasLiteral(node)
    ensures TryEnumOrConst(node).Gave? && TryEnumOrConst(node).result.Ok?
  {
    hide HasUnexpectedSibling, EnumLiterals;
  }

  lemma NoLiteralPasses(node: map<string, Json>)
    requires !HasLiteral(node)
    ensures TryEnumOrConst(node) == Passed
  {
    hide HasUnexpectedSibling;
  }

  lemma ListFaithful(node: map<string, Json>, key: string, i: nat)
    requires BelowFaithful(node) && key in {"oneOf", "anyOf", "allOf", "prefixItems", "items"}
    requires key in node && node[key].Arr? && i < |node[key].items|
    ensures Faithful(node[key].items[i])
  {
    hide Faithful;
    assert IsSubschema(node, node[key].items[i]);
  }

  lemma {:induction false} CombinatorTight(node: map<string, Json>, depth: nat, v: Json)
    requires depth <= MAX_RECURSION_DEPTH && CombinatorFaithful(node) && HasCombinator(node) && BelowFaithful(node)
    requires TryCombinator(node, depth).Gave? && TryCombinator(node, depth).result.Ok?
    requires Inhabits(TryCombinator(node, depth).result.value, v)
    ensures Validates(NoOther, Obj(node), v)
    decreases Fuel(depth), 4
  {
    hide Inhabits, HasUnexpectedSibling, EmitAtDepth, JoinUnion, JoinIntersection, Validates, Faithful, IsSubschema, BelowFaithful;
    var anyOf, allOf := AsArray(At(node, "anyOf")), AsArray(At(node, "allOf"));
    if anyOf.Some? {
      var types := EmitAll(anyOf.value, depth + 1).value;
      var i := UnionTight(types, v);
      ListFaithful(node, "anyOf", i);
      Tight(anyOf.value[i], depth + 1, v);
    } else {
      var types := EmitAll(allOf.value, depth + 1).value;
      forall i | 0 <= i < |types| ensures Validates(NoOther, allOf.value[i], v) {
        IntersectionTight(types, v, i);
        ListFaithful(node, "allOf", i);
        Tight(allOf.value[i], depth + 1, v);
      }
    }
    assert ValidatesBranches(NoOther, node, v);
    OnlyCombinator(NoOther, node, v);
  }

  lemma IntersectionTight(types: seq<TsType>, v: Json, i: nat)
    requires i < |types| && Inhabits(JoinIntersection(types), v)
    ensures Inhabits(types[i], v)
  {
  }

  lemma {:induction false} DispatchTight(node: map<string, Json>, depth: nat, v: Json)
    requires depth <= MAX_RECURSION_DEPTH && DispatchFaithful(node) && BelowFaithful(node)
    requires TryCombinator(node, depth) == Passed && TryEnumOrConst(node) == Passed && !HasCombinator(node) && !HasLiteral(node)
    requires EmitAtDepth(Some(Obj(node)), depth).Ok? && Inhabits(EmitAtDepth(Some(Obj(node)), depth).value, v)
    ensures Validates(NoOther, Obj(node), v)
    decreases Fuel(depth), 4
  {
    hide Inhabits, HasUnexpectedSibling, TryCombinator, TryEnumOrConst, ArrayType, ObjectType, BelowFaithful, Validates,
      ExpandTypeArray, JoinUnion, ObjectFaithful, HasCombinator, HasLiteral;
    match At(node, "type")
    case Some(Arr(names)) =>
      TypeListTight(node, names, depth, v);
    case Some(Str(name)) =>
      TypeStringTight(node, name, depth, v);
    case _ =>
      if "properties" in node || "additionalProperties" in node {
        assert !HasUnexpectedSibling(node, OBJECT_SUPPORTED_KEYS) by { ObjectFaithfulSiblings(node); }
        ObjectTight(node, depth, v);
      } else if "items" in node || "prefixItems" in node {
        ArrayTight(node, depth, v);
      } else {
        OnlyPrimitive(NoOther, node, v);
      }
  }

  lemma ObjectFaithfulSiblings(node: map<string, Json>)
    requires ObjectFaithful(node)
    ensures !HasUnexpectedSibling(node, OBJECT_SUPPORTED_KEYS)
  {
  }

  lemma {:induction false} TypeStringTight(node: map<string, Json>, name: string, depth: nat, v: Json)
    requires depth <= MAX_RECURSION_DEPTH && At(node, "type") == Some(Str(name)) && TypeFaithful(node, name) && BelowFaithful(node)
    requires DispatchTypeString(node, name, depth).Gave? && DispatchTypeString(node, name, depth).result.Ok?
    requires Inhabits(DispatchTypeString(node, name, depth).result.value, v)
    ensures Validates(NoOther, Obj(node), v)
    decreases Fuel(depth), 3
  {
    hide Inhabits, HasUnexpectedSibling, ArrayType, ObjectType, BelowFaithful, Validates, ObjectFaithful;
    if name == "array" {
      ArrayTight(node, depth, v);
    } else if name == "object" {
      ObjectFaithfulSiblings(node);
      ObjectTight(node, depth, v);
    } else {
      PrimitiveTight(name, v);
      OnlyPrimitive(NoOther, node, v);
    }
  }

  lemma ProjectionFaithful(node: map<string, Json>, name: string)
    requires BelowFaithful(node)
    ensures BelowFaithful(Project(node, name)) && At(Project(node, name), "type") == Some(Str(name))
  {
    hide Faithful;
    var p := Project(node, name);
    assert forall k :: k in p && k != "type" ==> k in node && p[k] == node[k];
    forall sub | IsSubschema(p, sub) ensures IsSubschema(node, sub) {
      if key :| key in {"oneOf", "anyOf", "allOf", "prefixItems", "items"} && key in p && p[key].Arr? && sub in p[key].items {
        assert key in node && sub in node[key].items;
      } else if key :| key in {"items", "additionalItems", "additionalProperties"} && key in p && sub == p[key] {
        assert key in node && sub == node[key];
      }
    }
  }

  lemma {:induction false} TypeListTight(node: map<string, Json>, names: seq<Json>, depth: nat, v: Json)
    requires depth <= MAX_RECURSION_DEPTH && At(node, "type") == Some(Arr(names)) && DispatchFaithful(node) && BelowFaithful(node)
    requires !HasCombinator(node) && !HasLiteral(node)
    requires ExpandTypeArray(node, names, depth).Ok? && Inhabits(JoinUnion(ExpandTypeArray(node, names, depth).value), v)
    ensures Validates(NoOther, Obj(node), v)
    decreases Fuel(depth), 3
  {
    hide Inhabits, JoinUnion, BelowFaithful, Validates, Project, TypeFaithful, EmitAtDepth, HasCombinator, HasLiteral,
      ExpandTypeArray, DispatchTypeString, HasUnexpectedSibling;
    var i := UnionTight(ExpandTypeArray(node, names, depth).value, v);
    BranchTight(node, names, i, depth, v);
  }

  lemma {:induction false} BranchTight(node: map<string, Json>, names: seq<Json>, i: nat, depth: nat, v: Json)
    requires depth <= MAX_RECURSION_DEPTH && At(node, "type") == Some(Arr(names)) && BelowFaithful(node)
    requires !HasCombinator(node) && !HasLiteral(node)
    requires i < |names| && names[i].Str? && TypeFaithful(Project(node, names[i].s), names[i].s)
    requires var emitted := EmitAtDepth(Some(Obj(Project(node, names[i].s))), depth + 1);
             emitted.Ok? && Inhabits(emitted.value, v)
    ensures Validates(NoOther, Obj(node), v)
    decreases Fuel(depth), 2
  {
    hide *;
    var name := names[i].s;
    var p := Project(node, name);
    ProjectionFaithful(node, name);
    ProjectedTypeString(node, name, depth + 1);
    assert Fuel(depth + 1) < Fuel(depth) by { FuelFalls(depth); }
    TypeStringTight(p, name, depth + 1, v);
    ProjectionReflects(node, name, names, i, v);
  }

  lemma FuelFalls(depth: nat)
    requires depth <= MAX_RECURSION_DEPTH
    ensures Fuel(depth + 1) < Fuel(depth)
  {
  }

  lemma ProjectedTypeString(node: map<string, Json>, name: string, depth: nat)
    requires !HasCombinator(node) && !HasLiteral(node) && TypeFaithful(Project(node, name), name)
    requires EmitAtDepth(Some(Obj(Project(node, name))), depth).Ok?
    ensures depth <= MAX_RECURSION_DEPTH
    ensures DispatchTypeString(Project(node, name), name, depth) == Gave(EmitAtDepth(Some(Obj(Project(node, name))), depth))
  {
    var p := Project(node, name);
    assert At(p, "oneOf") == At(node, "oneOf") && At(p, "anyOf") == At(node, "anyOf") && At(p, "allOf") == At(node, "allOf");
    assert At(p, "enum") == At(node, "enum") && At(p, "const") == At(node, "const");
    assert At(p, "type") == Some(Str(name));
    hide Project, HasUnexpectedSibling, ArrayType, ObjectType, ObjectFaithful;
    NoCombinatorPasses(p, depth);
    NoLiteralPasses(p);
  }

  lemma ProjectionReflects(node: map<string, Json>, name: string, names: seq<Json>, i: nat, v: Json)
    requires At(node, "type") == Some(Arr(names)) && i < |names| && names[i] == Str(name)
    requires !HasCombinator(node) && !HasLiteral(node)
    requires Validates(NoOther, Obj(Project(node, name)), v)
    ensures Validates(NoOther, Obj(node), v)
  {
    var p := Project(node, name);
    assert At(p, "type") == Some(Str(name));
    assert HasType(v, name);
    assert EnumAndConstAccept(node, v) && ValidatesBranches(NoOther, node, v);
    if v.Obj? {
      assert forall k :: k in SHAPE_KEYWORDS + {"patternProperties"} && k !in ARRAY_ONLY_KEYWORDS ==>
        (k in p <==> k in node) && (k in p ==> p[k] == node[k]);
      ReflectMembers(node, p, v.members);
    }
    if v.Arr? {
      assert forall k :: k in ARRAY_ONLY_KEYWORDS ==> (k in p <==> k in node) && (k in p ==> p[k] == node[k]);
      ReflectItems(node, p, v.items);
    }
  }

  lemma ReflectMembers(node: map<string, Json>, p: map<string, Json>, members: map<string, Json>)
    requires At(node, "properties") == At(p, "properties") && At(node, "required") == At(p, "required")
    requires At(node, "additionalProperties") == At(p, "additionalProperties")
    requires "patternProperties" in node <==> "patternProperties" in p
    requires ValidatesMembers(NoOther, p, members)
    ensures ValidatesMembers(NoOther, node, members) && RequiredNames(node) == RequiredNames(p)
  {
    hide Validates;
  }

  lemma ReflectItems(node: map<string, Json>, p: map<string, Json>, items: seq<Json>)
    requires At(node, "items") == At(p, "items") && At(node, "prefixItems") == At(p, "prefixItems")
    requires At(node, "additionalItems") == At(p, "additionalItems")
    requires ValidatesItems(NoOther, p, items)
    ensures ValidatesItems(NoOther, node, items)
  {
    hide Validates;
  }

  lemma {:induction false} ArrayTight(node: map<string, Json>, depth: nat, v: Json)
    requires depth <= MAX_RECURSION_DEPTH && BelowFaithful(node) && !HasUnexpectedSibling(node, ARRAY_SUPPORTED_KEYS)
    requires Untyped(node) || At(node, "type") == Some(Str("array"))
    requires ArrayType(node, depth).Ok? && Inhabits(ArrayType(node, depth).value, v)
    ensures Validates(NoOther, Obj(node), v)
    decreases Fuel(depth), 2
  {
    hide EmitAtDepth, Validates, IsSubschema, BelowFaithful, HasUnexpectedSibling;
    assert v.Arr?;
    if Positions(node).Some? {
      TupleTight(node, depth, v);
    } else {
      if "items" in node {
        SlotFaithful(node, "items");
        forall i | 0 <= i < |v.items| ensures Validates(NoOther, node["items"], v.items[i]) {
          if !node["items"].Bool? {
            Tight(node["items"], depth + 1, v.items[i]);
          } else {
            BoolTight(node["items"].b, v.items[i]);
          }
        }
      }
    }
    assert ValidatesItems(NoOther, node, v.items);
    OnlyArray(NoOther, node, v);
  }

  lemma SlotFaithful(node: map<string, Json>, key: string)
    requires BelowFaithful(node) && key in {"items", "additionalItems", "additionalProperties"} && key in node
    ensures Faithful(node[key])
  {
    hide Faithful;
    assert IsSubschema(node, node[key]);
  }

  lemma {:induction false} TupleTight(node: map<string, Json>, depth: nat, v: Json)
    requires depth <= MAX_RECURSION_DEPTH && BelowFaithful(node) && Positions(node).Some?
    requires ArrayType(node, depth).Ok? && Inhabits(ArrayType(node, depth).value, v)
    ensures v.Arr? && ValidatesItems(NoOther, node, v.items)
    decreases Fuel(depth), 1
  {
    hide EmitAtDepth, Validates, IsSubschema, BelowFaithful;
    var positions, rest := Positions(node).value, RestSchema(node);
    var types := EmitAll(positions, depth + 1).value;
    forall i | 0 <= i < |positions| ensures Validates(NoOther, positions[i], v.items[i]) {
      ListFaithful(node, if AsArray(At(node, "prefixItems")).Some? then "prefixItems" else "items", i);
      Tight(positions[i], depth + 1, v.items[i]);
    }
    if rest.Some? && rest != Some(Bool(false)) {
      SlotFaithful(node, if AsArray(At(node, "prefixItems")).Some? then "items" else "additionalItems");
      forall i | |positions| <= i < |v.items| ensures Validates(NoOther, rest.value, v.items[i]) {
        Tight(rest.value, depth + 1, v.items[i]);
      }
    }
  }

  /** What membership in any of the three renderings of an object type says. */
  lemma ObjectTaken(node: map<string, Json>, depth: nat, v: Json)
    requires depth <= MAX_RECURSION_DEPTH && ObjectType(node, depth).Ok? && Inhabits(ObjectType(node, depth).value, v)
    ensures
      var keys := SortedKeys(DeclaredProperties(node).Keys + RequiredNames(node));
      var fields := FieldsFor(keys, DeclaredProperties(node), RequiredNames(node), depth);
      && v.Obj? && fields.Ok?
      && (forall i :: 0 <= i < |fields.value| ==> FieldHolds(fields.value[i], v.members))
      && var index := IndexSignature(At(node, "additionalProperties"), fields.value, depth);
         index.Ok? && forall k :: k in v.members ==> IndexHolds(fields.value, index.value, v.members, k)
  {
    hide EmitAtDepth, FieldsFor, IndexSignature, SortedKeys, DeclaredProperties, RequiredNames;
    var keys := SortedKeys(DeclaredProperties(node).Keys + RequiredNames(node));
    var fields := FieldsFor(keys, DeclaredProperties(node), RequiredNames(node), depth).value;
    var index := IndexSignature(At(node, "additionalProperties"), fields, depth).value;
    ObjectDisassembled(fields, index, v);
  }

  lemma ObjectDisassembled(fields: seq<Field>, index: Option<TsType>, v: Json)
    requires Inhabits(RenderObject(fields, index), v)
    ensures v.Obj?
    ensures forall i :: 0 <= i < |fields| ==> FieldHolds(fields[i], v.members)
    ensures forall k :: k in v.members ==> IndexHolds(fields, index, v.members, k)
  {
    forall k | k in v.members ensures IndexHolds(fields, index, v.members, k) {
      assert fields == [] && index == None ==> !Inhabits(Never, v.members[k]);
    }
  }

  lemma {:induction false} DeclaredTight(node: map<string, Json>, depth: nat, v: Json, k: string)
    requires depth <= MAX_RECURSION_DEPTH && BelowFaithful(node)
    requires ObjectType(node, depth).Ok? && Inhabits(ObjectType(node, depth).value, v)
    requires v.Obj? && k in DeclaredProperties(node) && k in v.members
    ensures Validates(NoOther, DeclaredProperties(node)[k], v.members[k])
    decreases Fuel(depth), 1
  {
    ObjectTaken(node, depth, v);
    DeclaredFaithful(node, k);
    hide EmitAtDepth, FieldsFor, IndexSignature, SortedKeys, DeclaredProperties, RequiredNames, ObjectType, Inhabits, Validates,
      BelowFaithful, IndexHolds, Faithful;
    var keys := SortedKeys(DeclaredProperties(node).Keys + RequiredNames(node));
    var fields := FieldsFor(keys, DeclaredProperties(node), RequiredNames(node), depth).value;
    assert k in keys;
    var i :| 0 <= i < |keys| && keys[i] == k;
    assert FieldHolds(fields[i], v.members);
    Tight(DeclaredProperties(node)[k], depth + 1, v.members[k]);
  }

  lemma DeclaredFaithful(node: map<string, Json>, k: string)
    requires BelowFaithful(node) && k in DeclaredProperties(node)
    ensures Faithful(DeclaredProperties(node)[k])
  {
    hide Faithful;
    assert IsSubschema(node, DeclaredProperties(node)[k]);
  }

  lemma RequiredTight(node: map<string, Json>, depth: nat, v: Json)
    requires depth <= MAX_RECURSION_DEPTH
    requires ObjectType(node, depth).Ok? && Inhabits(ObjectType(node, depth).value, v)
    ensures v.Obj? && RequiredNames(node) <= v.members.Keys
  {
    ObjectTaken(node, depth, v);
    hide EmitAtDepth, FieldsFor, IndexSignature, SortedKeys, DeclaredProperties, RequiredNames, ObjectType, Inhabits, IndexHolds;
    var keys := SortedKeys(DeclaredProperties(node).Keys + RequiredNames(node));
    var fields := FieldsFor(keys, DeclaredProperties(node), RequiredNames(node), depth).value;
    forall r | r in RequiredNames(node) ensures r in v.members {
      assert r in keys;
      var i :| 0 <= i < |keys| && keys[i] == r;
      assert FieldHolds(fields[i], v.members);
    }
  }

  lemma {:induction false} UndeclaredTight(node: map<string, Json>, depth: nat, v: Json, k: string)
    requires depth <= MAX_RECURSION_DEPTH && BelowFaithful(node) && ObjectFaithful(node)
    requires ObjectType(node, depth).Ok? && Inhabits(ObjectType(node, depth).value, v)
    requires v.Obj? && k !in DeclaredProperties(node) && k in v.members && "additionalProperties" in node
    ensures Validates(NoOther, node["additionalProperties"], v.members[k])
    decreases Fuel(depth), 1
  {
    ObjectTaken(node, depth, v);
    hide EmitAtDepth, FieldsFor, SortedKeys, DeclaredProperties, RequiredNames, ObjectType, Inhabits, Validates,
      BelowFaithful, Faithful, HasUnexpectedSibling, Dedupe, JoinUnion;
    var additional := node["additionalProperties"];
    var keys := SortedKeys(DeclaredProperties(node).Keys + RequiredNames(node));
    var fields := FieldsFor(keys, DeclaredProperties(node), RequiredNames(node), depth).value;
    assert IndexHolds(fields, IndexSignature(Some(additional), fields, depth).value, v.members, k);
    if additional.Obj? {
      assert keys == [] && fields == [];
      SlotFaithful(node, "additionalProperties");
      TypedIndexTight(additional, depth, v.members, k);
    } else if additional.Bool? {
      if !additional.b {
        ClosedNamesDeclared(node, depth, v.members, k);
      }
      UnknownSound(v.members[k]);
      BoolTight(additional.b, v.members[k]);
    } else {
      MalformedAccepts(additional, v.members[k]);
    }
  }

  lemma {:induction false} TypedIndexTight(additional: Json, depth: nat, members: map<string, Json>, k: string)
    requires depth <= MAX_RECURSION_DEPTH && additional.Obj? && Faithful(additional) && k in members
    requires var index := IndexSignature(Some(additional), [], depth);
             index.Ok? && IndexHolds([], index.value, members, k)
    ensures Validates(NoOther, additional, members[k])
    decreases Fuel(depth), 0
  {
    hide EmitAtDepth, Inhabits, Validates, Faithful, Dedupe, JoinUnion;
    LoneIndex(EmitAtDepth(Some(additional), depth + 1).value);
    Tight(additional, depth + 1, members[k]);
  }

  lemma ClosedNamesDeclared(node: map<string, Json>, depth: nat, members: map<string, Json>, k: string)
    requires depth <= MAX_RECURSION_DEPTH && k in members && RequiredNames(node) <= DeclaredProperties(node).Keys
    requires
      var fields := FieldsFor(SortedKeys(DeclaredProperties(node).Keys + RequiredNames(node)), DeclaredProperties(node), RequiredNames(node), depth);
      fields.Ok? && IndexHolds(fields.value, None, members, k)
    ensures k in DeclaredProperties(node)
  {
    hide EmitAtDepth, FieldsFor, SortedKeys, DeclaredProperties, RequiredNames;
    var keys := SortedKeys(DeclaredProperties(node).Keys + RequiredNames(node));
    var fields := FieldsFor(keys, DeclaredProperties(node), RequiredNames(node), depth).value;
    var i :| 0 <= i < |fields| && fields[i].name == k;
    assert keys[i] in keys;
  }

  lemma LoneIndex(typed: TsType)
    ensures JoinUnion(Dedupe([typed] + FieldTypes([]) + if HasOptional([]) then [Undefined] else [])) == typed
  {
    assert [typed] + FieldTypes([]) + [] == [typed];
    assert Dedupe([]) == [];
    assert [typed][..0] == [];
  }

  lemma {:induction false} ObjectTight(node: map<string, Json>, depth: nat, v: Json)
    requires depth <= MAX_RECURSION_DEPTH && BelowFaithful(node) && ObjectFaithful(node)
    requires Untyped(node) || At(node, "type") == Some(Str("object"))
    requires ObjectType(node, depth).Ok? && Inhabits(ObjectType(node, depth).value, v)
    ensures Validates(NoOther, Obj(node), v)
    decreases Fuel(depth), 2
  {
    hide EmitAtDepth, ObjectType, Inhabits, Validates, BelowFaithful, HasUnexpectedSibling, RequiredNames;
    RequiredTight(node, depth, v);
    forall k | k in DeclaredProperties(node) && k in v.members
      ensures Validates(NoOther, DeclaredProperties(node)[k], v.members[k])
    {
      DeclaredTight(node, depth, v, k);
    }
    if "additionalProperties" in node {
      forall k | k in v.members && k !in DeclaredProperties(node) ensures Validates(NoOther, node["additionalProperties"], v.members[k]) {
        UndeclaredTight(node, depth, v, k);
      }
    }
    assert ValidatesMembers(NoOther, node, v.members);
    OnlyObject(NoOther, node, v);
  }

  /** On a fully understood schema the emitted type and the schema contain the same values. */
  lemma Precision(schema: Json, v: Json)
    requires Faithful(schema) && Emit(Some(schema)).Ok?
    requires WithinReading(NoOther, schema, v)
    ensures Inhabits(Emit(Some(schema)).value, v) <==> Validates(NoOther, schema, v)
  {
    hide Inhabits, EmitAtDepth, Faithful, Validates, WithinReading;
    if Inhabits(Emit(Some(schema)).value, v) {
      Tight(schema, 0, v);
    }
    if Validates(NoOther, schema, v) {
      Soundness(NoOther, schema, v);
    }
  }
}
