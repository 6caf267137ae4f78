/** How deep a schema may nest before the emitter throws, and that the types it emits are legal TypeScript. */
module EmitterOutput {
  import opened Basics
  import opened Sorting
  import opened JsonValues
  import opened SchemaEmitter
  import opened SchemaSemantics
  import opened EmitterLimits

  // ---------- depth ----------

  /** Subschemas nest at most `n` levels below this one. */
  ghost predicate LevelsAtMost(schema: Json, n: nat)
    decreases n
  {
    schema.Obj? ==> forall sub :: IsSubschema(schema.members, sub) ==> n > 0 && LevelsAtMost(sub, n - 1)
  }

  ghost predicate Below(sub: Json, n: nat) {
    n > 0 && LevelsAtMost(sub, n - 1)
  }

  ghost predicate BelowAtMost(schemas: seq<Json>, n: nat) {
    forall i :: 0 <= i < |schemas| ==> Below(schemas[i], n)
  }

  lemma {:induction false} WithinDepth(schema: Json, depth: nat, n: nat)
    requires LevelsAtMost(schema, n) && depth + 2 * n + 2 <= MAX_RECURSION_DEPTH
    ensures EmitAtDepth(Some(schema), depth).Ok?
    decreases n, 9
  {
    hide LevelsAtMost, TryCombinator, TryEnumOrConst, DispatchByType, DispatchByShape;
    if schema.Obj? {
      NodeWithinDepth(schema.members, depth, n);
    }
  }

  lemma {:induction false} NodeWithinDepth(node: map<string, Json>, depth: nat, n: nat)
    requires LevelsAtMost(Obj(node), n)
    requires depth + 2 * n + (if TypeList(node) then 2 else 1) <= MAX_RECURSION_DEPTH
    ensures EmitAtDepth(Some(Obj(node)), depth).Ok?
    decreases n, if TypeList(node) then 8 else 6
  {
    hide LevelsAtMost, TryCombinator, DispatchByType, DispatchByShape, HasUnexpectedSibling, EnumLiterals;
    CombinatorWithinDepth(node, depth, n);
    TypeWithinDepth(node, depth, n);
    ShapeWithinDepth(node, depth, n);
  }

  lemma {:induction false} AllWithinDepth(schemas: seq<Json>, depth: nat, n: nat)
    requires BelowAtMost(schemas, n) && depth + 2 * n <= MAX_RECURSION_DEPTH
    ensures EmitAll(schemas, depth).Ok?
    decreases n, 0, |schemas|
  {
    hide LevelsAtMost, EmitAtDepth;
    if schemas == [] {
    } else {
      assert Below(schemas[0], n);
      WithinDepth(schemas[0], depth, n - 1);
      assert BelowAtMost(schemas[1..], n);
      AllWithinDepth(schemas[1..], depth, n);
    }
  }

  lemma ListBelow(node: map<string, Json>, key: string, n: nat)
    requires LevelsAtMost(Obj(node), n) && key in {"oneOf", "anyOf", "allOf", "prefixItems", "items"}
    requires AsArray(At(node, key)).Some?
    ensures BelowAtMost(AsArray(At(node, key)).value, n)
  {
    var list := AsArray(At(node, key)).value;
    forall i | 0 <= i < |list| ensures Below(list[i], n) {
      ListedBelow(node, key, list[i], n);
    }
  }

  lemma ListedBelow(node: map<string, Json>, key: string, sub: Json, n: nat)
    requires LevelsAtMost(Obj(node), n) && key in {"oneOf", "anyOf", "allOf", "prefixItems", "items"}
    requires key in node && node[key].Arr? && sub in node[key].items
    ensures Below(sub, n)
  {
    assert IsSubschema(node, sub);
  }

  lemma {:induction false} CombinatorWithinDepth(node: map<string, Json>, depth: nat, n: nat)
    requires LevelsAtMost(Obj(node), n) && depth + 2 * n + 1 <= MAX_RECURSION_DEPTH
    ensures TryCombinator(node, depth) != Gave(TooDeep)
    decreases n, 4
  {
    hide LevelsAtMost, EmitAll, HasUnexpectedSibling;
    var oneOf, anyOf, allOf := AsArray(At(node, "oneOf")), AsArray(At(node, "anyOf")), AsArray(At(node, "allOf"));
    if oneOf.Some? { ListBelow(node, "oneOf", n); AllWithinDepth(oneOf.value, depth + 1, n); }
    if anyOf.Some? { ListBelow(node, "anyOf", n); AllWithinDepth(anyOf.value, depth + 1, n); }
    if allOf.Some? { ListBelow(node, "allOf", n); AllWithinDepth(allOf.value, depth + 1, n); }
  }

  lemma ProjectionLevels(node: map<string, Json>, name: string, n: nat)
    requires LevelsAtMost(Obj(node), n)
    ensures LevelsAtMost(Obj(Project(node, name)), n) && !TypeList(Project(node, name))
  {
    var p := Project(node, name);
    assert forall k :: k in p && k != "type" ==> k in node && p[k] == node[k];
    forall sub | IsSubschema(p, sub) ensures IsSubschema(node, sub) {
      if key :| key in {"oneOf", "anyOf", "allOf", "prefixItems", "items"} && key in p && p[key].Arr? && sub in p[key].items {
        assert key in node && sub in node[key].items;
      } else if key :| key in {"items", "additionalItems", "additionalProperties"} && key in p && sub == p[key] {
        assert key in node && sub == node[key];
      }
    }
  }

  lemma {:induction false} TypeListWithinDepth(node: map<string, Json>, names: seq<Json>, depth: nat, n: nat)
    requires LevelsAtMost(Obj(node), n) && depth + 2 * n + 2 <= MAX_RECURSION_DEPTH
    ensures ExpandTypeArray(node, names, depth).Ok?
    decreases n, 7, 1, |names|
  {
    hide LevelsAtMost, EmitAtDepth, TypeList, Project;
    if names == [] {
    } else {
      if names[0].Str? {
        ProjectionLevels(node, names[0].s, n);
        NodeWithinDepth(Project(node, names[0].s), depth + 1, n);
      }
      TypeListWithinDepth(node, names[1..], depth, n);
    }
  }

  lemma {:induction false} TypeWithinDepth(node: map<string, Json>, depth: nat, n: nat)
    requires LevelsAtMost(Obj(node), n)
    requires depth + 2 * n + (if TypeList(node) then 2 else 1) <= MAX_RECURSION_DEPTH
    ensures DispatchByType(node, depth) != Gave(TooDeep)
    decreases n, if TypeList(node) then 7 else 5, 2
  {
    hide LevelsAtMost, ArrayType, ObjectType, HasUnexpectedSibling, ExpandTypeArray;
    if TypeList(node) {
      TypeListWithinDepth(node, node["type"].items, depth, n);
    } else {
      ArrayWithinDepth(node, depth, n);
      ObjectWithinDepth(node, depth, n);
    }
  }

  lemma {:induction false} ShapeWithinDepth(node: map<string, Json>, depth: nat, n: nat)
    requires LevelsAtMost(Obj(node), n) && depth + 2 * n + 1 <= MAX_RECURSION_DEPTH
    ensures DispatchByShape(node, depth) != Gave(TooDeep)
    decreases n, 5
  {
    hide LevelsAtMost, ArrayType, ObjectType, HasUnexpectedSibling;
    ArrayWithinDepth(node, depth, n);
    ObjectWithinDepth(node, depth, n);
  }

  lemma {:induction false} SlotWithinDepth(node: map<string, Json>, key: string, depth: nat, n: nat)
    requires LevelsAtMost(Obj(node), n) && depth + 2 * n + 1 <= MAX_RECURSION_DEPTH
    requires key in {"items", "additionalItems", "additionalProperties"}
    ensures EmitAtDepth(At(node, key), depth + 1).Ok?
    decreases n, 3
  {
    if key in node {
      assert IsSubschema(node, node[key]);
      hide EmitAtDepth;
      WithinDepth(node[key], depth + 1, n - 1);
    }
  }

  lemma {:induction false} ArrayWithinDepth(node: map<string, Json>, depth: nat, n: nat)
    requires LevelsAtMost(Obj(node), n) && depth + 2 * n + 1 <= MAX_RECURSION_DEPTH
    ensures ArrayType(node, depth).Ok?
    decreases n, 4
  {
    hide LevelsAtMost, EmitAtDepth, EmitAll;
    SlotWithinDepth(node, "items", depth, n);
    SlotWithinDepth(node, "additionalItems", depth, n);
    if AsArray(At(node, "prefixItems")).Some? {
      ListBelow(node, "prefixItems", n);
      AllWithinDepth(AsArray(At(node, "prefixItems")).value, depth + 1, n);
    } else if AsArray(At(node, "items")).Some? {
      ListBelow(node, "items", n);
      AllWithinDepth(AsArray(At(node, "items")).value, depth + 1, n);
    }
  }

  lemma {:induction false} FieldsWithinDepth(node: map<string, Json>, keys: seq<string>, required: set<string>, depth: nat, n: nat)
    requires LevelsAtMost(Obj(node), n) && depth + 2 * n + 1 <= MAX_RECURSION_DEPTH
    ensures FieldsFor(keys, DeclaredProperties(node), required, depth).Ok?
    decreases n, 3, |keys|
  {
    if keys == [] {
    } else {
      var properties := DeclaredProperties(node);
      if keys[0] in properties {
        assert IsSubschema(node, properties[keys[0]]);
        hide EmitAtDepth;
        WithinDepth(properties[keys[0]], depth + 1, n - 1);
      }
      FieldsWithinDepth(node, keys[1..], required, depth, n);
    }
  }

  lemma {:induction false} ObjectWithinDepth(node: map<string, Json>, depth: nat, n: nat)
    requires LevelsAtMost(Obj(node), n) && depth + 2 * n + 1 <= MAX_RECURSION_DEPTH
    ensures ObjectType(node, depth).Ok?
    decreases n, 4
  {
    hide LevelsAtMost, EmitAtDepth, FieldsFor, SortedKeys, DeclaredProperties, RequiredNames;
    FieldsWithinDepth(node, SortedKeys(DeclaredProperties(node).Keys + RequiredNames(node)), RequiredNames(node), depth, n);
    SlotWithinDepth(node, "additionalProperties", depth, n);
  }

  /** No schema nested at most 31 levels below the root throws. */
  lemma ThirtyOneLevelsEmit(schema: Json)
    requires LevelsAtMost(schema, 31)
    ensures Emit(Some(schema)).Ok?
  {
    hide LevelsAtMost;
    WithinDepth(schema, 0, 31);
  }

  // ---------- the bound is tight ----------

  function TowerNode(n: nat): map<string, Json> {
    if n == 0 then map["type" := Arr([Str("array")])]
    else map["type" := Arr([Str("array")]), "items" := Obj(TowerNode(n - 1))]
  }

  /** Arrays nested `n` levels deep, each with a one-element list of types. */
  function Tower(n: nat): Json {
    Obj(TowerNode(n))
  }

  lemma {:induction false} TowerLevels(n: nat)
    ensures LevelsAtMost(Tower(n), n)
  {
    var node := TowerNode(n);
    if n > 0 { TowerLevels(n - 1); }
    forall sub | IsSubschema(node, sub) ensures n > 0 && sub == Tower(n - 1) {
      assert forall key :: key in node ==> key == "type" || (n > 0 && key == "items");
    }
  }

  lemma TowerFloor(n: nat, depth: nat)
    requires depth <= MAX_RECURSION_DEPTH
    ensures ArrayType(Project(TowerNode(n), "array"), depth) ==
      if n == 0 then Ok(ArrayOf(Unknown))
      else match EmitAtDepth(Some(Tower(n - 1)), depth + 1)
           case TooDeep => TooDeep
           case Ok(element) => Ok(ArrayOf(element))
  {
    var node := TowerNode(n);
    var p := Project(node, "array");
    assert At(p, "items") == At(node, "items");
    assert At(p, "prefixItems") == None;
    hide EmitAtDepth;
  }

  lemma TowerStorey(n: nat, depth: nat)
    requires depth <= MAX_RECURSION_DEPTH
    ensures EmitAtDepth(Some(Tower(n)), depth) == EmitAtDepth(Some(Obj(Project(TowerNode(n), "array"))), depth + 1)
  {
    var node := TowerNode(n);
    assert forall key :: key in node ==> key == "type" || key == "items";
    NotCombined(node, depth);
    var names := [Str("array")];
    var branch := EmitAtDepth(Some(Obj(Project(node, "array"))), depth + 1);
    hide Project, TryCombinator, TryEnumOrConst, TowerNode, DispatchByShape;
    assert At(node, "type") == Some(Arr(names));
    assert names[1..] == [];
    assert ExpandTypeArray(node, names[1..], depth) == Ok([]);
    assert ExpandTypeArray(node, names, depth) == if branch.Ok? then Ok([branch.value] + []) else TooDeep;
  }

  lemma ArrayTypedNode(node: map<string, Json>, depth: nat)
    requires depth <= MAX_RECURSION_DEPTH
    requires At(node, "type") == Some(Str("array")) && !HasUnexpectedSibling(node, ARRAY_SUPPORTED_KEYS)
    ensures EmitAtDepth(Some(Obj(node)), depth) == ArrayType(node, depth)
  {
    OnlyArrayKeywords(node);
    NotCombined(node, depth);
    hide TryCombinator, TryEnumOrConst, DispatchByShape, ArrayType, HasUnexpectedSibling;
    assert DispatchTypeString(node, "array", depth) == Gave(ArrayType(node, depth));
    assert DispatchByType(node, depth) == Gave(ArrayType(node, depth));
  }

  lemma TowerProjected(n: nat, depth: nat)
    requires depth <= MAX_RECURSION_DEPTH
    ensures EmitAtDepth(Some(Obj(Project(TowerNode(n), "array"))), depth) == ArrayType(Project(TowerNode(n), "array"), depth)
  {
    hide EmitAtDepth, ArrayType;
    var p := Project(TowerNode(n), "array");
    assert forall key :: key in p ==> key == "type" || key == "items";
    ArrayTypedNode(p, depth);
  }

  lemma PastTheLimit(schema: Option<Json>, depth: nat)
    requires depth > MAX_RECURSION_DEPTH
    ensures EmitAtDepth(schema, depth) == TooDeep
  {
  }

  /** A tower throws exactly when two levels a storey pass the limit, so 32 levels can throw. */
  lemma {:induction false} TowerThrows(n: nat, depth: nat)
    requires depth <= MAX_RECURSION_DEPTH
    ensures EmitAtDepth(Some(Tower(n)), depth).TooDeep? <==> depth + 2 * n + 1 > MAX_RECURSION_DEPTH
    decreases n
  {
    hide EmitAtDepth, ArrayType, Project, TowerNode;
    TowerStorey(n, depth);
    if depth + 1 > MAX_RECURSION_DEPTH {
      PastTheLimit(Some(Obj(Project(TowerNode(n), "array"))), depth + 1);
    } else {
      TowerProjected(n, depth + 1);
      TowerFloor(n, depth + 1);
      if n > 0 {
        if depth + 2 <= MAX_RECURSION_DEPTH {
          TowerThrows(n - 1, depth + 2);
        } else {
          PastTheLimit(Some(Tower(n - 1)), depth + 2);
        }
      }
    }
  }

  lemma ThirtyTwoLevelsCanThrow()
    ensures LevelsAtMost(Tower(32), 32) && Emit(Some(Tower(32))).TooDeep?
  {
    hide Tower, EmitAtDepth, LevelsAtMost;
    TowerLevels(32);
    TowerThrows(32, 0);
  }

  // ---------- well-formed output ----------

  /** `t` is assignable to the index signature's type `index` by being it or one of its members. */
  predicate Covers(index: TsType, t: TsType) {
    index == Unknown || index == t || (index.Union? && t in index.members)
  }

  /** The compatibility rule for index signatures: every named member, and `undefined` if one is optional. */
  predicate IndexLegal(fields: seq<Field>, index: Option<TsType>) {
    index.Some? ==> forall i :: 0 <= i < |fields| ==>
      Covers(index.value, fields[i].value) && (fields[i].optional ==> Covers(index.value, Undefined))
  }

  /** Each name once, in the order the keys are sorted in. */
  predicate NamesAscend(fields: seq<Field>) {
    forall i, j :: 0 <= i < j < |fields| ==> Less(fields[i].name, fields[j].name)
  }

  /** Only what has several members is joined, and an object without any member is a record. */
  predicate WellFormed(t: TsType) {
    match t
    case Union(members) => |members| > 1 && forall i :: 0 <= i < |members| ==> WellFormed(members[i])
    case Intersection(members) => |members| > 1 && forall i :: 0 <= i < |members| ==> WellFormed(members[i])
    case ArrayOf(element) => WellFormed(element)
    case Tuple(positions, rest) =>
      (forall i :: 0 <= i < |positions| ==> WellFormed(positions[i])) && (rest.Some? ==> WellFormed(rest.value))
    case Record(value) => WellFormed(value)
    case Object(fields, index) =>
      && NamesAscend(fields) && IndexLegal(fields, index)
      && (fields == [] ==> index.Some? && index.value != Unknown)
      && (forall i :: 0 <= i < |fields| ==> WellFormed(fields[i].value))
      && (index.Some? ==> WellFormed(index.value))
    case _ => true
  }

  predicate WellFormedResult(r: Result<TsType>) {
    r.Ok? ==> WellFormed(r.value)
  }

  predicate WellFormedAll(types: seq<TsType>) {
    forall i :: 0 <= i < |types| ==> WellFormed(types[i])
  }

  lemma JoinedWellFormed(types: seq<TsType>)
    requires WellFormedAll(types)
    ensures WellFormed(JoinUnion(types)) && WellFormed(JoinIntersection(types))
  {
  }

  lemma WellFormedArrays()
    ensures WellFormed(Unknown)
    ensures forall t :: WellFormed(t) ==> WellFormed(ArrayOf(t))
    ensures forall types :: WellFormedAll(types) ==> WellFormed(Tuple(types, None))
    ensures forall types, rest :: WellFormedAll(types) && WellFormed(rest) ==> WellFormed(Tuple(types, Some(rest)))
  {
  }

  lemma EnumWellFormed(node: map<string, Json>)
    ensures TryEnumOrConst(node).Gave? ==> WellFormedResult(TryEnumOrConst(node).result)
  {
    hide HasUnexpectedSibling;
    if AsArray(At(node, "enum")).Some? {
      JoinedWellFormed(Literals(AsArray(At(node, "enum")).value));
    }
  }

  /** The union of an `enum` names each value in its place, and `unknown` takes the place of the union as a whole. */
  lemma EnumNamesItsValues(entries: seq<Json>)
    ensures var t := EnumLiterals(entries);
            t.Union? ==> |t.members| == |entries| && forall i, v :: 0 <= i < |entries| ==> (Inhabits(t.members[i], v) <==> v == entries[i])
  {
    var literals := Literals(entries);
    if EnumLiterals(entries).Union? {
      forall i, v | 0 <= i < |entries| ensures Inhabits(literals[i], v) <==> v == entries[i] {
        assert literals[i] in literals && literals[i] != Unknown;
      }
    }
  }

  lemma {:induction false} EmittedWellFormed(schema: Option<Json>, depth: nat)
    ensures WellFormedResult(EmitAtDepth(schema, depth))
    decreases Fuel(depth), 5
  {
    hide TryCombinator, TryEnumOrConst, DispatchByType, DispatchByShape;
    if depth <= MAX_RECURSION_DEPTH && schema.Some? && schema.value.Obj? {
      var node := schema.value.members;
      CombinatorWellFormed(node, depth);
      EnumWellFormed(node);
      TypeWellFormed(node, depth);
      ShapeWellFormed(node, depth);
    }
  }

  lemma {:induction false} EmittedAllWellFormed(schemas: seq<Json>, depth: nat)
    ensures EmitAll(schemas, depth).Ok? ==> WellFormedAll(EmitAll(schemas, depth).value)
    decreases Fuel(depth), 6
  {
    hide EmitAtDepth, WellFormed;
    if EmitAll(schemas, depth).Ok? {
      forall i | 0 <= i < |schemas| ensures WellFormed(EmitAll(schemas, depth).value[i]) {
        EmittedWellFormed(Some(schemas[i]), depth);
      }
    }
  }

  lemma {:induction false} CombinatorWellFormed(node: map<string, Json>, depth: nat)
    requires depth <= MAX_RECURSION_DEPTH
    ensures TryCombinator(node, depth).Gave? ==> WellFormedResult(TryCombinator(node, depth).result)
    decreases Fuel(depth), 4
  {
    hide HasUnexpectedSibling, EmitAll, JoinUnion, JoinIntersection;
    forall key | key in COMBINATOR_KEYS && AsArray(At(node, key)).Some?
      ensures
        var types := EmitAll(AsArray(At(node, key)).value, depth + 1);
        types.Ok? ==> WellFormed(JoinUnion(types.value)) && WellFormed(JoinIntersection(types.value))
    {
      var types := EmitAll(AsArray(At(node, key)).value, depth + 1);
      EmittedAllWellFormed(AsArray(At(node, key)).value, depth + 1);
      if types.Ok? { JoinedWellFormed(types.value); }
    }
    assert "oneOf" in COMBINATOR_KEYS && "anyOf" in COMBINATOR_KEYS && "allOf" in COMBINATOR_KEYS;
  }

  lemma {:induction false} TypeWellFormed(node: map<string, Json>, depth: nat)
    requires depth <= MAX_RECURSION_DEPTH
    ensures DispatchByType(node, depth).Gave? ==> WellFormedResult(DispatchByType(node, depth).result)
    decreases Fuel(depth), 4
  {
    hide HasUnexpectedSibling, EmitAtDepth, JoinUnion, ArrayType, ObjectType;
    ArrayWellFormed(node, depth);
    ObjectWellFormed(node, depth);
    match At(node, "type")
    case Some(Arr(names)) =>
      var branches := ExpandTypeArray(node, names, depth);
      if branches.Ok? {
        forall i | 0 <= i < |names| ensures WellFormed(branches.value[i]) {
          if names[i].Str? { EmittedWellFormed(Some(Obj(Project(node, names[i].s))), depth + 1); }
        }
        JoinedWellFormed(branches.value);
      }
    case _ =>
  }

  lemma {:induction false} ShapeWellFormed(node: map<string, Json>, depth: nat)
    requires depth <= MAX_RECURSION_DEPTH
    ensures DispatchByShape(node, depth).Gave? ==> WellFormedResult(DispatchByShape(node, depth).result)
    decreases Fuel(depth), 4
  {
    hide HasUnexpectedSibling, ArrayType, ObjectType;
    ArrayWellFormed(node, depth);
    ObjectWellFormed(node, depth);
  }

  lemma {:induction false} ArrayWellFormed(node: map<string, Json>, depth: nat)
    requires depth <= MAX_RECURSION_DEPTH
    ensures WellFormedResult(ArrayType(node, depth))
    decreases Fuel(depth), 3
  {
    hide EmitAtDepth, EmitAll, Positions, RestSchema, WellFormed;
    WellFormedArrays();
    EmittedWellFormed(RestSchema(node), depth + 1);
    EmittedWellFormed(At(node, "items"), depth + 1);
    if Positions(node).Some? { EmittedAllWellFormed(Positions(node).value, depth + 1); }
  }

  lemma IndexMembersLegal(typed: TsType, fields: seq<Field>)
    ensures
      var types := [typed] + FieldTypes(fields) + if HasOptional(fields) then [Undefined] else [];
      IndexLegal(fields, Some(JoinUnion(Dedupe(types))))
  {
    var types := [typed] + FieldTypes(fields) + if HasOptional(fields) then [Undefined] else [];
    var members := Dedupe(types);
    hide Dedupe;
    assert forall t :: t in members ==> Covers(JoinUnion(members), t);
    forall i | 0 <= i < |fields|
      ensures fields[i].value in members && (fields[i].optional ==> Undefined in members)
    {
      assert types[i + 1] == fields[i].value;
      if fields[i].optional {
        assert types[|fields| + 1] == Undefined;
      }
    }
  }

  lemma IndexMembersWellFormed(typed: TsType, fields: seq<Field>)
    requires WellFormed(typed) && forall i :: 0 <= i < |fields| ==> WellFormed(fields[i].value)
    ensures
      var types := [typed] + FieldTypes(fields) + if HasOptional(fields) then [Undefined] else [];
      WellFormed(JoinUnion(Dedupe(types)))
  {
    var types := [typed] + FieldTypes(fields) + if HasOptional(fields) then [Undefined] else [];
    assert WellFormed(Undefined);
    hide WellFormed, JoinUnion, HasOptional, Dedupe;
    assert forall i :: 0 <= i < |types| ==> WellFormed(types[i]);
    forall i | 0 <= i < |Dedupe(types)| ensures WellFormed(Dedupe(types)[i]) {
      assert Dedupe(types)[i] in types;
    }
    JoinedWellFormed(Dedupe(types));
  }

  lemma {:induction false} IndexWellFormed(additional: Option<Json>, fields: seq<Field>, depth: nat)
    requires depth <= MAX_RECURSION_DEPTH
    requires forall i :: 0 <= i < |fields| ==> WellFormed(fields[i].value)
    ensures var index := IndexSignature(additional, fields, depth);
            index.Ok? ==> IndexLegal(fields, index.value) && (index.value.Some? ==> WellFormed(index.value.value))
    decreases Fuel(depth), 2
  {
    WellFormedArrays();
    hide EmitAtDepth, WellFormed, JoinUnion, Dedupe, IndexLegal, HasOptional;
    EmittedWellFormed(additional, depth + 1);
    var typed := EmitAtDepth(additional, depth + 1);
    if typed.Ok? {
      IndexMembersLegal(typed.value, fields);
      IndexMembersWellFormed(typed.value, fields);
    }
    UnknownLegal(fields);
  }

  lemma UnknownLegal(fields: seq<Field>)
    ensures IndexLegal(fields, Some(Unknown)) && IndexLegal(fields, None)
  {
  }

  lemma RenderedWellFormed(fields: seq<Field>, index: Option<TsType>)
    requires forall i :: 0 <= i < |fields| ==> WellFormed(fields[i].value)
    requires NamesAscend(fields) && IndexLegal(fields, index) && (index.Some? ==> WellFormed(index.value))
    ensures WellFormed(RenderObject(fields, index))
  {
    hide IndexLegal, NamesAscend;
    assert WellFormed(Record(Never)) && WellFormed(Record(Unknown));
  }

  lemma {:induction false} ObjectWellFormed(node: map<string, Json>, depth: nat)
    requires depth <= MAX_RECURSION_DEPTH
    ensures WellFormedResult(ObjectType(node, depth))
    decreases Fuel(depth), 3
  {
    hide EmitAtDepth, FieldsFor, IndexSignature, SortedKeys, DeclaredProperties, RequiredNames, IndexLegal, RenderObject, WellFormed;
    var properties, required := DeclaredProperties(node), RequiredNames(node);
    var keys := SortedKeys(properties.Keys + required);
    var fields := FieldsFor(keys, properties, required, depth);
    if fields.Ok? {
      forall i | 0 <= i < |fields.value| ensures WellFormed(fields.value[i].value) {
        EmittedWellFormed(At(properties, keys[i]), depth + 1);
      }
      assert NamesAscend(fields.value);
      hide NamesAscend;
      IndexWellFormed(At(node, "additionalProperties"), fields.value, depth);
      var index := IndexSignature(At(node, "additionalProperties"), fields.value, depth);
      if index.Ok? {
        RenderedWellFormed(fields.value, index.value);
      }
    }
  }
}
