/** Every value a schema accepts is in the emitted type. */
module EmitterSoundness {
  import opened Basics
  import opened JsonValues
  import opened SchemaEmitter
  import opened SchemaSemantics

  // ---------- the part of acceptance the emitter relies on ----------

  /** Acceptance within the reading, where the emitter looks, and with `oneOf` weakened to "some branch". */
  ghost predicate Fits(schema: Json, v: Json)
    decreases schema, 2
  {
    match schema
    case Bool(b) => b
    case Obj(node) => HasCatchAll(node) || FitsNode(node, v)
    case _ => true
  }

  ghost predicate FitsNode(node: map<string, Json>, v: Json)
    decreases Obj(node), 1
  {
    && TypeAccepts(At(node, "type"), v)
    && EnumAndConstAccept(node, v)
    && RequiredAccepts(node, v)
    && ReadingHolds(node, v)
    && (ReadsBranches(node) ==> FitsBranches(node, v))
    && (v.Obj? && ReadsMembers(node) ==> FitsMembers(node, v.members))
    && (v.Arr? && ReadsItems(node) ==> FitsItems(node, v.items))
  }

  ghost predicate FitsBranches(node: map<string, Json>, v: Json)
    decreases Obj(node), 0
  {
    && ("oneOf" in node && node["oneOf"].Arr? ==>
          exists i :: 0 <= i < |node["oneOf"].items| && Fits(node["oneOf"].items[i], v))
    && ("anyOf" in node && node["anyOf"].Arr? ==>
          exists i :: 0 <= i < |node["anyOf"].items| && Fits(node["anyOf"].items[i], v))
    && ("allOf" in node && node["allOf"].Arr? ==>
          forall i :: 0 <= i < |node["allOf"].items| ==> Fits(node["allOf"].items[i], v))
  }

  ghost predicate FitsMembers(node: map<string, Json>, members: map<string, Json>)
    decreases Obj(node), 0
  {
    && ("properties" in node && node["properties"].Obj? ==>
          forall k :: k in node["properties"].members && k in members ==> Fits(node["properties"].members[k], members[k]))
    && ("additionalProperties" in node && "patternProperties" !in node ==>
          forall k :: k in members && k !in DeclaredProperties(node) ==> Fits(node["additionalProperties"], members[k]))
  }

  ghost predicate FitsItems(node: map<string, Json>, items: seq<Json>)
    decreases Obj(node), 0
  {
    if "prefixItems" in node && node["prefixItems"].Arr? then
      var positions := node["prefixItems"].items;
      && (forall i :: 0 <= i < |positions| && i < |items| ==> Fits(positions[i], items[i]))
      && ("items" in node ==> forall i :: |positions| <= i < |items| ==> Fits(node["items"], items[i]))
    else if "items" in node && node["items"].Arr? then
      var positions := node["items"].items;
      && (forall i :: 0 <= i < |positions| && i < |items| ==> Fits(positions[i], items[i]))
      && ("additionalItems" in node ==>
            forall i :: |positions| <= i < |items| ==> Fits(node["additionalItems"], items[i]))
    else
      "items" in node ==> forall i :: 0 <= i < |items| ==> Fits(node["items"], items[i])
  }

  lemma {:induction false} AcceptedFits(x: OtherKeywords, schema: Json, v: Json)
    requires Validates(x, schema, v) && WithinReading(x, schema, v)
    ensures Fits(schema, v)
    decreases schema, 1
  {
    hide ReadingHolds, TypeAccepts, EnumAndConstAccept, RequiredAccepts, ValidatesMembers, ValidatesItems,
      MembersWithinReading, ItemsWithinReading, FitsMembers, FitsItems, ValidatesBranches, BranchesWithinReading, FitsBranches,
      ReadsBranches, ReadsMembers, ReadsItems, HasCatchAll;
    if schema.Obj? && !HasCatchAll(schema.members) {
      var node := schema.members;
      if ReadsBranches(node) { AcceptedBranchesFit(x, node, v); }
      if v.Obj? && ReadsMembers(node) { AcceptedMembersFit(x, node, v.members); }
      if v.Arr? && ReadsItems(node) { AcceptedItemsFit(x, node, v.items); }
    }
  }

  lemma {:induction false} AcceptedBranchesFit(x: OtherKeywords, node: map<string, Json>, v: Json)
    requires ValidatesBranches(x, node, v) && BranchesWithinReading(x, node, v)
    ensures FitsBranches(node, v)
    decreases Obj(node), 0
  {
    hide Validates, WithinReading, Fits;
    if "oneOf" in node && node["oneOf"].Arr? {
      var branches := node["oneOf"].items;
      var i :| 0 <= i < |branches| && Validates(x, branches[i], v) && WithinReading(x, branches[i], v);
      AcceptedFits(x, branches[i], v);
    }
    if "anyOf" in node && node["anyOf"].Arr? {
      var branches := node["anyOf"].items;
      var i :| 0 <= i < |branches| && Validates(x, branches[i], v) && WithinReading(x, branches[i], v);
      AcceptedFits(x, branches[i], v);
    }
    if "allOf" in node && node["allOf"].Arr? {
      forall i | 0 <= i < |node["allOf"].items| ensures Fits(node["allOf"].items[i], v) {
        AcceptedFits(x, node["allOf"].items[i], v);
      }
    }
  }

  lemma {:induction false} AcceptedMembersFit(x: OtherKeywords, node: map<string, Json>, members: map<string, Json>)
    requires ValidatesMembers(x, node, members) && MembersWithinReading(x, node, members)
    ensures FitsMembers(node, members)
    decreases Obj(node), 0
  {
    hide Validates, WithinReading, Fits;
    if "properties" in node && node["properties"].Obj? {
      var properties := node["properties"].members;
      forall k | k in properties && k in members ensures Fits(properties[k], members[k]) {
        AcceptedFits(x, properties[k], members[k]);
      }
    }
    if "additionalProperties" in node && "patternProperties" !in node {
      forall k | k in members && k !in DeclaredProperties(node) ensures Fits(node["additionalProperties"], members[k]) {
        AcceptedFits(x, node["additionalProperties"], members[k]);
      }
    }
  }

  lemma {:induction false} AcceptedItemsFit(x: OtherKeywords, node: map<string, Json>, items: seq<Json>)
    requires ValidatesItems(x, node, items) && ItemsWithinReading(x, node, items)
    ensures FitsItems(node, items)
    decreases Obj(node), 0
  {
    hide Validates, WithinReading, Fits;
    if "prefixItems" in node && node["prefixItems"].Arr? {
      var positions := node["prefixItems"].items;
      forall i | 0 <= i < |positions| && i < |items| ensures Fits(positions[i], items[i]) {
        AcceptedFits(x, positions[i], items[i]);
      }
      if "items" in node {
        forall i | |positions| <= i < |items| ensures Fits(node["items"], items[i]) {
          AcceptedFits(x, node["items"], items[i]);
        }
      }
    } else if "items" in node && node["items"].Arr? {
      var positions := node["items"].items;
      forall i | 0 <= i < |positions| && i < |items| ensures Fits(positions[i], items[i]) {
        AcceptedFits(x, positions[i], items[i]);
      }
      if "additionalItems" in node {
        forall i | |positions| <= i < |items| ensures Fits(node["additionalItems"], items[i]) {
          AcceptedFits(x, node["additionalItems"], items[i]);
        }
      }
    } else if "items" in node {
      forall i | 0 <= i < |items| ensures Fits(node["items"], items[i]) {
        AcceptedFits(x, node["items"], items[i]);
      }
    }
  }

  // ---------- leaves ----------

  lemma LiteralSound(value: Json)
    ensures Inhabits(LiteralFromValue(value), value)
  {
  }

  lemma JoinUnionSound(types: seq<TsType>, i: nat, v: Json)
    requires i < |types| && Inhabits(types[i], v)
    ensures Inhabits(JoinUnion(types), v)
  {
  }

  lemma EnumLiteralsSound(entries: seq<Json>, v: Json)
    requires v in entries
    ensures Inhabits(EnumLiterals(entries), v)
  {
    var i :| 0 <= i < |entries| && entries[i] == v;
    LiteralSound(v);
    JoinUnionSound(Literals(entries), i, v);
  }

  lemma EnumOrConstSound(node: map<string, Json>, v: Json)
    requires EnumAndConstAccept(node, v) && TryEnumOrConst(node).Gave?
    ensures TryEnumOrConst(node).result.Ok? && Inhabits(TryEnumOrConst(node).result.value, v)
  {
    hide HasUnexpectedSibling, Inhabits, EnumLiterals;
    if "const" in node { LiteralSound(node["const"]); }
    if "enum" in node && node["enum"].Arr? { EnumLiteralsSound(node["enum"].items, v); }
    assert Inhabits(Unknown, v) by { UnknownSound(v); }
  }

  lemma UnknownSound(v: Json)
    ensures Inhabits(Unknown, v)
  {
  }

  lemma PrimitiveSound(name: string, v: Json)
    requires HasType(v, name) && PrimitiveTypeFor(name).Some?
    ensures Inhabits(PrimitiveTypeFor(name).value, v)
  {
  }

  /** A value of one of the listed types still fits the node cut down to that type. */
  lemma ProjectionFits(node: map<string, Json>, name: string, v: Json)
    requires FitsNode(node, v) && HasType(v, name) && TypeList(node)
    ensures FitsNode(Project(node, name), v)
  {
    ProjectedLeavesFit(node, name, v);
    ProjectionReading(node, name, v);
    ProjectionReads(node, name);
    hide Project, FitsBranches, FitsMembers, FitsItems, ReadingHolds, RequiredAccepts, EnumAndConstAccept, TypeAccepts,
      ReadsBranches, ReadsMembers, ReadsItems;
    if v.Obj? && ReadsMembers(node) {
      ProjectedMembersFit(node, v.members);
    }
    if v.Arr? && ReadsItems(node) {
      ProjectedItemsFit(node, v.items);
    }
  }

  /** What the emitter looks at below the cut-down node, it is taken to look at below the node itself. */
  lemma ProjectionReads(node: map<string, Json>, name: string)
    requires TypeList(node)
    ensures var p := Project(node, name);
            && !ReadsBranches(p)
            && (name == "object" && ReadsMembers(p) ==> ReadsMembers(node))
            && (name == "array" && ReadsItems(p) ==> ReadsItems(node))
  {
    var p := Project(node, name);
    assert "type" in p && "type" !in COMBINATOR_KEYS && "type" !in ANNOTATION_ONLY_KEYWORDS;
    assert forall key :: key in node && Projected(key, name) ==> key in p;
    assert !TypeList(p);
  }

  lemma ProjectedLeavesFit(node: map<string, Json>, name: string, v: Json)
    requires EnumAndConstAccept(node, v) && RequiredAccepts(node, v) && HasType(v, name)
    ensures var p := Project(node, name);
            TypeAccepts(At(p, "type"), v) && EnumAndConstAccept(p, v) && RequiredAccepts(p, v)
  {
    var p := Project(node, name);
    assert At(p, "type") == Some(Str(name));
    assert forall k :: k in p && k != "type" ==> k in node && p[k] == node[k];
  }

  lemma ProjectedMembersFit(node: map<string, Json>, members: map<string, Json>)
    requires FitsMembers(node, members)
    ensures FitsMembers(Project(node, "object"), members)
  {
    hide Fits;
    var p := Project(node, "object");
    assert forall k :: k != "type" && k !in ARRAY_ONLY_KEYWORDS ==> (k in p <==> k in node) && (k in p ==> p[k] == node[k]);
  }

  lemma ProjectedItemsFit(node: map<string, Json>, items: seq<Json>)
    requires FitsItems(node, items)
    ensures FitsItems(Project(node, "array"), items)
  {
    hide Fits;
    var p := Project(node, "array");
    assert forall k :: k != "type" && k !in OBJECT_ONLY_KEYWORDS ==> (k in p <==> k in node) && (k in p ==> p[k] == node[k]);
  }

  lemma ProjectionReading(node: map<string, Json>, name: string, v: Json)
    requires ReadingHolds(node, v) && HasType(v, name) && At(node, "type").Some? && node["type"].Arr?
    ensures ReadingHolds(Project(node, name), v)
  {
    var p := Project(node, name);
    assert At(p, "type") == Some(Str(name));
    if v.Arr? && ReadAsTuple(p) {
      assert name == "array";
      assert Positions(p) == Positions(node);
      forall key | key in node && key !in ARRAY_SUPPORTED_KEYS + OBJECT_ONLY_KEYWORDS
        ensures key in ANNOTATION_ONLY_KEYWORDS
      {
        assert key in p;
      }
      assert ReadAsTuple(node);
    }
  }

  // ---------- the recursion ----------

  /** Soundness on the part of acceptance the emitter relies on. */
  lemma {:induction false} FitsSound(schema: Json, depth: nat, v: Json)
    requires EmitAtDepth(Some(schema), depth).Ok? && Fits(schema, v)
    ensures Inhabits(EmitAtDepth(Some(schema), depth).value, v)
    decreases Fuel(depth), 5
  {
    hide Inhabits, TryCombinator, TryEnumOrConst, DispatchByType, DispatchByShape, HasCatchAll, ReadsBranches, ReadsMembers, ReadsItems,
      FitsBranches, FitsMembers, FitsItems, TypeAccepts, EnumAndConstAccept, RequiredAccepts, ReadingHolds;
    UnknownSound(v);
    if schema.Obj? {
      var node := schema.members;
      if HasCatchAll(node) {
        CatchAllSound(node, depth, v);
      } else if TryCombinator(node, depth).Gave? {
        CombinatorSound(node, depth, v);
      } else if TryEnumOrConst(node).Gave? {
        EnumOrConstSound(node, v);
      } else if DispatchByType(node, depth).Gave? {
        TypeSound(node, depth, v);
      } else if DispatchByShape(node, depth).Gave? {
        ShapeSound(node, depth, v);
      }
    }
  }

  lemma {:induction false} CombinatorSound(node: map<string, Json>, depth: nat, v: Json)
    requires depth <= MAX_RECURSION_DEPTH && TryCombinator(node, depth).Gave? && TryCombinator(node, depth).result.Ok?
    requires ReadsBranches(node) ==> FitsBranches(node, v)
    ensures Inhabits(TryCombinator(node, depth).result.value, v)
    decreases Fuel(depth), 4
  {
    hide Inhabits, HasUnexpectedSibling, Fits, EmitAtDepth, JoinUnion, JoinIntersection;
    UnknownSound(v);
    var oneOf, anyOf, allOf := AsArray(At(node, "oneOf")), AsArray(At(node, "anyOf")), AsArray(At(node, "allOf"));
    if !ReadsBranches(node) {
    } else if oneOf.Some? && anyOf.None? && allOf.None? {
      var i :| 0 <= i < |oneOf.value| && Fits(oneOf.value[i], v);
      SomeBranchSound(oneOf.value, depth + 1, i, v);
    } else if anyOf.Some? && oneOf.None? && allOf.None? {
      var i :| 0 <= i < |anyOf.value| && Fits(anyOf.value[i], v);
      SomeBranchSound(anyOf.value, depth + 1, i, v);
    } else if allOf.Some? && oneOf.None? && anyOf.None? {
      EveryBranchSound(allOf.value, depth + 1, v);
    }
  }

  lemma {:induction false} SomeBranchSound(branches: seq<Json>, depth: nat, i: nat, v: Json)
    requires i < |branches| && Fits(branches[i], v)
    ensures EmitAll(branches, depth).Ok? ==> Inhabits(JoinUnion(EmitAll(branches, depth).value), v)
    decreases Fuel(depth), 6
  {
    if EmitAll(branches, depth).Ok? {
      hide EmitAtDepth, Fits;
      FitsSound(branches[i], depth, v);
      JoinUnionSound(EmitAll(branches, depth).value, i, v);
    }
  }

  lemma {:induction false} EveryBranchSound(branches: seq<Json>, depth: nat, v: Json)
    requires forall i :: 0 <= i < |branches| ==> Fits(branches[i], v)
    ensures EmitAll(branches, depth).Ok? ==> Inhabits(JoinIntersection(EmitAll(branches, depth).value), v)
    decreases Fuel(depth), 6
  {
    if EmitAll(branches, depth).Ok? {
      hide EmitAtDepth, Fits;
      var types := EmitAll(branches, depth).value;
      forall i | 0 <= i < |types| ensures Inhabits(types[i], v) {
        FitsSound(branches[i], depth, v);
      }
    }
  }

  lemma {:induction false} TypeSound(node: map<string, Json>, depth: nat, v: Json)
    requires depth <= MAX_RECURSION_DEPTH && DispatchByType(node, depth).Gave? && DispatchByType(node, depth).result.Ok?
    requires FitsNode(node, v)
    ensures Inhabits(DispatchByType(node, depth).result.value, v)
    decreases Fuel(depth), 4
  {
    hide Inhabits, HasUnexpectedSibling, EmitAtDepth, JoinUnion, ArrayType, ObjectType, PrimitiveTypeFor,
      FitsBranches, FitsMembers, FitsItems, EnumAndConstAccept, RequiredAccepts, ReadingHolds, Project;
    UnknownSound(v);
    match At(node, "type")
    case Some(Arr(names)) =>
      TypeListSound(node, names, depth, v);
    case Some(Str(name)) =>
      SingleTypeReads(node);
      if name == "array" {
        if !HasUnexpectedSibling(node, ARRAY_SUPPORTED_KEYS) { ArraySound(node, depth, v); }
      } else if name == "object" {
        if !HasUnexpectedSibling(node, OBJECT_SUPPORTED_KEYS) { ObjectSound(node, depth, v); }
      } else {
        PrimitiveSound(name, v);
      }
    case _ =>
  }

  lemma SingleTypeReads(node: map<string, Json>)
    requires !TypeList(node)
    ensures ReadsMembers(node) <==> !HasUnexpectedSibling(node, OBJECT_SUPPORTED_KEYS)
    ensures ReadsItems(node) <==> !HasUnexpectedSibling(node, ARRAY_SUPPORTED_KEYS)
  {
    assert OBJECT_SUPPORTED_KEYS + {} == OBJECT_SUPPORTED_KEYS && ARRAY_SUPPORTED_KEYS + {} == ARRAY_SUPPORTED_KEYS;
  }

  /** An entry that names no type makes the whole type `unknown`, or a union with it. */
  lemma CatchAllSound(node: map<string, Json>, depth: nat, v: Json)
    requires HasCatchAll(node) && EmitAtDepth(Some(Obj(node)), depth).Ok?
    ensures Inhabits(EmitAtDepth(Some(Obj(node)), depth).value, v)
  {
    assert depth <= MAX_RECURSION_DEPTH;
    TypeStopsOthers(node, depth);
    UnknownSound(v);
    var names := node["type"].items;
    var i :| 0 <= i < |names| && CatchAll(names[i]);
    hide TryCombinator, TryEnumOrConst, Inhabits, DispatchByShape, JoinUnion, ExpandTypeArray;
    if TryCombinator(node, depth) == Passed && TryEnumOrConst(node) == Passed {
      var types := ExpandTypeArray(node, names, depth).value;
      if names[i].Str? {
        UnknownName(node, names[i].s, depth + 1);
      }
      assert types[i] == Unknown;
      JoinUnionSound(types, i, v);
    }
  }

  /** A combinator or a literal beside a `type` degrades. */
  lemma TypeStopsOthers(node: map<string, Json>, depth: nat)
    requires depth <= MAX_RECURSION_DEPTH && "type" in node
    ensures TryCombinator(node, depth) == Passed || TryCombinator(node, depth) == Gave(Ok(Unknown))
    ensures TryEnumOrConst(node) == Passed || TryEnumOrConst(node) == Gave(Ok(Unknown))
  {
    assert "type" !in COMBINATOR_KEYS && "type" !in ANNOTATION_ONLY_KEYWORDS;
  }

  lemma UnknownName(node: map<string, Json>, name: string, depth: nat)
    requires name !in TYPE_NAMES && EmitAtDepth(Some(Obj(Project(node, name))), depth).Ok?
    ensures EmitAtDepth(Some(Obj(Project(node, name))), depth).value == Unknown
  {
    var p := Project(node, name);
    assert At(p, "type") == Some(Str(name));
    assert forall key :: key in OBJECT_ONLY_KEYWORDS || key in ARRAY_ONLY_KEYWORDS ==> key !in p;
    assert "properties" in OBJECT_ONLY_KEYWORDS && "additionalProperties" in OBJECT_ONLY_KEYWORDS;
    assert "items" in ARRAY_ONLY_KEYWORDS && "prefixItems" in ARRAY_ONLY_KEYWORDS;
    TypeStopsOthers(p, depth);
    hide Project, TryCombinator, TryEnumOrConst, HasUnexpectedSibling;
    assert DispatchByType(p, depth) == Passed;
    assert DispatchByShape(p, depth) == Passed;
  }

  lemma {:induction false} TypeListSound(node: map<string, Json>, names: seq<Json>, depth: nat, v: Json)
    requires depth <= MAX_RECURSION_DEPTH && At(node, "type") == Some(Arr(names)) && ExpandTypeArray(node, names, depth).Ok?
    requires FitsNode(node, v)
    ensures Inhabits(JoinUnion(ExpandTypeArray(node, names, depth).value), v)
    decreases Fuel(depth), 3
  {
    hide Inhabits, EmitAtDepth, JoinUnion, ExpandTypeArray, FitsBranches, FitsMembers, FitsItems, EnumAndConstAccept,
      RequiredAccepts, ReadingHolds, Project;
    var i :| 0 <= i < |names| && names[i].Str? && HasType(v, names[i].s);
    ProjectionFits(node, names[i].s, v);
    assert Fits(Obj(Project(node, names[i].s)), v);
    FitsSound(Obj(Project(node, names[i].s)), depth + 1, v);
    JoinUnionSound(ExpandTypeArray(node, names, depth).value, i, v);
  }

  lemma {:induction false} ShapeSound(node: map<string, Json>, depth: nat, v: Json)
    requires depth <= MAX_RECURSION_DEPTH && DispatchByShape(node, depth).Gave? && DispatchByShape(node, depth).result.Ok?
    requires DispatchByType(node, depth).Passed? && FitsNode(node, v)
    ensures Inhabits(DispatchByShape(node, depth).result.value, v)
    decreases Fuel(depth), 4
  {
    hide Inhabits, EmitAtDepth, ArrayType, ObjectType, FitsBranches, FitsMembers, FitsItems, EnumAndConstAccept, RequiredAccepts;
    UnknownSound(v);
    PassedMeansUntyped(node, depth, v);
    SingleTypeReads(node);
    if "properties" in node || "additionalProperties" in node {
      if !HasUnexpectedSibling(node, OBJECT_SUPPORTED_KEYS) {
        assert ReadAsObject(node);
        ObjectSound(node, depth, v);
      }
    } else if !HasUnexpectedSibling(node, ARRAY_SUPPORTED_KEYS) {
      assert ReadAsArray(node);
      ArraySound(node, depth, v);
    }
  }

  /** No value has an unknown type name, so a node passed on by type that fits anything is untyped. */
  lemma PassedMeansUntyped(node: map<string, Json>, depth: nat, v: Json)
    requires depth <= MAX_RECURSION_DEPTH && DispatchByType(node, depth).Passed?
    requires TypeAccepts(At(node, "type"), v)
    ensures Untyped(node)
  {
    hide EmitAtDepth, ArrayType, ObjectType, HasUnexpectedSibling;
  }

  lemma {:induction false} ArraySound(node: map<string, Json>, depth: nat, v: Json)
    requires depth <= MAX_RECURSION_DEPTH && ArrayType(node, depth).Ok?
    requires v.Arr? && FitsItems(node, v.items) && ReadingHolds(node, v)
    requires !HasUnexpectedSibling(node, ARRAY_SUPPORTED_KEYS)
    ensures Inhabits(ArrayType(node, depth).value, v)
    decreases Fuel(depth), 3
  {
    hide EmitAtDepth, Fits;
    var positions := Positions(node);
    if positions.Some? {
      assert ReadAsTuple(node);
      TupleSound(node, depth, v);
    } else {
      var items := At(node, "items");
      if items.Some? {
        forall i | 0 <= i < |v.items|
          ensures EmitAtDepth(items, depth + 1).Ok? ==> Inhabits(EmitAtDepth(items, depth + 1).value, v.items[i])
        {
          if EmitAtDepth(items, depth + 1).Ok? { FitsSound(items.value, depth + 1, v.items[i]); }
        }
        if items == Some(Bool(false)) && |v.items| > 0 { NotAllFitFalse(v.items, 0); }
      }
    }
  }

  lemma FalseFitsNothing(v: Json)
    ensures !Fits(Bool(false), v)
  {
  }

  lemma NotAllFitFalse(items: seq<Json>, from: nat)
    requires from < |items|
    ensures exists i :: from <= i < |items| && !Fits(Bool(false), items[i])
  {
    FalseFitsNothing(items[from]);
  }

  lemma {:induction false} TupleSound(node: map<string, Json>, depth: nat, v: Json)
    requires depth <= MAX_RECURSION_DEPTH && ArrayType(node, depth).Ok?
    requires v.Arr? && FitsItems(node, v.items)
    requires Positions(node).Some? && |Positions(node).value| <= |v.items|
    ensures Inhabits(ArrayType(node, depth).value, v)
    decreases Fuel(depth), 2
  {
    hide EmitAtDepth, Fits;
    var positions, rest := Positions(node).value, RestSchema(node);
    var types := EmitAll(positions, depth + 1).value;
    forall i | 0 <= i < |positions| ensures Inhabits(types[i], v.items[i]) {
      FitsSound(positions[i], depth + 1, v.items[i]);
    }
    if rest.Some? {
      forall i | |positions| <= i < |v.items|
        ensures Fits(rest.value, v.items[i])
        ensures EmitAtDepth(rest, depth + 1).Ok? ==> Inhabits(EmitAtDepth(rest, depth + 1).value, v.items[i])
      {
        if EmitAtDepth(rest, depth + 1).Ok? { FitsSound(rest.value, depth + 1, v.items[i]); }
      }
      if rest == Some(Bool(false)) && |v.items| > |positions| { NotAllFitFalse(v.items, |positions|); }
    }
  }

  lemma {:induction false} FieldSound(node: map<string, Json>, keys: seq<string>, depth: nat, members: map<string, Json>, i: nat)
    requires depth <= MAX_RECURSION_DEPTH && i < |keys|
    requires FieldsFor(keys, DeclaredProperties(node), RequiredNames(node), depth).Ok?
    requires FitsMembers(node, members) && RequiredNames(node) <= members.Keys
    ensures var field := FieldsFor(keys, DeclaredProperties(node), RequiredNames(node), depth).value[i];
            field.name == keys[i] &&
            if field.name in members then Inhabits(field.value, members[field.name]) else field.optional
    decreases Fuel(depth), 1
  {
    hide EmitAtDepth, Fits, Inhabits, FieldsFor;
    var field := FieldsFor(keys, DeclaredProperties(node), RequiredNames(node), depth).value[i];
    var properties := DeclaredProperties(node);
    if keys[i] in members {
      if keys[i] in properties {
        assert Fits(properties[keys[i]], members[keys[i]]);
        FitsSound(properties[keys[i]], depth + 1, members[keys[i]]);
      } else {
        EmitUndefined(depth + 1);
        UnknownSound(members[keys[i]]);
      }
    }
  }

  lemma EmitUndefined(depth: nat)
    ensures EmitAtDepth(None, depth).Ok? ==> EmitAtDepth(None, depth).value == Unknown
  {
  }

  lemma UnionMemberSound(types: seq<TsType>, t: TsType, v: Json)
    requires t in types && Inhabits(t, v)
    ensures Inhabits(JoinUnion(types), v)
  {
    var i :| 0 <= i < |types| && types[i] == t;
    JoinUnionSound(types, i, v);
  }

  /** Every member is in the index signature's type, whether it was declared or not. */
  lemma {:induction false} IndexSound(node: map<string, Json>, fields: seq<Field>, depth: nat, members: map<string, Json>, k: string)
    requires depth <= MAX_RECURSION_DEPTH && k in members
    requires IndexSignature(At(node, "additionalProperties"), fields, depth).Ok?
    requires IndexSignature(At(node, "additionalProperties"), fields, depth).value.Some?
    requires FitsMembers(node, members) && "patternProperties" !in node
    requires k in DeclaredProperties(node) ==>
      exists i :: 0 <= i < |fields| && fields[i].name == k && Inhabits(fields[i].value, members[k])
    ensures Inhabits(IndexSignature(At(node, "additionalProperties"), fields, depth).value.value, members[k])
    decreases Fuel(depth), 1
  {
    hide EmitAtDepth, Fits, Inhabits, JoinUnion, Dedupe;
    UnknownSound(members[k]);
    var additional := At(node, "additionalProperties");
    if additional.Some? && additional.value.Obj? {
      var typed := EmitAtDepth(additional, depth + 1).value;
      var types := [typed] + FieldTypes(fields) + if HasOptional(fields) then [Undefined] else [];
      if k in DeclaredProperties(node) {
        var i :| 0 <= i < |fields| && fields[i].name == k && Inhabits(fields[i].value, members[k]);
        assert types[i + 1] == fields[i].value;
        UnionMemberSound(Dedupe(types), fields[i].value, members[k]);
      } else {
        FitsSound(additional.value, depth + 1, members[k]);
        assert types[0] == typed;
        UnionMemberSound(Dedupe(types), typed, members[k]);
      }
    }
  }

  ghost predicate FieldHolds(field: Field, members: map<string, Json>) {
    if field.name in members then Inhabits(field.value, members[field.name]) else field.optional
  }

  ghost predicate IndexHolds(fields: seq<Field>, index: Option<TsType>, members: map<string, Json>, k: string)
    requires k in members
  {
    match index
    case None => exists i :: 0 <= i < |fields| && fields[i].name == k
    case Some(r) => Inhabits(r, members[k])
  }

  lemma {:induction false} FieldHoldsAt(node: map<string, Json>, keys: seq<string>, depth: nat, members: map<string, Json>, i: nat)
    requires depth <= MAX_RECURSION_DEPTH && i < |keys|
    requires FieldsFor(keys, DeclaredProperties(node), RequiredNames(node), depth).Ok?
    requires FitsMembers(node, members) && RequiredNames(node) <= members.Keys
    ensures FieldHolds(FieldsFor(keys, DeclaredProperties(node), RequiredNames(node), depth).value[i], members)
    decreases Fuel(depth), 2
  {
    hide EmitAtDepth, Fits, FieldsFor, DeclaredProperties, RequiredNames, Inhabits, FitsMembers;
    FieldSound(node, keys, depth, members, i);
  }

  lemma NoPatternProperties(node: map<string, Json>)
    requires !HasUnexpectedSibling(node, OBJECT_SUPPORTED_KEYS)
    ensures "patternProperties" !in node
  {
  }

  /** The three renderings of an object type agree on what they contain. */
  lemma ObjectAssembled(fields: seq<Field>, index: Option<TsType>, v: Json)
    requires v.Obj?
    requires forall i :: 0 <= i < |fields| ==> FieldHolds(fields[i], v.members)
    requires forall k :: k in v.members ==> IndexHolds(fields, index, v.members, k)
    ensures Inhabits(Object(fields, index), v)
    ensures fields == [] && index.None? ==> Inhabits(Record(Never), v)
    ensures Inhabits(Record(Unknown), v)
  {
    assert forall k :: k in v.members && index.None? ==> exists i :: 0 <= i < |fields| && fields[i].name == k;
  }

  lemma {:induction false} KeySound(node: map<string, Json>, depth: nat, members: map<string, Json>, k: string)
    requires depth <= MAX_RECURSION_DEPTH && k in members && "patternProperties" !in node
    requires FitsMembers(node, members) && RequiredNames(node) <= members.Keys
    requires
      var keys := SortedKeys(DeclaredProperties(node).Keys + RequiredNames(node));
      var fields := FieldsFor(keys, DeclaredProperties(node), RequiredNames(node), depth);
      fields.Ok? && IndexSignature(At(node, "additionalProperties"), fields.value, depth).Ok?
    ensures
      var keys := SortedKeys(DeclaredProperties(node).Keys + RequiredNames(node));
      var fields := FieldsFor(keys, DeclaredProperties(node), RequiredNames(node), depth).value;
      IndexHolds(fields, IndexSignature(At(node, "additionalProperties"), fields, depth).value, members, k)
    decreases Fuel(depth), 2
  {
    hide EmitAtDepth, Fits, FieldsFor, IndexSignature, DeclaredProperties, RequiredNames, SortedKeys, Inhabits, FitsMembers;
    var properties, required := DeclaredProperties(node), RequiredNames(node);
    var keys := SortedKeys(properties.Keys + required);
    var fields := FieldsFor(keys, properties, required, depth).value;
    var index := IndexSignature(At(node, "additionalProperties"), fields, depth).value;
    if index.None? {
      ClosedMeansDeclared(node, fields, depth, members, k);
    }
    if k in properties {
      assert k in keys;
      var i :| 0 <= i < |keys| && keys[i] == k;
      FieldSound(node, keys, depth, members, i);
      assert fields[i].name == k;
    }
    if index.Some? {
      IndexSound(node, fields, depth, members, k);
    }
  }

  lemma {:induction false} ObjectSound(node: map<string, Json>, depth: nat, v: Json)
    requires depth <= MAX_RECURSION_DEPTH && ObjectType(node, depth).Ok?
    requires v.Obj? && FitsMembers(node, v.members) && RequiredAccepts(node, v)
    requires !HasUnexpectedSibling(node, OBJECT_SUPPORTED_KEYS)
    ensures Inhabits(ObjectType(node, depth).value, v)
    decreases Fuel(depth), 3
  {
    hide EmitAtDepth, Fits, FieldsFor, IndexSignature, DeclaredProperties, RequiredNames, SortedKeys, Inhabits, FitsMembers,
      IndexHolds, HasUnexpectedSibling, FieldHolds;
    NoPatternProperties(node);
    var properties, required := DeclaredProperties(node), RequiredNames(node);
    var keys := SortedKeys(properties.Keys + required);
    var fields := FieldsFor(keys, properties, required, depth).value;
    var index := IndexSignature(At(node, "additionalProperties"), fields, depth).value;
    forall i | 0 <= i < |fields| ensures FieldHolds(fields[i], v.members) {
      FieldHoldsAt(node, keys, depth, v.members, i);
    }
    forall k | k in v.members ensures IndexHolds(fields, index, v.members, k) {
      KeySound(node, depth, v.members, k);
    }
    ObjectAssembled(fields, index, v);
  }

  lemma ClosedMeansDeclared(node: map<string, Json>, fields: seq<Field>, depth: nat, members: map<string, Json>, k: string)
    requires depth <= MAX_RECURSION_DEPTH && k in members && "patternProperties" !in node
    requires IndexSignature(At(node, "additionalProperties"), fields, depth) == Ok(None)
    requires FitsMembers(node, members)
    ensures k in DeclaredProperties(node)
  {
    hide EmitAtDepth, Inhabits, DeclaredProperties;
    FalseFitsNothing(members[k]);
  }

  /**
   * The emitter never claims too much: whatever the other keywords mean, a value the schema accepts,
   * met as the emitter reads the schema, is in the emitted type.
   */
  lemma Soundness(x: OtherKeywords, schema: Json, v: Json)
    requires Emit(Some(schema)).Ok?
    requires Validates(x, schema, v) && WithinReading(x, schema, v)
    ensures Inhabits(Emit(Some(schema)).value, v)
  {
    AcceptedFits(x, schema, v);
    FitsSound(schema, 0, v);
  }
}
