/** Exactly when the emitter throws: some schema it looks at lies more than 64 calls deep. */
module EmitterThrows {
  import opened Basics
  import opened JsonValues
  import opened SchemaEmitter
  import opened SchemaSemantics
  import opened EmitterMeaning

  // ---------- the condition ----------

  ghost predicate Throws(schema: Json, depth: nat)
    decreases schema, 3
  {
    depth > 64 || (schema.Obj? && NodeThrows(schema.members, depth))
  }

  /** A degraded node looks at nothing, and each entry of a list of types costs a call of its own. */
  ghost predicate NodeThrows(node: map<string, Json>, depth: nat)
    decreases Obj(node), 2
  {
    if Lists(node, "oneOf") || Lists(node, "anyOf") || Lists(node, "allOf") then
      LoneCombinator(node) && Only(node, {"oneOf", "anyOf", "allOf"}) && BranchThrows(node, depth + 1)
    else if "const" in node || Lists(node, "enum") then false
    else match At(node, "type")
      case Some(Arr(names)) => exists i :: 0 <= i < |names| && names[i].Str? && (depth + 1 > 64 || TypeThrows(node, names[i].s, true, depth + 1))
      case Some(Str(name)) => if name in TYPE_NAMES then TypeThrows(node, name, false, depth) else ShapeThrows(node, depth)
      case _ => ShapeThrows(node, depth)
  }

  ghost predicate BranchThrows(node: map<string, Json>, depth: nat)
    decreases Obj(node), 0, 0
  {
    || ("oneOf" in node && node["oneOf"].Arr? && exists i :: 0 <= i < |node["oneOf"].items| && Throws(node["oneOf"].items[i], depth))
    || ("anyOf" in node && node["anyOf"].Arr? && exists i :: 0 <= i < |node["anyOf"].items| && Throws(node["anyOf"].items[i], depth))
    || ("allOf" in node && node["allOf"].Arr? && exists i :: 0 <= i < |node["allOf"].items| && Throws(node["allOf"].items[i], depth))
  }

  ghost predicate TypeThrows(node: map<string, Json>, name: string, listed: bool, depth: nat)
    decreases Obj(node), 1, 0
  {
    && name in TYPE_NAMES && Only(node, Beside(name, listed))
    && ((name == "array" && ArrayThrows(node, depth)) || (name == "object" && ObjectThrows(node, depth)))
  }

  ghost predicate ShapeThrows(node: map<string, Json>, depth: nat)
    decreases Obj(node), 1, 0
  {
    if "properties" in node || "additionalProperties" in node then Only(node, {"type"} + OBJECT_WORDS) && ObjectThrows(node, depth)
    else if "items" in node || "prefixItems" in node then Only(node, {"type"} + ARRAY_WORDS) && ArrayThrows(node, depth)
    else false
  }

  /** The positions, and the rest unless it is `false`; a lone element schema unless it is a Boolean. */
  ghost predicate ArrayThrows(node: map<string, Json>, depth: nat)
    decreases Obj(node), 0, 0
  {
    if "prefixItems" in node && node["prefixItems"].Arr? then
      || (exists i :: 0 <= i < |node["prefixItems"].items| && Throws(node["prefixItems"].items[i], depth + 1))
      || ("items" in node && node["items"] != Bool(false) && Throws(node["items"], depth + 1))
    else if "items" in node && node["items"].Arr? then
      || (exists i :: 0 <= i < |node["items"].items| && Throws(node["items"].items[i], depth + 1))
      || ("additionalItems" in node && node["additionalItems"] != Bool(false) && Throws(node["additionalItems"], depth + 1))
    else
      "items" in node && !node["items"].Bool? && Throws(node["items"], depth + 1)
  }

  /** Every named property, declared or only required, and typed further members. */
  ghost predicate ObjectThrows(node: map<string, Json>, depth: nat)
    decreases Obj(node), 0, 1
  {
    || (exists k :: (Declares(node, k) || Demands(node, k)) && NamedThrows(node, k, depth + 1))
    || ("additionalProperties" in node && node["additionalProperties"].Obj? && Throws(node["additionalProperties"], depth + 1))
  }

  ghost predicate NamedThrows(node: map<string, Json>, k: string, depth: nat)
    decreases Obj(node), 0, 0
  {
    if "properties" in node && node["properties"].Obj? && k in node["properties"].members
    then Throws(node["properties"].members[k], depth) else depth > 64
  }

  // ---------- lists ----------

  lemma {:induction false} AllTooDeep(schemas: seq<Json>, depth: nat)
    ensures EmitAll(schemas, depth).TooDeep? <==> exists i :: 0 <= i < |schemas| && EmitAtDepth(Some(schemas[i]), depth).TooDeep?
    decreases |schemas|
  {
    hide EmitAtDepth;
    if schemas == [] {
    } else {
      AllTooDeep(schemas[1..], depth);
      if i :| 0 <= i < |schemas| && EmitAtDepth(Some(schemas[i]), depth).TooDeep? {
        if i > 0 { assert schemas[1..][i - 1] == schemas[i]; }
      }
      if EmitAll(schemas[1..], depth).TooDeep? {
        var i :| 0 <= i < |schemas| - 1 && EmitAtDepth(Some(schemas[1..][i]), depth).TooDeep?;
        assert schemas[i + 1] == schemas[1..][i];
      }
    }
  }

  ghost predicate NameTooDeep(node: map<string, Json>, name: Json, depth: nat) {
    name.Str? && EmitAtDepth(Some(Obj(Project(node, name.s))), depth).TooDeep?
  }

  lemma {:induction false} NamesTooDeep(node: map<string, Json>, names: seq<Json>, depth: nat)
    requires depth <= MAX_RECURSION_DEPTH
    ensures ExpandTypeArray(node, names, depth).TooDeep? <==> exists i :: 0 <= i < |names| && NameTooDeep(node, names[i], depth + 1)
    decreases |names|
  {
    hide EmitAtDepth, Project;
    if names == [] {
    } else {
      NamesTooDeep(node, names[1..], depth);
      if i :| 0 <= i < |names| && NameTooDeep(node, names[i], depth + 1) {
        if i > 0 { assert names[1..][i - 1] == names[i]; }
      }
      if ExpandTypeArray(node, names[1..], depth).TooDeep? {
        var i :| 0 <= i < |names| - 1 && NameTooDeep(node, names[1..][i], depth + 1);
        assert names[i + 1] == names[1..][i];
      }
    }
  }

  lemma {:induction false} FieldsTooDeep(keys: seq<string>, properties: map<string, Json>, required: set<string>, depth: nat)
    requires depth <= MAX_RECURSION_DEPTH
    ensures FieldsFor(keys, properties, required, depth).TooDeep? <==>
      exists k :: k in keys && EmitAtDepth(At(properties, k), depth + 1).TooDeep?
    decreases |keys|
  {
    hide EmitAtDepth, At;
    if keys == [] {
    } else {
      FieldsTooDeep(keys[1..], properties, required, depth);
      assert keys == [keys[0]] + keys[1..];
    }
  }

  // ---------- the recursion ----------

  /** The emitter throws on a schema exactly when the schema throws, whatever throws first. */
  lemma {:induction false} ThrowsExactly(schema: Json, depth: nat)
    ensures EmitAtDepth(Some(schema), depth).TooDeep? <==> Throws(schema, depth)
    decreases Fuel(depth), 9
  {
    if schema.Obj? && depth <= 64 {
      NodeThrowsExactly(schema.members, depth);
    }
  }

  lemma {:induction false} NodeThrowsExactly(node: map<string, Json>, depth: nat)
    requires depth <= 64
    ensures EmitAtDepth(Some(Obj(node)), depth).TooDeep? <==> NodeThrows(node, depth)
    decreases Fuel(depth), 8
  {
    hide TryCombinator, TryEnumOrConst, DispatchTypeString, DispatchByShape, BranchThrows, TypeThrows, ShapeThrows, Only, LoneCombinator, ExpandTypeArray, Lists, Project;
    if Lists(node, "oneOf") || Lists(node, "anyOf") || Lists(node, "allOf") {
      CombinatorThrows(node, depth);
    } else {
      NothingCombined(node, depth);
      if "const" in node || Lists(node, "enum") {
        LiteralNodeExact(node, Null);
      } else {
        NothingLiteral(node);
        match At(node, "type")
        case Some(Arr(names)) =>
          assert Lists(node, "type") by { ListsAre(node, "type"); }
          ListThrows(node, names, depth);
        case Some(Str(name)) =>
          if name in TYPE_NAMES {
            SingleTypeThrows(node, name, depth);
          } else {
            UnknownTypePasses(node, name, depth);
            ShapeThrowsExactly(node, depth);
          }
        case _ =>
          ShapeThrowsExactly(node, depth);
      }
    }
  }

  lemma {:induction false} CombinatorThrows(node: map<string, Json>, depth: nat)
    requires depth <= 64 && (Lists(node, "oneOf") || Lists(node, "anyOf") || Lists(node, "allOf"))
    ensures TryCombinator(node, depth).Gave?
    ensures TryCombinator(node, depth).result.TooDeep? <==>
      LoneCombinator(node) && Only(node, {"oneOf", "anyOf", "allOf"}) && BranchThrows(node, depth + 1)
    decreases Fuel(depth), 7
  {
    SiblingsAre(node, {"oneOf", "anyOf", "allOf"});
    hide HasUnexpectedSibling, Only, EmitAtDepth, Throws, EmitAll;
    assert COMBINATOR_KEYS == {"oneOf", "anyOf", "allOf"};
    if LoneCombinator(node) {
      var branches := if Lists(node, "oneOf") then node["oneOf"].items else if Lists(node, "anyOf") then node["anyOf"].items else node["allOf"].items;
      EachThrows(branches, depth + 1);
    }
  }

  lemma {:induction false} EachThrows(schemas: seq<Json>, depth: nat)
    ensures EmitAll(schemas, depth).TooDeep? <==> exists i :: 0 <= i < |schemas| && Throws(schemas[i], depth)
    decreases Fuel(depth), 10
  {
    hide EmitAtDepth, Throws, EmitAll;
    AllTooDeep(schemas, depth);
    forall i | 0 <= i < |schemas| ensures EmitAtDepth(Some(schemas[i]), depth).TooDeep? <==> Throws(schemas[i], depth) {
      ThrowsExactly(schemas[i], depth);
    }
  }

  lemma {:induction false} ListThrows(node: map<string, Json>, names: seq<Json>, depth: nat)
    requires depth <= 64 && At(node, "type") == Some(Arr(names)) && Lists(node, "type")
    requires !Lists(node, "oneOf") && !Lists(node, "anyOf") && !Lists(node, "allOf") && "const" !in node && !Lists(node, "enum")
    ensures ExpandTypeArray(node, names, depth).TooDeep? <==>
      exists i :: 0 <= i < |names| && names[i].Str? && (depth + 1 > 64 || TypeThrows(node, names[i].s, true, depth + 1))
    decreases Fuel(depth), 7
  {
    hide ExpandTypeArray, EmitAtDepth, Project, TypeThrows, Lists;
    NamesTooDeep(node, names, depth);
    forall i | 0 <= i < |names|
      ensures NameTooDeep(node, names[i], depth + 1) <==> names[i].Str? && (depth + 1 > 64 || TypeThrows(node, names[i].s, true, depth + 1))
    {
      if names[i].Str? {
        NameThrows(node, names[i].s, depth + 1);
      }
    }
  }

  lemma {:induction false} NameThrows(node: map<string, Json>, name: string, depth: nat)
    requires Lists(node, "type")
    requires !Lists(node, "oneOf") && !Lists(node, "anyOf") && !Lists(node, "allOf") && "const" !in node && !Lists(node, "enum")
    ensures EmitAtDepth(Some(Obj(Project(node, name))), depth).TooDeep? <==> depth > 64 || TypeThrows(node, name, true, depth)
    decreases Fuel(depth), 9
  {
    hide Project, Only, Beside, ArrayThrows, ObjectThrows, EmitAtDepth;
    if depth > 64 {
      PastSixtyFour(Some(Obj(Project(node, name))), depth);
    } else if name in TYPE_NAMES {
      ProjectedNode(node, name);
      ProjectedThrows(node, name, depth);
      SingleTypeThrows(Project(node, name), name, depth);
      NothingCombined(Project(node, name), depth);
      NothingLiteral(Project(node, name));
      TypeGives(Project(node, name), name, depth);
      SingleTypeEmits(Project(node, name), name, depth);
    } else {
      UnknownEntryEmits(node, name, depth);
    }
  }

  lemma PastSixtyFour(schema: Option<Json>, depth: nat)
    requires depth > 64
    ensures EmitAtDepth(schema, depth).TooDeep?
  {
  }

  lemma UnknownEntryEmits(node: map<string, Json>, name: string, depth: nat)
    requires depth <= 64 && name !in TYPE_NAMES
    requires !Lists(node, "oneOf") && !Lists(node, "anyOf") && !Lists(node, "allOf") && "const" !in node && !Lists(node, "enum")
    ensures EmitAtDepth(Some(Obj(Project(node, name))), depth).Ok?
  {
    var p := Project(node, name);
    ProjectedNode(node, name);
    assert forall key :: key in OBJECT_ONLY_KEYWORDS || key in ARRAY_ONLY_KEYWORDS ==> key !in p;
    assert "properties" in OBJECT_ONLY_KEYWORDS && "additionalProperties" in OBJECT_ONLY_KEYWORDS;
    assert "items" in ARRAY_ONLY_KEYWORDS && "prefixItems" in ARRAY_ONLY_KEYWORDS;
    NothingCombined(p, depth);
    NothingLiteral(p);
    UnknownTypePasses(p, name, depth);
    hide Project, TryCombinator, TryEnumOrConst, HasUnexpectedSibling, DispatchTypeString;
    assert DispatchByType(p, depth) == Passed;
    assert DispatchByShape(p, depth) == Passed;
  }

  lemma TypeGives(node: map<string, Json>, name: string, depth: nat)
    requires depth <= 64 && name in TYPE_NAMES
    ensures DispatchTypeString(node, name, depth).Gave?
  {
    hide HasUnexpectedSibling, ArrayType, ObjectType;
  }

  lemma ProjectedThrows(node: map<string, Json>, name: string, depth: nat)
    requires "type" in node
    ensures TypeThrows(Project(node, name), name, false, depth) <==> TypeThrows(node, name, true, depth)
  {
    ProjectedOnly(node, name);
    ProjectedKeeps(node, name);
    hide Project, Only, Beside, ArrayThrows, ObjectThrows;
    if name == "array" {
      SameArrayThrows(node, Project(node, name), depth);
    } else if name == "object" {
      SameObjectThrows(node, Project(node, name), depth);
    }
  }

  lemma SameArrayThrows(node: map<string, Json>, p: map<string, Json>, depth: nat)
    requires forall k :: k in ARRAY_WORDS ==> At(p, k) == At(node, k)
    ensures ArrayThrows(p, depth) <==> ArrayThrows(node, depth)
  {
    hide Throws;
    assert At(p, "items") == At(node, "items") && At(p, "prefixItems") == At(node, "prefixItems");
    assert At(p, "additionalItems") == At(node, "additionalItems");
  }

  lemma SameObjectThrows(node: map<string, Json>, p: map<string, Json>, depth: nat)
    requires forall k :: k in OBJECT_WORDS ==> At(p, k) == At(node, k)
    ensures ObjectThrows(p, depth) <==> ObjectThrows(node, depth)
  {
    hide Throws;
    assert At(p, "properties") == At(node, "properties") && At(p, "required") == At(node, "required");
    assert At(p, "additionalProperties") == At(node, "additionalProperties");
    assert forall k :: Declares(p, k) <==> Declares(node, k);
    assert forall k :: Demands(p, k) <==> Demands(node, k);
    var below := depth + 1;
    assert forall k :: NamedThrows(p, k, below) <==> NamedThrows(node, k, below);
    hide Declares, Demands, NamedThrows;
  }

  lemma {:induction false} SingleTypeThrows(node: map<string, Json>, name: string, depth: nat)
    requires depth <= 64 && name in TYPE_NAMES
    ensures DispatchTypeString(node, name, depth).Gave?
    ensures DispatchTypeString(node, name, depth).result.TooDeep? <==> TypeThrows(node, name, false, depth)
    decreases Fuel(depth), 6
  {
    SiblingsAre(node, Beside(name, false));
    SupportedAreBeside(name);
    hide HasUnexpectedSibling, Only, ArrayType, ObjectType, ArrayThrows, ObjectThrows, Beside;
    if name == "array" {
      ArrayThrowsExactly(node, depth);
    } else if name == "object" {
      ObjectThrowsExactly(node, depth);
    }
  }

  lemma {:induction false} ShapeThrowsExactly(node: map<string, Json>, depth: nat)
    requires depth <= 64
    ensures (DispatchByShape(node, depth).Gave? && DispatchByShape(node, depth).result.TooDeep?) <==> ShapeThrows(node, depth)
    decreases Fuel(depth), 6
  {
    SiblingsAre(node, {"type"} + ARRAY_WORDS);
    SiblingsAre(node, {"type"} + OBJECT_WORDS);
    assert ARRAY_SUPPORTED_KEYS == {"type"} + ARRAY_WORDS && OBJECT_SUPPORTED_KEYS == {"type"} + OBJECT_WORDS;
    hide HasUnexpectedSibling, Only, ArrayType, ObjectType, ArrayThrows, ObjectThrows;
    if "properties" in node || "additionalProperties" in node {
      ObjectThrowsExactly(node, depth);
    } else if "items" in node || "prefixItems" in node {
      ArrayThrowsExactly(node, depth);
    }
  }

  lemma {:induction false} ArrayThrowsExactly(node: map<string, Json>, depth: nat)
    requires depth <= 64
    ensures ArrayType(node, depth).TooDeep? <==> ArrayThrows(node, depth)
    decreases Fuel(depth), 5
  {
    hide EmitAtDepth, Throws, EmitAll;
    if Positions(node).Some? {
      EachThrows(Positions(node).value, depth + 1);
      if RestSchema(node).Some? {
        ThrowsExactly(RestSchema(node).value, depth + 1);
      }
    } else if "items" in node {
      ThrowsExactly(node["items"], depth + 1);
    }
  }

  lemma {:induction false} ObjectThrowsExactly(node: map<string, Json>, depth: nat)
    requires depth <= 64
    ensures ObjectType(node, depth).TooDeep? <==> ObjectThrows(node, depth)
    decreases Fuel(depth), 5
  {
    hide EmitAtDepth, Throws, FieldsFor, SortedKeys, DeclaredProperties, RequiredNames, RenderObject, NamedThrows, Declares, Demands, Dedupe, JoinUnion;
    var properties, required := DeclaredProperties(node), RequiredNames(node);
    var keys := SortedKeys(properties.Keys + required);
    AllKeysAre(node);
    FieldsTooDeep(keys, properties, required, depth);
    forall k ensures EmitAtDepth(At(properties, k), depth + 1).TooDeep? <==> NamedThrows(node, k, depth + 1) {
      NamedThrowsExactly(node, k, depth);
    }
    if "additionalProperties" in node && node["additionalProperties"].Obj? {
      ThrowsExactly(node["additionalProperties"], depth + 1);
    }
  }

  lemma {:induction false} NamedThrowsExactly(node: map<string, Json>, k: string, depth: nat)
    requires depth <= 64
    ensures EmitAtDepth(At(DeclaredProperties(node), k), depth + 1).TooDeep? <==> NamedThrows(node, k, depth + 1)
    decreases Fuel(depth), 4
  {
    NamesAre(node, k);
    if k in DeclaredProperties(node) {
      hide EmitAtDepth, Throws;
      ThrowsExactly(DeclaredProperties(node)[k], depth + 1);
    }
  }
}
