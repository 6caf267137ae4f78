/** `schemaToNode`: the type nodes of the operation client, and the values they stand for. */
module OperationSchemas {
  import opened Basics
  import opened JsonValues
  import opened Sorting
  import SchemaEmitter
  import opened SchemaSemantics
  import T = TypeNodes

  const UNKNOWN := T.Primitive("unknown")

  /** `schemaToNode({ type: name })` */
  function PlainNode(name: string): T.TypeNode {
    match name
    case "string" => T.Primitive("string")
    case "number" => T.Primitive("number")
    case "integer" => T.Primitive("number")
    case "boolean" => T.Primitive("boolean")
    case "null" => T.Primitive("null")
    case "array" => T.Array(UNKNOWN)
    case "object" => T.Record
    case _ => UNKNOWN
  }

  /** The members of a non-empty `enum` of strings only. */
  function StringEnum(schema: map<string, Json>): Option<seq<Json>> {
    var entries := AsArray(At(schema, "enum"));
    if entries.Some? && entries.value != [] && forall i :: 0 <= i < |entries.value| ==> entries.value[i].Str?
    then entries else None
  }

  function Literals(entries: seq<Json>, quote: string -> string): (r: seq<T.TypeNode>)
    requires forall i :: 0 <= i < |entries| ==> entries[i].Str?
    ensures |r| == |entries| && forall i :: 0 <= i < |r| ==> r[i] == T.Primitive(quote(entries[i].s))
  {
    seq(|entries|, i requires 0 <= i < |entries| => T.Primitive(quote(entries[i].s)))
  }

  function TypeUnion(names: seq<Json>): (r: seq<T.TypeNode>)
    ensures |r| == |names| && forall i :: 0 <= i < |r| ==> r[i] == if names[i].Str? then PlainNode(names[i].s) else UNKNOWN
  {
    seq(|names|, i requires 0 <= i < |names| => if names[i].Str? then PlainNode(names[i].s) else UNKNOWN)
  }

  predicate IsObjectSchema(schema: map<string, Json>) {
    At(schema, "type") == Some(Str("object")) || AsObject(At(schema, "properties")).Some?
  }

  /** `quote` is `JSON.stringify` on strings. */
  function SchemaToNode(schema: map<string, Json>, quote: string -> string): T.TypeNode
    decreases Obj(schema), 1
  {
    var members := StringEnum(schema);
    if members.Some? then T.Union(Literals(members.value, quote))
    else match At(schema, "type")
      case Some(Str("string")) => T.Primitive("string")
      case Some(Str("number")) => T.Primitive("number")
      case Some(Str("integer")) => T.Primitive("number")
      case Some(Str("boolean")) => T.Primitive("boolean")
      case Some(Str("null")) => T.Primitive("null")
      case Some(Str("array")) =>
        T.Array(if "items" in schema && schema["items"].Obj? then SchemaToNode(schema["items"].members, quote) else UNKNOWN)
      case Some(Arr(names)) => T.Union(TypeUnion(names))
      case _ => if IsObjectSchema(schema) then ObjectNode(schema, quote) else UNKNOWN
  }

  function ObjectNode(schema: map<string, Json>, quote: string -> string): T.TypeNode
    decreases Obj(schema), 0
  {
    if "properties" in schema && schema["properties"].Obj? then
      var properties := schema["properties"].members;
      var names := SortedKeys(properties.Keys);
      T.Object(seq(|names|, i requires 0 <= i < |names| =>
        assert names[i] in names;
        T.ObjectField(names[i], names[i] !in SchemaEmitter.RequiredNames(schema),
          if properties[names[i]].Obj? then SchemaToNode(properties[names[i]].members, quote) else UNKNOWN)))
    else T.Record
  }

  // ---------- the values of a node ----------

  ghost predicate PrimitiveContains(text: string, v: Json, quote: string -> string) {
    || text == "unknown"
    || (text == "string" && v.Str?)
    || (text == "number" && v.Num?)
    || (text == "boolean" && v.Bool?)
    || (text == "null" && v.Null?)
    || (v.Str? && text == quote(v.s))
  }

  /** Object types are open, as TypeScript's are. */
  ghost predicate Contains(node: T.TypeNode, v: Json, quote: string -> string) {
    match node
    case Primitive(text) => PrimitiveContains(text, v, quote)
    case Array(element) => v.Arr? && forall i :: 0 <= i < |v.items| ==> Contains(element, v.items[i], quote)
    case Union(members) => exists i :: 0 <= i < |members| && Contains(members[i], v, quote)
    case Record => v.Obj?
    case Object(fields) =>
      v.Obj? && forall i :: 0 <= i < |fields| ==>
        if fields[i].name in v.members then Contains(fields[i].value, v.members[fields[i].name], quote) else fields[i].optional
  }

  // ---------- where the reading departs from the schema ----------

  /** `properties` without a type, which is taken for an object schema. */
  predicate UntypedProperties(schema: map<string, Json>) {
    StringEnum(schema).None? && Untyped(schema) && AsObject(At(schema, "properties")).Some?
  }

  /** `items` taken for every element of an array. */
  predicate TakesItems(schema: map<string, Json>) {
    StringEnum(schema).None? && At(schema, "type") == Some(Str("array")) && AsObject(At(schema, "items")).Some?
  }

  /** `properties` of an object, which a list of types or a string `enum` sets aside. */
  predicate TakesProperties(schema: map<string, Json>) {
    StringEnum(schema).None? && AsArray(At(schema, "type")).None? && AsObject(At(schema, "properties")).Some?
  }

  /** The positions that `prefixItems` describes, to which `items` does not apply. */
  function PrefixLength(schema: map<string, Json>): nat {
    if AsArray(At(schema, "prefixItems")).Some? then |AsArray(At(schema, "prefixItems")).value| else 0
  }

  /** What the node reads off its properties and off the elements behind the prefix is read faithfully. */
  ghost predicate BelowFaithful(x: OtherKeywords, node: map<string, Json>, v: Json)
    decreases Obj(node), 0
  {
    && ("properties" in node && TakesProperties(node) && v.Obj? ==>
          forall k :: k in node["properties"].members && k in v.members
            ==> ReadFaithfully(x, node["properties"].members[k], v.members[k]))
    && ("items" in node && TakesItems(node) && v.Arr? ==>
          forall i :: PrefixLength(node) <= i < |v.items| ==> ReadFaithfully(x, node["items"], v.items[i]))
  }

  /** A value met by an untyped `properties` is an object, and what stands in a prefix also suits `items`. */
  ghost predicate ReadFaithfully(x: OtherKeywords, schema: Json, v: Json)
    decreases schema, 1
  {
    schema.Obj? ==>
      var node := schema.members;
      && (UntypedProperties(node) ==> v.Obj?)
      && ("items" in node && TakesItems(node) && v.Arr? ==>
            forall i :: 0 <= i < PrefixLength(node) && i < |v.items|
              ==> Validates(x, node["items"], v.items[i]) && ReadFaithfully(x, node["items"], v.items[i]))
      && BelowFaithful(x, node, v)
  }

  lemma PlainSound(name: string, v: Json, quote: string -> string)
    requires HasType(v, name)
    ensures Contains(PlainNode(name), v, quote)
  {
    UnknownContains(quote);
  }

  lemma UnknownContains(quote: string -> string)
    ensures forall v :: Contains(UNKNOWN, v, quote)
  {
  }

  lemma EnumSound(entries: seq<Json>, v: Json, quote: string -> string)
    requires v in entries && forall i :: 0 <= i < |entries| ==> entries[i].Str?
    ensures Contains(T.Union(Literals(entries, quote)), v, quote)
  {
    var i :| 0 <= i < |entries| && entries[i] == v;
    assert Contains(Literals(entries, quote)[i], v, quote);
  }

  lemma UnionSound(names: seq<Json>, v: Json, quote: string -> string)
    requires TypeAccepts(Some(Arr(names)), v)
    ensures Contains(T.Union(TypeUnion(names)), v, quote)
  {
    var i :| 0 <= i < |names| && names[i].Str? && HasType(v, names[i].s);
    PlainSound(names[i].s, v, quote);
    assert Contains(TypeUnion(names)[i], v, quote);
  }

  /** A value the schema accepts is in the node's type. */
  lemma {:induction false} NodeSound(x: OtherKeywords, schema: map<string, Json>, v: Json, quote: string -> string)
    requires Validates(x, Obj(schema), v) && ReadFaithfully(x, Obj(schema), v)
    ensures Contains(SchemaToNode(schema, quote), v, quote)
    decreases Obj(schema), 1
  {
    UnknownContains(quote);
    hide ValidatesBranches, Contains, ReadFaithfully;
    var members := StringEnum(schema);
    if members.Some? {
      EnumSound(members.value, v, quote);
    } else {
      match At(schema, "type")
      case Some(Arr(names)) =>
        UnionSound(names, v, quote);
      case Some(Str(name)) =>
        PlainSound(name, v, quote);
        if name == "array" {
          ArrayNodeSound(x, schema, v, quote);
        } else if IsObjectSchema(schema) && v.Obj? {
          ObjectNodeSound(x, schema, v, quote);
        }
      case _ =>
        if IsObjectSchema(schema) {
          UntypedMeansObject(x, schema, v);
          ObjectNodeSound(x, schema, v, quote);
        }
    }
  }

  lemma UntypedMeansObject(x: OtherKeywords, schema: map<string, Json>, v: Json)
    requires ReadFaithfully(x, Obj(schema), v) && StringEnum(schema).None? && Untyped(schema) && IsObjectSchema(schema)
    ensures v.Obj?
  {
  }

  lemma {:induction false} ArrayNodeSound(x: OtherKeywords, schema: map<string, Json>, v: Json, quote: string -> string)
    requires v.Arr? && ValidatesItems(x, schema, v.items) && ReadFaithfully(x, Obj(schema), v)
    requires StringEnum(schema).None? && At(schema, "type") == Some(Str("array"))
    ensures Contains(SchemaToNode(schema, quote), v, quote)
    decreases Obj(schema), 0
  {
    UnknownContains(quote);
    if "items" in schema && schema["items"].Obj? {
      hide Validates;
      forall i | 0 <= i < |v.items| ensures Contains(SchemaToNode(schema["items"].members, quote), v.items[i], quote) {
        assert TakesItems(schema);
        assert Validates(x, schema["items"], v.items[i]);
        NodeSound(x, schema["items"].members, v.items[i], quote);
      }
    }
  }

  lemma {:induction false} ObjectNodeSound(x: OtherKeywords, schema: map<string, Json>, v: Json, quote: string -> string)
    requires v.Obj? && ValidatesMembers(x, schema, v.members) && RequiredAccepts(schema, v) && ReadFaithfully(x, Obj(schema), v)
    requires StringEnum(schema).None? && AsArray(At(schema, "type")).None?
    ensures Contains(ObjectNode(schema, quote), v, quote)
    decreases Obj(schema), 0
  {
    UnknownContains(quote);
    if "properties" in schema && schema["properties"].Obj? {
      hide Validates, SortedKeys, ReadFaithfully, Contains, StringEnum, SchemaToNode;
      var properties := schema["properties"].members;
      var fields := ObjectNode(schema, quote).fields;
      forall i | 0 <= i < |fields| ensures FieldAdmits(fields[i], v.members, quote) {
        var k := fields[i].name;
        assert k in SortedKeys(properties.Keys);
        if k in v.members && properties[k].Obj? {
          PropertyReadFaithfully(x, schema, v, k);
          NodeSound(x, properties[k].members, v.members[k], quote);
        }
      }
      assert ObjectNode(schema, quote) == T.Object(fields);
      hide ObjectNode, FieldAdmits;
      ObjectContains(fields, v, quote);
    }
  }

  lemma PropertyReadFaithfully(x: OtherKeywords, schema: map<string, Json>, v: Json, k: string)
    requires ReadFaithfully(x, Obj(schema), v) && v.Obj? && StringEnum(schema).None? && AsArray(At(schema, "type")).None?
    requires "properties" in schema && schema["properties"].Obj? && k in schema["properties"].members && k in v.members
    ensures ReadFaithfully(x, schema["properties"].members[k], v.members[k])
  {
    hide Validates, StringEnum;
    assert TakesProperties(schema);
  }

  // ---------- what the node's type contains, said of the schema ----------

  /** `JSON.stringify` tells strings apart, and its quotes keep it from spelling a type name. */
  ghost predicate QuotesApart(quote: string -> string) {
    && (forall a, b :: quote(a) == quote(b) ==> a == b)
    && forall a :: quote(a) !in {"unknown", "string", "number", "boolean", "null"}
  }

  predicate AdmitsPlain(name: string, v: Json) {
    match name
    case "string" => v.Str?
    case "number" => v.Num?
    case "integer" => v.Num?
    case "boolean" => v.Bool?
    case "null" => v.Null?
    case "array" => v.Arr?
    case "object" => v.Obj?
    case _ => true
  }

  /** An `enum` of strings, and at least one. */
  predicate ListsStrings(schema: map<string, Json>) {
    "enum" in schema && schema["enum"].Arr? && |schema["enum"].items| > 0 &&
    forall i :: 0 <= i < |schema["enum"].items| ==> schema["enum"].items[i].Str?
  }

  predicate Requires(schema: map<string, Json>, k: string) {
    "required" in schema && schema["required"].Arr? && Str(k) in schema["required"].items
  }

  lemma SchemaWords(schema: map<string, Json>)
    ensures StringEnum(schema) == if ListsStrings(schema) then Some(schema["enum"].items) else None
    ensures forall k :: k in SchemaEmitter.RequiredNames(schema) <==> Requires(schema, k)
  {
    forall k ensures k in SchemaEmitter.RequiredNames(schema) <==> Requires(schema, k) {
      if "required" in schema && schema["required"].Arr? && k in SchemaEmitter.RequiredNames(schema) {
        var entry :| entry in schema["required"].items && entry.Str? && entry.s == k;
        assert entry == Str(k);
      }
    }
  }

  /** The schema with everything left out that `schemaToNode` does not look at. */
  ghost predicate Admits(schema: map<string, Json>, v: Json)
    decreases Obj(schema), 1
  {
    if ListsStrings(schema) then v in schema["enum"].items
    else match At(schema, "type")
      case Some(Arr(names)) => exists i :: 0 <= i < |names| && (names[i].Str? ==> AdmitsPlain(names[i].s, v))
      case Some(Str("string")) => v.Str?
      case Some(Str("number")) => v.Num?
      case Some(Str("integer")) => v.Num?
      case Some(Str("boolean")) => v.Bool?
      case Some(Str("null")) => v.Null?
      case Some(Str("array")) =>
        v.Arr? && ("items" in schema && schema["items"].Obj? ==>
          forall i :: 0 <= i < |v.items| ==> Admits(schema["items"].members, v.items[i]))
      case Some(Str("object")) => AdmitsObject(schema, v)
      case _ => "properties" in schema && schema["properties"].Obj? ==> AdmitsObject(schema, v)
  }

  ghost predicate AdmitsObject(schema: map<string, Json>, v: Json)
    decreases Obj(schema), 0
  {
    v.Obj? && ("properties" in schema && schema["properties"].Obj? ==>
      forall k :: k in schema["properties"].members ==>
        if k in v.members then schema["properties"].members[k].Obj? ==> Admits(schema["properties"].members[k].members, v.members[k])
        else !Requires(schema, k))
  }

  lemma PlainExact(name: string, v: Json, quote: string -> string)
    requires QuotesApart(quote)
    ensures Contains(PlainNode(name), v, quote) <==> AdmitsPlain(name, v)
  {
    UnknownContains(quote);
  }

  lemma EnumExact(entries: seq<Json>, v: Json, quote: string -> string)
    requires QuotesApart(quote) && forall i :: 0 <= i < |entries| ==> entries[i].Str?
    ensures Contains(T.Union(Literals(entries, quote)), v, quote) <==> v in entries
  {
    var literals := Literals(entries, quote);
    if v in entries {
      EnumSound(entries, v, quote);
    }
    if Contains(T.Union(literals), v, quote) {
      var i :| 0 <= i < |literals| && Contains(literals[i], v, quote);
      assert entries[i].s == v.s;
    }
  }

  lemma ListExact(names: seq<Json>, v: Json, quote: string -> string)
    requires QuotesApart(quote)
    ensures Contains(T.Union(TypeUnion(names)), v, quote) <==>
      exists i :: 0 <= i < |names| && (names[i].Str? ==> AdmitsPlain(names[i].s, v))
  {
    var types := TypeUnion(names);
    UnknownContains(quote);
    forall i | 0 <= i < |names| ensures Contains(types[i], v, quote) <==> (names[i].Str? ==> AdmitsPlain(names[i].s, v)) {
      if names[i].Str? {
        PlainExact(names[i].s, v, quote);
      }
    }
    hide PlainNode, AdmitsPlain;
  }

  /** The node's type contains exactly what is left of the schema admits. */
  lemma {:induction false} NodeIsExact(schema: map<string, Json>, v: Json, quote: string -> string)
    requires QuotesApart(quote)
    ensures Contains(SchemaToNode(schema, quote), v, quote) <==> Admits(schema, v)
    decreases Obj(schema), 2
  {
    UnknownContains(quote);
    SchemaWords(schema);
    hide Contains, AdmitsObject, ObjectNode, StringEnum, ListsStrings, Literals, TypeUnion, QuotesApart;
    if StringEnum(schema).Some? {
      EnumNodeExact(schema, v, quote);
    } else {
      match At(schema, "type")
      case Some(Arr(names)) =>
        ListExact(names, v, quote);
      case Some(Str(name)) =>
        if name == "array" {
          ItemsExact(schema, v, quote);
        } else if name in {"string", "number", "integer", "boolean", "null"} {
          PlainExact(name, v, quote);
        } else if IsObjectSchema(schema) {
          PropertiesExact(schema, v, quote);
        }
      case _ =>
        if IsObjectSchema(schema) {
          PropertiesExact(schema, v, quote);
        }
    }
  }

  lemma EnumNodeExact(schema: map<string, Json>, v: Json, quote: string -> string)
    requires QuotesApart(quote) && StringEnum(schema).Some?
    ensures Contains(SchemaToNode(schema, quote), v, quote) <==> Admits(schema, v)
  {
    var entries := StringEnum(schema).value;
    EnumExact(entries, v, quote);
    hide Contains, QuotesApart;
  }

  lemma {:induction false} ItemsExact(schema: map<string, Json>, v: Json, quote: string -> string)
    requires QuotesApart(quote) && StringEnum(schema).None? && At(schema, "type") == Some(Str("array"))
    ensures Contains(SchemaToNode(schema, quote), v, quote) <==> Admits(schema, v)
    decreases Obj(schema), 0
  {
    UnknownContains(quote);
    if v.Arr? && "items" in schema && schema["items"].Obj? {
      forall i | 0 <= i < |v.items|
        ensures Contains(SchemaToNode(schema["items"].members, quote), v.items[i], quote) <==> Admits(schema["items"].members, v.items[i])
      {
        NodeIsExact(schema["items"].members, v.items[i], quote);
      }
    }
  }

  lemma FieldNames(schema: map<string, Json>, quote: string -> string)
    requires "properties" in schema && schema["properties"].Obj?
    ensures var fields, names := ObjectNode(schema, quote).fields, SortedKeys(schema["properties"].members.Keys);
            |fields| == |names| && forall i :: 0 <= i < |fields| ==> fields[i].name == names[i]
  {
    hide SortedKeys, SchemaToNode, SchemaEmitter.RequiredNames;
  }

  lemma FieldsCover(schema: map<string, Json>, quote: string -> string)
    requires "properties" in schema && schema["properties"].Obj?
    ensures forall k :: k in schema["properties"].members ==>
      exists i :: 0 <= i < |ObjectNode(schema, quote).fields| && ObjectNode(schema, quote).fields[i].name == k
    ensures forall i :: 0 <= i < |ObjectNode(schema, quote).fields| ==>
      ObjectNode(schema, quote).fields[i].name in schema["properties"].members
  {
    FieldNames(schema, quote);
    NamesCover(ObjectNode(schema, quote).fields, SortedKeys(schema["properties"].members.Keys));
    hide SortedKeys, ObjectNode;
  }

  lemma NamesCover(fields: seq<T.ObjectField>, names: seq<string>)
    requires |fields| == |names| && forall i :: 0 <= i < |fields| ==> fields[i].name == names[i]
    ensures forall k :: k in names ==> exists i :: 0 <= i < |fields| && fields[i].name == k
    ensures forall i :: 0 <= i < |fields| ==> fields[i].name in names
  {
    forall k | k in names ensures exists i :: 0 <= i < |fields| && fields[i].name == k {
      var i :| 0 <= i < |names| && names[i] == k;
      assert fields[i].name == k;
    }
  }

  /** The fields stand in the order of their names, and the members of a union in the order the schema lists them. */
  lemma NodeKeepsOrder(schema: map<string, Json>, quote: string -> string)
    ensures var node := SchemaToNode(schema, quote);
            && (node.Object? ==> forall i, j :: 0 <= i < j < |node.fields| ==> Less(node.fields[i].name, node.fields[j].name))
            && (ListsStrings(schema) ==>
                  node.Union? && |node.members| == |schema["enum"].items| &&
                  forall i :: 0 <= i < |node.members| ==> node.members[i] == T.Primitive(quote(schema["enum"].items[i].s)))
            && (!ListsStrings(schema) && At(schema, "type").Some? && schema["type"].Arr? ==>
                  node.Union? && |node.members| == |schema["type"].items| &&
                  forall i :: 0 <= i < |node.members| && schema["type"].items[i].Str? ==>
                    node.members[i] == SchemaToNode(map["type" := schema["type"].items[i]], quote))
  {
    SchemaWords(schema);
    hide StringEnum, ListsStrings, SortedKeys, SchemaEmitter.RequiredNames, PlainNode;
    if !ListsStrings(schema) && At(schema, "type").Some? && schema["type"].Arr? {
      forall i | 0 <= i < |schema["type"].items| && schema["type"].items[i].Str?
        ensures SchemaToNode(map["type" := schema["type"].items[i]], quote) == PlainNode(schema["type"].items[i].s)
      {
        PlainIsSchemaToNode(schema["type"].items[i].s, quote);
      }
    }
  }

  lemma {:induction false} PropertiesExact(schema: map<string, Json>, v: Json, quote: string -> string)
    requires QuotesApart(quote)
    ensures Contains(ObjectNode(schema, quote), v, quote) <==> AdmitsObject(schema, v)
    decreases Obj(schema), 1
  {
    if v.Obj? && "properties" in schema && schema["properties"].Obj? {
      var fields := ObjectNode(schema, quote).fields;
      assert ObjectNode(schema, quote) == T.Object(fields);
      hide ObjectNode, Contains, Admits, SchemaToNode, QuotesApart, FieldAdmits, SchemaEmitter.RequiredNames;
      forall i | 0 <= i < |fields|
        ensures fields[i].name in schema["properties"].members
        ensures FieldAdmits(fields[i], v.members, quote) <==> PropertyAdmits(schema, v.members, fields[i].name)
      {
        FieldExact(schema, i, v, quote);
      }
      FieldsCover(schema, quote);
      ObjectContains(fields, v, quote);
      AdmitsEach(schema, v);
      hide PropertyAdmits, AdmitsObject;
    }
  }

  lemma ObjectContains(fields: seq<T.ObjectField>, v: Json, quote: string -> string)
    requires v.Obj?
    ensures Contains(T.Object(fields), v, quote) <==> forall i :: 0 <= i < |fields| ==> FieldAdmits(fields[i], v.members, quote)
  {
  }

  lemma AdmitsEach(schema: map<string, Json>, v: Json)
    requires v.Obj? && "properties" in schema && schema["properties"].Obj?
    ensures AdmitsObject(schema, v) <==> forall k :: k in schema["properties"].members ==> PropertyAdmits(schema, v.members, k)
  {
    hide Admits;
  }

  ghost predicate FieldAdmits(field: T.ObjectField, members: map<string, Json>, quote: string -> string) {
    if field.name in members then Contains(field.value, members[field.name], quote) else field.optional
  }

  ghost predicate PropertyAdmits(schema: map<string, Json>, members: map<string, Json>, k: string)
    requires "properties" in schema && schema["properties"].Obj? && k in schema["properties"].members
  {
    if k in members then schema["properties"].members[k].Obj? ==> Admits(schema["properties"].members[k].members, members[k])
    else !Requires(schema, k)
  }

  lemma {:induction false} FieldExact(schema: map<string, Json>, i: nat, v: Json, quote: string -> string)
    requires QuotesApart(quote) && v.Obj? && "properties" in schema && schema["properties"].Obj?
    requires i < |ObjectNode(schema, quote).fields|
    ensures var field := ObjectNode(schema, quote).fields[i];
            && field.name in schema["properties"].members
            && (FieldAdmits(field, v.members, quote) <==> PropertyAdmits(schema, v.members, field.name))
    decreases Obj(schema), 0
  {
    UnknownContains(quote);
    SchemaWords(schema);
    hide SortedKeys, SchemaEmitter.RequiredNames, Requires, Admits, SchemaToNode, QuotesApart, Contains;
    var properties := schema["properties"].members;
    var names := SortedKeys(properties.Keys);
    assert names[i] in names;
    var k := names[i];
    if k in v.members && properties[k].Obj? {
      NodeIsExact(properties[k].members, v.members[k], quote);
    }
  }

  /**
   * Where the parts behind are read faithfully, an accepted value is in the node's type exactly when an
   * untyped `properties` meets an object and the elements of a prefix are ones that `items`, as far as
   * `schemaToNode` looks at it, admits.
   */
  lemma DeparturesAreExact(x: OtherKeywords, schema: map<string, Json>, v: Json, quote: string -> string)
    requires QuotesApart(quote) && Validates(x, Obj(schema), v) && BelowFaithful(x, schema, v)
    ensures Contains(SchemaToNode(schema, quote), v, quote) <==>
      && (UntypedProperties(schema) ==> v.Obj?)
      && (TakesItems(schema) && v.Arr? ==>
            forall i :: 0 <= i < PrefixLength(schema) && i < |v.items|
              ==> Admits(AsObject(At(schema, "items")).value, v.items[i]))
  {
    hide ValidatesBranches, ReadFaithfully, Validates;
    if TakesItems(schema) {
      assert TypeAccepts(At(schema, "type"), v) && v.Arr? && ValidatesItems(x, schema, v.items) by { AcceptedArray(x, schema, v); }
      forall i | 0 <= i < |v.items|
        ensures Contains(SchemaToNode(schema["items"].members, quote), v.items[i], quote) <==> Admits(schema["items"].members, v.items[i])
      {
        NodeIsExact(schema["items"].members, v.items[i], quote);
      }
      forall i | PrefixLength(schema) <= i < |v.items| ensures Contains(SchemaToNode(schema["items"].members, quote), v.items[i], quote) {
        assert Validates(x, schema["items"], v.items[i]);
        NodeSound(x, schema["items"].members, v.items[i], quote);
      }
    } else if UntypedProperties(schema) && !v.Obj? {
      assert !Contains(ObjectNode(schema, quote), v, quote);
    } else {
      assert ReadFaithfully(x, Obj(schema), v) by { NoDepartureHere(x, schema, v); }
      NodeSound(x, schema, v, quote);
    }
  }

  lemma AcceptedArray(x: OtherKeywords, schema: map<string, Json>, v: Json)
    requires Validates(x, Obj(schema), v) && At(schema, "type") == Some(Str("array"))
    ensures TypeAccepts(At(schema, "type"), v) && v.Arr? && ValidatesItems(x, schema, v.items)
  {
    hide ValidatesBranches, ValidatesItems;
  }

  lemma NoDepartureHere(x: OtherKeywords, schema: map<string, Json>, v: Json)
    requires BelowFaithful(x, schema, v) && !TakesItems(schema) && (UntypedProperties(schema) ==> v.Obj?)
    ensures ReadFaithfully(x, Obj(schema), v)
  {
  }

  /** No untyped `properties` and no non-empty prefix before `items`, here or below. */
  ghost predicate Straightforward(schema: Json) {
    schema.Obj? ==>
      var node := schema.members;
      && !UntypedProperties(node)
      && ("items" in node && TakesItems(node) ==> PrefixLength(node) == 0 && Straightforward(node["items"]))
      && ("properties" in node && TakesProperties(node) ==>
            forall k :: k in node["properties"].members ==> Straightforward(node["properties"].members[k]))
  }

  lemma {:induction false} StraightforwardReads(x: OtherKeywords, schema: Json, v: Json)
    requires Straightforward(schema)
    ensures ReadFaithfully(x, schema, v)
    decreases schema
  {
    hide Validates;
    if schema.Obj? {
      var node := schema.members;
      if "items" in node && TakesItems(node) && v.Arr? {
        forall i | 0 <= i < |v.items| ensures ReadFaithfully(x, node["items"], v.items[i]) {
          StraightforwardReads(x, node["items"], v.items[i]);
        }
      }
      if "properties" in node && TakesProperties(node) && v.Obj? {
        forall k | k in node["properties"].members && k in v.members
          ensures ReadFaithfully(x, node["properties"].members[k], v.members[k])
        {
          StraightforwardReads(x, node["properties"].members[k], v.members[k]);
        }
      }
    }
  }

  /** For a schema without either departure, every accepted value is in the node's type. */
  lemma SoundForStraightforward(x: OtherKeywords, schema: map<string, Json>, v: Json, quote: string -> string)
    requires Straightforward(Obj(schema)) && Validates(x, Obj(schema), v)
    ensures Contains(SchemaToNode(schema, quote), v, quote)
  {
    hide *;
    StraightforwardReads(x, Obj(schema), v);
    NodeSound(x, schema, v, quote);
  }

  /** A prefixed array of strings followed by numbers is typed as an array of numbers. */
  lemma PrefixedItemsUnsound(x: OtherKeywords, text: string, quote: string -> string)
    requires quote(text) != "number"
    requires forall node, v :: x(node, v)
    ensures var schema := map["type" := Str("array"), "prefixItems" := Arr([Obj(map["type" := Str("string")])]), "items" := Obj(map["type" := Str("number")])];
            Validates(x, Obj(schema), Arr([Str(text)])) && !Contains(SchemaToNode(schema, quote), Arr([Str(text)]), quote)
  {
    hide SchemaToNode, Validates;
    var first, rest := map["type" := Str("string")], map["type" := Str("number")];
    var schema := map["type" := Str("array"), "prefixItems" := Arr([Obj(first)]), "items" := Obj(rest)];
    TypeOnlyAccepts(x, first, "string", Str(text));
    PrefixedAccepts(x, schema, first, rest, text);
    PrefixedNode(schema, first, rest, quote);
    assert !Contains(T.Primitive("number"), [Str(text)][0], quote);
  }

  lemma PrefixedNode(schema: map<string, Json>, first: map<string, Json>, rest: map<string, Json>, quote: string -> string)
    requires schema == map["type" := Str("array"), "prefixItems" := Arr([Obj(first)]), "items" := Obj(rest)]
    requires rest == map["type" := Str("number")]
    ensures SchemaToNode(schema, quote) == T.Array(T.Primitive("number"))
  {
    assert schema.Keys == {"type", "prefixItems", "items"};
    PlainIsSchemaToNode("number", quote);
  }

  /** The members of a type list are what the same type alone would give. */
  lemma PlainIsSchemaToNode(name: string, quote: string -> string)
    ensures SchemaToNode(map["type" := Str(name)], quote) == PlainNode(name)
  {
    var schema := map["type" := Str(name)];
    assert schema.Keys == {"type"};
    assert StringEnum(schema).None?;
    assert AsObject(At(schema, "properties")).None?;
  }

  lemma TypeOnlyAccepts(x: OtherKeywords, node: map<string, Json>, name: string, v: Json)
    requires node == map["type" := Str(name)] && HasType(v, name) && x(node, v)
    ensures Validates(x, Obj(node), v)
  {
    assert node.Keys == {"type"};
    assert ValidatesBranches(x, node, v);
    assert SchemaEmitter.RequiredNames(node) == {};
  }

  lemma PrefixedAccepts(x: OtherKeywords, schema: map<string, Json>, first: map<string, Json>, rest: map<string, Json>, text: string)
    requires schema == map["type" := Str("array"), "prefixItems" := Arr([Obj(first)]), "items" := Obj(rest)]
    requires Validates(x, Obj(first), Str(text)) && x(schema, Arr([Str(text)]))
    ensures Validates(x, Obj(schema), Arr([Str(text)]))
  {
    var items := [Str(text)];
    assert schema.Keys == {"type", "prefixItems", "items"};
    assert ValidatesBranches(x, schema, Arr(items));
    assert ValidatesItems(x, schema, items) by {
      var positions := [Obj(first)];
      assert forall i :: 0 <= i < |positions| && i < |items| ==> Validates(x, positions[i], items[i]);
    }
  }
}
