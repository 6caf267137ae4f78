/** Closed objects that require a key they do not declare: the type asks for what the schema forbids. */
module ClosedObjects {
  import opened Basics
  import opened JsonValues
  import opened SchemaEmitter
  import opened SchemaSemantics
  import opened EmitterSoundness
  import opened EmitterLimits
  import opened EmitterPrecision

  /** An object node that allows no further members and requires one it does not declare. */
  predicate AsksForForbidden(node: map<string, Json>) {
    && !HasUnexpectedSibling(node, OBJECT_SUPPORTED_KEYS)
    && (Untyped(node) || At(node, "type") == Some(Str("object")))
    && At(node, "additionalProperties") == Some(Bool(false))
    && !(RequiredNames(node) <= DeclaredProperties(node).Keys)
  }

  /** No object is accepted, whatever the other keywords mean. */
  lemma ForbiddenAcceptsNoObject(x: OtherKeywords, node: map<string, Json>, v: Json)
    requires AsksForForbidden(node) && v.Obj?
    ensures !Validates(x, Obj(node), v)
  {
    NoPatternProperties(node);
    hide HasUnexpectedSibling, ValidatesBranches, DeclaredProperties, RequiredNames;
    var r :| r in RequiredNames(node) && r !in DeclaredProperties(node);
    if r in v.members {
      assert !Validates(x, Bool(false), v.members[r]);
    }
  }

  lemma EmittedAsObject(node: map<string, Json>, depth: nat)
    requires depth <= MAX_RECURSION_DEPTH && AsksForForbidden(node)
    ensures EmitAtDepth(Some(Obj(node)), depth) == ObjectType(node, depth)
  {
    OnlyObjectKeywords(node);
    NoArrayKeywords(node);
    hide HasUnexpectedSibling, EmitAtDepth, ObjectType, TryCombinator, TryEnumOrConst, DeclaredProperties, RequiredNames;
    NotCombined(node, depth);
    if Untyped(node) {
      ObjectNodeType(node, depth);
    } else {
      ProjectedDispatch(node, "object", depth);
    }
  }

  ghost predicate Inhabited(t: TsType) {
    exists w :: Inhabits(t, w)
  }

  ghost function WitnessOf(t: TsType): (w: Json)
    requires Inhabited(t)
    ensures Inhabits(t, w)
  {
    var w :| Inhabits(t, w);
    w
  }

  /** Every property that is both required and declared has an emitted type with something in it. */
  ghost predicate DeclaredInhabited(node: map<string, Json>, depth: nat) {
    forall r :: r in RequiredNames(node) && r in DeclaredProperties(node) ==>
      EmitAtDepth(Some(DeclaredProperties(node)[r]), depth + 1).Ok?
      && Inhabited(EmitAtDepth(Some(DeclaredProperties(node)[r]), depth + 1).value)
  }

  /** An object with the required members and nothing else. */
  ghost function Smallest(node: map<string, Json>, depth: nat): (members: map<string, Json>)
    requires DeclaredInhabited(node, depth)
    ensures members.Keys == RequiredNames(node)
  {
    map r | r in RequiredNames(node) ::
      if r in DeclaredProperties(node) then WitnessOf(EmitAtDepth(Some(DeclaredProperties(node)[r]), depth + 1).value) else Null
  }

  lemma SmallestField(node: map<string, Json>, depth: nat, keys: seq<string>, i: nat)
    requires depth <= MAX_RECURSION_DEPTH && i < |keys| && DeclaredInhabited(node, depth)
    requires FieldsFor(keys, DeclaredProperties(node), RequiredNames(node), depth).Ok?
    requires keys[i] in DeclaredProperties(node) || keys[i] in RequiredNames(node)
    ensures FieldHolds(FieldsFor(keys, DeclaredProperties(node), RequiredNames(node), depth).value[i], Smallest(node, depth))
  {
    EmitUndefined(depth + 1);
    hide EmitAtDepth, FieldsFor, DeclaredProperties, RequiredNames, Inhabits;
    UnknownSound(Null);
  }

  lemma SmallestInhabits(node: map<string, Json>, depth: nat)
    requires depth <= MAX_RECURSION_DEPTH && AsksForForbidden(node) && ObjectType(node, depth).Ok? && DeclaredInhabited(node, depth)
    ensures Inhabits(ObjectType(node, depth).value, Obj(Smallest(node, depth)))
  {
    hide EmitAtDepth, FieldsFor, DeclaredProperties, RequiredNames, Inhabits, SortedKeys, Smallest, HasUnexpectedSibling, DeclaredInhabited;
    var properties, required := DeclaredProperties(node), RequiredNames(node);
    var keys := SortedKeys(properties.Keys + required);
    var fields := FieldsFor(keys, properties, required, depth).value;
    var v := Obj(Smallest(node, depth));
    forall i | 0 <= i < |fields| ensures FieldHolds(fields[i], v.members) {
      assert keys[i] in keys;
      SmallestField(node, depth, keys, i);
    }
    forall k | k in v.members ensures IndexHolds(fields, None, v.members, k) {
      assert k in keys;
      var i :| 0 <= i < |keys| && keys[i] == k;
      assert fields[i].name == k;
    }
    var r :| r in required && r !in properties;
    assert r in keys;
    assert fields != [];
    ObjectAssembled(fields, None, v);
  }

  lemma InhabitedFields(node: map<string, Json>, depth: nat, v: Json)
    requires depth <= MAX_RECURSION_DEPTH && ObjectType(node, depth).Ok? && Inhabits(ObjectType(node, depth).value, v)
    ensures DeclaredInhabited(node, depth)
  {
    ObjectTaken(node, depth, v);
    RequiredTight(node, depth, v);
    hide EmitAtDepth, FieldsFor, DeclaredProperties, RequiredNames, Inhabits, SortedKeys, ObjectType, IndexHolds, IndexSignature;
    var properties, required := DeclaredProperties(node), RequiredNames(node);
    var keys := SortedKeys(properties.Keys + required);
    var fields := FieldsFor(keys, properties, required, depth).value;
    forall r | r in required && r in properties
      ensures EmitAtDepth(Some(properties[r]), depth + 1).Ok? && Inhabited(EmitAtDepth(Some(properties[r]), depth + 1).value)
    {
      assert r in keys;
      var i :| 0 <= i < |keys| && keys[i] == r;
      assert FieldHolds(fields[i], v.members);
      assert Inhabits(fields[i].value, v.members[r]);
    }
  }

  /**
   * The schema accepts no object at all, while the emitted type contains some exactly when the properties
   * that are both required and declared can be filled. Then each of its values is one the schema rejects.
   */
  lemma ForbiddenIsImprecise(x: OtherKeywords, node: map<string, Json>)
    requires AsksForForbidden(node) && Emit(Some(Obj(node))).Ok?
    ensures forall v :: Inhabits(Emit(Some(Obj(node))).value, v) ==> !Validates(x, Obj(node), v)
    ensures (exists v :: Inhabits(Emit(Some(Obj(node))).value, v)) <==> DeclaredInhabited(node, 0)
  {
    EmittedAsObject(node, 0);
    hide EmitAtDepth, Inhabits, Validates, ObjectType, DeclaredInhabited, AsksForForbidden;
    var t := Emit(Some(Obj(node))).value;
    forall v | Inhabits(t, v) ensures !Validates(x, Obj(node), v) && DeclaredInhabited(node, 0) {
      if !v.Obj? {
        ObjectTypeOnlyObjects(node, 0, v);
      }
      ForbiddenAcceptsNoObject(x, node, v);
      InhabitedFields(node, 0, v);
    }
    if DeclaredInhabited(node, 0) {
      SmallestInhabits(node, 0);
    }
  }
}
