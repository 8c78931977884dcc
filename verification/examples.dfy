/** Concrete cases from the validator's test suite, derived from the general
    properties. The `user` and `address` schema fixtures are not part of
    this model; the schemas below carry the keys the tests' expected
    results show. */
module Examples {
  import opened Json
  import opened Schemas
  import opened Registry
  import opened Validation
  import opened ValidationProps
  import StringConstraint

  /** The test suite's `dummy` constraint accepts every value. */
  function Dummy(v: Value, options: Option<Value>): (ok: bool)
    ensures ok
  {
    true
  }

  /** A validator with the `string` and `dummy` constraints registered. */
  function Constrained(): (reg: Validator)
    ensures reg.constraints.Keys == {"string", "dummy"}
    ensures reg.constraints["string"] == StringConstraint.Accepts
    ensures reg.constraints["dummy"] == Dummy
    ensures reg.schemas == map[]
  {
    AddConstraint(AddConstraint(Empty(), "string", StringConstraint.Accepts), "dummy", Dummy)
  }

  /** `[["string", {}], ["dummy"]]` */
  const Config: seq<Call> := [Call("string", Some(Obj(map[]))), Call("dummy", None)]

  /** A scalar node with the single entry `["string"]`. */
  const StringNode: Node := ScalarNode(Some([Call("string", None)]))

  /** `validateScalar` guards and constraint map (test/ObjectValidatorTest.js:497-515). */
  lemma {:induction false} ScalarCases()
    ensures ValidateScalar(Constrained(), Obj(map[]), Some(Config)) == Ok(Report(False, []))
    ensures ValidateScalar(Constrained(), Num(1), None) == Ok(Report(True, []))
    ensures ValidateScalar(Constrained(), Num(1), Some(Config))
            == Ok(Report(Checks(map["string" := false, "dummy" := true]),
                         [Invocation("string", Num(1), Some(Obj(map[]))), Invocation("dummy", Num(1), None)]))
  {
    ConfigOnScalar(Constrained(), Num(1));
  }

  /** The two-entry configuration on any scalar: `string` decides, `dummy`
      accepts, and both are called once, in order. */
  lemma {:induction false} ConfigOnScalar(reg: Validator, x: Value)
    requires !x.IsObject() && ConfigReady(reg)
    ensures ValidateScalar(reg, x, Some(Config))
            == Ok(Report(Checks(map["string" := x.Str?, "dummy" := true]),
                         [Invocation("string", x, Some(Obj(map[]))), Invocation("dummy", x, None)]))
  {
    ConfigResults(reg, x);
    ConfigLog(reg, x);
  }

  /** A registry holding the test suite's `string` and `dummy` constraints. */
  ghost predicate ConfigReady(reg: Validator) {
    && "string" in reg.constraints && reg.constraints["string"] == StringConstraint.Accepts
    && "dummy" in reg.constraints && reg.constraints["dummy"] == Dummy
  }

  lemma {:induction false} ConfigResults(reg: Validator, x: Value)
    requires !x.IsObject() && ConfigReady(reg)
    ensures ValidateScalar(reg, x, Some(Config)).Ok?
    ensures ValidateScalar(reg, x, Some(Config)).value.tree == Checks(map["string" := x.Str?, "dummy" := true])
  {
    var r := ValidateScalar(reg, x, Some(Config));
    assert Config[0].id in reg.constraints && Config[1].id in reg.constraints;
    assert StringConstraint.Accepts(x, Config[0].options) == x.Str? by {
      assert StringConstraint.MinLength(Some(Obj(map[]))) == 0;
    }
    assert LastOccurrence(Config, 0) && LastOccurrence(Config, 1);
    assert Ids(Config) == {"string", "dummy"};
    assert r.value.tree.results == map["string" := x.Str?, "dummy" := true];
  }

  lemma {:induction false} ConfigLog(reg: Validator, x: Value)
    requires !x.IsObject() && ConfigReady(reg)
    requires ValidateScalar(reg, x, Some(Config)).Ok?
    ensures ValidateScalar(reg, x, Some(Config)).value.log
            == [Invocation("string", x, Some(Obj(map[]))), Invocation("dummy", x, None)]
  {
  }

  /** A log whose calls, counted with multiplicity, are none at all is empty. */
  lemma {:induction false} NoCalls(log: seq<Invocation>)
    requires multiset(log) == multiset{}
    ensures log == []
  {
    assert |multiset(log)| == |log|;
  }

  /** `{"age": {"type": "scalar", "constraints": []}}` */
  const AgeSchema: Schema := FieldMap(map["age" := ScalarNode(Some([]))])

  /** An object key the schema lacks maps to `false`, whatever its value; a
      declared key with no constraints maps to `true` for any scalar. */
  lemma {:induction false} UnknownKeyIsFalse(reg: Validator, age: Value, name: Value)
    requires !age.IsObject()
    ensures ValidateObject(reg, Obj(map["age" := age, "name" := name]), Inline(AgeSchema))
            == Ok(Report(Fields(map["age" := True, "name" := False]), []))
  {
    var v, ref := Obj(map["age" := age, "name" := name]), Inline(AgeSchema);
    assert Dispatch(reg, age, AgeSchema.fields["age"], InvalidFieldType("age")) == Ok(Report(True, []));
    assert "name" !in AgeSchema.fields;
    ObjectVerdicts(reg, v, ref, map["age" := True, "name" := False]);
    AgeLog(reg, age, name);
  }

  lemma {:induction false} AgeLog(reg: Validator, age: Value, name: Value)
    requires !age.IsObject()
    requires ValidateObject(reg, Obj(map["age" := age, "name" := name]), Inline(AgeSchema)).Ok?
    ensures ValidateObject(reg, Obj(map["age" := age, "name" := name]), Inline(AgeSchema)).value.log == []
  {
    var v, ref := Obj(map["age" := age, "name" := name]), Inline(AgeSchema);
    var m := AgeSchema.fields;
    assert OwnLog(reg, v, "age", m) == multiset{} by {
      assert Dispatch(reg, age, m["age"], InvalidFieldType("age")) == Ok(Report(True, []));
    }
    assert OwnLog(reg, v, "name", m) == multiset{};
    assert FieldLogs(reg, v, ["age", "name"], m) == multiset{} by {
      assert FieldLogs(reg, v, ["name"], m) == multiset{};
    }
    ObjectLog(reg, v, ref, ["age", "name"]);
    NoCalls(ValidateObject(reg, v, ref).value.log);
  }

  /** `{"someScalar": {"type": "scalar", "constraints": []}}` */
  const ScalarObjectSchema: Schema := FieldMap(map["someScalar" := ScalarNode(Some([]))])

  /** A registered schema whose one key has an empty constraint list: any
      scalar under that key maps to `true` (test/ObjectValidatorTest.js:306-326). */
  lemma {:induction false} SchemaWithoutConstraints(reg: Validator, x: Value)
    requires "myScalarObject" in reg.schemas && reg.schemas["myScalarObject"] == ScalarObjectSchema
    requires !x.IsObject()
    ensures ValidateObject(reg, Obj(map["someScalar" := x]), Id("myScalarObject")).Ok?
    ensures ValidateObject(reg, Obj(map["someScalar" := x]), Id("myScalarObject")).value.tree
            == Fields(map["someScalar" := True])
  {
    var v, ref := Obj(map["someScalar" := x]), Id("myScalarObject");
    assert FieldView(ResolveSchema(reg, ref).value) == ScalarObjectSchema.fields;
    assert Dispatch(reg, x, ScalarObjectSchema.fields["someScalar"], InvalidFieldType("someScalar")) == Ok(Report(True, []));
    ObjectVerdicts(reg, v, ref, map["someScalar" := True]);
  }

  /** A declared key the object lacks maps to `false`. */
  lemma {:induction false} MissingKeyIsFalse()
    ensures ValidateObject(Empty(), Obj(map[]), Inline(AgeSchema)) == Ok(Report(Fields(map["age" := False]), []))
  {
    EmptyObject(Empty(), Inline(AgeSchema));
    assert (map k | k in AgeSchema.fields :: False) == map["age" := False];
  }

  /** `[["dummy", {}]]` */
  const DummyNode: Node := ScalarNode(Some([Call("dummy", Some(Obj(map[])))]))

  /** A registry whose `dummy` entry is the test suite's `dummy` constraint. */
  ghost predicate DummyReady(reg: Validator) {
    "dummy" in reg.constraints && reg.constraints["dummy"] == Dummy
  }

  /** The verdict and the call of the `dummy` node on one scalar. */
  const DummyTree: Tree := Checks(map["dummy" := true])

  function DummyCall(x: Value): (c: Invocation)
    ensures c.id == "dummy" && c.value == x
  {
    Invocation("dummy", x, Some(Obj(map[])))
  }

  /** The one `dummy` call on a scalar. */
  lemma {:induction false} DummyOnScalar(reg: Validator, x: Value, bad: Error)
    requires DummyReady(reg) && !x.IsObject()
    ensures Dispatch(reg, x, DummyNode, bad) == Ok(Report(DummyTree, [DummyCall(x)]))
  {
    var cs := DummyNode.constraints.value;
    var r := ValidateScalar(reg, x, Some(cs));
    assert LastOccurrence(cs, 0);
    assert Ids(cs) == {"dummy"};
    assert r.value.tree.results == map["dummy" := true];
    assert r.value.log == [DummyCall(x)];
    assert Dispatch(reg, x, DummyNode, bad) == r;
  }

  /** `n` copies of the `dummy` verdict. */
  function Row(n: nat): (ts: seq<Tree>)
    ensures |ts| == n && forall i :: 0 <= i < n ==> ts[i] == DummyTree
  {
    seq(n, _ => DummyTree)
  }

  /** Any list of scalars against the `dummy` element node: one `dummy`
      verdict per element. */
  lemma {:induction false} DummyRow(reg: Validator, ref: Ref, xs: seq<Value>)
    requires DummyReady(reg) && ResolveSchema(reg, ref) == Ok(Element(DummyNode))
    requires forall i :: 0 <= i < |xs| ==> !xs[i].IsObject()
    ensures ValidateArray(reg, Arr(xs), ref).Ok?
    ensures ValidateArray(reg, Arr(xs), ref).value.tree == Elems(Row(|xs|))
  {
    forall i | 0 <= i < |xs|
      ensures Dispatch(reg, xs[i], DummyNode, InvalidElementType).Ok?
      ensures Dispatch(reg, xs[i], DummyNode, InvalidElementType).value.tree == Row(|xs|)[i]
    {
      DummyOnScalar(reg, xs[i], InvalidElementType);
    }
    ArrayVerdicts(reg, Arr(xs), ref, Row(|xs|));
  }

  lemma {:induction false} TripleLog(reg: Validator, ref: Ref, a: Value, b: Value, c: Value)
    requires DummyReady(reg) && ResolveSchema(reg, ref) == Ok(Element(DummyNode))
    requires !a.IsObject() && !b.IsObject() && !c.IsObject()
    requires ValidateArray(reg, Arr([a, b, c]), ref).Ok?
    ensures ValidateArray(reg, Arr([a, b, c]), ref).value.log == [DummyCall(a), DummyCall(b), DummyCall(c)]
  {
    var v := Arr([a, b, c]);
    assert v.elems[0] == a && v.elems[1] == b && v.elems[2] == c;
    DummyOnScalar(reg, a, InvalidElementType);
    DummyOnScalar(reg, b, InvalidElementType);
    DummyOnScalar(reg, c, InvalidElementType);
    assert ElemLogs(reg, v, DummyNode, 2) == [DummyCall(c)] + ElemLogs(reg, v, DummyNode, 3);
    assert ElemLogs(reg, v, DummyNode, 1) == [DummyCall(b)] + ElemLogs(reg, v, DummyNode, 2);
    assert ElemLogs(reg, v, DummyNode, 0) == [DummyCall(a)] + ElemLogs(reg, v, DummyNode, 1);
    ArrayLog(reg, v, ref);
  }

  /** The test validator with the scalar element schema `scalarType` registered. */
  function ScalarTyped(): (reg: Validator)
    ensures reg.schemas == map["scalarType" := Element(DummyNode)]
    ensures reg.constraints == Constrained().constraints
  {
    AddSchema(Constrained(), "scalarType", Element(DummyNode)).value
  }

  /** An array of scalars against a scalar element schema, given inline or
      by identifier: one constraint map per element, one call per element,
      in order (test/ObjectValidatorTest.js:333-392). */
  lemma {:induction false} ScalarArray(reg: Validator, ref: Ref)
    requires || (reg == Constrained() && ref == Inline(Element(DummyNode)))
             || (reg == ScalarTyped() && ref == Id("scalarType"))
    ensures ValidateArray(reg, Arr([Num(1), Num(2), Num(4)]), ref)
            == Ok(Report(Elems([Checks(map["dummy" := true]), Checks(map["dummy" := true]), Checks(map["dummy" := true])]),
                         [Invocation("dummy", Num(1), Some(Obj(map[]))),
                          Invocation("dummy", Num(2), Some(Obj(map[]))),
                          Invocation("dummy", Num(4), Some(Obj(map[])))]))
  {
    assert DummyReady(reg) && ResolveSchema(reg, ref) == Ok(Element(DummyNode));
    DummyRow(reg, ref, [Num(1), Num(2), Num(4)]);
    assert Row(3) == [Checks(map["dummy" := true]), Checks(map["dummy" := true]), Checks(map["dummy" := true])];
    TripleLog(reg, ref, Num(1), Num(2), Num(4));
  }

  /** A registry whose `string` entry is the test suite's `string` constraint. */
  ghost predicate StringReady(reg: Validator) {
    "string" in reg.constraints && reg.constraints["string"] == StringConstraint.Accepts
  }

  /** The one `string` call (no options) on a scalar: accepted exactly when it is a string. */
  lemma {:induction false} StringOnScalar(reg: Validator, x: Value, bad: Error)
    requires StringReady(reg) && !x.IsObject()
    ensures Dispatch(reg, x, StringNode, bad)
            == Ok(Report(Checks(map["string" := x.Str?]), [Invocation("string", x, None)]))
  {
    var cs := StringNode.constraints.value;
    var r := ValidateScalar(reg, x, Some(cs));
    assert LastOccurrence(cs, 0);
    assert Ids(cs) == {"string"};
    assert r.value.tree.results == map["string" := x.Str?];
    assert r.value.log == [Invocation("string", x, None)];
    assert Dispatch(reg, x, StringNode, bad) == r;
  }

  /** Stand-in for the `address` schema fixture: the keys the tests expect. */
  const AddressSchema: Schema := FieldMap(map["addressee" := StringNode, "street" := StringNode, "housenumber" := StringNode])

  /** Stand-in for the `user` schema fixture: two string fields and a
      reference to `address`. */
  const UserSchema: Schema := FieldMap(map["username" := StringNode, "age" := StringNode, "address" := ObjectNode(Id("address"))])

  /** The test validator with `user` and `address` registered. */
  function Registered(): (reg: Validator)
    ensures reg.schemas == map["user" := UserSchema, "address" := AddressSchema]
    ensures reg.constraints == Constrained().constraints
  {
    var withUser := AddSchema(Constrained(), "user", UserSchema).value;
    AddSchema(withUser, "address", AddressSchema).value
  }

  /** A registry where `string` is the test constraint and `address` is registered. */
  ghost predicate UserReady(reg: Validator) {
    && StringReady(reg)
    && "address" in reg.schemas && reg.schemas["address"] == AddressSchema
  }

  /** The nested `user` object of the tests, with a given name and age and
      an empty address. */
  function UserValue(name: string, age: int): (v: Value)
    ensures v.Obj? && v.fields.Keys == {"username", "age", "address"}
  {
    Obj(map["username" := Str(name), "age" := Num(age), "address" := Obj(map[])])
  }

  const AddressTree: Tree := Fields(map["addressee" := False, "street" := False, "housenumber" := False])

  /** What each field of the user object yields on its own. */
  lemma {:induction false} UserFields(reg: Validator, name: string, age: int)
    requires UserReady(reg)
    ensures var v, m := UserValue(name, age), UserSchema.fields;
      && Dispatch(reg, v.fields["username"], m["username"], InvalidFieldType("username"))
         == Ok(Report(Checks(map["string" := true]), [Invocation("string", Str(name), None)]))
      && Dispatch(reg, v.fields["age"], m["age"], InvalidFieldType("age"))
         == Ok(Report(Checks(map["string" := false]), [Invocation("string", Num(age), None)]))
      && Dispatch(reg, v.fields["address"], m["address"], InvalidFieldType("address"))
         == Ok(Report(AddressTree, []))
  {
    StringOnScalar(reg, Str(name), InvalidFieldType("username"));
    StringOnScalar(reg, Num(age), InvalidFieldType("age"));
    EmptyAddress(reg);
  }

  /** The empty address object: every declared key is missing. */
  lemma {:induction false} EmptyAddress(reg: Validator)
    requires UserReady(reg)
    ensures Dispatch(reg, Obj(map[]), ObjectNode(Id("address")), InvalidFieldType("address")) == Ok(Report(AddressTree, []))
  {
    EmptyObject(reg, Id("address"));
    assert (map k | k in AddressSchema.fields :: False) == AddressTree.fields;
  }

  /** The user object and the user schema share their three keys. */
  lemma {:induction false} UserKeys(name: string, age: int)
    ensures var v := UserValue(name, age);
      && Distinct(["username", "age", "address"])
      && (forall k :: k in ["username", "age", "address"] <==> k in v.fields)
      && (forall k :: k in v.fields <==> k == "username" || k == "age" || k == "address")
      && v.fields.Keys == UserSchema.fields.Keys
  {
    var keys := ["username", "age", "address"];
    assert keys[0] != keys[1] && keys[0] != keys[2] && keys[1] != keys[2];
  }

  lemma {:induction false} UserTree(reg: Validator, name: string, age: int, ref: Ref)
    requires UserReady(reg) && ResolveSchema(reg, ref) == Ok(UserSchema)
    ensures ValidateObject(reg, UserValue(name, age), ref).Ok?
    ensures ValidateObject(reg, UserValue(name, age), ref).value.tree
            == Fields(map["username" := Checks(map["string" := true]),
                          "age" := Checks(map["string" := false]),
                          "address" := AddressTree])
  {
    var v, m := UserValue(name, age), UserSchema.fields;
    var want := map["username" := Checks(map["string" := true]),
                    "age" := Checks(map["string" := false]),
                    "address" := AddressTree];
    UserKeys(name, age);
    assert FieldView(UserSchema) == m;
    assert want.Keys == v.fields.Keys + m.Keys;
    UserVerdicts(reg, name, age);
    ObjectVerdicts(reg, v, ref, want);
  }

  /** Each key of the user object, validated alone. */
  lemma {:induction false} UserVerdicts(reg: Validator, name: string, age: int)
    requires UserReady(reg)
    ensures var v, m := UserValue(name, age), UserSchema.fields;
      forall k :: k in v.fields && k in m ==>
        && Dispatch(reg, v.fields[k], m[k], InvalidFieldType(k)).Ok?
        && Dispatch(reg, v.fields[k], m[k], InvalidFieldType(k)).value.tree
           == map["username" := Checks(map["string" := true]),
                  "age" := Checks(map["string" := false]),
                  "address" := AddressTree][k]
  {
    UserKeys(name, age);
    UserFields(reg, name, age);
  }

  lemma {:induction false} UserLog(reg: Validator, name: string, age: int, ref: Ref)
    requires UserReady(reg) && ResolveSchema(reg, ref) == Ok(UserSchema)
    requires ValidateObject(reg, UserValue(name, age), ref).Ok?
    ensures multiset(ValidateObject(reg, UserValue(name, age), ref).value.log)
            == multiset{Invocation("string", Str(name), None), Invocation("string", Num(age), None)}
  {
    var v := UserValue(name, age);
    UserKeys(name, age);
    assert FieldView(UserSchema) == UserSchema.fields;
    UserFieldLogs(reg, name, age);
    ObjectLog(reg, v, ref, ["username", "age", "address"]);
  }

  /** The calls each field of the user object makes. */
  lemma {:induction false} UserOwnLogs(reg: Validator, name: string, age: int)
    requires UserReady(reg)
    ensures var v, m := UserValue(name, age), UserSchema.fields;
      && OwnLog(reg, v, "username", m) == multiset{Invocation("string", Str(name), None)}
      && OwnLog(reg, v, "age", m) == multiset{Invocation("string", Num(age), None)}
      && OwnLog(reg, v, "address", m) == multiset{}
  {
    UserFields(reg, name, age);
  }

  /** The calls of the user object's fields, counted with multiplicity. */
  lemma {:induction false} UserFieldLogs(reg: Validator, name: string, age: int)
    requires UserReady(reg)
    ensures FieldLogs(reg, UserValue(name, age), ["username", "age", "address"], UserSchema.fields)
            == multiset{Invocation("string", Str(name), None), Invocation("string", Num(age), None)}
  {
    var v, m := UserValue(name, age), UserSchema.fields;
    UserOwnLogs(reg, name, age);
    ThreeFieldLogs(reg, v, "username", "age", "address", m);
  }

  /** The calls of three listed keys are those of each key on its own. */
  lemma {:induction false} ThreeFieldLogs(reg: Validator, v: Value, a: string, b: string, c: string, m: map<string, Node>)
    requires v.Obj? && a in v.fields && b in v.fields && c in v.fields
    ensures FieldLogs(reg, v, [a, b, c], m) == OwnLog(reg, v, a, m) + OwnLog(reg, v, b, m) + OwnLog(reg, v, c, m)
  {
    var keys := [a, b, c];
    assert keys[1..] == [b, c] && keys[1..][1..] == [c] && keys[1..][1..][1..] == [];
    assert FieldLogs(reg, v, [c], m) == OwnLog(reg, v, c, m) + FieldLogs(reg, v, [], m);
    assert FieldLogs(reg, v, [b, c], m) == OwnLog(reg, v, b, m) + FieldLogs(reg, v, [c], m);
  }

  /** A nested object by schema identifier or inline schema, with a
      registered reference inside (test/ObjectValidatorTest.js:147-222): the
      string constraint is called twice, once per string field, and the
      empty nested object maps every declared key to `false`. */
  lemma {:induction false} NestedUser(name: string, age: int, ref: Ref)
    requires ref == Id("user") || ref == Inline(UserSchema)
    ensures var r := ValidateObject(Registered(), UserValue(name, age), ref);
      && r.Ok?
      && r.value.tree == Fields(map["username" := Checks(map["string" := true]),
                                    "age" := Checks(map["string" := false]),
                                    "address" := AddressTree])
      && multiset(r.value.log) == multiset{Invocation("string", Str(name), None), Invocation("string", Num(age), None)}
  {
    var reg := Registered();
    assert ResolveSchema(reg, ref) == Ok(UserSchema);
    UserTree(reg, name, age, ref);
    UserLog(reg, name, age, ref);
  }

  /** A field node without a valid `type` aborts `validateObject` with an
      error naming the key, even when other keys are fine; both an empty
      node and one whose `type` is not a string are such nodes
      (test/ObjectValidatorTest.js:111-145). */
  lemma {:induction false} InvalidTypeAborts(reg: Validator, ref: Ref, name: Value, age: Value)
    requires ResolveSchema(reg, ref) == Ok(FieldMap(UserSchema.fields["age" := InvalidNode]))
    ensures ValidateObject(reg, Obj(map["name" := name, "age" := age]), ref) == Err(InvalidFieldType("age"))
  {
    var v := Obj(map["name" := name, "age" := age]);
    var m := UserSchema.fields["age" := InvalidNode];
    assert FieldView(FieldMap(m)) == m;
    assert forall k :: k in v.fields && k in m ==> k == "age";
    ObjectFailure(reg, v, ref);
  }

  /** A typed node without `ref`, given to `validateObject` as the schema:
      its only property is `type`, so an object key `ref` is unknown and
      maps to `false`, as does the unmatched `type`. */
  lemma {:induction false} RefLessNodeAsSchema(reg: Validator, x: Value)
    ensures ValidateObject(reg, Obj(map["ref" := x]), Inline(Element(ObjectNode(Missing)))).Ok?
    ensures ValidateObject(reg, Obj(map["ref" := x]), Inline(Element(ObjectNode(Missing)))).value.tree
            == Fields(map["ref" := False, "type" := False])
  {
    var v, ref := Obj(map["ref" := x]), Inline(Element(ObjectNode(Missing)));
    assert FieldView(Element(ObjectNode(Missing))) == map["type" := NoType];
    ObjectVerdicts(reg, v, ref, map["ref" := False, "type" := False]);
  }

  /** The schema of the array-of-objects test: one string-checked key. */
  const KeySchema: Schema := FieldMap(map["someKey" := StringNode])

  /** An object holding one scalar under `someKey`, against `KeySchema`. */
  lemma {:induction false} KeyedObject(reg: Validator, x: Value)
    requires StringReady(reg) && !x.IsObject()
    ensures Dispatch(reg, Obj(map["someKey" := x]), ObjectNode(Inline(KeySchema)), InvalidElementType).Ok?
    ensures Dispatch(reg, Obj(map["someKey" := x]), ObjectNode(Inline(KeySchema)), InvalidElementType).value.tree
            == Fields(map["someKey" := Checks(map["string" := x.Str?])])
  {
    var v := Obj(map["someKey" := x]);
    StringOnScalar(reg, x, InvalidFieldType("someKey"));
    assert FieldView(KeySchema) == KeySchema.fields;
    ObjectVerdicts(reg, v, Inline(KeySchema), map["someKey" := Checks(map["string" := x.Str?])]);
  }

  /** An array of objects against a registered object element schema: one
      field map per element (test/ObjectValidatorTest.js:395-435). */
  lemma {:induction false} ObjectArray(reg: Validator, ref: Ref, a: Value, b: Value)
    requires StringReady(reg) && ResolveSchema(reg, ref) == Ok(Element(ObjectNode(Inline(KeySchema))))
    requires !a.IsObject() && !b.IsObject()
    ensures ValidateArray(reg, Arr([Obj(map["someKey" := a]), Obj(map["someKey" := b])]), ref)
            .Ok?
    ensures ValidateArray(reg, Arr([Obj(map["someKey" := a]), Obj(map["someKey" := b])]), ref).value.tree
            == Elems([Fields(map["someKey" := Checks(map["string" := a.Str?])]),
                      Fields(map["someKey" := Checks(map["string" := b.Str?])])])
  {
    var v := Arr([Obj(map["someKey" := a]), Obj(map["someKey" := b])]);
    KeyedObject(reg, a);
    KeyedObject(reg, b);
    assert v.elems[0] == Obj(map["someKey" := a]) && v.elems[1] == Obj(map["someKey" := b]);
    ArrayVerdicts(reg, v, ref, [Fields(map["someKey" := Checks(map["string" := a.Str?])]),
                                Fields(map["someKey" := Checks(map["string" := b.Str?])])]);
  }

  /** The `string` verdict of each element of a list of scalars. */
  function StringVerdicts(xs: seq<Value>): (ts: seq<Tree>)
    ensures |ts| == |xs|
  {
    seq(|xs|, i requires 0 <= i < |xs| => Checks(map["string" := xs[i].Str?]))
  }

  /** Any list of scalars against the `["string"]` element node: each
      element's verdict says whether it is a string. */
  lemma {:induction false} StringRow(reg: Validator, ref: Ref, xs: seq<Value>)
    requires StringReady(reg) && ResolveSchema(reg, ref) == Ok(Element(StringNode))
    requires forall i :: 0 <= i < |xs| ==> !xs[i].IsObject()
    ensures ValidateArray(reg, Arr(xs), ref).Ok?
    ensures ValidateArray(reg, Arr(xs), ref).value.tree == Elems(StringVerdicts(xs))
  {
    forall i | 0 <= i < |xs|
      ensures Dispatch(reg, xs[i], StringNode, InvalidElementType).Ok?
      ensures Dispatch(reg, xs[i], StringNode, InvalidElementType).value.tree == StringVerdicts(xs)[i]
    {
      StringOnScalar(reg, xs[i], InvalidElementType);
    }
    ArrayVerdicts(reg, Arr(xs), ref, StringVerdicts(xs));
  }

  /** The schema of the object-containing-an-array test. */
  const ArraySchema: Schema := FieldMap(map["someArray" := ArrayNode(Inline(Element(StringNode)))])

  /** An object whose one key holds an array of scalars, against an inline
      array node: the key maps to the array's element-wise verdicts
      (test/ObjectValidatorTest.js:264-304). */
  lemma {:induction false} ObjectWithArray(reg: Validator, xs: seq<Value>)
    requires StringReady(reg) && forall i :: 0 <= i < |xs| ==> !xs[i].IsObject()
    ensures ValidateObject(reg, Obj(map["someArray" := Arr(xs)]), Inline(ArraySchema)).Ok?
    ensures ValidateObject(reg, Obj(map["someArray" := Arr(xs)]), Inline(ArraySchema)).value.tree
            == Fields(map["someArray" := Elems(StringVerdicts(xs))])
  {
    var v := Obj(map["someArray" := Arr(xs)]);
    StringRow(reg, Inline(Element(StringNode)), xs);
    assert FieldView(ArraySchema) == ArraySchema.fields;
    ObjectVerdicts(reg, v, Inline(ArraySchema), map["someArray" := Elems(StringVerdicts(xs))]);
  }

  /** The test's instance: `[1, 2, "astring", 4]`. */
  lemma {:induction false} ObjectWithArrayCase()
    ensures var r := ValidateObject(Constrained(), Obj(map["someArray" := Arr([Num(1), Num(2), Str("astring"), Num(4)])]), Inline(ArraySchema));
      && r.Ok?
      && r.value.tree == Fields(map["someArray" := Elems([Checks(map["string" := false]), Checks(map["string" := false]),
                                                           Checks(map["string" := true]), Checks(map["string" := false])])])
  {
    var xs := [Num(1), Num(2), Str("astring"), Num(4)];
    ObjectWithArray(Constrained(), xs);
    assert StringVerdicts(xs) == [Checks(map["string" := false]), Checks(map["string" := false]),
                                  Checks(map["string" := true]), Checks(map["string" := false])];
  }

  /** The element schema of the two-dimensional test: arrays of `dummy` scalars. */
  const GridElement: Node := ArrayNode(Inline(Element(DummyNode)))

  /** A list of rows of scalars against an element node that is itself an
      array of `dummy` scalars: one row of verdicts per row
      (test/ObjectValidatorTest.js:437-461). */
  lemma {:induction false} DummyGrid(reg: Validator, ref: Ref, rows: seq<Value>)
    requires DummyReady(reg) && ResolveSchema(reg, ref) == Ok(Element(GridElement))
    requires forall r :: r in rows ==> r.Arr? && forall i :: 0 <= i < |r.elems| ==> !r.elems[i].IsObject()
    ensures ValidateArray(reg, Arr(rows), ref).Ok?
    ensures ValidateArray(reg, Arr(rows), ref).value.tree
            == Elems(seq(|rows|, j requires 0 <= j < |rows| => Elems(Row(|rows[j].elems|))))
  {
    var want := seq(|rows|, j requires 0 <= j < |rows| => Elems(Row(|rows[j].elems|)));
    forall j | 0 <= j < |rows|
      ensures Dispatch(reg, rows[j], GridElement, InvalidElementType).Ok?
      ensures Dispatch(reg, rows[j], GridElement, InvalidElementType).value.tree == want[j]
    {
      assert rows[j] in rows;
      DummyRow(reg, Inline(Element(DummyNode)), rows[j].elems);
    }
    ArrayVerdicts(reg, Arr(rows), ref, want);
  }
}
