/** Registries only grow: no entry is ever removed, and `addSchema` never
    replaces one. A validation that succeeded keeps its report after further
    registrations that leave the existing entries in place. */
module Stability {
  import opened Json
  import opened Schemas
  import opened Registry
  import opened Validation

  /** `reg'` holds every entry of `reg`, unchanged. */
  ghost predicate Extends(reg: Validator, reg': Validator) {
    && (forall id :: id in reg.schemas ==> id in reg'.schemas && reg'.schemas[id] == reg.schemas[id])
    && (forall id :: id in reg.constraints ==> id in reg'.constraints && reg'.constraints[id] == reg.constraints[id])
  }

  /** A successful `addSchema` keeps every earlier entry. */
  lemma AddSchemaExtends(reg: Validator, id: string, s: Schema)
    requires AddSchema(reg, id, s).Ok?
    ensures Extends(reg, AddSchema(reg, id, s).value)
  {
  }

  /** `addConstraint` under a fresh identifier keeps every earlier entry. */
  lemma AddConstraintExtends(reg: Validator, id: string, c: Constraint)
    requires id !in reg.constraints
    ensures Extends(reg, AddConstraint(reg, id, c))
  {
  }

  lemma {:induction false} RunStable(reg: Validator, reg': Validator, v: Value, cs: seq<Call>)
    requires Extends(reg, reg') && RunConstraints(reg, v, cs).Ok?
    ensures RunConstraints(reg', v, cs) == RunConstraints(reg, v, cs)
    decreases |cs|
  {
    if cs != [] {
      RunStable(reg, reg', v, cs[..|cs| - 1]);
    }
  }

  lemma {:induction false} ScalarStable(reg: Validator, reg': Validator, v: Value, cs: Option<seq<Call>>)
    requires Extends(reg, reg') && ValidateScalar(reg, v, cs).Ok?
    ensures ValidateScalar(reg', v, cs) == ValidateScalar(reg, v, cs)
  {
    if !v.IsObject() && cs.Some? && cs.value != [] {
      RunStable(reg, reg', v, cs.value);
    }
  }

  lemma {:induction false} DispatchStable(reg: Validator, reg': Validator, v: Value, node: Node, bad: Error)
    requires Extends(reg, reg') && Dispatch(reg, v, node, bad).Ok?
    ensures Dispatch(reg', v, node, bad) == Dispatch(reg, v, node, bad)
    decreases v, 2
  {
    match node
    case ObjectNode(ref) => ObjectStable(reg, reg', v, ref);
    case ArrayNode(ref) => ArrayStable(reg, reg', v, ref);
    case ScalarNode(cs) => ScalarStable(reg, reg', v, cs);
  }

  /** A `validateObject` call that succeeded gives the same report against
      any registry that extends the one it ran against. */
  lemma {:induction false} ObjectStable(reg: Validator, reg': Validator, v: Value, ref: Ref)
    requires Extends(reg, reg') && ValidateObject(reg, v, ref).Ok?
    ensures ValidateObject(reg', v, ref) == ValidateObject(reg, v, ref)
    decreases v, 1
  {
    if v.Obj? {
      assert ResolveSchema(reg', ref) == ResolveSchema(reg, ref);
      var s := ResolveSchema(reg, ref).value;
      FieldsStable(reg, reg', v, KeyOrder(v.fields.Keys), FieldView(s));
    }
  }

  lemma {:induction false} FieldsStable(reg: Validator, reg': Validator, v: Value, keys: seq<string>, rest: map<string, Node>)
    requires v.Obj? && forall k :: k in keys ==> k in v.fields
    requires Extends(reg, reg') && ValidateFields(reg, v, keys, rest).Ok?
    ensures ValidateFields(reg', v, keys, rest) == ValidateFields(reg, v, keys, rest)
    decreases v, 0, |keys|
  {
    if keys != [] {
      var k := keys[0];
      if k in rest {
        DispatchStable(reg, reg', v.fields[k], rest[k], InvalidFieldType(k));
        FieldsStable(reg, reg', v, keys[1..], rest - {k});
      } else {
        FieldsStable(reg, reg', v, keys[1..], rest);
      }
    }
  }

  /** A `validateArray` call that succeeded gives the same report against
      any registry that extends the one it ran against. */
  lemma {:induction false} ArrayStable(reg: Validator, reg': Validator, v: Value, ref: Ref)
    requires Extends(reg, reg') && ValidateArray(reg, v, ref).Ok?
    ensures ValidateArray(reg', v, ref) == ValidateArray(reg, v, ref)
    decreases v, 1
  {
    if v.Arr? {
      assert ResolveSchema(reg', ref) == ResolveSchema(reg, ref);
      ElemsStable(reg, reg', v, ElementView(ResolveSchema(reg, ref).value), 0);
    }
  }

  lemma {:induction false} ElemsStable(reg: Validator, reg': Validator, v: Value, node: Node, from: nat)
    requires v.Arr? && from <= |v.elems|
    requires Extends(reg, reg') && ValidateElems(reg, v, node, from).Ok?
    ensures ValidateElems(reg', v, node, from) == ValidateElems(reg, v, node, from)
    decreases v, 0, |v.elems| - from
  {
    if from < |v.elems| {
      DispatchStable(reg, reg', v.elems[from], node, InvalidElementType);
      ElemsStable(reg, reg', v, node, from + 1);
    }
  }

  /** Registering a new schema after a successful `validateObject` call
      leaves that call's report unchanged. */
  lemma {:induction false} AddSchemaKeepsObjectReport(reg: Validator, id: string, s: Schema, v: Value, ref: Ref)
    requires AddSchema(reg, id, s).Ok? && ValidateObject(reg, v, ref).Ok?
    ensures ValidateObject(AddSchema(reg, id, s).value, v, ref) == ValidateObject(reg, v, ref)
  {
    AddSchemaExtends(reg, id, s);
    ObjectStable(reg, AddSchema(reg, id, s).value, v, ref);
  }
}
