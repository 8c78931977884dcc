/** The validator's two registries (lib/ObjectValidator.js:7-64): named
    constraints and named schemas, and the failures its operations raise. */
module Registry {
  import opened Json
  import opened Schemas

  /** A constraint predicate `(value, options) -> boolean`, supplied by the caller. */
  type Constraint = (Value, Option<Value>) -> bool

  /** The configuration errors the validator throws. Each names the
      offending identifier or key; the message text is not modelled. */
  datatype Error =
    | DuplicateSchema(id: string)
    | UnknownSchema(id: string)
    | UnknownConstraint(id: string)
    | InvalidFieldType(key: string)
    | InvalidElementType

  /** A value, or the error that aborted the whole call. */
  datatype Result<+T> = Ok(value: T) | Err(error: Error) {

    predicate IsFailure() {
      Err?
    }

    function PropagateFailure<U>(): Result<U>
      requires Err?
    {
      Err(error)
    }

    function Extract(): T
      requires Ok?
    {
      value
    }
  }

  /** An `ObjectValidator` instance: its two registries. */
  datatype Validator = Validator(constraints: map<string, Constraint>, schemas: map<string, Schema>)

  /** A fresh validator has empty registries: every lookup fails, naming
      the identifier asked for. */
  function Empty(): (v: Validator)
    ensures v.constraints == map[] && v.schemas == map[]
    ensures forall id :: GetSchema(v, id) == Err(UnknownSchema(id))
    ensures forall id :: GetConstraint(v, id).Err? && GetConstraint(v, id).error == UnknownConstraint(id)
  {
    Validator(map[], map[])
  }

  /** `addConstraint`: stores the constraint, silently replacing any earlier
      one under the same identifier; schemas are untouched. */
  function AddConstraint(reg: Validator, id: string, c: Constraint): (r: Validator)
    ensures r.constraints.Keys == reg.constraints.Keys + {id}
    ensures r.constraints[id] == c
    ensures forall k :: k in reg.constraints && k != id ==> r.constraints[k] == reg.constraints[k]
    ensures r.schemas == reg.schemas
  {
    reg.(constraints := reg.constraints[id := c])
  }

  /** `addSchema`: an identifier already in use fails and registers nothing;
      otherwise the schema is stored and every other entry is kept. */
  function AddSchema(reg: Validator, id: string, s: Schema): (r: Result<Validator>)
    ensures id in reg.schemas <==> r.Err?
    ensures r.Err? ==> r.error == DuplicateSchema(id)
    ensures r.Ok? ==> r.value.schemas.Keys == reg.schemas.Keys + {id}
    ensures r.Ok? ==> r.value.schemas[id] == s
    ensures r.Ok? ==> forall k :: k in reg.schemas ==> r.value.schemas[k] == reg.schemas[k]
    ensures r.Ok? ==> r.value.constraints == reg.constraints
  {
    if id in reg.schemas then Err(DuplicateSchema(id))
    else Ok(reg.(schemas := reg.schemas[id := s]))
  }

  /** `getSchemaOrThrowError`: the stored schema, or an error naming the identifier. */
  function GetSchema(reg: Validator, id: string): (r: Result<Schema>)
    ensures r.Ok? <==> id in reg.schemas
    ensures r.Ok? ==> r.value == reg.schemas[id]
    ensures r.Err? ==> r.error == UnknownSchema(id)
  {
    if id !in reg.schemas then Err(UnknownSchema(id)) else Ok(reg.schemas[id])
  }

  /** `getConstraintOrThrowError`: the stored constraint, or an error naming the identifier. */
  function GetConstraint(reg: Validator, id: string): (r: Result<Constraint>)
    ensures r.Ok? <==> id in reg.constraints
    ensures r.Ok? ==> r.value == reg.constraints[id]
    ensures r.Err? ==> r.error == UnknownConstraint(id)
  {
    if id !in reg.constraints then Err(UnknownConstraint(id)) else Ok(reg.constraints[id])
  }

  /** The schema a `schema` argument stands for: an identifier is looked up
      (lib/ObjectValidator.js:77-79, 131-133), an inline schema is used as is.
      A missing `ref` is `undefined`: `validateObject` finds no key in it and
      `_.size` of it is 0, exactly as for an empty field map, and
      `validateArray` throws on reading its `type`, exactly as for a field map. */
  function ResolveSchema(reg: Validator, ref: Ref): (r: Result<Schema>)
    ensures r.Ok? <==> !ref.Id? || ref.id in reg.schemas
    ensures ref.Id? && r.Ok? ==> r.value == reg.schemas[ref.id]
    ensures r.Err? ==> ref.Id? && r.error == UnknownSchema(ref.id)
    ensures ref.Inline? ==> r == Ok(ref.schema)
    ensures ref.Missing? ==> r == Ok(FieldMap(map[]))
  {
    match ref
    case Id(id) => GetSchema(reg, id)
    case Inline(s) => Ok(s)
    case Missing => Ok(FieldMap(map[]))
  }

  /** Adding a schema and then looking it up returns it; every other
      identifier resolves as before. */
  lemma AddThenGetSchema(reg: Validator, id: string, s: Schema, other: string)
    requires id !in reg.schemas
    requires other != id
    ensures AddSchema(reg, id, s).Ok?
    ensures GetSchema(AddSchema(reg, id, s).value, id) == Ok(s)
    ensures GetSchema(AddSchema(reg, id, s).value, other) == GetSchema(reg, other)
  {
  }

  /** A failed re-registration leaves the first schema retrievable. */
  lemma DuplicateKeepsOriginal(reg: Validator, id: string, s: Schema, s': Schema)
    requires AddSchema(reg, id, s).Ok?
    ensures AddSchema(AddSchema(reg, id, s).value, id, s') == Err(DuplicateSchema(id))
    ensures GetSchema(AddSchema(reg, id, s).value, id) == Ok(s)
  {
  }

  /** Registering two constraints under one identifier: the last one wins. */
  lemma LastConstraintWins(reg: Validator, id: string, c1: Constraint, c2: Constraint)
    ensures GetConstraint(AddConstraint(AddConstraint(reg, id, c1), id, c2), id) == Ok(c2)
  {
  }
}
