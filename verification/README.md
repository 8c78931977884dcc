# ObjectValidator in Dafny

This project models `ObjectValidator` (lib/ObjectValidator.js), a small JavaScript schema validator. A validator holds two registries:

- **constraints**: named predicates `(value, options) -> boolean`;
- **schemas**: named declarative schemas.

It has three mutually recursive entry points: `validateObject`, `validateArray` and `validateScalar`. Each walks an untyped value against a schema and builds a result tree that mirrors the value:

- a field map for an object;
- a list for an array;
- a map from constraint identifier to boolean for a scalar with constraints;
- a literal `false` wherever the value has the wrong shape.

A configuration mistake throws and aborts the whole call. The mistakes are:

- a duplicate schema identifier;
- an unknown schema or constraint identifier;
- a schema node whose `type` is not `object`, `array` or `scalar`.

The model also covers the `string` constraint the test suite registers (test/constraint/string.js).

## Modules

| module | file | contents |
|---|---|---|
| `Json` | json.dfy | The values the validator walks: `Null`, `Bool`, `Num`, `Str`, `Arr`, `Obj`. `IsObject` is lodash's `_.isObject`, so `null` counts as a scalar. |
| `Schemas` | schemas.dfy | Schemas. A field node is classified once by its `type`, as `ObjectNode(ref)`, `ArrayNode(ref)`, `ScalarNode(constraints)` or `InvalidNode`. A `ref` is an identifier, an inline schema, or `Missing` when the node has none. A schema is either a field map or a single typed node: a schema object whose `type` is one of the three tags is a typed node (`Element`), and every other schema object is a field map (`FieldMap`). |
| `Registry` | registry.dfy | The two registries and `addConstraint`, `addSchema`, `getSchemaOrThrowError`, `getConstraintOrThrowError`. A throw becomes an `Err` carrying the offending identifier or key. |
| `Validation` | validation.dfy | `validateScalar`, `validateObject` and `validateArray`, plus the two loops inside them. `validateScalar` is an ordinary function. The object and array validations are `ghost` functions and cannot be compiled, because `KeyOrder` picks the key order with `:|`. |
| `ValidationProps` | validation_props.dfy | The general properties: key reconciliation, element-wise mapping, which error wins, and the order and multiplicity of constraint calls. |
| `Stability` | stability.dfy | Registries only grow, so a successful validation keeps its report when later registrations leave existing entries in place. |
| `StringConstraint` | string_constraint.dfy | The `string` predicate and its minimum-length rule. |
| `Examples` | examples.dfy | The test suite's scenarios, derived from the general properties. |

Every successful report carries a log of the constraint calls it made (`Invocation`s). The order and count of the calls a successful validation makes can then be stated directly, where the tests use sinon spies. An aborted call carries only its error; for a constraint list, `CallsBeforeAbort` states which calls came before the throw.

The validation functions are pure (the object and array ones ghost). They return a report and never a registry, so a validation can neither change a registered schema nor behave differently when repeated. The source gets the first of these by deep-cloning the schema before it deletes keys from the copy.

For an ordinary object, the source iterates over its keys in own-key order: integer-like keys first, in ascending order, then the other keys in insertion order. For example, `{"b": …, "1": …}` visits `"1"` first. The model abstracts that order with `KeyOrder`, which is some fixed enumeration of the key set. Every property about objects is stated so that it holds for any such order. An object whose `length` property is a non-negative integer is iterated differently by lodash; see "## Left out".

A node without a `ref` has the `Ref` value `Missing`. The source passes `undefined` on as the schema:

- `validateObject` maps every key of the object to `false`, as it does for an empty field map.
- `validateArray` throws on reading `undefined.type`.
- When a typed node is itself read as a field map, a node without `ref` has no `ref` field.

## Model

| member | source | states |
|---|---|---|
| Registry.AddConstraint | lib/ObjectValidator.js:17-23 | The identifier is now bound to the new constraint, replacing any earlier one. Every other constraint is kept and the schemas are untouched. |
| Registry.AddSchema | lib/ObjectValidator.js:30-36 | Fails with `DuplicateSchema(id)` exactly when the identifier is already registered. Otherwise it adds the schema under that identifier, keeps every earlier schema and leaves the constraints alone. |
| Registry.GetSchema | lib/ObjectValidator.js:44-50 | Succeeds exactly when the identifier is registered, and then returns the stored schema. Otherwise it fails with `UnknownSchema` naming the identifier. |
| Registry.GetConstraint | lib/ObjectValidator.js:58-64 | Succeeds exactly when the identifier is registered, and then returns the stored constraint. Otherwise it fails with `UnknownConstraint` naming the identifier. |
| Registry.ResolveSchema | lib/ObjectValidator.js:77-82 | Succeeds exactly when the `ref` is not an identifier, or is a registered one. A registered identifier yields the stored schema, and an unknown one fails with `UnknownSchema` naming it. An inline schema is used as it is, and a missing `ref` (`undefined`) reads as an empty field map. |
| Schemas.RefAsNode | lib/ObjectValidator.js:88-89 | A `ref` read as a field node has a valid `type` only when it is an inline typed node, and then it is that node. An identifier (a string) and a field map never do. |
| Schemas.FieldView | lib/ObjectValidator.js:88-89 | A field map is read as itself. A typed node read as a field map has a `type` field whose own `type` is not a tag. It has a `ref` field exactly when it is an object or array node with a `ref`, and a `constraints` field exactly when it is a scalar node with constraints. An invalid node has no fields. |
| Schemas.ElementView | lib/ObjectValidator.js:140-152 | `validateArray` reads a typed node as itself. A schema object whose `type` is a tag is encoded as a typed node. So a field map's `type` is never a tag, and a field map reads as an invalid node. |
| Registry.Empty | lib/ObjectValidator.js:7-10 | A new validator has no constraints and no schemas, so every schema or constraint lookup on it fails, naming the identifier asked for. |
| Registry.AddThenGetSchema | lib/ObjectValidator.js:30-50 | After adding a schema under a fresh identifier, looking that identifier up returns the schema. Lookups of every other identifier are unchanged. |
| Registry.DuplicateKeepsOriginal | lib/ObjectValidator.js:31-33 | Adding a second schema under an identifier already in use fails with `DuplicateSchema`, and the first schema is still what a lookup returns. |
| Registry.LastConstraintWins | lib/ObjectValidator.js:17-23 | When the same identifier is registered twice, a lookup returns the second constraint. |
| Validation.RunConstraints | lib/ObjectValidator.js:180-190 | Succeeds exactly when every listed identifier is registered. It then calls each listed constraint once, in list order, on the value and that entry's options. Each identifier maps to the result of its last entry in the list. Otherwise it fails naming the first unregistered identifier in the list. |
| Validation.ValidateScalar | lib/ObjectValidator.js:170-191 | An object or array gives `false` and calls nothing. A scalar with an absent or empty constraint list gives `true` and calls nothing. Otherwise the result is the outcome of `RunConstraints`: a results map with its calls, or the first unregistered identifier. |
| Validation.KeyOrder | lib/ObjectValidator.js:86 | The keys visited are exactly the object's keys. |
| Validation.KeyOrderDistinct | lib/ObjectValidator.js:86 | No key is visited twice. |
| Validation.ValidateObject | lib/ObjectValidator.js:72-118 | A value that is not a plain object gives `false`, and the schema is not looked up. On an object, an unresolvable schema fails with the lookup error. On success, the result is a field map whose keys are the object's keys together with the schema's keys. |
| Validation.ValidateFields | lib/ObjectValidator.js:86-115 | On success, the loop's result has one entry for each key it visited and one for each key still in the schema copy. |
| Validation.ValidateArray | lib/ObjectValidator.js:126-162 | A non-array gives `false`. Otherwise an unresolvable schema fails with the lookup error, and an element node without a valid `type` fails before any element is visited, even for an empty array. On success, the result has exactly as many entries as the array. |
| Validation.ValidateElems | lib/ObjectValidator.js:157-159 | On success, the loop produces one entry per remaining element. |
| ValidationProps.FieldsReconcile | lib/ObjectValidator.js:86-115 | For a loop over distinct keys, a key both visited and still in the schema copy holds its own node's verdict. Every other key of the result holds `false`. |
| ValidationProps.FieldsFailure | lib/ObjectValidator.js:86-108 | The loop fails exactly when some visited key that the schema copy holds fails. It then fails with the error of the first such key in visiting order. |
| ValidationProps.ObjectReconcile | lib/ObjectValidator.js:86-115 | The result's keys are exactly the object's keys together with the schema's keys. A key only in the object maps to `false`, and so does a key only in the schema. A key in both maps to the verdict of validating its value against its node, dispatched on the node's `type`. |
| ValidationProps.ObjectFailure | lib/ObjectValidator.js:88-101 | On an object with a resolvable schema, `validateObject` fails exactly when some key in both the object and the schema fails to validate. The error is then that key's own error. |
| ValidationProps.ObjectSucceeds | lib/ObjectValidator.js:86-117 | `validateObject` succeeds when every key shared by the object and the schema validates. |
| ValidationProps.ObjectVerdicts | lib/ObjectValidator.js:86-117 | The converse of reconciliation: any tree with the reconciled keys, `false` on unshared keys and each shared key's verdict is the reported tree. |
| ValidationProps.ReconcileAt | lib/ObjectValidator.js:86-115 | In the reported tree, a key is either shared, and holds its verdict, or belongs to one side only, and holds `false`. |
| ValidationProps.EmptyObject | lib/ObjectValidator.js:110-115 | An empty object maps every key of the schema to `false` and calls no constraint. |
| ValidationProps.InvalidFieldTypeFails | lib/ObjectValidator.js:99-100 | A key in both the object and the schema whose node has no valid `type` makes `validateObject` fail. When every other key the two share validates, the error is `InvalidFieldType` naming that key. |
| ValidationProps.MissingRef | lib/ObjectValidator.js:77-82 | With no `ref` (`undefined`), `validateObject` maps every key of a plain object to `false`, and `validateArray` fails with `InvalidElementType`. |
| ValidationProps.CallsBeforeAbort | lib/ObjectValidator.js:184-188 | When a constraint list aborts, it aborts at the first unregistered constraint, with an error naming it. The calls before it succeed, in list order. |
| ValidationProps.ElemsElementwise | lib/ObjectValidator.js:157-159 | Entry `i` of the loop's result is the validation of element `i` against the same element node. |
| ValidationProps.ElemsFailure | lib/ObjectValidator.js:157-159 | The loop fails exactly when some element fails. It then fails with the error of the first failing element, and all earlier elements succeed. |
| ValidationProps.ArrayElementwise | lib/ObjectValidator.js:126-162 | A successful `validateArray` has a valid element node. Its result has the array's length, and entry `i` is the validation of element `i` against that node. |
| ValidationProps.ArrayVerdicts | lib/ObjectValidator.js:126-162 | The converse: if every element validates against the element node to the matching entry of a list of equal length, that list is the reported result. |
| ValidationProps.ArrayFailure | lib/ObjectValidator.js:140-159 | With a valid element node, `validateArray` fails exactly when some element fails. It then fails with the first failing element's error. |
| ValidationProps.FieldsLog | lib/ObjectValidator.js:86-108 | Counted with multiplicity, the loop's calls are the calls made by validating each visited key that the schema copy holds. |
| ValidationProps.ObjectLog | lib/ObjectValidator.js:86-108 | Counted with multiplicity, the calls of `validateObject` are those of the shared keys' validations, whichever order the keys are listed in. |
| ValidationProps.ElemsLog | lib/ObjectValidator.js:157-159 | The loop's calls are the elements' own calls, concatenated in element order. |
| ValidationProps.ArrayLog | lib/ObjectValidator.js:154-161 | The calls of `validateArray` are the elements' own calls, element by element, in array order. |
| Stability.AddSchemaExtends | lib/ObjectValidator.js:30-36 | A successful `addSchema` keeps every earlier constraint and schema. |
| Stability.AddConstraintExtends | lib/ObjectValidator.js:17-23 | Registering a constraint under a new identifier keeps every earlier entry. |
| Stability.ObjectStable | lib/ObjectValidator.js:72-118 | A successful `validateObject` gives the same report against any registry that keeps the original's entries. |
| Stability.ArrayStable | lib/ObjectValidator.js:126-162 | A successful `validateArray` gives the same report against any registry that keeps the original's entries. |
| Stability.AddSchemaKeepsObjectReport | lib/ObjectValidator.js:30-36 | Registering a new schema after a successful `validateObject` does not change that call's report. |
| StringConstraint.Accepts | test/constraint/string.js:1-13 | Only a string can be accepted. |
| StringConstraint.Utf16Length | test/constraint/string.js:8 | A string's `length` counts UTF-16 code units: at least one and at most two per character, and exactly one per character when every character lies in the Basic Multilingual Plane. |
| StringConstraint.Utf16LengthAppend | test/constraint/string.js:8 | The `length` of a concatenation is the sum of the parts' lengths. |
| StringConstraint.MinLength | test/constraint/string.js:2-8 | No options means no minimum. A non-zero minimum is the options object's numeric `min`, and a numeric `min` is always the minimum used. |
| StringConstraint.SurrogatePairsCountTwice | test/constraint/string.js:8-10 | A character above U+FFFF has `length` 2, so the one-character string U+1F600 passes `min: 1`. |
| StringConstraint.RejectsNonStrings | test/constraint/string.js:4-6 | Every non-string value is rejected, whatever the options. |
| StringConstraint.NoMinimumAcceptsAll | test/constraint/string.js:2-12 | With no options, or options without `min`, every string is accepted. |
| StringConstraint.StrictMinimum | test/constraint/string.js:8-10 | For any options object with a positive `min`, a string is accepted exactly when its UTF-16 `length` is greater than `min`. A string of exactly that length is rejected. |
| StringConstraint.ZeroMinimumIsNoMinimum | test/constraint/string.js:8 | `min: 0` is falsy and behaves exactly like no `min` at all, and like no options. |
| StringConstraint.MinimumIsMonotone | test/constraint/string.js:8-12 | A string accepted with some minimum is accepted with any smaller positive minimum, whatever else the options object holds. |
| Examples.ScalarCases | test/ObjectValidatorTest.js:497-515 | An object gives `false`. No constraints gives `true`. With `[["string", {}], ["dummy"]]` on `1`, the result is `{string: false, dummy: true}`, with exactly one call of each constraint, in order. |
| Examples.ConfigOnScalar | test/ObjectValidatorTest.js:480-515 | On any scalar, that configuration maps `string` to whether the scalar is a string and `dummy` to `true`, calling each constraint once, in order. |
| Examples.UnknownKeyIsFalse | lib/ObjectValidator.js:86-108 | An object key the schema lacks maps to `false`. A declared key with no constraints maps to `true`. No constraint is called. |
| Examples.SchemaWithoutConstraints | test/ObjectValidatorTest.js:306-326 | A registered schema whose key has an empty constraint list maps any scalar under that key to `true`. |
| Examples.RefLessNodeAsSchema | lib/ObjectValidator.js:86-115 | A typed node without `ref`, used directly as the schema of `validateObject`, has only its `type` property. An object key `ref` is then unknown and maps to `false`, and so does the unmatched `type`. |
| Examples.MissingKeyIsFalse | lib/ObjectValidator.js:110-115 | A declared key the object lacks maps to `false`. |
| Examples.NestedUser | test/ObjectValidatorTest.js:147-222 | A user object, validated against its schema by identifier or inline, reports: the string-checked name as `true`; the numeric age as `false`; the empty nested address as all `false`. The string constraint is called exactly twice. |
| Examples.UserTree | test/ObjectValidatorTest.js:147-222 | For any registry holding the `string` constraint and the `address` schema, and for any `ref` resolving to the user schema, the user object's report is: the string-checked name as `true`; the numeric age as `false`; the empty address as all `false`. |
| Examples.UserLog | test/ObjectValidatorTest.js:147-222 | Under the same conditions, the `string` constraint is called exactly twice: once on the name and once on the age. |
| Examples.InvalidTypeAborts | test/ObjectValidatorTest.js:111-145 | A field node without a valid `type` aborts `validateObject` with an error naming that key. |
| Examples.ScalarArray | test/ObjectValidatorTest.js:333-392 | An array of scalars against a scalar element schema, inline or by identifier, gives one constraint map per element. It calls the constraint once per element, in array order. |
| Examples.TripleLog | test/ObjectValidatorTest.js:333-392 | A three-element array against the `dummy` element node calls `dummy` once per element, in array order. |
| Examples.DummyRow | test/ObjectValidatorTest.js:333-392 | Any list of scalars against the `dummy` element node gives one `{dummy: true}` per element. |
| Examples.ObjectArray | test/ObjectValidatorTest.js:395-435 | An array of objects against an object element schema gives one reconciled field map per element. |
| Examples.StringRow | test/ObjectValidatorTest.js:264-304 | Any list of scalars against the `string` element node gives, per element, whether it is a string. |
| Examples.ObjectWithArray | test/ObjectValidatorTest.js:264-304 | An object holding an array under an inline array node maps that key to the array's element-wise verdicts. |
| Examples.ObjectWithArrayCase | test/ObjectValidatorTest.js:264-304 | For `[1, 2, "astring", 4]`, only the third verdict is `true`. |
| Examples.DummyGrid | test/ObjectValidatorTest.js:437-465 | A two-dimensional array against an array-of-arrays element schema gives one row of verdicts per row, with each row as long as its input row. |

## Left out

- The `console.log` warning when `addConstraint` replaces a constraint (lib/ObjectValidator.js:19). It is output only and does not change behaviour.
- `_.cloneDeep`, `_.bind`, `_.partialRight` and `_.each`. Dafny values are immutable, so copying is implicit and the validation functions take the registry as a parameter.
- The text of error messages. Each error is a datatype constructor that carries the identifier or key the message names.
- Validation.ValidateObject: does not model array-like objects. When an object's `length` property is a non-negative integer, lodash's `_.each` visits the indices `0 .. length-1` instead of the own keys. For example, `{"length": 0, "a": null}` has no key visited, so the source reports only the schema's keys. The model always visits the object's own keys. The second loop, over the schema copy, is unaffected, because every value in a schema is a node object and never a number.
- Validation.KeyOrder: stands for the own-key order of an ordinary object only. It does not cover the array-like iteration above.
- Validation.RunConstraints: an aborted validation carries only its error, not the calls made before the throw. For a constraint list, `CallsBeforeAbort` states those calls. For an aborted object or array validation, the calls made before the throw are not stated.
- Registry.AddSchema: reads lodash's `_.has` (lib/ObjectValidator.js:18, 31, 45, 59) as a plain own-key test, as lodash before 3.7 does. From 3.7 on, `_.has` reads an identifier containing `.` or `[…]` as a deep path when it is not an own key. Then `addSchema("user.address", s)` throws once `user` has an `address` property, and `getSchemaOrThrowError("user.address")` returns `undefined` instead of throwing. The same holds for `AddConstraint`, `GetSchema` and `GetConstraint`.
- Validation.ValidateObject: reads `_.has(schema, key)` (lib/ObjectValidator.js:88) as a plain own-key test, as lodash before 3.7 does. Under deep-path `_.has`, an object key `"age.type"` against a schema with an `age` node is taken as present, and the source throws on its `type`. Object or schema keys named `__proto__` are not modelled either: `result["__proto__"] = false` (line 106) creates no key, so the source's result lacks the key that `ObjectReconcile` promises.
- The own-key order of object keys. `KeyOrder` stands for lodash's iteration order without pinning it down, and result objects are maps. `FieldsFailure` and `ObjectFailure` name the first failing key in that abstract order, not in the source's concrete order.
- ValidationProps.ObjectLog: states the calls of `validateObject` as a multiset, not a sequence, because the key order is abstract. Call order is stated exactly for scalars (`RunConstraints`) and arrays (`ArrayLog`).
- Numbers are modelled as integers. A non-integer `min` for the `string` constraint is not modelled. Against an integer `length`, a fractional `min` acts like its floor (`min: 2.5` accepts a length of 3 or more), and `NaN` is falsy and acts like no minimum.
- Functions, `undefined` inside data, and other non-JSON JavaScript values are left out of `Value`.
- Malformed constraint lists are left out: a `constraints` property that is not an array, or an entry that is not an array. A present `constraints` property is a sequence of `[identifier, options]` entries.
- A schema node with extra properties besides `type`, `ref` and `constraints`. When `validateObject` reads a typed node as a field map (`FieldView`), only those three properties are seen. `Element(InvalidNode)` encodes no schema object, because an object whose `type` is not a tag is a field map; `FieldView` reads it as having no properties.
- Registry: a constraint is a total Dafny function returning a boolean. A constraint that throws or returns a non-boolean is left out.
- StringConstraint.Accepts: boxed `String` objects (`instanceof String`) are left out, since `Value` has no boxed strings.
- StringConstraint.Utf16Length: a Dafny string holds Unicode scalar values only. A JavaScript string with a lone surrogate cannot be represented, so its `length` is not modelled.
- StringConstraint.MinLength: only reads a numeric `min`. JavaScript truthiness of a non-numeric `min` (a string, `true`, an object) is left out.
- The `dummy` constraint and the `user.json` / `address.json` schema fixtures are not part of this model. The `Examples` module uses stand-ins that accept everything or carry the keys the tests' expected results show.
- The mocha, chai and sinon test framework. The sinon spies' call counts are stated through the call log in each report.
