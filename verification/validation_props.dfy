/** What the validation walks promise, stated key by key and element by
    element against the input and the schema. */
module ValidationProps {
  import opened Json
  import opened Schemas
  import opened Registry
  import opened Validation

  /** The `i`-th key of the loop is one the schema copy holds, and validating
      its value against the schema node fails. */
  ghost predicate FieldFails(reg: Validator, v: Value, keys: seq<string>, rest: map<string, Node>, i: int)
    requires v.Obj? && forall k :: k in keys ==> k in v.fields
  {
    && 0 <= i < |keys|
    && keys[i] in rest
    && Dispatch(reg, v.fields[keys[i]], rest[keys[i]], InvalidFieldType(keys[i])).Err?
  }

  /** Key reconciliation of the `validateObject` loop: a key of both the loop
      and the schema copy holds its node's verdict; every other key of the
      result holds `false`. */
  lemma FieldsReconcile(reg: Validator, v: Value, keys: seq<string>, rest: map<string, Node>)
    requires v.Obj? && (forall k :: k in keys ==> k in v.fields) && Distinct(keys)
    requires ValidateFields(reg, v, keys, rest).Ok?
    ensures var t := ValidateFields(reg, v, keys, rest).value.tree.fields;
      forall k :: k in keys && k in rest ==>
        && Dispatch(reg, v.fields[k], rest[k], InvalidFieldType(k)).Ok?
        && t[k] == Dispatch(reg, v.fields[k], rest[k], InvalidFieldType(k)).value.tree
    ensures var t := ValidateFields(reg, v, keys, rest).value.tree.fields;
      forall k :: k in t && !(k in keys && k in rest) ==> t[k] == False
  {
    FieldsVerdicts(reg, v, keys, rest);
    FieldsDefaults(reg, v, keys, rest);
  }

  /** A key of both the loop and the schema copy holds its node's verdict. */
  lemma {:induction false} FieldsVerdicts(reg: Validator, v: Value, keys: seq<string>, rest: map<string, Node>)
    requires v.Obj? && (forall k :: k in keys ==> k in v.fields) && Distinct(keys)
    requires ValidateFields(reg, v, keys, rest).Ok?
    ensures var t := ValidateFields(reg, v, keys, rest).value.tree.fields;
      forall k :: k in keys && k in rest ==>
        && Dispatch(reg, v.fields[k], rest[k], InvalidFieldType(k)).Ok?
        && t[k] == Dispatch(reg, v.fields[k], rest[k], InvalidFieldType(k)).value.tree
    decreases |keys|
  {
    if keys != [] {
      var k0, ks := keys[0], keys[1..];
      assert Distinct(ks);
      var t := ValidateFields(reg, v, keys, rest).value.tree.fields;
      var rest' := if k0 in rest then rest - {k0} else rest;
      FieldsVerdicts(reg, v, ks, rest');
      var tail := ValidateFields(reg, v, ks, rest').value.tree.fields;
      forall k | k in keys && k in rest
        ensures Dispatch(reg, v.fields[k], rest[k], InvalidFieldType(k)).Ok?
        ensures t[k] == Dispatch(reg, v.fields[k], rest[k], InvalidFieldType(k)).value.tree
      {
        if k != k0 {
          assert k in ks && k in rest' && rest'[k] == rest[k];
          assert t[k] == tail[k];
        }
      }
    }
  }

  /** Every key of the result other than those of both the loop and the
      schema copy holds `false`. */
  lemma {:induction false} FieldsDefaults(reg: Validator, v: Value, keys: seq<string>, rest: map<string, Node>)
    requires v.Obj? && (forall k :: k in keys ==> k in v.fields) && Distinct(keys)
    requires ValidateFields(reg, v, keys, rest).Ok?
    ensures var t := ValidateFields(reg, v, keys, rest).value.tree.fields;
      forall k :: k in t && !(k in keys && k in rest) ==> t[k] == False
    decreases |keys|
  {
    if keys != [] {
      var k0, ks := keys[0], keys[1..];
      assert Distinct(ks);
      assert k0 !in ks;
      var t := ValidateFields(reg, v, keys, rest).value.tree.fields;
      var rest' := if k0 in rest then rest - {k0} else rest;
      FieldsDefaults(reg, v, ks, rest');
      var tail := ValidateFields(reg, v, ks, rest').value.tree.fields;
      forall k | k in t && !(k in keys && k in rest)
        ensures t[k] == False
      {
        if k != k0 {
          assert k in tail && !(k in ks && k in rest');
          assert t[k] == tail[k];
        }
      }
    }
  }

  /** The `validateObject` loop fails exactly when some key it validates
      fails, and then with the error of the first such key in loop order. */
  lemma {:induction false} FieldsFailure(reg: Validator, v: Value, keys: seq<string>, rest: map<string, Node>)
    requires v.Obj? && (forall k :: k in keys ==> k in v.fields) && Distinct(keys)
    ensures ValidateFields(reg, v, keys, rest).Err? <==> exists i :: FieldFails(reg, v, keys, rest, i)
    ensures ValidateFields(reg, v, keys, rest).Err? ==>
      exists i :: && FieldFails(reg, v, keys, rest, i)
                  && (forall j :: 0 <= j < i ==> !FieldFails(reg, v, keys, rest, j))
                  && ValidateFields(reg, v, keys, rest).error
                     == Dispatch(reg, v.fields[keys[i]], rest[keys[i]], InvalidFieldType(keys[i])).error
    decreases |keys|
  {
    if keys != [] {
      var k0, ks := keys[0], keys[1..];
      assert Distinct(ks);
      var rest' := if k0 in rest then rest - {k0} else rest;
      FieldsFailure(reg, v, ks, rest');
      FieldFailsShift(reg, v, keys, rest);
      if FieldFails(reg, v, keys, rest, 0) {
      } else if ValidateFields(reg, v, keys, rest).Err? {
        FieldsStep(reg, v, keys, rest);
        var i :| FieldFails(reg, v, ks, rest', i)
          && (forall j :: 0 <= j < i ==> !FieldFails(reg, v, ks, rest', j))
          && ValidateFields(reg, v, ks, rest').error
             == Dispatch(reg, v.fields[ks[i]], rest'[ks[i]], InvalidFieldType(ks[i])).error;
        assert FieldFails(reg, v, keys, rest, i + 1);
        forall j | 0 <= j < i + 1
          ensures !FieldFails(reg, v, keys, rest, j)
        {
          if j > 0 {
            assert !FieldFails(reg, v, ks, rest', j - 1);
          }
        }
      } else {
        FieldsStep(reg, v, keys, rest);
        forall i | 0 <= i < |keys|
          ensures !FieldFails(reg, v, keys, rest, i)
        {
          if i > 0 {
            assert !FieldFails(reg, v, ks, rest', i - 1);
          }
        }
      }
    }
  }

  /** When the first key does not fail, the loop fails exactly as the rest
      of it does. */
  lemma {:induction false} FieldsStep(reg: Validator, v: Value, keys: seq<string>, rest: map<string, Node>)
    requires v.Obj? && (forall k :: k in keys ==> k in v.fields) && keys != []
    requires !FieldFails(reg, v, keys, rest, 0)
    ensures var rest' := if keys[0] in rest then rest - {keys[0]} else rest;
      && (ValidateFields(reg, v, keys, rest).Err? <==> ValidateFields(reg, v, keys[1..], rest').Err?)
      && (ValidateFields(reg, v, keys, rest).Err? ==>
            ValidateFields(reg, v, keys, rest).error == ValidateFields(reg, v, keys[1..], rest').error)
  {
  }

  /** Dropping the first key (and its schema entry) shifts the failing
      positions of the rest of the loop down by one. */
  lemma {:induction false} FieldFailsShift(reg: Validator, v: Value, keys: seq<string>, rest: map<string, Node>)
    requires v.Obj? && (forall k :: k in keys ==> k in v.fields) && Distinct(keys) && keys != []
    ensures var rest' := if keys[0] in rest then rest - {keys[0]} else rest;
      forall i :: 0 <= i < |keys| - 1 ==> (FieldFails(reg, v, keys[1..], rest', i) <==> FieldFails(reg, v, keys, rest, i + 1))
  {
    var k0, ks := keys[0], keys[1..];
    var rest' := if k0 in rest then rest - {k0} else rest;
    forall i | 0 <= i < |ks|
      ensures FieldFails(reg, v, ks, rest', i) <==> FieldFails(reg, v, keys, rest, i + 1)
    {
      assert ks[i] == keys[i + 1] && ks[i] != k0;
    }
  }

  /** Key reconciliation of `validateObject` (lib/ObjectValidator.js:86-115):
      the result has exactly the keys of the object and of the schema; a
      key of both holds the verdict of its schema node, an object key the
      schema lacks holds `false`, and a schema key the object lacks holds `false`. */
  lemma {:induction false} ObjectReconcile(reg: Validator, v: Value, ref: Ref)
    requires v.Obj? && ValidateObject(reg, v, ref).Ok?
    ensures ResolveSchema(reg, ref).Ok?
    ensures var m := FieldView(ResolveSchema(reg, ref).value);
            var t := ValidateObject(reg, v, ref).value.tree;
      && t.Fields?
      && t.fields.Keys == v.fields.Keys + m.Keys
      && (forall k :: k in v.fields && k !in m ==> t.fields[k] == False)
      && (forall k :: k in m && k !in v.fields ==> t.fields[k] == False)
      && (forall k :: k in v.fields && k in m ==>
            && Dispatch(reg, v.fields[k], m[k], InvalidFieldType(k)).Ok?
            && t.fields[k] == Dispatch(reg, v.fields[k], m[k], InvalidFieldType(k)).value.tree)
  {
    var keys := KeyOrder(v.fields.Keys);
    KeyOrderDistinct(v.fields.Keys);
    FieldsReconcile(reg, v, keys, FieldView(ResolveSchema(reg, ref).value));
  }

  /** `validateObject` on an object fails exactly when its schema cannot be
      resolved, or some key of both the object and the schema fails
      (an invalid node type, or a failure further down), and then with that
      key's error. */
  lemma {:induction false} ObjectFailure(reg: Validator, v: Value, ref: Ref)
    requires v.Obj? && ResolveSchema(reg, ref).Ok?
    ensures var m := FieldView(ResolveSchema(reg, ref).value);
      ValidateObject(reg, v, ref).Err? <==>
        exists k :: k in v.fields && k in m && Dispatch(reg, v.fields[k], m[k], InvalidFieldType(k)).Err?
    ensures var m := FieldView(ResolveSchema(reg, ref).value);
      ValidateObject(reg, v, ref).Err? ==>
        exists k :: && k in v.fields && k in m
                    && Dispatch(reg, v.fields[k], m[k], InvalidFieldType(k)).Err?
                    && ValidateObject(reg, v, ref).error == Dispatch(reg, v.fields[k], m[k], InvalidFieldType(k)).error
  {
    var m := FieldView(ResolveSchema(reg, ref).value);
    var keys := KeyOrder(v.fields.Keys);
    KeyOrderDistinct(v.fields.Keys);
    var r := ValidateObject(reg, v, ref);
    assert r == ValidateFields(reg, v, keys, m);
    FieldsFailure(reg, v, keys, m);
    if r.Err? {
      var i :| && FieldFails(reg, v, keys, m, i)
               && r.error == Dispatch(reg, v.fields[keys[i]], m[keys[i]], InvalidFieldType(keys[i])).error;
      var k := keys[i];
      assert k in v.fields && k in m && Dispatch(reg, v.fields[k], m[k], InvalidFieldType(k)).Err?;
    } else {
      forall k | k in v.fields && k in m
        ensures Dispatch(reg, v.fields[k], m[k], InvalidFieldType(k)).Ok?
      {
        var i :| 0 <= i < |keys| && keys[i] == k;
        assert !FieldFails(reg, v, keys, m, i);
      }
    }
  }

  /** `validateObject` on an object with a resolvable schema succeeds when
      every key of both validates. */
  lemma {:induction false} ObjectSucceeds(reg: Validator, v: Value, ref: Ref)
    requires v.Obj? && ResolveSchema(reg, ref).Ok?
    requires var m := FieldView(ResolveSchema(reg, ref).value);
      forall k :: k in v.fields && k in m ==> Dispatch(reg, v.fields[k], m[k], InvalidFieldType(k)).Ok?
    ensures ValidateObject(reg, v, ref).Ok?
  {
    ObjectFailure(reg, v, ref);
  }

  /** The converse of reconciliation: a tree that holds, for every key of
      the object or the schema, that key's verdict (or `false` for a key of
      one side only) is the tree `validateObject` reports. */
  lemma {:induction false} ObjectVerdicts(reg: Validator, v: Value, ref: Ref, want: map<string, Tree>)
    requires v.Obj? && ResolveSchema(reg, ref).Ok?
    requires var m := FieldView(ResolveSchema(reg, ref).value);
      && want.Keys == v.fields.Keys + m.Keys
      && (forall k :: k in want && !(k in v.fields && k in m) ==> want[k] == False)
      && (forall k :: k in v.fields && k in m ==>
            && Dispatch(reg, v.fields[k], m[k], InvalidFieldType(k)).Ok?
            && Dispatch(reg, v.fields[k], m[k], InvalidFieldType(k)).value.tree == want[k])
    ensures ValidateObject(reg, v, ref).Ok?
    ensures ValidateObject(reg, v, ref).value.tree == Fields(want)
  {
    ObjectSucceeds(reg, v, ref);
    var t := ValidateObject(reg, v, ref).value.tree;
    var m := FieldView(ResolveSchema(reg, ref).value);
    assert t.Fields? && t.fields.Keys == want.Keys;
    forall k | k in want
      ensures t.fields[k] == want[k]
    {
      ReconcileAt(reg, v, ref, k);
    }
    assert t.fields == want;
  }

  /** One key of the reconciled tree. */
  lemma {:induction false} ReconcileAt(reg: Validator, v: Value, ref: Ref, k: string)
    requires v.Obj? && ValidateObject(reg, v, ref).Ok?
    requires k in ValidateObject(reg, v, ref).value.tree.fields
    ensures ResolveSchema(reg, ref).Ok?
    ensures var m := FieldView(ResolveSchema(reg, ref).value);
            var t := ValidateObject(reg, v, ref).value.tree.fields;
      if k in v.fields && k in m
      then Dispatch(reg, v.fields[k], m[k], InvalidFieldType(k)).Ok?
           && t[k] == Dispatch(reg, v.fields[k], m[k], InvalidFieldType(k)).value.tree
      else t[k] == False
  {
    ObjectReconcile(reg, v, ref);
  }

  /** An empty object against a resolvable schema: every declared key is
      missing and maps to `false`, and no constraint is called. */
  lemma {:induction false} EmptyObject(reg: Validator, ref: Ref)
    requires ResolveSchema(reg, ref).Ok?
    ensures ValidateObject(reg, Obj(map[]), ref)
            == Ok(Report(Fields(map k | k in FieldView(ResolveSchema(reg, ref).value) :: False), []))
  {
    var v := Obj(map[]);
    var m := FieldView(ResolveSchema(reg, ref).value);
    assert ValidateObject(reg, v, ref).Ok? by {
      ObjectFailure(reg, v, ref);
    }
    ObjectReconcile(reg, v, ref);
    ObjectLog(reg, v, ref, []);
    var log := ValidateObject(reg, v, ref).value.log;
    assert |multiset(log)| == |log|;
  }

  /** A key of both the object and the schema whose node has no valid `type`
      makes `validateObject` fail (lib/ObjectValidator.js:99-100). */
  lemma {:induction false} InvalidFieldTypeFails(reg: Validator, v: Value, ref: Ref, key: string)
    requires v.Obj? && ResolveSchema(reg, ref).Ok?
    requires key in v.fields
    requires key in FieldView(ResolveSchema(reg, ref).value)
    requires FieldView(ResolveSchema(reg, ref).value)[key].InvalidNode?
    ensures ValidateObject(reg, v, ref).Err?
    ensures var m := FieldView(ResolveSchema(reg, ref).value);
      (forall k :: k in v.fields && k in m && k != key ==> Dispatch(reg, v.fields[k], m[k], InvalidFieldType(k)).Ok?)
      ==> ValidateObject(reg, v, ref) == Err(InvalidFieldType(key))
  {
    ObjectFailure(reg, v, ref);
  }

  /** A node without `ref`: `validateObject` maps every key of the object to
      `false`, and `validateArray` throws before visiting any element. */
  lemma {:induction false} MissingRef(reg: Validator, v: Value, xs: seq<Value>)
    requires v.Obj?
    ensures ValidateObject(reg, v, Missing).Ok?
    ensures ValidateObject(reg, v, Missing).value.tree == Fields(map k | k in v.fields :: False)
    ensures ValidateArray(reg, Arr(xs), Missing) == Err(InvalidElementType)
  {
    assert FieldView(ResolveSchema(reg, Missing).value) == map[];
    ObjectVerdicts(reg, v, Missing, map k | k in v.fields :: False);
  }

  /** A constraint list that aborts has, before the throw, made exactly the
      calls of the entries ahead of the first unregistered one: once each,
      in list order (lib/ObjectValidator.js:184-188). */
  lemma {:induction false} CallsBeforeAbort(reg: Validator, v: Value, cs: seq<Call>)
    requires RunConstraints(reg, v, cs).Err?
    ensures exists i :: && FirstUnregistered(reg, cs, i)
                        && RunConstraints(reg, v, cs).error == UnknownConstraint(cs[i].id)
                        && RunConstraints(reg, v, cs[..i]).Ok?
                        && InvokedInOrder(RunConstraints(reg, v, cs[..i]).value.log, v, cs[..i])
  {
    var i :| FirstUnregistered(reg, cs, i) && RunConstraints(reg, v, cs).error == UnknownConstraint(cs[i].id);
    assert forall j :: 0 <= j < |cs[..i]| ==> cs[..i][j].id in reg.constraints;
  }

  /** The `validateArray` loop maps element `i` to its verdict against the
      element node, at position `i - from`. */
  lemma {:induction false} ElemsElementwise(reg: Validator, v: Value, node: Node, from: nat)
    requires v.Arr? && from <= |v.elems|
    requires ValidateElems(reg, v, node, from).Ok?
    ensures var t := ValidateElems(reg, v, node, from).value.tree.elems;
      forall i :: from <= i < |v.elems| ==>
        && Dispatch(reg, v.elems[i], node, InvalidElementType).Ok?
        && t[i - from] == Dispatch(reg, v.elems[i], node, InvalidElementType).value.tree
    decreases |v.elems| - from
  {
    if from < |v.elems| {
      ElemsElementwise(reg, v, node, from + 1);
    }
  }

  /** The `validateArray` loop fails exactly when some element fails, and
      then with the error of the first failing element. */
  lemma {:induction false} ElemsFailure(reg: Validator, v: Value, node: Node, from: nat)
    requires v.Arr? && from <= |v.elems|
    ensures ValidateElems(reg, v, node, from).Err? <==>
      exists i :: from <= i < |v.elems| && Dispatch(reg, v.elems[i], node, InvalidElementType).Err?
    ensures ValidateElems(reg, v, node, from).Err? ==>
      exists i :: && from <= i < |v.elems|
                  && Dispatch(reg, v.elems[i], node, InvalidElementType).Err?
                  && (forall j :: from <= j < i ==> Dispatch(reg, v.elems[j], node, InvalidElementType).Ok?)
                  && ValidateElems(reg, v, node, from).error == Dispatch(reg, v.elems[i], node, InvalidElementType).error
    decreases |v.elems| - from
  {
    if from < |v.elems| {
      ElemsFailure(reg, v, node, from + 1);
      var r := ValidateElems(reg, v, node, from);
      if Dispatch(reg, v.elems[from], node, InvalidElementType).Err? {
        assert r.error == Dispatch(reg, v.elems[from], node, InvalidElementType).error;
      } else if r.Err? {
        assert ValidateElems(reg, v, node, from + 1).Err?;
        var i :| && from + 1 <= i < |v.elems|
                 && Dispatch(reg, v.elems[i], node, InvalidElementType).Err?
                 && (forall j :: from + 1 <= j < i ==> Dispatch(reg, v.elems[j], node, InvalidElementType).Ok?)
                 && ValidateElems(reg, v, node, from + 1).error == Dispatch(reg, v.elems[i], node, InvalidElementType).error;
        assert r.error == Dispatch(reg, v.elems[i], node, InvalidElementType).error;
      } else {
        assert ValidateElems(reg, v, node, from + 1).Ok?;
      }
    }
  }

  /** Element-wise mapping of `validateArray` (lib/ObjectValidator.js:138-161):
      the result has one entry per element, in order, and entry `i` is the
      verdict of element `i` against the one element node. */
  lemma {:induction false} ArrayElementwise(reg: Validator, v: Value, ref: Ref)
    requires v.Arr? && ValidateArray(reg, v, ref).Ok?
    ensures ResolveSchema(reg, ref).Ok?
    ensures var node := ElementView(ResolveSchema(reg, ref).value);
            var t := ValidateArray(reg, v, ref).value.tree;
      && !node.InvalidNode?
      && t.Elems? && |t.elems| == |v.elems|
      && forall i :: 0 <= i < |v.elems| ==>
           && Dispatch(reg, v.elems[i], node, InvalidElementType).Ok?
           && t.elems[i] == Dispatch(reg, v.elems[i], node, InvalidElementType).value.tree
  {
    var node := ElementView(ResolveSchema(reg, ref).value);
    assert !node.InvalidNode?;
    var t := ValidateArray(reg, v, ref).value.tree;
    assert t == ValidateElems(reg, v, node, 0).value.tree;
    ElemsElementwise(reg, v, node, 0);
    forall i | 0 <= i < |v.elems|
      ensures Dispatch(reg, v.elems[i], node, InvalidElementType).Ok?
      ensures t.elems[i] == Dispatch(reg, v.elems[i], node, InvalidElementType).value.tree
    {
      assert t.elems[i] == t.elems[i - 0];
    }
  }

  /** The converse of the element-wise mapping: a sequence that holds, for
      each element, that element's verdict is the tree `validateArray`
      reports. */
  lemma {:induction false} ArrayVerdicts(reg: Validator, v: Value, ref: Ref, want: seq<Tree>)
    requires v.Arr? && ResolveSchema(reg, ref).Ok?
    requires var node := ElementView(ResolveSchema(reg, ref).value);
      && !node.InvalidNode?
      && |want| == |v.elems|
      && forall i :: 0 <= i < |v.elems| ==>
           && Dispatch(reg, v.elems[i], node, InvalidElementType).Ok?
           && Dispatch(reg, v.elems[i], node, InvalidElementType).value.tree == want[i]
    ensures ValidateArray(reg, v, ref).Ok?
    ensures ValidateArray(reg, v, ref).value.tree == Elems(want)
  {
    assert ValidateArray(reg, v, ref).Ok? by {
      ArrayFailure(reg, v, ref);
    }
    ArrayElementwise(reg, v, ref);
    var t := ValidateArray(reg, v, ref).value.tree;
    assert t.elems == want;
  }

  /** `validateArray` with a valid element node fails exactly when some
      element fails, and then with the first failing element's error. */
  lemma {:induction false} ArrayFailure(reg: Validator, v: Value, ref: Ref)
    requires v.Arr? && ResolveSchema(reg, ref).Ok?
    requires !ElementView(ResolveSchema(reg, ref).value).InvalidNode?
    ensures var node := ElementView(ResolveSchema(reg, ref).value);
      ValidateArray(reg, v, ref).Err? <==>
        exists i :: 0 <= i < |v.elems| && Dispatch(reg, v.elems[i], node, InvalidElementType).Err?
    ensures var node := ElementView(ResolveSchema(reg, ref).value);
      ValidateArray(reg, v, ref).Err? ==>
        exists i :: && 0 <= i < |v.elems|
                    && Dispatch(reg, v.elems[i], node, InvalidElementType).Err?
                    && (forall j :: 0 <= j < i ==> Dispatch(reg, v.elems[j], node, InvalidElementType).Ok?)
                    && ValidateArray(reg, v, ref).error == Dispatch(reg, v.elems[i], node, InvalidElementType).error
  {
    ElemsFailure(reg, v, ElementView(ResolveSchema(reg, ref).value), 0);
  }
  /** The calls made by the field validations of those keys in `keys` that
      the schema `m` holds, counted with multiplicity. */
  ghost function FieldLogs(reg: Validator, v: Value, keys: seq<string>, m: map<string, Node>): multiset<Invocation>
    requires v.Obj? && forall k :: k in keys ==> k in v.fields
    decreases |keys|
  {
    if keys == [] then multiset{}
    else OwnLog(reg, v, keys[0], m) + FieldLogs(reg, v, keys[1..], m)
  }

  /** The calls made by validating key `k` against `m`, if `m` holds `k`. */
  ghost function OwnLog(reg: Validator, v: Value, k: string, m: map<string, Node>): multiset<Invocation>
    requires v.Obj? && k in v.fields
  {
    if k in m && Dispatch(reg, v.fields[k], m[k], InvalidFieldType(k)).Ok?
    then multiset(Dispatch(reg, v.fields[k], m[k], InvalidFieldType(k)).value.log)
    else multiset{}
  }

  lemma {:induction false} FieldLogsAppend(reg: Validator, v: Value, xs: seq<string>, ys: seq<string>, m: map<string, Node>)
    requires v.Obj? && (forall k :: k in xs ==> k in v.fields) && (forall k :: k in ys ==> k in v.fields)
    ensures FieldLogs(reg, v, xs + ys, m) == FieldLogs(reg, v, xs, m) + FieldLogs(reg, v, ys, m)
    decreases |xs|
  {
    if xs != [] {
      assert (xs + ys)[0] == xs[0];
      assert (xs + ys)[1..] == xs[1..] + ys;
      FieldLogsAppend(reg, v, xs[1..], ys, m);
    } else {
      assert xs + ys == ys;
    }
  }

  /** Deleting from the schema copy a key that is not listed changes nothing. */
  lemma {:induction false} FieldLogsIgnoresUnlisted(reg: Validator, v: Value, keys: seq<string>, m: map<string, Node>, gone: string)
    requires v.Obj? && (forall k :: k in keys ==> k in v.fields)
    requires gone !in keys
    ensures FieldLogs(reg, v, keys, m - {gone}) == FieldLogs(reg, v, keys, m)
    decreases |keys|
  {
    if keys != [] {
      FieldLogsIgnoresUnlisted(reg, v, keys[1..], m, gone);
    }
  }

  /** The calls the `validateObject` loop makes are those of its field validations. */
  lemma {:induction false} FieldsLog(reg: Validator, v: Value, keys: seq<string>, rest: map<string, Node>)
    requires v.Obj? && (forall k :: k in keys ==> k in v.fields) && Distinct(keys)
    requires ValidateFields(reg, v, keys, rest).Ok?
    ensures multiset(ValidateFields(reg, v, keys, rest).value.log) == FieldLogs(reg, v, keys, rest)
    decreases |keys|
  {
    if keys != [] {
      var k0, ks := keys[0], keys[1..];
      assert Distinct(ks);
      if k0 in rest {
        assert k0 !in ks;
        FieldsLog(reg, v, ks, rest - {k0});
        FieldLogsIgnoresUnlisted(reg, v, ks, rest, k0);
      } else {
        FieldsLog(reg, v, ks, rest);
      }
    }
  }

  /** Removing the entry at `j` from a duplicate-free listing leaves a
      duplicate-free listing of the other keys. */
  lemma {:induction false} RemoveAt(ys: seq<string>, j: int)
    requires Distinct(ys) && 0 <= j < |ys|
    ensures Distinct(ys[..j] + ys[j + 1..])
    ensures forall k :: k in ys[..j] + ys[j + 1..] <==> k in ys && k != ys[j]
  {
    var zs := ys[..j] + ys[j + 1..];
    assert forall p :: 0 <= p < |zs| ==> zs[p] == ys[if p < j then p else p + 1];
    forall k | k in ys && k != ys[j]
      ensures k in zs
    {
      var p :| 0 <= p < |ys| && ys[p] == k;
      assert zs[if p < j then p else p - 1] == k;
    }
  }

  /** Counting the calls of a listing with the key `a` somewhere in the middle. */
  lemma {:induction false} FieldLogsSplit(reg: Validator, v: Value, left: seq<string>, a: string, right: seq<string>, m: map<string, Node>)
    requires v.Obj? && a in v.fields && (forall k :: k in left ==> k in v.fields) && (forall k :: k in right ==> k in v.fields)
    ensures FieldLogs(reg, v, left + ([a] + right), m) == OwnLog(reg, v, a, m) + FieldLogs(reg, v, left + right, m)
  {
    FieldLogsAppend(reg, v, left, [a] + right, m);
    assert ([a] + right)[1..] == right;
    FieldLogsAppend(reg, v, left, right, m);
  }

  /** Taking the first key off one listing and the same key out of the
      other leaves two duplicate-free listings of one key set. */
  lemma {:induction false} ListingStep(xs: seq<string>, ys: seq<string>, j: int)
    requires Distinct(xs) && Distinct(ys) && (forall k :: k in xs <==> k in ys)
    requires xs != [] && 0 <= j < |ys| && ys[j] == xs[0]
    ensures ys == ys[..j] + ([xs[0]] + ys[j + 1..])
    ensures Distinct(xs[1..]) && Distinct(ys[..j] + ys[j + 1..])
    ensures forall k :: k in xs[1..] <==> k in ys[..j] + ys[j + 1..]
    ensures (forall k :: k in ys[..j] ==> k in xs) && (forall k :: k in ys[j + 1..] ==> k in xs)
  {
    RemoveAt(ys, j);
    assert forall k :: k in xs[1..] <==> k in xs && k != xs[0];
  }

  /** The calls counted are the same for any two duplicate-free listings of
      one key set: the order the keys are visited in does not matter. */
  lemma {:induction false} FieldLogsListing(reg: Validator, v: Value, xs: seq<string>, ys: seq<string>, m: map<string, Node>)
    requires v.Obj? && (forall k :: k in xs ==> k in v.fields)
    requires Distinct(xs) && Distinct(ys) && forall k :: k in xs <==> k in ys
    ensures FieldLogs(reg, v, xs, m) == FieldLogs(reg, v, ys, m)
    decreases |xs|
  {
    if xs != [] {
      var a := xs[0];
      assert a in ys;
      var j :| 0 <= j < |ys| && ys[j] == a;
      var left, right := ys[..j], ys[j + 1..];
      ListingStep(xs, ys, j);
      FieldLogsListing(reg, v, xs[1..], left + right, m);
      FieldLogsSplit(reg, v, left, a, right, m);
    }
  }

  /** Call counts of `validateObject`: the calls it makes on an object are,
      with multiplicity, the calls made by the validations of the keys the
      object and the schema share, whichever order the keys are listed in. */
  lemma {:induction false} ObjectLog(reg: Validator, v: Value, ref: Ref, listing: seq<string>)
    requires v.Obj? && ValidateObject(reg, v, ref).Ok?
    requires Distinct(listing) && forall k :: k in listing <==> k in v.fields
    ensures ResolveSchema(reg, ref).Ok?
    ensures multiset(ValidateObject(reg, v, ref).value.log)
            == FieldLogs(reg, v, listing, FieldView(ResolveSchema(reg, ref).value))
  {
    var keys := KeyOrder(v.fields.Keys);
    KeyOrderDistinct(v.fields.Keys);
    var m := FieldView(ResolveSchema(reg, ref).value);
    FieldsLog(reg, v, keys, m);
    FieldLogsListing(reg, v, keys, listing, m);
  }
  /** The calls made by validating the elements from index `from` on, in
      element order. */
  ghost function ElemLogs(reg: Validator, v: Value, node: Node, from: nat): seq<Invocation>
    requires v.Arr? && from <= |v.elems|
    decreases |v.elems| - from
  {
    if from == |v.elems| then []
    else
      var own := Dispatch(reg, v.elems[from], node, InvalidElementType);
      (if own.Ok? then own.value.log else []) + ElemLogs(reg, v, node, from + 1)
  }

  lemma {:induction false} ElemsLog(reg: Validator, v: Value, node: Node, from: nat)
    requires v.Arr? && from <= |v.elems|
    requires ValidateElems(reg, v, node, from).Ok?
    ensures ValidateElems(reg, v, node, from).value.log == ElemLogs(reg, v, node, from)
    decreases |v.elems| - from
  {
    if from < |v.elems| {
      ElemsLog(reg, v, node, from + 1);
    }
  }

  /** Call order of `validateArray`: element by element, in array order, each
      element's calls in the order its own validation made them. */
  lemma {:induction false} ArrayLog(reg: Validator, v: Value, ref: Ref)
    requires v.Arr? && ValidateArray(reg, v, ref).Ok?
    ensures ResolveSchema(reg, ref).Ok?
    ensures ValidateArray(reg, v, ref).value.log == ElemLogs(reg, v, ElementView(ResolveSchema(reg, ref).value), 0)
  {
    ElemsLog(reg, v, ElementView(ResolveSchema(reg, ref).value), 0);
  }
}
