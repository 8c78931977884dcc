/** The three mutually recursive entry points of `ObjectValidator`
    (lib/ObjectValidator.js:72-191): `validateObject`, `validateArray` and
    `validateScalar`. Each returns a result tree mirroring the input, with a
    literal `false` wherever the input has the wrong shape, or fails with the
    configuration error that aborted the whole call. */
module Validation {
  import opened Json
  import opened Schemas
  import opened Registry

  /** One call of a registered constraint predicate. */
  datatype Invocation = Invocation(id: string, value: Value, options: Option<Value>)

  /** The result tree: `False`/`True` literals, a constraint-result map for a
      scalar, a field map for an object, a sequence for an array. */
  datatype Tree =
    | False
    | True
    | Checks(results: map<string, bool>)
    | Fields(fields: map<string, Tree>)
    | Elems(elems: seq<Tree>)

  /** A finished validation: its tree, and every constraint call it made, in order. */
  datatype Report = Report(tree: Tree, log: seq<Invocation>)

  /** The outcome of running a scalar's constraint list. */
  datatype Run = Run(results: map<string, bool>, log: seq<Invocation>)

  /** The calls a constraint list makes on `v`, one per entry, in list order. */
  ghost predicate InvokedInOrder(log: seq<Invocation>, v: Value, cs: seq<Call>) {
    |log| == |cs| && forall i :: 0 <= i < |cs| ==> log[i] == Invocation(cs[i].id, v, cs[i].options)
  }

  /** The identifiers a constraint list names. */
  ghost function Ids(cs: seq<Call>): (ids: set<string>)
    ensures forall i :: 0 <= i < |cs| ==> cs[i].id in ids
    ensures forall k :: k in ids ==> exists i :: 0 <= i < |cs| && cs[i].id == k
  {
    if cs == [] then {} else Ids(cs[..|cs| - 1]) + {cs[|cs| - 1].id}
  }

  /** Entry `i` is the last one in `cs` that names its identifier. */
  ghost predicate LastOccurrence(cs: seq<Call>, i: int)
    requires 0 <= i < |cs|
  {
    forall j :: i < j < |cs| ==> cs[j].id != cs[i].id
  }

  /** The result map of a constraint list: one entry per identifier, holding
      what the identifier's last entry in the list evaluated to. */
  ghost predicate LastWriteWins(reg: Validator, results: map<string, bool>, v: Value, cs: seq<Call>)
    requires forall i :: 0 <= i < |cs| ==> cs[i].id in reg.constraints
  {
    && results.Keys == Ids(cs)
    && forall i :: 0 <= i < |cs| && LastOccurrence(cs, i) ==>
         results[cs[i].id] == reg.constraints[cs[i].id](v, cs[i].options)
  }

  /** Entry `i` names the first unregistered constraint of the list. */
  ghost predicate FirstUnregistered(reg: Validator, cs: seq<Call>, i: int)
  {
    && 0 <= i < |cs|
    && cs[i].id !in reg.constraints
    && forall j :: 0 <= j < i ==> cs[j].id in reg.constraints
  }

  /** Runs a constraint list on a scalar (lib/ObjectValidator.js:180-190):
      each entry is looked up and invoked in list order, a later entry with
      the same identifier overwrites the earlier result, and the first
      unregistered identifier aborts the run. */
  function RunConstraints(reg: Validator, v: Value, cs: seq<Call>): (r: Result<Run>)
    ensures r.Ok? <==> forall i :: 0 <= i < |cs| ==> cs[i].id in reg.constraints
    ensures r.Ok? ==> InvokedInOrder(r.value.log, v, cs)
    ensures r.Ok? ==> LastWriteWins(reg, r.value.results, v, cs)
    ensures r.Err? ==> exists i :: FirstUnregistered(reg, cs, i) && r.error == UnknownConstraint(cs[i].id)
    decreases |cs|
  {
    if cs == [] then Ok(Run(map[], []))
    else
      var init := cs[..|cs| - 1];
      var last := cs[|cs| - 1];
      assert cs == init + [last];
      match RunConstraints(reg, v, init)
      case Err(e) =>
        FailureStep(reg, init, last, e);
        Err(e)
      case Ok(run) =>
        if last.id !in reg.constraints then
          LastUnregistered(reg, init, last);
          Err(UnknownConstraint(last.id))
        else
          var call := Invocation(last.id, v, last.options);
          var results := run.results[last.id := reg.constraints[last.id](v, last.options)];
          RegisteredStep(reg, init, last);
          InvokedStep(run.log, v, init, last);
          LastWriteStep(reg, run.results, v, init, last);
          Ok(Run(results, run.log + [call]))
  }

  /** An unregistered entry in a list stays the first one when an entry is appended. */
  lemma {:induction false} FailureStep(reg: Validator, init: seq<Call>, last: Call, e: Error)
    requires exists i :: FirstUnregistered(reg, init, i) && e == UnknownConstraint(init[i].id)
    ensures exists i :: FirstUnregistered(reg, init + [last], i) && e == UnknownConstraint((init + [last])[i].id)
    ensures !forall i :: 0 <= i < |init + [last]| ==> (init + [last])[i].id in reg.constraints
  {
    var i :| FirstUnregistered(reg, init, i) && e == UnknownConstraint(init[i].id);
    var cs := init + [last];
    assert cs[i] == init[i];
    forall j | 0 <= j < i
      ensures cs[j].id in reg.constraints
    {
      assert cs[j] == init[j];
    }
    assert FirstUnregistered(reg, cs, i);
  }

  /** A registered entry appended to a fully registered list keeps it fully registered. */
  lemma {:induction false} RegisteredStep(reg: Validator, init: seq<Call>, last: Call)
    requires forall i :: 0 <= i < |init| ==> init[i].id in reg.constraints
    requires last.id in reg.constraints
    ensures forall i :: 0 <= i < |init + [last]| ==> (init + [last])[i].id in reg.constraints
  {
    var cs := init + [last];
    forall j | 0 <= j < |cs|
      ensures cs[j].id in reg.constraints
    {
      if j < |init| {
        assert cs[j] == init[j];
      }
    }
  }

  /** An unregistered entry appended to a fully registered list is its first unregistered one. */
  lemma {:induction false} LastUnregistered(reg: Validator, init: seq<Call>, last: Call)
    requires forall i :: 0 <= i < |init| ==> init[i].id in reg.constraints
    requires last.id !in reg.constraints
    ensures FirstUnregistered(reg, init + [last], |init|)
  {
    var cs := init + [last];
    forall j | 0 <= j < |init|
      ensures cs[j].id in reg.constraints
    {
      assert cs[j] == init[j];
    }
  }

  /** Appending one entry to a constraint list appends its call to the log. */
  lemma {:induction false} InvokedStep(log: seq<Invocation>, v: Value, init: seq<Call>, last: Call)
    requires InvokedInOrder(log, v, init)
    ensures InvokedInOrder(log + [Invocation(last.id, v, last.options)], v, init + [last])
  {
    var cs, log' := init + [last], log + [Invocation(last.id, v, last.options)];
    forall i | 0 <= i < |cs|
      ensures log'[i] == Invocation(cs[i].id, v, cs[i].options)
    {
      if i < |init| {
        assert log'[i] == log[i] && cs[i] == init[i];
      }
    }
  }

  /** Appending one registered entry to a constraint list overwrites its
      identifier's result with the new entry's verdict. */
  lemma {:induction false} LastWriteStep(reg: Validator, results: map<string, bool>, v: Value, init: seq<Call>, last: Call)
    requires forall i :: 0 <= i < |init| ==> init[i].id in reg.constraints
    requires last.id in reg.constraints
    requires LastWriteWins(reg, results, v, init)
    ensures LastWriteWins(reg, results[last.id := reg.constraints[last.id](v, last.options)], v, init + [last])
  {
    var cs := init + [last];
    var results' := results[last.id := reg.constraints[last.id](v, last.options)];
    assert cs[..|cs| - 1] == init;
    assert Ids(cs) == Ids(init) + {last.id};
    forall i | 0 <= i < |cs| && LastOccurrence(cs, i)
      ensures results'[cs[i].id] == reg.constraints[cs[i].id](v, cs[i].options)
    {
      if i < |init| {
        assert cs[i] == init[i];
        assert cs[|cs| - 1] == last && last.id != init[i].id;
        forall j | i < j < |init|
          ensures init[j].id != init[i].id
        {
          assert cs[j] == init[j];
        }
        assert LastOccurrence(init, i);
        assert results'[cs[i].id] == results[init[i].id];
      } else {
        assert cs[i] == last;
      }
    }
  }

  /** `validateScalar` (lib/ObjectValidator.js:170-191). */
  function ValidateScalar(reg: Validator, v: Value, cs: Option<seq<Call>>): (r: Result<Report>)
    ensures v.IsObject() ==> r == Ok(Report(False, []))
    ensures !v.IsObject() && (cs.None? || cs.value == []) ==> r == Ok(Report(True, []))
    ensures !v.IsObject() && cs.Some? && cs.value != [] ==>
      && (r.Ok? <==> forall i :: 0 <= i < |cs.value| ==> cs.value[i].id in reg.constraints)
      && (r.Ok? ==> r.value.tree.Checks? && InvokedInOrder(r.value.log, v, cs.value)
                    && LastWriteWins(reg, r.value.tree.results, v, cs.value))
      && (r.Err? ==> exists i :: FirstUnregistered(reg, cs.value, i) && r.error == UnknownConstraint(cs.value[i].id))
  {
    if v.IsObject() then Ok(Report(False, []))
    else if cs.None? || |cs.value| == 0 then Ok(Report(True, []))
    else
      var run :- RunConstraints(reg, v, cs.value);
      Ok(Report(Checks(run.results), run.log))
  }

  /** No key occurs twice. */
  ghost predicate Distinct(keys: seq<string>) {
    forall i, j :: 0 <= i < j < |keys| ==> keys[i] != keys[j]
  }

  /** Some fixed enumeration of a finite key set. It stands for the order in
      which lodash `_.each` visits an object's keys, which the model does not
      pin down; `KeyOrderDistinct` shows each key comes exactly once. An
      object whose `length` is a non-negative integer is array-like to
      `_.each`, which then visits the indices below `length` instead; that
      case is not modelled. */
  ghost function KeyOrder(keys: set<string>): (r: seq<string>)
    ensures forall k :: k in r <==> k in keys
    decreases keys
  {
    if keys == {} then []
    else
      var k :| k in keys;
      [k] + KeyOrder(keys - {k})
  }

  /** The enumeration visits no key twice. */
  lemma {:induction false} KeyOrderDistinct(keys: set<string>)
    ensures Distinct(KeyOrder(keys))
    decreases keys
  {
    if keys != {} {
      var r := KeyOrder(keys);
      var k := r[0];
      var tail := KeyOrder(keys - {k});
      assert r == [k] + tail;
      KeyOrderDistinct(keys - {k});
      assert k !in tail;
    }
  }

  /** Validates `v` against one schema node, dispatching on its `type`
      (lib/ObjectValidator.js:89-101 for a field, 140-152 for array
      elements). An invalid node fails with `bad`. */
  ghost function Dispatch(reg: Validator, v: Value, node: Node, bad: Error): (r: Result<Report>)
    ensures node.InvalidNode? ==> r == Err(bad)
    decreases v, 2
  {
    match node
    case ObjectNode(ref) => ValidateObject(reg, v, ref)
    case ArrayNode(ref) => ValidateArray(reg, v, ref)
    case ScalarNode(cs) => ValidateScalar(reg, v, cs)
    case InvalidNode => Err(bad)
  }

  /** `validateObject` (lib/ObjectValidator.js:72-118): `false` for anything
      but a plain object, decided before the schema is looked up; otherwise
      one entry per key of the object or of the schema. Array-like objects
      (see `KeyOrder`) are not modelled. */
  ghost function ValidateObject(reg: Validator, v: Value, ref: Ref): (r: Result<Report>)
    ensures !v.Obj? ==> r == Ok(Report(False, []))
    ensures v.Obj? && ResolveSchema(reg, ref).Err? ==> r == Err(ResolveSchema(reg, ref).error)
    ensures v.Obj? && r.Ok? ==>
      && ResolveSchema(reg, ref).Ok?
      && r.value.tree.Fields?
      && r.value.tree.fields.Keys == v.fields.Keys + FieldView(ResolveSchema(reg, ref).value).Keys
    decreases v, 1
  {
    if !v.Obj? then Ok(Report(False, []))
    else
      var s :- ResolveSchema(reg, ref);
      ValidateFields(reg, v, KeyOrder(v.fields.Keys), FieldView(s))
  }

  /** The loop of `validateObject` over the object's keys `keys`, with
      `rest` the working copy of the schema: a key the copy holds is
      validated against its node and deleted from the copy, a key it lacks
      maps to `false`; what is left of the copy at the end maps to `false`. */
  ghost function ValidateFields(reg: Validator, v: Value, keys: seq<string>, rest: map<string, Node>): (r: Result<Report>)
    requires v.Obj?
    requires forall k :: k in keys ==> k in v.fields
    ensures r.Ok? ==> r.value.tree.Fields? && r.value.tree.fields.Keys == (set k | k in keys) + rest.Keys
    decreases v, 0, |keys|
  {
    if keys == [] then Ok(Report(Fields(map k | k in rest :: False), []))
    else
      var k := keys[0];
      if k in rest then
        var head :- Dispatch(reg, v.fields[k], rest[k], InvalidFieldType(k));
        var tail :- ValidateFields(reg, v, keys[1..], rest - {k});
        Ok(Report(Fields(tail.tree.fields[k := head.tree]), head.log + tail.log))
      else
        var tail :- ValidateFields(reg, v, keys[1..], rest);
        Ok(Report(Fields(tail.tree.fields[k := False]), tail.log))
  }

  /** `validateArray` (lib/ObjectValidator.js:126-162): `false` for anything
      but an array; otherwise the element node is checked once, before any
      element is visited, and every element is validated against it. */
  ghost function ValidateArray(reg: Validator, v: Value, ref: Ref): (r: Result<Report>)
    ensures !v.Arr? ==> r == Ok(Report(False, []))
    ensures v.Arr? && ResolveSchema(reg, ref).Err? ==> r == Err(ResolveSchema(reg, ref).error)
    ensures v.Arr? && ResolveSchema(reg, ref).Ok? && ElementView(ResolveSchema(reg, ref).value).InvalidNode? ==>
      r == Err(InvalidElementType)
    ensures v.Arr? && r.Ok? ==> r.value.tree.Elems? && |r.value.tree.elems| == |v.elems|
    decreases v, 1
  {
    if !v.Arr? then Ok(Report(False, []))
    else
      var s :- ResolveSchema(reg, ref);
      var node := ElementView(s);
      if node.InvalidNode? then Err(InvalidElementType)
      else ValidateElems(reg, v, node, 0)
  }

  /** The loop of `validateArray` over the elements from index `from` on. */
  ghost function ValidateElems(reg: Validator, v: Value, node: Node, from: nat): (r: Result<Report>)
    requires v.Arr? && from <= |v.elems|
    ensures r.Ok? ==> r.value.tree.Elems? && |r.value.tree.elems| == |v.elems| - from
    decreases v, 0, |v.elems| - from
  {
    if from == |v.elems| then Ok(Report(Elems([]), []))
    else
      var head :- Dispatch(reg, v.elems[from], node, InvalidElementType);
      var tail :- ValidateElems(reg, v, node, from + 1);
      Ok(Report(Elems([head.tree] + tail.tree.elems), head.log + tail.log))
  }
}
