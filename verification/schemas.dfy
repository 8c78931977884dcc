/** Declarative schemas: what a registered or inline schema may look like. */
module Schemas {
  import opened Json

  /** One entry `[identifier, options]` of a scalar node's constraint list;
      `options` is `undefined` when the entry has a single element. */
  datatype Call = Call(id: string, options: Option<Value>)

  /** A schema node, classified once by its `type` property.
      `InvalidNode` is a node whose `type` is missing, is not a string, or is
      a string other than "object", "array" and "scalar". A scalar node's
      `constraints` property may be absent. */
  datatype Node =
    | ObjectNode(ref: Ref)
    | ArrayNode(ref: Ref)
    | ScalarNode(constraints: Option<seq<Call>>)
    | InvalidNode

  /** A node's `ref`: the identifier of a registered schema, the schema
      itself, or `Missing` when the node has no `ref` property at all. */
  datatype Ref = Id(id: string) | Inline(schema: Schema) | Missing

  /** What a schema stands for: a field map (what `validateObject` expects)
      or a single typed node (what `validateArray` expects for its elements).
      Encoding rule: a JavaScript schema object whose `type` property is one
      of the strings "object", "array" and "scalar" is an `Element` holding
      that typed node; every other schema object is a `FieldMap`, one node
      per property. So a `FieldMap` never stands for an object whose `type`
      is a tag, and `Element(InvalidNode)` stands for no schema object. */
  datatype Schema = FieldMap(fields: map<string, Node>) | Element(node: Node)

  /** A node whose own `type` property is not a tag: what a string, an array
      or a field-map object yields when asked for `.type`. */
  const NoType: Node := InvalidNode

  /** The node obtained by reading `ref` itself as a schema node. An
      identifier is a string and has no `type`; by the encoding rule of
      `Schema`, a field map's `type`, if any, is not a tag string. */
  function RefAsNode(r: Ref): (n: Node)
    requires !r.Missing?
    ensures !n.InvalidNode? <==> r.Inline? && r.schema.Element? && !r.schema.node.InvalidNode?
    ensures r.Inline? && r.schema.Element? ==> n == r.schema.node
  {
    match r
    case Id(_) => NoType
    case Inline(FieldMap(_)) => NoType
    case Inline(Element(n)) => n
  }

  /** The properties a typed node carries, read as field names. */
  function RefField(r: Ref): (m: map<string, Node>)
    ensures m.Keys == if r.Missing? then {} else {"ref"}
  {
    if r.Missing? then map[] else map["ref" := RefAsNode(r)]
  }

  /** How `validateObject` reads a schema: a field map as itself, a typed
      node as the field map of its own properties (`type`, `ref`,
      `constraints`), each of which is dispatched on like any field. */
  function FieldView(s: Schema): (m: map<string, Node>)
    ensures s.FieldMap? ==> m == s.fields
    ensures s.Element? && !s.node.InvalidNode? ==> "type" in m && m["type"].InvalidNode?
    ensures s.Element? ==> (
      "ref" in m <==> (s.node.ObjectNode? || s.node.ArrayNode?) && !s.node.ref.Missing?)
    ensures s.Element? ==> ("constraints" in m <==> s.node.ScalarNode? && s.node.constraints.Some?)
    ensures s.Element? && s.node.InvalidNode? ==> m == map[]
  {
    match s
    case FieldMap(fields) => fields
    case Element(ObjectNode(r)) => map["type" := NoType] + RefField(r)
    case Element(ArrayNode(r)) => map["type" := NoType] + RefField(r)
    case Element(ScalarNode(None)) => map["type" := NoType]
    case Element(ScalarNode(Some(_))) => map["type" := NoType, "constraints" := NoType]
    case Element(InvalidNode) => map[]
  }

  /** How `validateArray` reads a schema: a typed node as itself; by the
      encoding rule of `Schema`, a field map's `type` is not a tag string, so
      it reads as an invalid node. */
  function ElementView(s: Schema): (n: Node)
    ensures s.FieldMap? ==> n.InvalidNode?
    ensures s.Element? ==> n == s.node
  {
    match s
    case FieldMap(_) => NoType
    case Element(n) => n
  }
}
