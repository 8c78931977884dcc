/** The untyped data the validator walks: the JSON-like values a JavaScript
    caller hands to `validateObject`, `validateArray` and `validateScalar`. */
module Json {

  /** The conventional Some/None datatype, used for JavaScript's `undefined`. */
  datatype Option<+T> = None | Some(value: T)

  /** A JavaScript value as the validator sees it. `Obj` is a plain object
      (its key order is not modelled), `Arr` an array. */
  datatype Value =
    | Null
    | Bool(b: bool)
    | Num(n: int)
    | Str(s: string)
    | Arr(elems: seq<Value>)
    | Obj(fields: map<string, Value>)
  {
    /** lodash `_.isObject`: true for arrays and objects, false for `null`
        and every primitive. */
    predicate IsObject() {
      Arr? || Obj?
    }
  }
}
