/** Scalar values of a parsed request body as the handlers see them, with JavaScript's
    truthiness and the two field-merge rules the handlers are written with. */
module JsValues {

  datatype Option<+T> = None | Some(value: T)

  /** A scalar JavaScript value a field of `req.body` or `req.query` can hold (undefined,
      null, boolean, number, string); object and array fields are not modelled. A field the
      client did not send is `Undefined`. */
  datatype JsValue =
    | Undefined
    | Null
    | Bool(b: bool)
    | Num(n: real)
    | Str(s: string)

  /** ToBoolean (section 9.2 of ECMA-262 5.1): undefined, null, false, 0 and "" are falsy,
      every other value is truthy. NaN is not a value of this model. */
  predicate Truthy(v: JsValue) {
    match v
    case Undefined => false
    case Null => false
    case Bool(b) => b
    case Num(n) => n != 0.0
    case Str(s) => s != ""
  }

  /** `a || b`: the first operand when it is truthy, the second otherwise. */
  function Or(a: JsValue, b: JsValue): JsValue {
    if Truthy(a) then a else b
  }

  /** `a !== undefined ? a : b`. */
  function IfDefined(a: JsValue, b: JsValue): JsValue {
    if a != Undefined then a else b
  }

  /** The two merge rules differ exactly on a supplied value that is falsy (0, "", false,
      null) and differs from the kept one: `||` keeps the old value, `!== undefined` takes
      the new one. A supplied 0 against a stored 5 is the typical case. */
  lemma MergeRulesDiffer(a: JsValue, b: JsValue)
    ensures Or(a, b) != IfDefined(a, b) <==> a != Undefined && !Truthy(a) && a != b
  {
  }

  /** A merge by `!== undefined` that is applied a second time with the same value changes
      nothing. */
  lemma IfDefinedIdempotent(a: JsValue, b: JsValue)
    ensures IfDefined(a, IfDefined(a, b)) == IfDefined(a, b)
  {
  }
}
