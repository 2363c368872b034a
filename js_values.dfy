/** The fragment of JavaScript value semantics that the cache guard relies on:
    truthiness, the value-returning `&&`, and `<` between a number and the
    values a slot field can hold. */
module JsValues {
  import opened Outcomes

  datatype JsValue = Null | Undefined | Bool(b: bool) | Number(n: int) | Str(s: string)

  /** ToBoolean: `null`, `undefined`, `false`, `0` and `""` are falsy. */
  predicate Truthy(v: JsValue) {
    match v
    case Null => false
    case Undefined => false
    case Bool(b) => b
    case Number(n) => n != 0
    case Str(s) => s != ""
  }

  /** `a && b` yields `a` when `a` is falsy and `b` otherwise. */
  function And(a: JsValue, b: JsValue): (r: JsValue)
    ensures Truthy(r) <==> Truthy(a) && Truthy(b)
    ensures !Truthy(a) ==> r == a
    ensures Truthy(a) ==> r == b
  {
    if Truthy(a) then b else a
  }

  /** `x < v` for a number `x`: `null` converts to 0 and `undefined` to NaN,
      against which every comparison is false. */
  function LessThan(x: int, v: JsValue): (r: JsValue)
    requires v.Null? || v.Undefined? || v.Number?
    ensures r.Bool?
    ensures v.Number? ==> (Truthy(r) <==> x < v.n)
    ensures v.Null? ==> (Truthy(r) <==> x < 0)
    ensures v.Undefined? ==> !Truthy(r)
  {
    match v
    case Null => Bool(x < 0)
    case Undefined => Bool(false)
    case Number(n) => Bool(x < n)
  }

  /** The JavaScript value held by an optional string (absent reads as `null`). */
  function OfString(s: Option<string>): JsValue {
    match s
    case None => Null
    case Some(t) => Str(t)
  }

  /** The JavaScript value held by an optional number (absent reads as `null`). */
  function OfNumber(n: Option<int>): JsValue {
    match n
    case None => Null
    case Some(k) => Number(k)
  }
}
