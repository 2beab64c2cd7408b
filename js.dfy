/** The JavaScript values a JSON request body can carry, and the truthiness
    rules the handlers rely on (`!x`, `!!x`, `??`). */
module Js {
  import opened Wrappers

  /** A field of a parsed JSON body. `Undefined` is a field that is absent;
      `Object` stands for any array or object, all of which are truthy. JSON
      has no NaN, so every number is a finite value. */
  datatype Value = Undefined | Null | Bool(b: bool) | Num(x: real) | Str(s: string) | Object

  /** JavaScript's ToBoolean. */
  predicate Truthy(v: Value)
  {
    match v
    case Undefined => false
    case Null => false
    case Bool(b) => b
    case Num(x) => x != 0.0
    case Str(s) => s != ""
    case Object => true
  }

  /** `Number(!!v)`: the 0/1 stored in the `done` column. */
  function Flag(v: Value): (r: int)
    ensures r == 0 || r == 1
    ensures r == 1 <==> Truthy(v)
  {
    if Truthy(v) then 1 else 0
  }

  /** A text field is truthy when it is present and non-empty; `None` stands
      for both `undefined` and `null`. */
  predicate Present(s: Option<string>)
    ensures Present(s) <==> s.Some? && s.value != ""
  {
    s.Some? && Truthy(Str(s.value))
  }

  /** `s ?? fallback`: only `undefined` and `null` fall back, so "" is kept. */
  function Coalesce(s: Option<string>, fallback: string): (r: string)
    ensures s.Some? ==> r == s.value
    ensures s.None? ==> r == fallback
  {
    if s.Some? then s.value else fallback
  }
}
