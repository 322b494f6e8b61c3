/** The handful of JavaScript values the driver exchanges with the hub and the
    controller. A JavaScript number is either finite or one of NaN, +Infinity,
    -Infinity; the model does not tell the three non-finite values apart,
    because every arithmetic operation the driver performs on any of them
    yields a non-finite value again. */
module Js {

  datatype Number = Finite(val: real) | NonFinite

  datatype JsValue =
    | JsBool(b: bool)
    | JsNum(n: Number)
    | JsStr(s: string)
    | JsNull
    | JsUndefined

  function Add(a: Number, b: Number): (r: Number)
    ensures r.Finite? <==> a.Finite? && b.Finite?
    ensures r.Finite? ==> r.val - b.val == a.val
  {
    if a.Finite? && b.Finite? then Finite(a.val + b.val) else NonFinite
  }

  function Sub(a: Number, b: Number): (r: Number)
    ensures r.Finite? <==> a.Finite? && b.Finite?
    ensures r.Finite? ==> r.val + b.val == a.val
  {
    if a.Finite? && b.Finite? then Finite(a.val - b.val) else NonFinite
  }

  function Mul(a: Number, b: Number): (r: Number)
    ensures r.Finite? <==> a.Finite? && b.Finite?
  {
    if a.Finite? && b.Finite? then Finite(a.val * b.val) else NonFinite
  }

  /** IEEE division: dividing by zero yields NaN or an infinity. */
  function Div(a: Number, b: Number): (r: Number)
    ensures r.Finite? <==> a.Finite? && b.Finite? && b.val != 0.0
    ensures r.Finite? ==> r.val * b.val == a.val
  {
    if a.Finite? && b.Finite? && b.val != 0.0 then Finite(a.val / b.val) else NonFinite
  }
}
