/** Inbound direction of the sync engine: the state a controller reports,
    and its mapping onto the hub's six light capabilities
    (`nanoleafToHomeyValue` in drivers/aurora/device.js). */
module Capability {
  import opened Js

  /** The capabilities the device registers, in the order it handles them. */
  datatype Cap = OnOff | Dim | LightHue | LightSaturation | LightTemperature | LightMode

  function Rank(c: Cap): nat {
    match c
    case OnOff => 0
    case Dim => 1
    case LightHue => 2
    case LightSaturation => 3
    case LightTemperature => 4
    case LightMode => 5
  }

  const AllCaps: set<Cap> := {OnOff, Dim, LightHue, LightSaturation, LightTemperature, LightMode}

  /** A ranged field as the controller reports it: `{value, min, max}`. */
  datatype Range = Range(value: real, min: real, max: real)

  /** The range is proper and the value lies inside it. */
  predicate InRange(r: Range) {
    r.min < r.max && r.min <= r.value <= r.max
  }

  /** `info.state`: `on` is the field `state.on.value`, which the controller
      is expected (but not guaranteed) to send as a boolean. */
  datatype ControllerState = ControllerState(
    on: JsValue,
    brightness: Range,
    hue: Range,
    sat: Range,
    ct: Range,
    colorMode: JsValue)

  /** One `(id, input)` pair handed to the mapping. */
  datatype Reading =
    | On(flag: JsValue)
    | ColorMode(mode: JsValue)
    | Brightness(range: Range)
    | Hue(range: Range)
    | Sat(range: Range)
    | Ct(range: Range)
  {
    predicate Ranged() {
      Brightness? || Hue? || Sat? || Ct?
    }
  }

  /** `(value - min) / (max - min)` in JavaScript arithmetic. */
  function Ratio(r: Range): Number {
    Div(Sub(Finite(r.value), Finite(r.min)), Sub(Finite(r.max), Finite(r.min)))
  }

  function NanoleafToHomeyValue(reading: Reading): JsValue
  {
    match reading
    case On(flag) => JsBool(flag == JsBool(true))
    case ColorMode(mode) =>
      if mode == JsStr("ct") then JsStr("temperature")
      else if mode == JsStr("hs") then JsStr("color")
      else JsNull
    case Brightness(r) => JsNum(Ratio(r))
    case Hue(r) => JsNum(Ratio(r))
    case Sat(r) => JsNum(Ratio(r))
    case Ct(r) => JsNum(Sub(Finite(1.0), Ratio(r)))
  }

  /** On/off is a strict boolean: only the boolean `true` switches it on. */
  lemma OnOffIsStrict(flag: JsValue)
    ensures var v := NanoleafToHomeyValue(On(flag));
            v.JsBool? && (v.b <==> flag == JsBool(true))
  {
  }

  /** Colour mode: `ct` is temperature, `hs` is colour, anything else is null. */
  lemma ColorModeMapping(mode: JsValue)
    ensures var v := NanoleafToHomeyValue(ColorMode(mode));
            && (v == JsStr("temperature") <==> mode == JsStr("ct"))
            && (v == JsStr("color") <==> mode == JsStr("hs"))
            && (v == JsNull <==> mode != JsStr("ct") && mode != JsStr("hs"))
  {
  }

  /** Ranged fields become a ratio against the reported range: in [0, 1] for
      a value inside a proper range, with the range's ends on 0 and 1
      (reversed for colour temperature); a degenerate range divides by zero. */
  lemma RangedMapping(reading: Reading)
    requires reading.Ranged()
    ensures var v := NanoleafToHomeyValue(reading);
            var r := reading.range;
            && v.JsNum?
            && (r.min == r.max ==> v.n == NonFinite)
            && (InRange(r) ==> v.n.Finite? && 0.0 <= v.n.val <= 1.0)
            && (!reading.Ct? && r.min < r.max && r.value == r.min ==> v.n == Finite(0.0))
            && (!reading.Ct? && r.min < r.max && r.value == r.max ==> v.n == Finite(1.0))
            && (reading.Ct? && r.min < r.max && r.value == r.min ==> v.n == Finite(1.0))
            && (reading.Ct? && r.min < r.max && r.value == r.max ==> v.n == Finite(0.0))
            && (!reading.Ct? && r.min < r.max ==> r.min + v.n.val * (r.max - r.min) == r.value)
            && (reading.Ct? && r.min < r.max ==> r.max - v.n.val * (r.max - r.min) == r.value)
  {
    RatioBounds(reading.range);
  }

  /** Colour temperature is the mirror image of the plain ratio: on the
      same proper range the two values add up to one. */
  lemma CtMirrorsRatio(r: Range)
    requires r.min < r.max
    ensures NanoleafToHomeyValue(Ct(r)).n.Finite? && NanoleafToHomeyValue(Brightness(r)).n.Finite?
    ensures NanoleafToHomeyValue(Ct(r)).n.val + NanoleafToHomeyValue(Brightness(r)).n.val == 1.0
  {
    RatioBounds(r);
  }

  /** The normalised ratio of a proper range lies in [0, 1], with the
      endpoints of the range landing on 0 and 1. */
  lemma RatioBounds(r: Range)
    ensures r.min == r.max ==> Ratio(r) == NonFinite
    ensures r.min < r.max ==> Ratio(r).Finite?
    ensures InRange(r) ==> 0.0 <= Ratio(r).val <= 1.0
    ensures r.min < r.max && r.value == r.min ==> Ratio(r) == Finite(0.0)
    ensures r.min < r.max && r.value == r.max ==> Ratio(r) == Finite(1.0)
    ensures r.min < r.max ==> r.min + Ratio(r).val * (r.max - r.min) == r.value
  {
    if r.min < r.max {
      var q := Ratio(r).val;
      var d := r.max - r.min;
      assert q * d == r.value - r.min;
      if InRange(r) {
        PositiveFactor(q, d);
        PositiveFactor(1.0 - q, d);
        PositiveFactor(q - 1.0, d);
        PositiveFactor(-q, d);
        assert (1.0 - q) * d == r.max - r.value;
      }
    }
  }

  lemma PositiveFactor(x: real, d: real)
    requires d > 0.0
    ensures x * d >= 0.0 ==> x >= 0.0
  {
    if x < 0.0 {
      assert x * d < 0.0;
    }
  }

  /** The reading of `state` that feeds capability `c`. */
  function ReadingFor(s: ControllerState, c: Cap): Reading {
    match c
    case OnOff => On(s.on)
    case Dim => Brightness(s.brightness)
    case LightHue => Hue(s.hue)
    case LightSaturation => Sat(s.sat)
    case LightTemperature => Ct(s.ct)
    case LightMode => ColorMode(s.colorMode)
  }

  /** The capability values one successful poll pushes to the hub. */
  function Snapshot(s: ControllerState): (m: map<Cap, JsValue>)
    ensures m.Keys == AllCaps
    ensures forall c :: c in m ==> m[c] == NanoleafToHomeyValue(ReadingFor(s, c))
  {
    map[OnOff := NanoleafToHomeyValue(On(s.on)),
        Dim := NanoleafToHomeyValue(Brightness(s.brightness)),
        LightHue := NanoleafToHomeyValue(Hue(s.hue)),
        LightSaturation := NanoleafToHomeyValue(Sat(s.sat)),
        LightTemperature := NanoleafToHomeyValue(Ct(s.ct)),
        LightMode := NanoleafToHomeyValue(ColorMode(s.colorMode))]
  }
}
