/** Outbound direction of the sync engine: a debounced batch of changed
    capability values becomes a list of controller commands
    (`_onCapabilityChange` in drivers/aurora/device.js). */
module Commands {
  import opened Js
  import opened Api
  import opened Capability

  /** The changed values of one debounced batch, keyed by capability. */
  type Batch = map<Cap, JsValue>

  /** Fixed controller bounds used when converting back (not the reported ones). */
  const BrightnessScale: real := 100.0
  const HueScale: real := 360.0
  const SaturationScale: real := 100.0
  const WarmestKelvin: real := 1200.0
  const CoolestKelvin: real := 6500.0

  /** `getCapabilityValue(c)`: the hub's current value, null when never set. */
  function CurrentValue(caps: map<Cap, JsValue>, c: Cap): JsValue {
    if c in caps then caps[c] else JsNull
  }

  /** The batch holds `c` with the JavaScript type its command needs
      (`typeof … === 'boolean'` for onoff, `'number'` otherwise);
      `light_mode` never yields a command. */
  predicate WellTyped(b: Batch, c: Cap) {
    c in b &&
    match c
    case OnOff => b[c].JsBool?
    case LightMode => false
    case _ => b[c].JsNum?
  }

  /** `1200 + (1 - t) * (6500 - 1200)` */
  function ToKelvin(t: Number): (k: Number)
    ensures k.Finite? <==> t.Finite?
    ensures t == Finite(0.0) ==> k == Finite(CoolestKelvin)
    ensures t == Finite(1.0) ==> k == Finite(WarmestKelvin)
    ensures t.Finite? && 0.0 <= t.val <= 1.0 ==> WarmestKelvin <= k.val <= CoolestKelvin
  {
    Add(Finite(WarmestKelvin), Mul(Sub(Finite(1.0), t), Finite(CoolestKelvin - WarmestKelvin)))
  }

  /** The capability a command realises. */
  function Target(cmd: Command): Cap {
    match cmd
    case TurnOn => OnOff
    case TurnOff => OnOff
    case SetBrightness(_) => Dim
    case SetHue(_) => LightHue
    case SetSaturation(_) => LightSaturation
    case SetTemperature(_) => LightTemperature
  }

  /** The capability value a command stands for, read against the fixed
      controller bounds: the inverse of the conversion `BatchCommands` applies. */
  function ReadBack(cmd: Command): JsValue {
    match cmd
    case TurnOn => JsBool(true)
    case TurnOff => JsBool(false)
    case SetBrightness(n) => JsNum(Div(n, Finite(BrightnessScale)))
    case SetHue(n) => JsNum(Div(n, Finite(HueScale)))
    case SetSaturation(n) => JsNum(Div(n, Finite(SaturationScale)))
    case SetTemperature(n) =>
      JsNum(Sub(Finite(1.0), Div(Sub(n, Finite(WarmestKelvin)), Finite(CoolestKelvin - WarmestKelvin))))
  }

  /** The command for one capability, or none when the value is not of the
      right type. */
  function CommandFor(b: Batch, c: Cap): (cmds: seq<Command>)
    ensures !WellTyped(b, c) ==> cmds == []
    ensures WellTyped(b, c) ==> |cmds| == 1 && Target(cmds[0]) == c && ReadBack(cmds[0]) == b[c]
  {
    if !WellTyped(b, c) then []
    else
      match c
      case OnOff => [if b[c].b then TurnOn else TurnOff]
      case Dim => [SetBrightness(Mul(b[c].n, Finite(BrightnessScale)))]
      case LightHue => [SetHue(Mul(b[c].n, Finite(HueScale)))]
      case LightSaturation => [SetSaturation(Mul(b[c].n, Finite(SaturationScale)))]
      case LightTemperature => [SetTemperature(ToKelvin(b[c].n))]
  }

  /** The capability the listener tests `k`-th (onoff, dim, hue, saturation,
      temperature). */
  function CapOfRank(k: nat): (c: Cap)
    requires k < 5
    ensures Rank(c) == k
  {
    [OnOff, Dim, LightHue, LightSaturation, LightTemperature][k]
  }

  /** The commands for the capabilities tested from the `k`-th on. */
  function CommandsFrom(b: Batch, k: nat): seq<Command>
    decreases 5 - k
  {
    if k >= 5 then [] else CommandFor(b, CapOfRank(k)) + CommandsFrom(b, k + 1)
  }

  /** The commands of one debounced batch (the five `typeof` tests in turn). */
  function BatchCommands(b: Batch): seq<Command> {
    CommandsFrom(b, 0)
  }

  /** Each command from the `k`-th test on targets a capability of rank at
      least `k` that the batch holds, and stands for the batch's value. */
  lemma {:induction false} CommandsFromSound(b: Batch, k: nat)
    ensures forall i :: 0 <= i < |CommandsFrom(b, k)| ==>
              var cmd := CommandsFrom(b, k)[i];
              k <= Rank(Target(cmd)) && Target(cmd) in b && ReadBack(cmd) == b[Target(cmd)]
    decreases 5 - k
  {
    if k < 5 {
      CommandsFromSound(b, k + 1);
      var head := CommandFor(b, CapOfRank(k));
      var rest := CommandsFrom(b, k + 1);
      assert CommandsFrom(b, k) == head + rest;
    }
  }

  /** The commands from the `k`-th test on are in strictly increasing rank. */
  lemma {:induction false} CommandsFromOrdered(b: Batch, k: nat)
    ensures forall i, j :: 0 <= i < j < |CommandsFrom(b, k)| ==>
              Rank(Target(CommandsFrom(b, k)[i])) < Rank(Target(CommandsFrom(b, k)[j]))
    decreases 5 - k
  {
    if k < 5 {
      CommandsFromSound(b, k + 1);
      CommandsFromOrdered(b, k + 1);
      var head := CommandFor(b, CapOfRank(k));
      var rest := CommandsFrom(b, k + 1);
      var cmds := head + rest;
      assert CommandsFrom(b, k) == cmds;
      if head == [] {
        assert cmds == rest;
      } else {
        forall i, j | 0 <= i < j < |cmds|
          ensures Rank(Target(cmds[i])) < Rank(Target(cmds[j]))
        {
          assert cmds[j] == rest[j - 1];
          if i > 0 {
            assert cmds[i] == rest[i - 1];
          }
        }
      }
    }
  }

  /** Every well-typed capability of rank at least `k` has a command. */
  lemma {:induction false} CommandsFromComplete(b: Batch, k: nat, c: Cap)
    requires k <= Rank(c) && WellTyped(b, c)
    ensures exists i :: 0 <= i < |CommandsFrom(b, k)| && Target(CommandsFrom(b, k)[i]) == c
    decreases 5 - k
  {
    var head := CommandFor(b, CapOfRank(k));
    var rest := CommandsFrom(b, k + 1);
    var cmds := head + rest;
    assert CommandsFrom(b, k) == cmds;
    if Rank(c) == k {
      assert c == CapOfRank(k);
      assert Target(cmds[0]) == c;
    } else {
      CommandsFromComplete(b, k + 1, c);
      var i :| 0 <= i < |rest| && Target(rest[i]) == c;
      assert Target(cmds[|head| + i]) == c;
    }
  }

  /** Exactly one command per well-typed capability, in the order onoff, dim,
      hue, saturation, temperature, each standing for the batch's value under
      the fixed bounds (so dim is scaled by 100, hue by 360, saturation by
      100, and temperature t becomes 1200 + (1 - t) * 5300 kelvin). */
  lemma BatchCommandsContract(b: Batch)
    ensures var cmds := BatchCommands(b);
            && (forall i :: 0 <= i < |cmds| ==> Target(cmds[i]) in b && ReadBack(cmds[i]) == b[Target(cmds[i])])
            && (forall i, j :: 0 <= i < j < |cmds| ==> Rank(Target(cmds[i])) < Rank(Target(cmds[j])))
            && (forall c {:trigger WellTyped(b, c)} :: WellTyped(b, c) ==>
                  exists i :: 0 <= i < |cmds| && Target(cmds[i]) == c)
  {
    CommandsFromSound(b, 0);
    CommandsFromOrdered(b, 0);
    forall c | WellTyped(b, c)
      ensures exists i :: 0 <= i < |BatchCommands(b)| && Target(BatchCommands(b)[i]) == c
    {
      assert BatchCommands(b) == CommandsFrom(b, 0);
      CommandsFromComplete(b, 0, c);
    }
  }

  /** A batch whose only key is `light_mode` with value `color` or
      `temperature` becomes a resend of the current hue or colour
      temperature; every other batch is kept. */
  function Rewrite(b: Batch, caps: map<Cap, JsValue>): Batch {
    if b.Keys == {LightMode} && b[LightMode] == JsStr("color") then
      map[LightHue := CurrentValue(caps, LightHue)]
    else if b.Keys == {LightMode} && b[LightMode] == JsStr("temperature") then
      map[LightTemperature := CurrentValue(caps, LightTemperature)]
    else b
  }

  /** The commands one call of the capability listener issues. */
  function CommandsFor(b: Batch, caps: map<Cap, JsValue>): seq<Command> {
    BatchCommands(Rewrite(b, caps))
  }

  /** The listener calls itself on the rewritten batch; rewriting a second
      time changes nothing, so that call issues the rewritten batch's
      commands directly. */
  lemma RewriteIsStable(b: Batch, caps: map<Cap, JsValue>)
    ensures Rewrite(Rewrite(b, caps), caps) == Rewrite(b, caps)
    ensures Rewrite(b, caps) != b ==> LightMode !in Rewrite(b, caps)
  {
    var r := Rewrite(b, caps);
    if r != b {
      assert LightMode !in r;
      assert r.Keys != {LightMode};
    }
  }

  /** Selecting colour mode resends the current hue; selecting temperature
      mode resends the current colour temperature. */
  lemma ModeOnlyBatchResendsChannel(caps: map<Cap, JsValue>)
    ensures CommandsFor(map[LightMode := JsStr("color")], caps)
         == CommandsFor(map[LightHue := CurrentValue(caps, LightHue)], caps)
    ensures CommandsFor(map[LightMode := JsStr("temperature")], caps)
         == CommandsFor(map[LightTemperature := CurrentValue(caps, LightTemperature)], caps)
  {
    assert map[LightMode := JsStr("color")].Keys == {LightMode};
    assert map[LightMode := JsStr("temperature")].Keys == {LightMode};
    RewriteIsStable(map[LightHue := CurrentValue(caps, LightHue)], caps);
    RewriteIsStable(map[LightTemperature := CurrentValue(caps, LightTemperature)], caps);
  }

  /** Inside a batch with other keys `light_mode` contributes nothing. */
  lemma ModeInMultiKeyBatchIgnored(b: Batch, caps: map<Cap, JsValue>)
    requires LightMode in b && |b.Keys| >= 2
    ensures CommandsFor(b, caps) == CommandsFor(b - {LightMode}, caps)
  {
    assert b.Keys != {LightMode};
    var b' := b - {LightMode};
    assert LightMode !in b';
    SameCommandsFrom(b, b', 0);
  }

  /** Batches that agree on every command-bearing capability issue the same
      commands. */
  lemma {:induction false} SameCommandsFrom(b: Batch, b': Batch, k: nat)
    requires forall c :: c != LightMode ==> CommandFor(b, c) == CommandFor(b', c)
    ensures CommandsFrom(b, k) == CommandsFrom(b', k)
    decreases 5 - k
  {
    if k < 5 {
      SameCommandsFrom(b, b', k + 1);
    }
  }

  /** Controller ranges the hub's fixed bounds assume. */
  predicate StandardRanges(s: ControllerState) {
    && s.brightness.min == 0.0 && s.brightness.max == BrightnessScale
    && s.hue.min == 0.0 && s.hue.max == HueScale
    && s.sat.min == 0.0 && s.sat.max == SaturationScale
    && s.ct.min == WarmestKelvin && s.ct.max == CoolestKelvin
  }

  /** Pushing a polled state straight back to the controller reproduces it:
      outbound(inbound(v)) = v on the documented ranges. */
  lemma {:induction false} InboundThenOutbound(s: ControllerState)
    requires StandardRanges(s)
    ensures BatchCommands(Snapshot(s))
         == [ if s.on == JsBool(true) then TurnOn else TurnOff,
              SetBrightness(Finite(s.brightness.value)),
              SetHue(Finite(s.hue.value)),
              SetSaturation(Finite(s.sat.value)),
              SetTemperature(Finite(s.ct.value)) ]
  {
    var m := Snapshot(s);
    var on := if s.on == JsBool(true) then TurnOn else TurnOff;
    var bri := SetBrightness(Finite(s.brightness.value));
    var hue := SetHue(Finite(s.hue.value));
    var sat := SetSaturation(Finite(s.sat.value));
    var ct := SetTemperature(Finite(s.ct.value));
    SnapshotCommand(s, OnOff);
    SnapshotCommand(s, Dim);
    SnapshotCommand(s, LightHue);
    SnapshotCommand(s, LightSaturation);
    SnapshotCommand(s, LightTemperature);
    UnrollCommandOrder(m, [on], [bri], [hue], [sat], [ct]);
    assert [on] + ([bri] + ([hue] + ([sat] + [ct]))) == [on, bri, hue, sat, ct];
  }

  /** The command the snapshot of a state yields for one capability. */
  lemma SnapshotCommand(s: ControllerState, c: Cap)
    requires StandardRanges(s) && c != LightMode
    ensures CommandFor(Snapshot(s), c) == match c
      case OnOff => [if s.on == JsBool(true) then TurnOn else TurnOff]
      case Dim => [SetBrightness(Finite(s.brightness.value))]
      case LightHue => [SetHue(Finite(s.hue.value))]
      case LightSaturation => [SetSaturation(Finite(s.sat.value))]
      case _ => [SetTemperature(Finite(s.ct.value))]
  {
    var m := Snapshot(s);
    assert c in m;
    match c
    case OnOff =>
    case Dim => ScaleRoundTrip(s.brightness.value, BrightnessScale);
    case LightHue => ScaleRoundTrip(s.hue.value, HueScale);
    case LightSaturation => ScaleRoundTrip(s.sat.value, SaturationScale);
    case LightTemperature =>
  }

  lemma UnrollCommandOrder(b: Batch, p0: seq<Command>, p1: seq<Command>, p2: seq<Command>, p3: seq<Command>, p4: seq<Command>)
    requires CommandFor(b, OnOff) == p0 && CommandFor(b, Dim) == p1 && CommandFor(b, LightHue) == p2
    requires CommandFor(b, LightSaturation) == p3 && CommandFor(b, LightTemperature) == p4
    ensures BatchCommands(b) == p0 + (p1 + (p2 + (p3 + p4)))
  {
    assert CommandsFrom(b, 5) == [];
    assert CommandsFrom(b, 4) == p4 + [];
    assert p4 + [] == p4;
    assert CommandsFrom(b, 3) == p3 + p4;
    assert CommandsFrom(b, 2) == p2 + (p3 + p4);
    assert CommandsFrom(b, 1) == p1 + (p2 + (p3 + p4));
  }

  /** Normalising against `0..scale` and scaling back is the identity. */
  lemma ScaleRoundTrip(x: real, scale: real)
    requires scale > 0.0
    ensures Mul(Ratio(Range(x, 0.0, scale)), Finite(scale)) == Finite(x)
  {
    var q := Ratio(Range(x, 0.0, scale));
    assert q.val * scale == x;
  }

  /** What the controller reports after executing a command with a finite
      level, on the documented ranges. */
  function Reported(cmd: Command): Reading
    requires !cmd.TurnOn? && !cmd.TurnOff? ==> cmd.level.Finite?
  {
    match cmd
    case TurnOn => On(JsBool(true))
    case TurnOff => On(JsBool(false))
    case SetBrightness(n) => Brightness(Range(n.val, 0.0, BrightnessScale))
    case SetHue(n) => Hue(Range(n.val, 0.0, HueScale))
    case SetSaturation(n) => Sat(Range(n.val, 0.0, SaturationScale))
    case SetTemperature(n) => Ct(Range(n.val, WarmestKelvin, CoolestKelvin))
  }

  /** inbound(outbound(t)) = t: the value a command stands for is exactly what
      the inbound mapping makes of the controller's report after it. */
  lemma OutboundThenInbound(cmd: Command)
    requires !cmd.TurnOn? && !cmd.TurnOff? ==> cmd.level.Finite?
    ensures NanoleafToHomeyValue(Reported(cmd)) == ReadBack(cmd)
  {
  }

  /** Corollary: every command of a batch of finite values is read back, after
      the controller applies it, as the batch's own value. */
  lemma {:induction false} BatchRoundTrip(b: Batch, i: nat)
    requires forall c :: c in b && b[c].JsNum? ==> b[c].n.Finite?
    requires i < |BatchCommands(b)|
    ensures var cmd := BatchCommands(b)[i];
            NanoleafToHomeyValue(Reported(cmd)) == b[Target(cmd)]
  {
    BatchCommandsContract(b);
    var cmd := BatchCommands(b)[i];
    assert ReadBack(cmd) == b[Target(cmd)];
    OutboundThenInbound(cmd);
  }
}
