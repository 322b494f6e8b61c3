/** The sync engine of one paired controller (drivers/aurora/device.js):
    binding to the discovered endpoint, the poll step, the write-in-flight
    flag around a command batch, and the add/delete hooks. Hub calls
    (`setCapabilityValue`, `setAvailable`, …) and controller calls are
    recorded as effects in a trace instead of being performed. */
module Sync {
  import opened Wrappers
  import opened Js
  import opened Api
  import opened Capability
  import opened Commands
  import opened Discovery

  datatype Reason = Searching | Fault(error: ApiError)

  datatype Availability = Available | Unavailable(reason: Reason)

  /** One observable step of the device, in the order it happens. */
  datatype Effect =
    | FetchInfo
    | Push(cap: Cap, value: JsValue)
    | MarkAvailable
    | MarkUnavailable(reason: Reason)
    | Identify

  /** The device instance. `interval` is the handle kept in `_syncInterval`;
      `running` is the set of interval timers the runtime still fires for
      this device; `awaiting` says a one-shot `device:<id>` listener is
      registered. */
  datatype Device = Device(
    id: string,
    token: JsValue,
    api: Option<Connection>,
    info: Option<ControllerState>,
    added: bool,
    saving: bool,
    availability: Availability,
    caps: map<Cap, JsValue>,
    awaiting: bool,
    interval: Option<nat>,
    running: set<nat>,
    nextHandle: nat)

  /** What the controller answers during one poll: the `info()` result and,
      should the device flash, the `identify()` result. */
  datatype PollInput = PollInput(info: Result<ControllerState, ApiError>, identify: Outcome<ApiError>)

  /** The six `setCapabilityValue` calls of a successful poll, in order. */
  function Pushes(s: ControllerState): seq<Effect> {
    [ Push(OnOff, HubValue(s, OnOff)),
      Push(Dim, HubValue(s, Dim)),
      Push(LightHue, HubValue(s, LightHue)),
      Push(LightSaturation, HubValue(s, LightSaturation)),
      Push(LightTemperature, HubValue(s, LightTemperature)),
      Push(LightMode, HubValue(s, LightMode)) ]
  }

  /** The value the hub is given for capability `c` when the controller
      reports `s`. */
  function HubValue(s: ControllerState, c: Cap): JsValue {
    NanoleafToHomeyValue(ReadingFor(s, c))
  }

  /** The `catch` of the poll: a refused connection is ignored, anything
      else marks the device unavailable. */
  function Reject(d: Device, e: ApiError, trace: seq<Effect>): (Device, seq<Effect>) {
    if e.code == ConnectionRefused then (d, trace)
    else (d.(availability := Unavailable(Fault(e))), trace + [MarkUnavailable(Fault(e))])
  }

  /** The device once a fetch of `s` succeeded: info stored, available, and
      the hub's values replaced by the converted readings. */
  function Fetched(d: Device, s: ControllerState): Device {
    d.(info := Some(s), availability := Available, caps := d.caps + Snapshot(s))
  }

  /** The flash that follows the first successful poll after pairing. */
  function Flash(d: Device, trace: seq<Effect>, identify: Outcome<ApiError>): (Device, seq<Effect>) {
    match identify
    case Pass => (d.(added := false), trace + [Identify])
    case Fail(e) => Reject(d.(added := false), e, trace + [Identify])
  }

  /** `_sync`: one poll step. */
  function Poll(d: Device, input: PollInput): (Device, seq<Effect>) {
    if d.saving then (d, []) else Answer(d, input)
  }

  /** The handlers of the `info()` call a poll issued: they see the device
      as it is when the answer arrives, which may differ from the device at
      the tick (`onAdded` or a batch may have run in between). */
  function Answer(d: Device, input: PollInput): (Device, seq<Effect>) {
    match input.info
    case Failure(e) => Reject(d, e, [FetchInfo])
    case Success(s) =>
      var trace := [FetchInfo, MarkAvailable] + Pushes(s);
      if d.added then Flash(Fetched(d, s), trace, input.identify) else (Fetched(d, s), trace)
  }

  /** How often the device flashed in a trace. */
  function Identifies(trace: seq<Effect>): nat {
    multiset(trace)[Identify]
  }

  lemma IdentifiesAppend(a: seq<Effect>, b: seq<Effect>)
    ensures Identifies(a + b) == Identifies(a) + Identifies(b)
  {
    assert multiset(a + b) == multiset(a) + multiset(b);
  }

  lemma CapIsRegistered(c: Cap)
    ensures c in AllCaps
  {
  }

  /** A poll never touches the binding, the timers or the write flag, and
      the device stops being "just added" exactly when a fetch succeeds. While a write is in flight nothing is fetched or pushed. */
  lemma PollKeepsBinding(d: Device, input: PollInput)
    ensures d.saving ==> Poll(d, input) == (d, [])
    ensures var d' := Poll(d, input).0;
            && d'.saving == d.saving && d'.api == d.api && d'.awaiting == d.awaiting
            && d'.interval == d.interval && d'.running == d.running && d'.nextHandle == d.nextHandle
            && d'.added == (d.added && (d.saving || input.info.Failure?))
  {
  }

  /** The flash adds exactly one `Identify` after the trace so far, pushes
      nothing, and leaves the hub's values alone. */
  lemma FlashContract(d: Device, trace: seq<Effect>, identify: Outcome<ApiError>)
    ensures var (d', t') := Flash(d, trace, identify);
            && trace <= t'
            && Identifies(t') == Identifies(trace) + 1
            && (forall e :: e in t'[|trace|..] ==> !e.Push?)
            && d'.caps == d.caps && d'.info == d.info && !d'.added
            && (d'.availability == d.availability ||
                (identify.Fail? && identify.error.code != ConnectionRefused
                 && d'.availability == Unavailable(Fault(identify.error))))
  {
    IdentifiesAppend(trace, [Identify]);
    if identify.Fail? {
      IdentifiesAppend(trace + [Identify], [MarkUnavailable(Fault(identify.error))]);
    }
  }

  /** The shape of a successful poll: the fetch, the availability mark and
      the six pushes, then possibly the flash. */
  lemma PollSuccessShape(d: Device, input: PollInput)
    requires !d.saving && input.info.Success?
    ensures var s := input.info.value;
            var (d', t') := Poll(d, input);
            var trace := [FetchInfo, MarkAvailable] + Pushes(s);
            && trace <= t'
            && Identifies(trace) == 0
            && Identifies(t') == (if d.added then 1 else 0)
            && (forall e :: e in t'[|trace|..] ==> !e.Push?)
            && d'.caps == Fetched(d, s).caps && d'.info == Some(s)
            && (d'.availability == Available ||
                (d.added && input.identify.Fail? && input.identify.error.code != ConnectionRefused
                 && d'.availability == Unavailable(Fault(input.identify.error))))
  {
    var s := input.info.value;
    var trace := [FetchInfo, MarkAvailable] + Pushes(s);
    assert Identify !in trace;
    if d.added {
      FlashContract(Fetched(d, s), trace, input.identify);
    } else {
      assert Poll(d, input).1[|trace|..] == [];
    }
  }

  /** The device flashes in a poll exactly when it was just added and the
      fetch succeeded. */
  lemma PollIdentifies(d: Device, input: PollInput)
    ensures Identifies(Poll(d, input).1) == (if d.added && !d.saving && input.info.Success? then 1 else 0)
  {
    if !d.saving && input.info.Success? {
      PollSuccessShape(d, input);
    }
  }

  /** A successful fetch pushes every capability's converted value and
      nothing else, makes the hub's values those of the controller, and
      marks the device available, unless the flash that follows a pairing
      failed for a reason other than a refused connection. */
  lemma PollSucceeds(d: Device, input: PollInput)
    requires !d.saving && input.info.Success?
    ensures var s := input.info.value;
            var (d', trace) := Poll(d, input);
            && (forall c :: Push(c, HubValue(s, c)) in trace)
            && (forall e :: e in trace && e.Push? ==> e.value == HubValue(s, e.cap))
            && (forall c :: c in d'.caps && d'.caps[c] == HubValue(s, c))
            && d'.info == Some(s)
            && (d'.availability == Available ||
                (d.added && input.identify.Fail? && input.identify.error.code != ConnectionRefused
                 && d'.availability == Unavailable(Fault(input.identify.error))))
  {
    var s := input.info.value;
    PollSuccessShape(d, input);
    PushesCover(s, Poll(d, input).1);
    forall c
      ensures c in Poll(d, input).0.caps && Poll(d, input).0.caps[c] == HubValue(s, c)
    {
      CapIsRegistered(c);
    }
  }

  /** A trace that starts with a successful poll's pushes and pushes nothing
      after them holds the converted value of every capability, and only
      those. */
  lemma PushesCover(s: ControllerState, t: seq<Effect>)
    requires [FetchInfo, MarkAvailable] + Pushes(s) <= t
    requires forall e :: e in t[|[FetchInfo, MarkAvailable] + Pushes(s)|..] ==> !e.Push?
    ensures forall c :: Push(c, HubValue(s, c)) in t
    ensures forall e :: e in t && e.Push? ==> e.value == HubValue(s, e.cap)
  {
    var trace := [FetchInfo, MarkAvailable] + Pushes(s);
    assert t == trace + t[|trace|..];
    forall c
      ensures Push(c, HubValue(s, c)) in t
    {
      CapIsRegistered(c);
      assert Push(c, HubValue(s, c)) in Pushes(s);
      assert Push(c, HubValue(s, c)) in trace;
    }
  }

  /** A failed fetch leaves the hub's values alone. A refused connection is
      ignored entirely; any other error marks the device unavailable with
      that error. */
  lemma PollFails(d: Device, input: PollInput)
    requires !d.saving && input.info.Failure?
    ensures var e := input.info.error;
            var (d', trace) := Poll(d, input);
            && d'.caps == d.caps
            && (e.code == ConnectionRefused ==> d' == d && trace == [FetchInfo])
            && (e.code != ConnectionRefused ==>
                  d'.availability == Unavailable(Fault(e)) && trace == [FetchInfo, MarkUnavailable(Fault(e))])
  {
  }

  /** A run of poll steps. */
  function Polls(d: Device, inputs: seq<PollInput>): (Device, seq<Effect>)
    decreases |inputs|
  {
    if inputs == [] then (d, [])
    else
      var (d1, t1) := Poll(d, inputs[0]);
      var (d2, t2) := Polls(d1, inputs[1..]);
      (d2, t1 + t2)
  }

  /** However many polls run, the device flashes at most once, and never
      unless it was just added; while it is still "just added" it has not
      flashed yet. */
  lemma {:induction false} IdentifyAtMostOnce(d: Device, inputs: seq<PollInput>)
    ensures Identifies(Polls(d, inputs).1) <= (if d.added then 1 else 0)
    ensures Polls(d, inputs).0.added ==> d.added && Identifies(Polls(d, inputs).1) == 0
    decreases |inputs|
  {
    if inputs != [] {
      var (d1, t1) := Poll(d, inputs[0]);
      PollKeepsBinding(d, inputs[0]);
      PollIdentifies(d, inputs[0]);
      IdentifyAtMostOnce(d1, inputs[1..]);
      var (d2, t2) := Polls(d1, inputs[1..]);
      IdentifiesAppend(t1, t2);
    }
  }

  /** Why an outbound batch failed. `NotBound` is the TypeError of calling
      the API before the device was bound. */
  datatype BatchError = NotBound | CommandFailed(error: ApiError)

  /** `Promise.all` over the issued calls, given their outcomes in the order
      they settle: the batch fails with the first rejection. */
  function Settle(results: seq<Outcome<ApiError>>): (r: Outcome<ApiError>)
    ensures r.Pass? <==> forall i :: 0 <= i < |results| ==> results[i].Pass?
    ensures r.Fail? ==> exists i :: 0 <= i < |results| && results[i] == r && forall j :: 0 <= j < i ==> results[j].Pass?
  {
    if results == [] then Pass
    else if results[0].Fail? then results[0]
    else
      var r := Settle(results[1..]);
      assert forall i :: 1 <= i < |results| ==> results[i] == results[1..][i - 1];
      r
  }

  /** The first half of `_onCapabilityChange`: the batch (after the
      mode-only rewrite) is turned into commands, which are issued with the
      write flag raised. */
  function BeginBatch(d: Device, b: Batch): Result<(Device, seq<Command>), BatchError> {
    var cmds := CommandsFor(b, d.caps);
    if d.api.None? && cmds != [] then Failure(NotBound)
    else Success((d.(saving := true), cmds))
  }

  /** The second half: once every call has settled (or one has failed) the
      flag is lowered and the outcome passed on. */
  function FinishBatch(d: Device, results: seq<Outcome<ApiError>>): (Device, Outcome<BatchError>) {
    match Settle(results)
    case Pass => (d.(saving := false), Pass)
    case Fail(e) => (d.(saving := false), Fail(CommandFailed(e)))
  }

  /** `_onCapabilityChange` from start to end: the device afterwards, the
      commands issued, and what the caller sees. `results` are the outcomes
      of the issued commands in the order they settle. */
  function OnCapabilityChange(d: Device, b: Batch, results: seq<Outcome<ApiError>>): (Device, seq<Command>, Outcome<BatchError>)
    requires |results| == |CommandsFor(b, d.caps)|
  {
    match BeginBatch(d, b)
    case Failure(e) => (d, [], Fail(e))
    case Success((d1, cmds)) =>
      var (d2, out) := FinishBatch(d1, results);
      (d2, cmds, out)
  }

  /** After a batch the write flag is down whether every command succeeded or
      one failed; the batch fails exactly when some command failed, with the
      first failure, and nothing but the flag changes. */
  lemma BatchContract(d: Device, b: Batch, results: seq<Outcome<ApiError>>)
    requires d.api.Some? && |results| == |CommandsFor(b, d.caps)|
    ensures var (d', cmds, out) := OnCapabilityChange(d, b, results);
            && d' == d.(saving := false)
            && cmds == CommandsFor(b, d.caps)
            && (out.Pass? <==> forall i :: 0 <= i < |results| ==> results[i].Pass?)
            && (out.Fail? ==> exists i :: 0 <= i < |results| && results[i] == Fail(out.error.error)
                                          && forall j :: 0 <= j < i ==> results[j].Pass?)
  {
  }

  /** Before binding there is no API object: a batch that would issue a
      command throws at once, without raising the write flag or issuing
      anything, while a batch with nothing to send still succeeds. */
  lemma UnboundBatch(d: Device, b: Batch, results: seq<Outcome<ApiError>>)
    requires d.api.None? && |results| == |CommandsFor(b, d.caps)|
    ensures CommandsFor(b, d.caps) != [] ==> OnCapabilityChange(d, b, results) == (d, [], Fail(NotBound))
    ensures CommandsFor(b, d.caps) == [] ==> OnCapabilityChange(d, b, results) == (d.(saving := false), [], Pass)
  {
  }

  /** While a batch is in flight a poll tick neither fetches nor pushes, so
      it cannot overwrite the values being written. */
  lemma PollDuringWriteIsInert(d: Device, b: Batch, input: PollInput)
    requires BeginBatch(d, b).Success?
    ensures var d' := BeginBatch(d, b).value.0;
            Poll(d', input) == (d', [])
  {
  }

  /** Once the batch has settled the next poll runs again. */
  lemma PollAfterWriteRuns(d: Device, b: Batch, results: seq<Outcome<ApiError>>, input: PollInput)
    requires BeginBatch(d, b).Success? && |results| == |CommandsFor(b, d.caps)|
    ensures var d' := OnCapabilityChange(d, b, results).0;
            Poll(d', input).1 != []
  {
  }

  /** Timer bookkeeping: only the interval kept in `_syncInterval` can be
      running, and handles are never reused. */
  ghost predicate TimerInv(d: Device) {
    && (forall h :: h in d.running ==> d.interval == Some(h))
    && (d.interval.Some? ==> d.interval.value < d.nextHandle)
  }

  /** `_initNanoleafDevice`: connect to the endpoint, replace any poll timer
      by a fresh one, and poll once right away. */
  function Bind(d: Device, ep: Endpoint, first: PollInput): (Device, seq<Effect>) {
    Poll(Connect(d, ep), first)
  }

  /** The part of `_initNanoleafDevice` before its poll: the API object and
      the fresh interval timer. */
  function Connect(d: Device, ep: Endpoint): Device {
    var running := if d.interval.Some? then d.running - {d.interval.value} else d.running;
    d.(api := Some(Connection(ep.host, ep.port, d.token)),
       interval := Some(d.nextHandle),
       running := running + {d.nextHandle},
       nextHandle := d.nextHandle + 1)
  }

  /** Binding talks to the given endpoint with the stored token and leaves
      exactly one poll timer running, the old one (if any) cleared. */
  lemma BindStartsOneTimer(d: Device, ep: Endpoint, first: PollInput)
    requires TimerInv(d)
    ensures var (d', _) := Bind(d, ep, first);
            && TimerInv(d')
            && d'.api == Some(Connection(ep.host, ep.port, d.token))
            && d'.interval.Some? && d'.running == {d'.interval.value}
            && (d.interval.Some? ==> d.interval.value !in d'.running)
  {
    var running := if d.interval.Some? then d.running - {d.interval.value} else d.running;
    assert running == {};
    PollKeepsBinding(Connect(d, ep), first);
  }

  /** Homey calls `onAdded` right after `onInit` for a newly paired device,
      while the poll that binding started is still waiting for its answer:
      that answer sees the device as just added, so the very first poll
      flashes it. */
  lemma AddedDuringFirstPoll(d: Device, ep: Endpoint, input: PollInput)
    requires !d.saving && input.info.Success?
    ensures var (d', trace) := Answer(OnAdded(Connect(d, ep)), input);
            Identifies(trace) == 1 && !d'.added
  {
    var d1 := OnAdded(Connect(d, ep));
    PollIdentifies(d1, input);
    PollKeepsBinding(d1, input);
  }

  /** The write flag is tested only when the tick fires: a poll issued just
      before a batch raised it, and answered while the batch is in flight,
      still pushes every value it fetched, exactly as it would have without
      the batch. */
  lemma AnswerDuringWrite(d: Device, b: Batch, input: PollInput)
    requires !d.saving && BeginBatch(d, b).Success? && input.info.Success?
    ensures var d' := BeginBatch(d, b).value.0;
            var s := input.info.value;
            && Answer(d', input) == (Answer(d, input).0.(saving := true), Answer(d, input).1)
            && (forall c :: Push(c, HubValue(s, c)) in Answer(d', input).1)
  {
    PollSucceeds(d, input);
  }

  /** `onInit` once the driver is ready; `kept` are the capability values
      the hub kept from earlier runs. The device starts unavailable
      ("searching") and binds at once when the driver already knows its id,
      otherwise it waits for the one-shot `device:<id>` event. */
  function OnInit(id: string, token: JsValue, kept: map<Cap, JsValue>, store: Store, first: PollInput): (Device, seq<Effect>) {
    var d0 := Device(id, token, None, None, false, false, Unavailable(Searching), kept, false, None, {}, 0);
    match GetNanoleafDevice(store, id)
    case Some(ep) =>
      var (d1, trace) := Bind(d0, ep, first);
      (d1, [MarkUnavailable(Searching)] + trace)
    case None => (d0.(awaiting := true), [MarkUnavailable(Searching)])
  }

  /** The driver emits `device:<key>`: the listener for this id, if still
      registered, fires once and binds. */
  function OnFound(d: Device, ev: Found, first: PollInput): (Device, seq<Effect>) {
    if d.awaiting && ev.key == d.id then Bind(d.(awaiting := false), ev.endpoint, first)
    else (d, [])
  }

  /** `onAdded`: flash on the next successful poll. */
  function OnAdded(d: Device): Device {
    d.(added := true)
  }

  /** `onDeleted`: stop the poll timer. */
  function OnDeleted(d: Device): Device {
    if d.interval.Some? then d.(running := d.running - {d.interval.value}) else d
  }

  /** A firing of the poll timer. */
  function Tick(d: Device, input: PollInput): (Device, seq<Effect>) {
    if d.interval.Some? && d.interval.value in d.running then Poll(d, input) else (d, [])
  }

  /** Binding happens exactly once either way: immediately when the id is
      already known, otherwise on the first `device:<id>` event, after which
      further events are ignored. */
  lemma BindingIsOneShot(id: string, token: JsValue, kept: map<Cap, JsValue>, store: Store, first: PollInput, ev: Found, later: Found, next: PollInput)
    ensures id in store ==>
              var (d, _) := OnInit(id, token, kept, store, first);
              d.api == Some(Connection(store[id].host, store[id].port, token)) && !d.awaiting
              && OnFound(d, ev, next) == (d, [])
    ensures id !in store && ev.key == id ==>
              var (d0, _) := OnInit(id, token, kept, store, first);
              var (d1, _) := OnFound(d0, ev, next);
              && d0.api.None? && d0.awaiting && d0.running == {} && d0.caps == kept
              && d1.api == Some(Connection(ev.endpoint.host, ev.endpoint.port, token)) && !d1.awaiting
              && |d1.running| == 1
              && OnFound(d1, later, next) == (d1, [])
  {
    var d0 := Device(id, token, None, None, false, false, Unavailable(Searching), kept, false, None, {}, 0);
    assert TimerInv(d0);
    if id in store {
      BindStartsOneTimer(d0, store[id], first);
    } else if ev.key == id {
      var da := d0.(awaiting := true);
      assert TimerInv(da.(awaiting := false));
      BindStartsOneTimer(da.(awaiting := false), ev.endpoint, next);
      var (d1, _) := OnFound(da, ev, next);
      assert d1.running == {d1.interval.value};
    }
  }

  /** A device that was just added flashes on its first successful poll. */
  lemma AddedDeviceFlashes(d: Device, input: PollInput)
    requires !d.saving && input.info.Success?
    ensures Identifies(Poll(OnAdded(d), input).1) == 1
    ensures !Poll(OnAdded(d), input).0.added
  {
    PollIdentifies(OnAdded(d), input);
    PollKeepsBinding(OnAdded(d), input);
  }

  /** `onDeleted` does not remove the one-shot `device:<id>` listener: a
      device deleted while still waiting is bound by a later event, which
      starts a poll timer whose ticks poll again. */
  lemma DeletedWhileWaitingRebinds(d: Device, ep: Endpoint, first: PollInput, input: PollInput)
    requires TimerInv(d) && d.awaiting
    ensures var d' := OnFound(OnDeleted(d), Found(d.id, ep), first).0;
            && d'.api == Some(Connection(ep.host, ep.port, d.token))
            && d'.interval.Some? && d'.running == {d'.interval.value}
            && Tick(d', input) == Poll(d', input)
  {
    var gone := OnDeleted(d);
    assert TimerInv(gone.(awaiting := false));
    BindStartsOneTimer(gone.(awaiting := false), ep, first);
  }

  /** After deletion no timer is left and ticks do nothing, until a still
      registered `device:<id>` listener binds the device again. */
  lemma DeletedDeviceStopsPolling(d: Device, input: PollInput)
    requires TimerInv(d)
    ensures OnDeleted(d).running == {}
    ensures Tick(OnDeleted(d), input) == (OnDeleted(d), [])
  {
  }
}
