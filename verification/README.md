# Nanoleaf light panels for Homey — a Dafny model of the driver core

The driver connects Nanoleaf Aurora controllers to a Homey hub. This project
models its functional core:

- **Capability mapping** (`Capability`): `nanoleafToHomeyValue`, the inbound
  conversion of the state a controller reports (`on`, `brightness`, `hue`,
  `sat`, `ct`, `colorMode`) into the hub's six light capabilities.
- **Command mediation** (`Commands`): `_onCapabilityChange` turns a debounced
  batch of capability values into controller commands. A batch holding only
  `light_mode` becomes a resend of the current hue or colour temperature.
  Values are scaled back with the fixed bounds: ×100 for brightness and
  saturation, ×360 for hue, and 1200–6500 K for temperature.
- **Sync engine** (`Sync`): the per-device state record, covering:
  - the poll step `_sync`;
  - the `_saving` flag around a batch;
  - the binding to a discovered endpoint (`onInit` and `_initNanoleafDevice`);
  - the poll timer;
  - the `onAdded` and `onDeleted` hooks.

  Hub calls are recorded as effects in a trace: `setCapabilityValue`,
  `setAvailable`, `setUnavailable` and `identify`.
- **Discovery binder** (`Discovery`):
  - `parseTxt`;
  - the mDNS `update` handler: service filter, first-sighting dedup, one
    `device:<id>` event per id, and name stripping;
  - `getNanoleafDevice`;
  - `list_devices`.
- **Pairing coordinator** (`Pairing`): the `get_token` retry loop over a
  sequence of `newToken` outcomes.
- **Effect autocomplete** (`Autocomplete`): the case-insensitive substring
  filter of the `set_effect` flow card.

Two supporting modules model JavaScript behaviour:

- `Js` models numbers and values. A number is `Finite(real)` or `NonFinite`.
  NaN and the infinities are merged, because every operation the driver
  applies to them yields a non-finite value again.
- `Text` models `indexOf`, `split`, `replace` with a string pattern, and
  `toLowerCase`.

Real arithmetic makes the ratios exact.

Some code behaviour is easy to miss, so it is spelled out here:

- **Retry count.** The retry loop bumps its counter before it tests
  `numTries > 30` (drivers/aurora/driver.js:99,105), so an always-failing
  controller is asked **31** times before the loop gives up with `Timeout`.
- **Missing id.** An advertisement whose TXT record has no `id` is not
  dropped. It is filed under the property key `"undefined"`.
- **First occurrence only.** The stored name loses only the first
  occurrence of `._nanoleafapi._tcp.local`.
- **Degenerate range.** A reported range with `min == max` divides by zero.
  The hub then receives a non-finite number rather than an error.
- **Unbound device.** A batch that issues at least one command before the
  device is bound throws a TypeError, before the `_saving` flag is raised.
  A batch that issues no command resolves as usual.

## Model

| member | source | states |
|---|---|---|
| Capability.OnOffIsStrict | drivers/aurora/device.js:79 | on/off is a boolean, and it is true exactly when the reported `on` is the boolean `true` |
| Capability.ColorModeMapping | drivers/aurora/device.js:80-84 | `ct` maps to `temperature`, `hs` maps to `color`, and every other mode maps to null, each as an if-and-only-if |
| Capability.RangedMapping | drivers/aurora/device.js:85-90 | for any proper reported range, brightness, hue and saturation give the value v with min + v·(max − min) = value, and colour temperature the v with max − v·(max − min) = value; inside the range this lies in [0, 1], with min giving 0 and max giving 1 (reversed for colour temperature); a range with min == max gives a non-finite number |
| Capability.CtMirrorsRatio | drivers/aurora/device.js:85-90 | on the same proper range, the colour-temperature value and the plain ratio add up to 1 |
| Capability.RatioBounds | drivers/aurora/device.js:86 | `(value - min) / (max - min)` is finite for a proper range and is the q with min + q·(max − min) = value; it lies in [0, 1] when the value is inside the range, and is 0 at min and 1 at max |
| Capability.Snapshot | drivers/aurora/device.js:58-63 | a poll yields a value for each of the six capabilities and no others, each being the inbound conversion of the matching reading |
| Commands.ToKelvin | drivers/aurora/device.js:129-131 | temperature 0 becomes 6500 K and 1 becomes 1200 K; values in [0, 1] stay within 1200..6500 K; the result is finite iff the input is |
| Commands.CommandFor | drivers/aurora/device.js:113-131 | a capability value of the wrong type issues nothing; a correctly typed one issues one command for that capability, and reading that command back against the fixed bounds gives the value again |
| Commands.BatchCommandsContract | drivers/aurora/device.js:111-131 | every command of a batch stands for the batch's value of its capability; commands come in the order onoff, dim, hue, saturation, temperature with no capability twice; every correctly typed capability gets a command |
| Commands.RewriteIsStable | drivers/aurora/device.js:97-109 | the recursive call on a rewritten batch is not rewritten again, because a rewritten batch no longer holds `light_mode` |
| Commands.ModeOnlyBatchResendsChannel | drivers/aurora/device.js:97-108 | `{light_mode: color}` issues exactly the commands of `{light_hue: current hue}`, and `{light_mode: temperature}` exactly those of `{light_temperature: current temperature}` |
| Commands.ModeInMultiKeyBatchIgnored | drivers/aurora/device.js:97 | in a batch with other keys, `light_mode` adds no command: the batch issues what it issues without `light_mode` |
| Commands.InboundThenOutbound | drivers/aurora/device.js:111-131 | on the standard ranges (0..100, 0..360, 0..100, 1200..6500 K), sending a polled state straight back issues commands carrying exactly the reported levels, in order |
| Commands.OutboundThenInbound | drivers/aurora/device.js:85-131 | what the controller reports after a command with a finite level maps inbound to exactly the value the command stands for |
| Commands.BatchRoundTrip | drivers/aurora/device.js:85-131 | every command of a batch of finite values reads back, after the controller applies it, as the batch's own value for that capability |
| Sync.PollKeepsBinding | drivers/aurora/device.js:47-75 | while a write is in flight the poll fetches and pushes nothing; a poll never changes the connection, timers or write flag; the device stops being "just added" exactly when a fetch succeeds |
| Sync.PollIdentifies | drivers/aurora/device.js:65-68 | a poll flashes the device exactly when it was just added and the fetch succeeded |
| Sync.FlashContract | drivers/aurora/device.js:65-73 | the flash appends exactly one identify and pushes nothing; the device is no longer "just added"; a failed identify other than a refused connection marks it unavailable |
| Sync.PollSuccessShape | drivers/aurora/device.js:51-68 | a successful poll's trace is the fetch, the availability mark and the pushes, followed only by non-push effects; the hub values become the snapshot and the info is stored |
| Sync.PollSucceeds | drivers/aurora/device.js:51-68 | a successful fetch pushes every capability's converted value and nothing else, leaves each hub value equal to the controller's, and marks the device available unless the flash failed with a non-refusal error |
| Sync.PushesCover | drivers/aurora/device.js:58-63 | a trace that begins with a poll's six pushes and pushes nothing afterwards carries every capability's converted value, and only those values |
| Sync.PollFails | drivers/aurora/device.js:69-74 | a refused connection leaves the device unchanged; any other error marks it unavailable with that error; the hub values are untouched either way |
| Sync.IdentifyAtMostOnce | drivers/aurora/device.js:39-68 | over any run of polls the device flashes at most once, and only if it was just added; a device still "just added" afterwards has not flashed |
| Sync.AddedDeviceFlashes | drivers/aurora/device.js:39-41 | after `onAdded` the next successful poll flashes the device once and clears the flag |
| Sync.AddedDuringFirstPoll | drivers/aurora/device.js:39-68 | when `onAdded` runs while the poll started by binding awaits its answer, that answer flashes the device once and clears the flag |
| Sync.Settle | drivers/aurora/device.js:135 | the batch passes iff every command passed; otherwise it fails with the first rejection in settlement order |
| Sync.BatchContract | drivers/aurora/device.js:133-140 | after a batch the write flag is down whether the batch succeeded or failed; the failure reaching the caller is the first command failure; nothing else in the device changes |
| Sync.UnboundBatch | drivers/aurora/device.js:111-131 | before binding, a batch with a command throws without raising the flag or issuing anything, while an empty batch still resolves |
| Sync.PollDuringWriteIsInert | drivers/aurora/device.js:49 | once a batch has raised the write flag, a poll tick neither fetches nor pushes |
| Sync.PollAfterWriteRuns | drivers/aurora/device.js:135-139 | after the batch has settled, the next poll runs again |
| Sync.AnswerDuringWrite | drivers/aurora/device.js:49-63 | the flag is tested only at the tick: a poll issued before a batch raised it and answered during the batch pushes every fetched value, just as without the batch |
| Sync.BindStartsOneTimer | drivers/aurora/device.js:143-154 | binding connects to the endpoint with the stored token, clears the previous poll timer and leaves exactly one running |
| Sync.BindingIsOneShot | drivers/aurora/device.js:26-32 | a known id binds during init to its stored endpoint; an unknown id waits with the hub's kept values, binds on the first `device:<id>` event, and ignores later events |
| Sync.DeletedDeviceStopsPolling | drivers/aurora/device.js:43-45 | right after deletion no poll timer runs and timer ticks do nothing |
| Sync.DeletedWhileWaitingRebinds | drivers/aurora/device.js:31 | deletion leaves the one-shot `device:<id>` listener registered, so a device deleted while waiting is bound by a later event and polls again |
| Text.SplitJoin | drivers/aurora/driver.js:141 | `split` loses nothing: the segments contain no separator and joining them gives the input back |
| Text.IndexOf | drivers/aurora/driver.js:50 | the first position where the pattern occurs, or none when it occurs nowhere |
| Text.RemoveFirst | drivers/aurora/driver.js:26 | `replace` with a string pattern cuts out the first occurrence only, and leaves a string without it unchanged |
| Text.ToLower | drivers/aurora/driver.js:50 | lower-casing keeps the length and lowers each character |
| Discovery.ParseTxt | drivers/aurora/driver.js:137-139 | the result is null exactly when the TXT record is not an array |
| Discovery.AssignLastWriteWins | drivers/aurora/driver.js:142-144 | assigning pairs in order gives an object whose keys are exactly the pairs' keys, with each key holding the value of its last pair |
| Discovery.ParseTxtLastWriteWins | drivers/aurora/driver.js:140-145 | every entry's key is present and no other key is; a key's value comes from its last entry |
| Discovery.EntryShape | drivers/aurora/driver.js:141-143 | an entry without `=` is all key with an undefined value; otherwise the key is the text before the first `=` and the value is the `=`-free segment after it |
| Discovery.MissingIdFiledAsUndefined | drivers/aurora/driver.js:21-25 | an advertisement without an `id` entry is kept and filed under the key "undefined" |
| Discovery.DisplayNameContract | drivers/aurora/driver.js:26 | a name ending in the service suffix, and holding it nowhere earlier, loses exactly that ending; a name without the suffix is kept as is |
| Discovery.UpdateContract | drivers/aurora/driver.js:16-37 | a filtered-out advertisement or an already known id changes nothing and emits nothing; a new id adds its endpoint (stripped name, host and port of the advertisement), keeps every other entry, and emits one event carrying the stored endpoint |
| Discovery.RecordAllDeduplicates | drivers/aurora/driver.js:23-37 | over any stream of sightings, stored endpoints are never replaced; the new keys are exactly the keys of the events; each event carries the stored endpoint; no key is emitted twice |
| Discovery.RecordAllComplete | drivers/aurora/driver.js:23-37 | over any stream of sightings, every sighted key ends up stored; a key not stored before holds the endpoint of its first sighting; nothing unsighted is added |
| Discovery.UpdateAllComplete | drivers/aurora/driver.js:16-37 | over any stream of advertisements, every accepted advertisement's id ends up stored; a new id holds the endpoint of its first accepted advertisement; nothing else is added |
| Discovery.UpdateAllDeduplicates | drivers/aurora/driver.js:16-39 | both halves for advertisement streams: known endpoints are never replaced, each new id emits exactly one event carrying its stored endpoint, every accepted id is stored with its first advertisement's endpoint, and nothing else is stored |
| Discovery.SecondSightingIgnored | drivers/aurora/driver.js:23-37 | two advertisements of one id, even from different hosts, store the first endpoint and emit a single event |
| Discovery.DiscoveredLookup | drivers/aurora/driver.js:63-65 | after a stream of advertisements, a known id keeps its endpoint; a new id is found exactly when some accepted advertisement carried it, and what is found is the endpoint of the first such advertisement |
| Discovery.ListDevices | drivers/aurora/driver.js:71-83 | exactly one entry per stored id, in the key enumeration order, carrying that id, its stored name and a null token |
| Pairing.AttemptsContract | drivers/aurora/driver.js:94-115 | the loop stops at the first successful attempt and resolves with its token; otherwise it rejects with `Timeout` after 31 failed attempts |
| Pairing.UnknownDeviceIsRejected | drivers/aurora/driver.js:89-90 | an unknown id fails with `invalid_device` and makes no `newToken` attempt |
| Pairing.FirstSuccessWins | drivers/aurora/driver.js:98-124 | if attempt k (at most the 31st) is the first to succeed, pairing resolves with that token, the device's name and id after exactly k + 1 attempts |
| Pairing.AlwaysFailingTimesOut | drivers/aurora/driver.js:98-110 | a controller that never grants a token is given up on with `Timeout` after exactly 31 attempts |
| Autocomplete.FilterEffectsContract | drivers/aurora/driver.js:49-51 | the filter keeps exactly the effects whose lower-cased name contains the lower-cased query, each as often as it occurs, in their original order |
| Autocomplete.FilterEffectsCounts | drivers/aurora/driver.js:49-51 | a matching name occurs in the result as often as in the input, and a non-matching one not at all |
| Autocomplete.EmptyQueryKeepsAll | drivers/aurora/driver.js:49-51 | an empty query keeps every effect |
| Autocomplete.FilterIgnoresQueryCase | drivers/aurora/driver.js:50 | queries that differ only in letter case select the same effects |

## Left out

- Network I/O is not modelled:
  - the mDNS browser and its `ready`/`discover` wiring (drivers/aurora/driver.js:12-15);
  - the `nanoleaves` HTTP client, whose calls appear as abstract commands, `ApiError` outcomes and `PollInput` answers.
- Homey framework plumbing is not modelled:
  - capability registration and the 200 ms debounce (drivers/aurora/device.js:34), whose effect is only that a `Batch` is the set of values collected in one window;
  - flow card registration;
  - logging and the localised "searching" text;
  - `getData`/`getStore`.
- Real time is not modelled. `setInterval` becomes a timer handle and a `Tick`, with the 5000 ms period dropped. `setTimeout` becomes the next step of the retry recursion, with the 1000 ms pause dropped.
- Concurrency is simplified. A batch's command outcomes are given in the order they settle. An in-flight poll that completes after deletion is not modelled.
- Sync.Poll: a poll is one step (tick test plus answer). The two interleavings that matter are stated separately through `Sync.Answer`: `onAdded` arriving while a poll is in flight (`AddedDuringFirstPoll`), and a poll answered during a batch (`AnswerDuringWrite`). `Sync.Polls` and `IdentifyAtMostOnce` speak only of polls that do not overlap.
- Sync.OnInit: the first poll runs inside `onInit` as one step, with the device not yet "just added". For a newly paired device, Homey's `onAdded` lands while that poll is in flight, so in the source the first poll is the one that flashes. The model states this through `AddedDuringFirstPoll`, not through `OnInit`'s own result.
- After a successful listener call, Homey itself stores the new capability values. That is framework behaviour outside the driver, so in the model the hub values (`Device.caps`, read by the `light_mode` rewrite) change only through polls.
- `setRainbow`, `hslToRgb`, `getEffects` and `setEffect` are not modelled: they use `Math.random` and floating-point HSL arithmetic, or are plain passthroughs to the HTTP client. The autocomplete works on the effect names that `getEffects` would return.
- Floating point is not modelled: numbers are exact reals. Overflow and rounding are absent, and NaN and ±Infinity are one `NonFinite` value.
- `nanoleafToHomeyValue` with an unknown id returns `undefined`. The driver never calls it that way, and the model's `Reading` type has no such case.
- Text.ToLower: only the ASCII letters A–Z are lowered, because the Unicode case tables of `toLowerCase` are outside the model.
- Discovery.ListDevices: the order of the list is the store's key enumeration order, which is given as a parameter instead of following JavaScript's property-order rules.
- Discovery.IdKey: an id is kept as the string it is. Property keys that collide with `Object.prototype` members (such as `__proto__`) are not modelled.
- Advertisements are assumed well formed: `fullname` is a string, and `txt` entries and `query` items are strings.
