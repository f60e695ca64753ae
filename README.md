# reParams parameter registry — a Dafny model

This project models the parameter registry of the reParams ESP32 library (`src/reParams.cpp`).
Application code registers values such as a number, a string or a time window under a
group and key. The registry does five things:

- restores each value from non-volatile storage (NVS) at registration;
- subscribes every value to an MQTT topic, either one topic per entry or a single
  `…/#` wildcard shared by all parameters;
- publishes the current value on a confirmation topic;
- routes each incoming MQTT message to the first entry whose topic matches, ignoring
  letter case;
- for a parameter, parses the payload, compares it with the current value and, when it
  differs, writes it, calls the change callback and saves it to NVS.

Two system entries handle other messages. The OTA entry downloads firmware and restarts
the device. The command entry restarts the device when it receives the reboot command.
The silent-mode window is a time range packed as `HHMMHHMM`. `silentModeCheck` turns
silent mode on or off according to it.

Layout:

- `opt.dfy`: the `Option` type.
- `case_insensitive.dfy`: the `strcasecmp` equality as `SameIgnoringCase`. It is an
  equivalence relation.
- `silent_mode.dfy`: the window arithmetic as pure functions, with the C integer
  conversions written out:
  - `uint16_t t1` keeps the low 16 bits;
  - `int16_t t0` wraps around in two's complement.

  The module statics `stateSilentMode` and `cbSilentMode` become the class `Monitor`.
- `params_model.dfy`: the registry's semantics as pure step functions
  `State -> State`, with the lemmas about them. A `State` holds:
  - the entry list;
  - the wildcard topic `_paramsTopic`;
  - the memory cells that entries point to;
  - the NVS store;
  - a log of every call to the outside world: NVS read/write, change callback,
    subscribe, unsubscribe, publish, OTA attempt, restart.
- `params_registry.dfy`: the C module as an imperative class `Registry`. Its fields
  are the module statics (`paramsList` as a sequence of entries, `_paramsTopic`, the
  log and so on). The loops of the source are `while` loops with invariants. Every
  method ensures that its new state is the model's step function applied to its old
  state.

The MQTT client, the topic builder `mqttGetTopic` and the value codec
(`string2value`, `equal2value`, `value2string`) are code outside the module. They
enter as oracle parameters: `Mqtt` (connected flag, topic builder, subscribe result)
and `Codec` (parse, equality, format). The OTA download result enters as
`succeeds: nat -> bool`, the result of the k-th attempt.

The model fixes one build configuration:

- `CONFIG_MQTT_PARAMS_CONFIRM_ENABLED`, `CONFIG_MQTT_OTA_ENABLE`,
  `CONFIG_MQTT_COMMAND_ENABLE` and `CONFIG_SILENT_MODE_ENABLE` are on;
- `CONFIG_MQTT_PARAMS_WILDCARD` is the field `Config.wildcard`, so both
  subscription modes are covered.

## Model

| member | source | states |
|---|---|---|
| ParamsModel.TrySubscribe | src/reParams.cpp:158-172 | a NULL topic fails without any MQTT call; otherwise exactly one subscribe is attempted, at the QoS truncated to `uint8_t`, and the result is the broker's answer |
| ParamsRegistry.Registry.SubscribeTry | src/reParams.cpp:158-172 | returns the outcome of `TrySubscribe` and appends exactly its calls to the log |
| ParamsModel.SubscribeEntryStep | src/reParams.cpp:174-210 | only the entry's topic changes. It is set to the built topic exactly when the subscription (own topic, or the wildcard for a parameter in wildcard mode) succeeds. A held wildcard is never replaced, and a newly held one was accepted by the broker. Only subscribe calls are added, and none for a parameter in wildcard mode once the wildcard is held |
| ParamsRegistry.Registry.SubscribeEntry | src/reParams.cpp:174-210 | the registry's new state is `SubscribeEntryStep` of its old state |
| ParamsModel.ConfirmStep | src/reParams.cpp:133-154 | only parameter entries publish. A parameter with memory gets the confirm topic, built once, lazily, and then kept. Only the entry's confirm field may change. The log gains exactly `ConfirmPublish`: one publication of the formatted value to that topic when the entry has memory and a topic could be built, and nothing otherwise |
| ParamsModel.ConfirmPublish | src/reParams.cpp:133-154 | at most one call. There is a publication exactly when the entry is a parameter with memory and its confirm topic can be built, and then it publishes the value formatted for the entry's type to that topic |
| ParamsModel.ConfirmTopicKept | src/reParams.cpp:133-154 | publishing twice keeps the entries and repeats exactly the same publication |
| ParamsRegistry.Registry.PublishConfirm | src/reParams.cpp:133-154 | the new state is `ConfirmStep` of the old state |
| ParamsModel.ReadStored | src/reParams.cpp:240 | the NVS read is logged, with whether the key was present. The cells become `RestoredCells`: the entry's cell takes the stored value when present, every other cell is kept, and nothing changes when the key is absent |
| ParamsModel.RestoredCells | src/reParams.cpp:240 | the cell set is kept and every other cell keeps its value. The entry's cell holds the stored value when the slot is in the store. Nothing changes when the slot is absent |
| ParamsModel.RestoreStep | src/reParams.cpp:239-255 | a parameter's restore changes the cells exactly as `RestoredCells`. The log gains the NVS read (with whether the key was present), then the change callback (if any), then, only when connected, the `ConfirmPublish` of the restored value. The entry's confirm topic is built exactly when connected and the entry has memory. The other entries, the wildcard and the store are untouched |
| ParamsModel.AppendStep | src/reParams.cpp:222-261 | registration appends exactly one entry at the tail and leaves the earlier entries alone. Apart from its topic and confirm fields, the new entry is the registered kind, type, callback, names, QoS and cell with nothing subscribed. The old log is kept as a prefix and the store is never written |
| ParamsModel.AppendNewEntry | src/reParams.cpp:237-260 | the new entry's topic is the built subscribe topic exactly when its subscription (own or wildcard) succeeds. Its confirm topic is built exactly for a connected parameter with memory. A parameter's cell is restored from the store (`RestoredCells`); other kinds leave the cells alone |
| ParamsModel.AppendValueTraffic | src/reParams.cpp:239-241 | as value traffic, registering a parameter adds exactly one NVS read of its group/key (with whether it was present) followed by its change callback (if any); other kinds add none |
| ParamsModel.AppendBrokerCalls | src/reParams.cpp:250-260 | after the restore and confirmation calls, registration only subscribes, to the entry's own topic or the wildcard. Without the wildcard it makes exactly the entry's own `TrySubscribe` calls |
| ParamsRegistry.Registry.Append | src/reParams.cpp:222-261 | the new state is `AppendStep` of the old state; the set of cells and the initialised flag are kept |
| ParamsRegistry.Registry.ReadStore | src/reParams.cpp:240 | the new state is `ReadStored` of the old state |
| ParamsRegistry.Registry.Restore | src/reParams.cpp:239-255 | the new state is `RestoreStep` of the old state |
| ParamsModel.RegisterAddsOneUnderSlot | src/reParams.cpp:222-238 | each registration adds one more entry under its group/key; duplicates are not rejected |
| ParamsModel.RegisterTwiceTwoEntries | src/reParams.cpp:222-238 | registering the same key twice yields two entries that share one NVS slot |
| ParamsModel.SystemRegistrations | src/reParams.cpp:88-104 | the registry registers three system entries, in this order: OTA, command, and the silent-mode time window |
| ParamsModel.InitStep | src/reParams.cpp:66-107 | initialisation appends exactly three entries at the tail. The registered entries become the old ones followed by the OTA, command and silent-mode entries of `SystemEntries`, and NVS is never written |
| ParamsRegistry.Registry.Init | src/reParams.cpp:66-107 | the new state is `InitStep` of the old state and the registry is initialised |
| ParamsModel.RegisterStep | src/reParams.cpp:212-264 | the first registration adds the three system entries and then the caller's entry; later ones add just the caller's entry. The registered entries become the old ones, then the system entries on the first call, then the caller's entry, which is last. NVS is never written |
| ParamsRegistry.Registry.Register | src/reParams.cpp:212-264 | the new state is `RegisterStep` of the old state |
| ParamsModel.SubscribingUpTo | src/reParams.cpp:453-471 | bulk subscribing keeps the number of entries, the cells and the store, and the old log as a prefix |
| ParamsModel.SubscribingKeepsSubscribed | src/reParams.cpp:462-465 | bulk subscribing changes no field except topics, leaves an entry that already has a topic alone, and does not reach entries past the bound |
| ParamsModel.SubscribingKeepsWildcard | src/reParams.cpp:186-199 | once the wildcard is held, bulk subscribing keeps it |
| ParamsModel.SubscribingWildcardHeld | src/reParams.cpp:186-199 | with the wildcard topic already held, bulk subscribing keeps the old log as a prefix and every call it adds is a subscription of one of the scanned entries that does not share the wildcard, to that entry's own topic, so `#` is never subscribed a second time |
| ParamsModel.SubscribingTopicMeansAccepted | src/reParams.cpp:186-207 | an entry that gains a topic gets the built topic, and its own subscription was accepted or the wildcard is held |
| ParamsModel.SubscribingOnlyPending | src/reParams.cpp:459-467 | every call bulk subscribing adds subscribes either the wildcard or the own topic of a scanned entry that had no topic, so entries already subscribed cause no broker traffic |
| ParamsRegistry.Registry.Subscribing | src/reParams.cpp:453-471 | the loop's result is `SubscribingUpTo` over all entries |
| ParamsModel.ConfirmationsUpTo | src/reParams.cpp:475-492 | bulk confirmation keeps the entry count, the wildcard, the cells and the store. It leaves the unscanned entries alone, and its log is the old log followed by `PendingConfirms`: one `ConfirmPublish` per scanned parameter without a confirm topic, in list order |
| ParamsModel.PendingConfirms | src/reParams.cpp:481-487 | bulk confirmation makes at most one call per scanned entry, and every call is a publication with a payload |
| ParamsModel.ConfirmationsOnlyConfirm | src/reParams.cpp:484-487 | bulk confirmation changes only confirm fields, never one that is already set, and none past the bound. Each scanned parameter with memory and no confirm topic gets `ConfirmTopic` |
| ParamsRegistry.Registry.Confirmations | src/reParams.cpp:475-492 | the loop's result is `ConfirmationsUpTo` over all entries |
| ParamsModel.OpenStep | src/reParams.cpp:496-505 | when disconnected nothing happens; otherwise the entry count, cells and store are kept |
| ParamsModel.OpenConfirmsAndSubscribes | src/reParams.cpp:496-505 | opening a connected session changes only the entries' topic and confirm fields. A parameter with memory and no confirm topic gets `ConfirmTopic`. Topics and confirm topics already held are kept. A topic gained is the entry's own subscribe topic, and without the wildcard it is exactly the outcome of the entry's own subscription. A held wildcard is kept, and so is the old log as a prefix |
| ParamsRegistry.Registry.SubscribesOpen | src/reParams.cpp:496-505 | the new state is `OpenStep` of the old state |
| ParamsModel.Cleared | src/reParams.cpp:524-528 | an entry's topic and confirm are dropped and every other field is kept |
| ParamsModel.ClearAll | src/reParams.cpp:521-529 | clears every entry pointwise, keeping the length |
| ParamsModel.CloseStep | src/reParams.cpp:507-535 | after close there is no wildcard, no entry has a topic or confirm, every other field is kept, and no call is made. In particular, no unsubscribe |
| ParamsModel.CloseIdempotent | src/reParams.cpp:507-535 | closing twice is the same as closing once |
| ParamsModel.SubscribingAfterCloseRetriesAll | src/reParams.cpp:453-471 | in per-entry mode, after close, bulk subscribing retries every entry, and each one's topic is exactly the result of its own attempt |
| ParamsRegistry.Registry.SubscribesClose | src/reParams.cpp:507-535 | the new state is `CloseStep` of the old state |
| ParamsModel.UnsubscribeAll | src/reParams.cpp:113-119 | freeing issues only unsubscribe calls |
| ParamsModel.UnsubscribeAllExact | src/reParams.cpp:113-119 | a topic is unsubscribed exactly when some entry holds it |
| ParamsModel.FreeStep | src/reParams.cpp:109-129 | freeing empties the list and logs the unsubscribes; the wildcard stays subscribed and cells and store are kept |
| ParamsRegistry.Registry.Free | src/reParams.cpp:109-129 | the loop's result is `FreeStep` of the old state |
| ParamsModel.FirstMatch | src/reParams.cpp:420-445 | returns the least index whose topic matches, ignoring case, or None exactly when no entry matches |
| ParamsModel.CompareAsWritten | src/reParams.cpp:423 | `strcasecmp` with an entry's NULL topic is undefined (None); otherwise it is the case-insensitive match |
| ParamsModel.ScanAsWritten | src/reParams.cpp:420-445 | the scan as written agrees with `FirstMatch` whenever it is defined. It is undefined exactly when a topic-less entry precedes every match |
| ParamsModel.NullTopicBeforeMatch | src/reParams.cpp:423 | a registry whose first entry has no topic yet makes the as-written scan undefined, even though the second entry matches |
| ParamsModel.FirstMatchIgnoresCase | src/reParams.cpp:423 | two topics that differ only in letter case select the same entry |
| ParamsRegistry.Registry.Lookup | src/reParams.cpp:420-445 | the loop returns `FirstMatch` of the entries and the topic |
| ParamsModel.AttemptsUsed | src/reParams.cpp:300-313 | the number of download attempts is between 1 and the configured maximum (at least 1, do-while). Every earlier attempt failed, and the last one succeeded or exhausted the limit |
| ParamsRegistry.DownloadAttempts | src/reParams.cpp:300-313 | the do-while loop stops at the first success or at the limit and returns exactly `AttemptsUsed` |
| ParamsModel.StartOtaStep | src/reParams.cpp:277-327 | an empty URL payload is ignored. Otherwise the old log is kept and followed by the topic reset (unsubscribe, empty retained publish, resubscribe at the OTA QoS), then exactly `AttemptsUsed` download attempts, then a restart whether or not the download succeeded. Entries, cells and store are unchanged |
| ParamsModel.ResetCalls | src/reParams.cpp:286-288 | a topic reset is exactly three calls: unsubscribe the topic, publish an empty message to it, subscribe it again at the given QoS |
| ParamsModel.OtaEmptyPayloadIgnored | src/reParams.cpp:279 | an empty message to the OTA topic leaves the whole state unchanged |
| ParamsRegistry.Registry.StartOta | src/reParams.cpp:277-327 | the new state is `StartOtaStep` of the old state |
| ParamsModel.ExecCmdStep | src/reParams.cpp:337-355 | the old log is kept and followed by the command topic's reset (unsubscribe, empty retained publish, resubscribe at the command QoS). After that comes a single restart exactly when the payload equals the reboot command, ignoring case, and nothing otherwise. Entries, cells and store are unchanged |
| ParamsModel.CommandRestartsOnlyOnReboot | src/reParams.cpp:349-352 | a message routed to the command entry restarts the device if and only if it is the reboot command, ignoring case |
| ParamsRegistry.Registry.ExecCmd | src/reParams.cpp:337-355 | the new state is `ExecCmdStep` of the old state |
| ParamsModel.SetValueStep | src/reParams.cpp:359-409 | only the target entry's confirm may change. An unparsable payload changes nothing at all |
| ParamsModel.Classify | src/reParams.cpp:364-367 | a payload is rejected exactly when it does not parse; otherwise the outcome carries the parsed value and is "same" exactly when the codec finds it equal to the current content |
| ParamsModel.WriteValue | src/reParams.cpp:380-387 | the entry's cell now holds the new value and the store holds it at the entry's slot; an entry without a live cell changes neither. Entries, wildcard and set of cells are kept, and the log gains the callback (if any) and then one NVS write of the written value |
| ParamsRegistry.Registry.Write | src/reParams.cpp:380-387 | the new state is `WriteValue` of the old state |
| ParamsModel.SetValueSameIsQuiet | src/reParams.cpp:364-375 | when the value is unparsable or equal, cells and store are unchanged and there is no NVS or callback traffic. An unparsable value adds no call. An equal value adds exactly the confirmation `ConfirmPublish` |
| ParamsModel.SetValueDiffersWrites | src/reParams.cpp:376-391 | a differing value is written to the cell. Then the callback runs (if any), then exactly one NVS write of that value, then exactly the confirmation `ConfirmPublish`. For a parameter whose confirm topic can be built, the last call publishes the new value to it |
| ParamsModel.SetValueTwiceIsQuiet | src/reParams.cpp:359-409 | with a reflexive codec equality, delivering the same payload twice writes nothing the second time |
| ParamsRegistry.Registry.SetValue | src/reParams.cpp:359-409 | the new state is `SetValueStep` of the old state |
| ParamsModel.IncomingStep | src/reParams.cpp:415-451 | a message that matches no entry changes nothing. Otherwise only the first matching entry can change, and the wildcard is kept |
| ParamsRegistry.Registry.IncomingMessage | src/reParams.cpp:415-451 | the new state is `IncomingStep` of the old state |
| CaseInsensitive.SameIgnoringCase | src/reParams.cpp:423 | two strings are equal ignoring case exactly when they have the same length and agree character by character after lowering |
| CaseInsensitive.Symmetric | src/reParams.cpp:423 | case-insensitive equality is symmetric |
| CaseInsensitive.Transitive | src/reParams.cpp:423 | case-insensitive equality is transitive |
| SilentMode.InWindow | src/reParams.cpp:556-559 | for a window with start < end, silent exactly when start ≤ now < end. Otherwise the window wraps past midnight: silent exactly when now ≥ start or now < end |
| SilentMode.ClockOfNormalisedTime | src/reParams.cpp:558 | for a valid time of day, the `int16_t` clock is exactly hour·100 + minute |
| SilentMode.Pack | src/reParams.cpp:556-557 | packing start and end as HHMMHHMM is undone by the window's start/end decoding |
| SilentMode.EmptyWindowAlwaysSilent | src/reParams.cpp:559 | a window whose start equals its end is silent all day |
| SilentMode.SwappedWindowIsComplement | src/reParams.cpp:559 | swapping start and end gives the complementary window at every time |
| SilentMode.NextMode | src/reParams.cpp:553-561 | a zero window leaves the mode alone; otherwise the mode follows the window |
| SilentMode.NextModeIdempotent | src/reParams.cpp:553-583 | checking twice at the same time changes nothing the second time |
| SilentMode.Monitor.Check | src/reParams.cpp:553-583 | the new state is `NextMode` of the old one. The callback receives the new mode only when the mode changed and a callback is installed |
| SilentMode.Monitor.IsSilentMode | src/reParams.cpp:543-546 | returns the stored mode |
| SilentMode.Monitor.SetCallback | src/reParams.cpp:548-551 | installs or clears the callback |

## Left out

- Logging (`rlog_*`), the system LED (`ledSys*`, including `ledSysSetEnabled` in
  `silentModeCheck`) and Telegram notifications (`tgSend`) have no effect on the
  registry's state and are not modelled.
- The value codec (`string2value`, `equal2value`, `value2string`, `setNewValue`) and the
  NVS back end are other modules. They are the `Codec` oracle and a map from
  group/key to bytes. Type-specific encodings, including the time-window type's string
  form, are not modelled. `src/rTypes.h` is not part of this model.
- The MQTT client and `mqttGetTopic` are the `Mqtt` oracle. Its subscribe answer is a
  fixed function of topic and QoS during one operation. QoS and retain flags of
  publications are not recorded.
- The mutex `OPTIONS_LOCK`, `vTaskSuspendAll`, task delays and concurrency: every public
  operation is one atomic step. Freeing the mutex in `paramsFree` is not modelled.
- Heap management: the model has no `free` or `new`. It therefore does not show:
  - the `_topic` that `paramsMqttSubscribeEntry` leaks when the wildcard subscription
    fails;
  - the `confirm` string of each entry, which `paramsFree` never frees
    (src/reParams.cpp:117-121 frees only `topic`);
  - the dangling `paramsList` pointer that `paramsFree` leaves behind. The model
    empties the list and keeps the `initialized` flag, so a later registration does
    not re-register the system entries.
- `ParamsModel.InitStep`: the failure paths of `paramsInit` (src/reParams.cpp:72-85) are
  not modelled. There, creating the mutex or allocating the list head fails and the
  function returns false. The model has no allocation, so initialisation always succeeds.
- Payloads are modelled as strings without embedded NUL characters. `strlen(payload) > 0`
  becomes "the payload is not empty", and the `len` argument is not used, as in the
  source.
- `ParamsModel.StartOtaStep`: the HTTPS client configuration and certificate are not
  modelled. Only the URL and the outcome of each attempt are modelled.
- `ParamsModel.AttemptsUsed`: `CONFIG_MQTT_OTA_ATTEMPTS` is taken as a `uint8`
  constant, so `tryUpdate` cannot wrap around.
- Only the kinds parameter, OTA and command exist. Every other kind in `param_kind_t`
  would take the parameter branch of `paramsMqttIncomingMessage`.
- `paramsMqttSubscribes` and `paramsMqttResetSubscribes` are declared in
  `include/reParams.h` but not defined in `src/reParams.cpp`, so they have no model.
- `tsSilentMode` is the `ts` parameter of `SilentMode.Monitor.Check`. Its link to the
  registered silent-mode parameter (the cell `Config.silentCell`) is by value, not by
  address.
- The build with `CONFIG_MQTT_PARAMS_CONFIRM_ENABLED` turned off is not modelled.

## Findings

| source | as written | input that shows it | evidently intended | confidence | as-written member | corrected member |
|---|---|---|---|---|---|---|
| src/reParams.cpp:423 | `strcasecmp(item->topic, topic)` is called for every entry, including entries whose `topic` is still NULL (not yet subscribed, or reset by `paramsMqttSubscribesClose`); `strcasecmp` with a NULL argument is undefined behaviour | an entry without a topic registered before an entry whose topic is `dev/params/x`, and a message arriving on `dev/params/x` | skip entries without a topic and deliver to the first entry whose topic matches | high, not executed | ParamsModel.NullTopicBeforeMatch | ParamsModel.FirstMatch |
