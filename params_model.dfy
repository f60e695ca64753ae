/** The parameter registry of reParams as a value: the list of entries, the shared wildcard
    topic, the memory the entries' value pointers point to, the persistent store and the log
    of calls made to the outside world. Every operation of the registry is a step function
    `State -> State` here; `ParamsRegistry.Registry` runs the same operations in place and is
    proved against these functions. */
module ParamsModel {
  import opened Opt
  import CaseInsensitive

  /** The bytes of a value cell; their meaning belongs to the value codec. */
  type Value = seq<bv8>
  /** Address of an externally owned value cell. */
  type CellRef = nat
  /** Identity of an `on_change` callback. */
  type CallbackId = nat

  newtype uint8 = x: int | 0 <= x < 0x100

  /** Conversion of an `int` to `uint8_t`: keeps the low 8 bits. */
  function ToUint8(x: int): (r: uint8)
    ensures 0 <= x < 0x100 ==> r as int == x
  {
    (x % 0x100) as uint8
  }

  /** `param_kind_t`: the kinds this registry branches on. */
  datatype Kind = Parameter | Ota | Command

  /** `param_type_t`: the two tags the registry itself uses, any other tag by its code. */
  datatype ValueType = StringType | TimespanType | OtherType(code: nat)

  /** Where the store keeps an entry's value: group and key. */
  datatype Slot = Slot(group: Option<string>, key: string)

  /** `paramsEntry_t`. `cell` is the `value` pointer, `topic` and `confirm` the heap-owned
      topic strings (None is NULL). */
  datatype Entry = Entry(
    kind: Kind,
    valueType: ValueType,
    onChange: Option<CallbackId>,
    friendly: string,
    group: Option<string>,
    key: string,
    qos: int,
    cell: Option<CellRef>,
    topic: Option<string>,
    confirm: Option<string>)
  {
    function StoreSlot(): Slot { Slot(group, key) }
  }

  /** The arguments of `paramsRegValue`. */
  datatype Registration = Registration(
    kind: Kind,
    valueType: ValueType,
    onChange: Option<CallbackId>,
    group: Option<string>,
    key: string,
    friendly: string,
    qos: int,
    cell: Option<CellRef>)

  /** A call made to a collaborator outside the registry, with the answer it gave. */
  datatype Call =
    | NvsRead(slot: Slot, found: bool)
    | NvsWrite(slot: Slot, written: Option<Value>)
    | OnChange(callback: CallbackId)
    | Subscribe(topic: string, qos: int, accepted: bool)
    | Unsubscribe(topic: string)
    | Publish(topic: string, payload: Option<string>)
    | OtaAttempt(url: string, succeeded: bool)
    | Restart

  /** The build-time configuration (`CONFIG_...` constants) the core depends on. */
  datatype Config = Config(
    paramsTopic: string,      // CONFIG_MQTT_PARAMS_TOPIC
    confirmTopic: string,     // CONFIG_MQTT_CONFIRM_TOPIC
    paramsQos: int,           // CONFIG_MQTT_PARAMS_QOS
    systemTopic: string,      // CONFIG_MQTT_SYSTEM_TOPIC
    otaTopic: string,         // CONFIG_MQTT_OTA_TOPIC
    otaName: string,          // CONFIG_MQTT_OTA_NAME
    otaQos: int,              // CONFIG_MQTT_OTA_QOS
    otaAttempts: uint8,       // CONFIG_MQTT_OTA_ATTEMPTS
    commandTopic: string,     // CONFIG_MQTT_COMMAND_TOPIC
    commandName: string,      // CONFIG_MQTT_COMMAND_NAME
    commandQos: int,          // CONFIG_MQTT_COMMAND_QOS
    rebootCommand: string,    // CONFIG_MQTT_CMD_REBOOT
    commonTopic: string,      // CONFIG_MQTT_COMMON_TOPIC
    silentTopic: string,      // CONFIG_SILENT_MODE_TOPIC
    silentName: string,       // CONFIG_SILENT_MODE_NAME
    silentCell: CellRef,      // &tsSilentMode
    wildcard: bool)           // CONFIG_MQTT_PARAMS_WILDCARD

  /** The MQTT client as seen during one operation: whether it is connected, the topic
      builder `mqttGetTopic` (None when it fails) and the answer `mqttSubscribe` gives. */
  datatype Mqtt = Mqtt(
    connected: bool,
    getTopic: (Option<string>, Option<string>, Option<string>) -> Option<string>,
    subscribe: (string, int) -> bool)

  /** The value codec: `string2value` (None when the text does not parse), `equal2value`
      and `value2string`. */
  datatype Codec = Codec(
    parse: (ValueType, string) -> Option<Value>,
    equal: (ValueType, Option<Value>, Value) -> bool,
    format: (ValueType, Value) -> string)

  /** Everything the registry reads and writes. */
  datatype State = State(
    entries: seq<Entry>,
    wildcard: Option<string>,
    cells: map<CellRef, Value>,
    store: map<Slot, Value>,
    calls: seq<Call>)

  /** Every value pointer of an entry points into memory. */
  ghost predicate CellsValid(entries: seq<Entry>, cells: map<CellRef, Value>)
  {
    forall i :: 0 <= i < |entries| && entries[i].cell.Some? ==> entries[i].cell.value in cells
  }

  /** What the entry's value pointer points to; None for a NULL pointer. */
  function Content(cells: map<CellRef, Value>, e: Entry): Option<Value>
  {
    if e.cell.Some? && e.cell.value in cells then Some(cells[e.cell.value]) else None
  }

  /** The calls that touch the value: store reads and writes and `on_change` calls. */
  function ValueTraffic(calls: seq<Call>): (r: seq<Call>)
    ensures forall c :: c in r <==> c in calls && (c.NvsRead? || c.NvsWrite? || c.OnChange?)
  {
    if calls == [] then []
    else
      var c := calls[|calls| - 1];
      ValueTraffic(calls[..|calls| - 1]) + (if c.NvsRead? || c.NvsWrite? || c.OnChange? then [c] else [])
  }

  lemma {:induction false} ValueTrafficAppend(a: seq<Call>, b: seq<Call>)
    ensures ValueTraffic(a + b) == ValueTraffic(a) + ValueTraffic(b)
    decreases |b|
  {
    if b == [] {
      assert a + b == a;
    } else {
      var b' := b[..|b| - 1];
      assert (a + b)[..|a + b| - 1] == a + b';
      ValueTrafficAppend(a, b');
    }
  }

  /** The calls that talk to the broker: subscribe, unsubscribe, publish. */
  predicate IsMqttCall(c: Call)
  {
    c.Subscribe? || c.Unsubscribe? || c.Publish?
  }

  /** The `on_change` call for an entry, if it has a callback. */
  function Notification(onChange: Option<CallbackId>): (r: seq<Call>)
    ensures |r| <= 1 && (r != [] <==> onChange.Some?)
    ensures forall c :: c in r ==> c.OnChange?
  {
    if onChange.Some? then [OnChange(onChange.value)] else []
  }

  // ---------------------------------------------------------------------------------------
  // Topics
  // ---------------------------------------------------------------------------------------

  /** The subscribe topic `paramsMqttSubscribeEntry` builds for an entry. */
  function SubscribeTopic(e: Entry, mqtt: Mqtt, config: Config): Option<string>
  {
    if e.kind == Parameter then mqtt.getTopic(Some(config.paramsTopic), e.group, Some(e.key))
    else mqtt.getTopic(e.group, Some(e.key), None)
  }

  /** The shared `#` topic of wildcard mode. */
  function WildcardTopic(mqtt: Mqtt, config: Config): Option<string>
  {
    mqtt.getTopic(Some(config.paramsTopic), Some("#"), None)
  }

  /** The answer of one `paramsMqttSubscribeTry` and the calls it made. */
  datatype Attempt = Attempt(ok: bool, calls: seq<Call>)

  /** `paramsMqttSubscribeTry`: a NULL topic fails without calling the broker; otherwise the
      broker's answer decides. */
  function TrySubscribe(topic: Option<string>, qos: int, mqtt: Mqtt): (r: Attempt)
    ensures topic.None? ==> !r.ok && r.calls == []
    ensures topic.Some? ==>
      r.ok == mqtt.subscribe(topic.value, ToUint8(qos) as int) &&
      r.calls == [Subscribe(topic.value, ToUint8(qos) as int, r.ok)]
  {
    if topic.None? then Attempt(false, [])
    else
      var q := ToUint8(qos) as int;
      var ok := mqtt.subscribe(topic.value, q);
      Attempt(ok, [Subscribe(topic.value, q, ok)])
  }

  /** Whether entry `e` goes through the shared wildcard subscription. */
  predicate UsesWildcard(e: Entry, config: Config)
  {
    config.wildcard && e.kind == Parameter
  }

  /** Whether `paramsMqttSubscribeEntry` will give entry `e` its topic, given the wildcard
      topic held before the call. */
  predicate SubscribeSucceeds(e: Entry, wildcard: Option<string>, mqtt: Mqtt, config: Config)
  {
    var t := SubscribeTopic(e, mqtt, config);
    t.Some? &&
    if UsesWildcard(e, config) then
      wildcard.Some? || TrySubscribe(WildcardTopic(mqtt, config), config.paramsQos, mqtt).ok
    else TrySubscribe(t, e.qos, mqtt).ok
  }

  /** `paramsMqttSubscribeEntry` for entry `i`. */
  function SubscribeEntryStep(s: State, i: nat, mqtt: Mqtt, config: Config): (r: State)
    requires i < |s.entries|
    ensures |r.entries| == |s.entries|
    ensures r.entries == s.entries[i := r.entries[i]]
    ensures r.entries[i].(topic := s.entries[i].topic) == s.entries[i]
    ensures r.entries[i].topic ==
      if SubscribeSucceeds(s.entries[i], s.wildcard, mqtt, config)
      then SubscribeTopic(s.entries[i], mqtt, config) else s.entries[i].topic
    ensures r.cells == s.cells && r.store == s.store
    ensures s.wildcard.Some? ==> r.wildcard == s.wildcard
    ensures r.wildcard != s.wildcard ==>
      r.wildcard == WildcardTopic(mqtt, config) && r.wildcard.Some? &&
      mqtt.subscribe(r.wildcard.value, ToUint8(config.paramsQos) as int)
    ensures |r.calls| >= |s.calls| && r.calls[..|s.calls|] == s.calls
    ensures SubscribeTopic(s.entries[i], mqtt, config).None? ==> r == s
    ensures s.wildcard.Some? && UsesWildcard(s.entries[i], config) ==> r.calls == s.calls
    ensures s.wildcard.None? && UsesWildcard(s.entries[i], config) && SubscribeTopic(s.entries[i], mqtt, config).Some? ==>
      r.calls == s.calls + TrySubscribe(WildcardTopic(mqtt, config), config.paramsQos, mqtt).calls
    ensures !UsesWildcard(s.entries[i], config) ==>
      r.calls == s.calls + TrySubscribe(SubscribeTopic(s.entries[i], mqtt, config), s.entries[i].qos, mqtt).calls
  {
    var e := s.entries[i];
    var t := SubscribeTopic(e, mqtt, config);
    if t.None? then s
    else if UsesWildcard(e, config) then
      if s.wildcard.None? then
        var w := WildcardTopic(mqtt, config);
        var a := TrySubscribe(w, config.paramsQos, mqtt);
        if a.ok then s.(entries := s.entries[i := e.(topic := t)], wildcard := w, calls := s.calls + a.calls)
        else s.(calls := s.calls + a.calls)
      else s.(entries := s.entries[i := e.(topic := t)])
    else
      var a := TrySubscribe(t, e.qos, mqtt);
      if a.ok then s.(entries := s.entries[i := e.(topic := t)], calls := s.calls + a.calls)
      else s.(calls := s.calls + a.calls)
  }

  /** The confirmation topic of an entry: the one it holds, or else a freshly built one
      (None when building fails). */
  function ConfirmTopic(e: Entry, mqtt: Mqtt, config: Config): (t: Option<string>)
    ensures e.confirm.Some? ==> t == e.confirm
  {
    if e.confirm.Some? then e.confirm else mqtt.getTopic(Some(config.confirmTopic), e.group, Some(e.key))
  }

  /** The publication a confirmation makes: the current value, formatted, on the
      confirmation topic; nothing for a non-PARAMETER, a missing value or a topic that
      cannot be built. */
  function ConfirmPublish(e: Entry, cells: map<CellRef, Value>, mqtt: Mqtt, codec: Codec, config: Config)
    : (r: seq<Call>)
    ensures |r| <= 1
    ensures r != [] <==>
      e.kind == Parameter && Content(cells, e).Some? && ConfirmTopic(e, mqtt, config).Some?
    ensures r != [] ==>
      r[0] == Publish(ConfirmTopic(e, mqtt, config).value, Some(codec.format(e.valueType, Content(cells, e).value)))
  {
    var v := Content(cells, e);
    var t := ConfirmTopic(e, mqtt, config);
    if e.kind == Parameter && v.Some? && t.Some?
    then [Publish(t.value, Some(codec.format(e.valueType, v.value)))]
    else []
  }

  /** `paramsMqttPublishConfirm` for entry `i`: only a PARAMETER with a value has a
      confirmation; its topic is built on first use and kept; the value is published when
      the topic exists. */
  function ConfirmStep(s: State, i: nat, mqtt: Mqtt, codec: Codec, config: Config): (r: State)
    requires i < |s.entries|
    ensures |r.entries| == |s.entries|
    ensures r.entries == s.entries[i := r.entries[i]]
    ensures r.entries[i].(confirm := s.entries[i].confirm) == s.entries[i]
    ensures s.entries[i].confirm.Some? ==> r.entries[i] == s.entries[i]
    ensures s.entries[i].kind != Parameter || Content(s.cells, s.entries[i]).None? ==> r == s
    ensures r.wildcard == s.wildcard && r.cells == s.cells && r.store == s.store
    ensures |r.calls| >= |s.calls| && r.calls[..|s.calls|] == s.calls
    ensures s.entries[i].kind == Parameter && Content(s.cells, s.entries[i]).Some? ==>
      r.entries[i].confirm == ConfirmTopic(s.entries[i], mqtt, config)
    ensures r.calls == s.calls + ConfirmPublish(s.entries[i], s.cells, mqtt, codec, config)
  {
    var e := s.entries[i];
    if e.kind != Parameter then s
    else
      var v := Content(s.cells, e);
      if v.None? then s
      else
        var c := if e.confirm.Some? then e.confirm
                 else mqtt.getTopic(Some(config.confirmTopic), e.group, Some(e.key));
        var s1 := s.(entries := s.entries[i := e.(confirm := c)]);
        if c.Some? then s1.(calls := s.calls + [Publish(c.value, Some(codec.format(e.valueType, v.value)))])
        else s1
  }

  /** Building the confirmation topic is lazy: a second confirmation reuses the topic the
      first one built and publishes to it again. */
  lemma ConfirmTopicKept(s: State, i: nat, mqtt: Mqtt, codec: Codec, config: Config)
    requires i < |s.entries|
    ensures var once := ConfirmStep(s, i, mqtt, codec, config);
      var twice := ConfirmStep(once, i, mqtt, codec, config);
      twice.entries == once.entries &&
      twice.calls == once.calls + once.calls[|s.calls|..]
  {
  }

  // ---------------------------------------------------------------------------------------
  // Registration
  // ---------------------------------------------------------------------------------------

  /** The entry `paramsRegValue` allocates, before anything is done with it. */
  function NewEntry(reg: Registration): Entry
  {
    Entry(reg.kind, reg.valueType, reg.onChange, reg.friendly, reg.group, reg.key, reg.qos,
      reg.cell, None, None)
  }

  /** The memory after `nvsRead` restores entry `e`: a stored value overwrites the cell
      `e` points to; a missing key or a missing cell leaves memory as it was. */
  function RestoredCells(cells: map<CellRef, Value>, store: map<Slot, Value>, e: Entry)
    : (r: map<CellRef, Value>)
    ensures r.Keys == cells.Keys
    ensures forall c :: c in cells && Some(c) != e.cell ==> r[c] == cells[c]
    ensures Content(cells, e).Some? && e.StoreSlot() in store ==> Content(r, e) == Some(store[e.StoreSlot()])
    ensures e.StoreSlot() !in store ==> r == cells
  {
    var k := e.StoreSlot();
    if k in store && e.cell.Some? && e.cell.value in cells then cells[e.cell.value := store[k]] else cells
  }

  /** `nvsRead` of entry `i`: the read is logged and the cell restored. */
  function ReadStored(s: State, i: nat): (r: State)
    requires i < |s.entries|
    ensures r.entries == s.entries && r.wildcard == s.wildcard && r.store == s.store
    ensures r.calls == s.calls + [NvsRead(s.entries[i].StoreSlot(), s.entries[i].StoreSlot() in s.store)]
    ensures r.cells == RestoredCells(s.cells, s.store, s.entries[i])
  {
    var e := s.entries[i];
    var k := e.StoreSlot();
    s.(cells := RestoredCells(s.cells, s.store, e), calls := s.calls + [NvsRead(k, k in s.store)])
  }

  /** A log that only grew by broker calls carries the same value traffic. */
  lemma MqttTailKeepsTraffic(before: seq<Call>, after: seq<Call>)
    requires |after| >= |before| && after[..|before|] == before
    requires forall c :: c in after[|before|..] ==> IsMqttCall(c)
    ensures ValueTraffic(after) == ValueTraffic(before)
  {
    var tail := after[|before|..];
    assert after == before + tail;
    ValueTrafficAppend(before, tail);
    NoValueTraffic(tail);
  }

  /** A run of broker calls contains no value traffic. */
  lemma {:induction false} NoValueTraffic(calls: seq<Call>)
    requires forall c :: c in calls ==> IsMqttCall(c)
    ensures ValueTraffic(calls) == []
  {
    if calls != [] {
      NoValueTraffic(calls[..|calls| - 1]);
    }
  }

  /** The PARAMETER part of `paramsRegValue` for the new entry `i`: restore it from the
      store, call its `on_change`, and publish its confirmation when connected. */
  function RestoreStep(s: State, i: nat, mqtt: Mqtt, codec: Codec, config: Config): (r: State)
    requires i < |s.entries|
    ensures |r.entries| == |s.entries|
    ensures r.entries == s.entries[i := r.entries[i]]
    ensures r.entries[i].(confirm := s.entries[i].confirm) == s.entries[i]
    ensures r.store == s.store && r.wildcard == s.wildcard
    ensures r.cells == RestoredCells(s.cells, s.store, s.entries[i])
    ensures |r.calls| >= |s.calls| && r.calls[..|s.calls|] == s.calls
    ensures ValueTraffic(r.calls) == ValueTraffic(s.calls) +
      [NvsRead(s.entries[i].StoreSlot(), s.entries[i].StoreSlot() in s.store)] + Notification(s.entries[i].onChange)
    ensures var e := s.entries[i];
      r.calls == s.calls + [NvsRead(e.StoreSlot(), e.StoreSlot() in s.store)] + Notification(e.onChange) +
        if mqtt.connected then ConfirmPublish(e, RestoredCells(s.cells, s.store, e), mqtt, codec, config) else []
    ensures var e := s.entries[i];
      r.entries[i].confirm ==
        if mqtt.connected && e.kind == Parameter && Content(s.cells, e).Some? then ConfirmTopic(e, mqtt, config)
        else e.confirm
  {
    var e := s.entries[i];
    var s1 := ReadStored(s, i);
    var s2 := s1.(calls := s1.calls + Notification(e.onChange));
    var r := if mqtt.connected then ConfirmStep(s2, i, mqtt, codec, config) else s2;
    assert s2.entries[i] == e;
    assert Content(s2.cells, e).Some? == Content(s.cells, e).Some?;
    RestoreTraffic(s.calls, NvsRead(e.StoreSlot(), e.StoreSlot() in s.store), e.onChange, s2.calls, r.calls);
    r
  }

  /** The value traffic of a restore: its own read and notification, then only broker calls. */
  lemma RestoreTraffic(before: seq<Call>, read: Call, onChange: Option<CallbackId>,
                       middle: seq<Call>, after: seq<Call>)
    requires read.NvsRead?
    requires middle == before + [read] + Notification(onChange)
    requires |after| >= |middle| && after[..|middle|] == middle
    requires forall c :: c in after[|middle|..] ==> IsMqttCall(c)
    ensures |after| >= |before| && after[..|before|] == before
    ensures ValueTraffic(after) == ValueTraffic(before) + [read] + Notification(onChange)
  {
    var effects := [read] + Notification(onChange);
    assert middle == before + effects;
    assert middle[..|before|] == before;
    PrefixTrans(before, middle, after);
    MqttTailKeepsTraffic(middle, after);
    ValueTrafficAppend(before, effects);
    EffectsAreValueTraffic(read, onChange);
  }

  /** A read followed by a notification is value traffic through and through. */
  lemma EffectsAreValueTraffic(read: Call, onChange: Option<CallbackId>)
    requires read.NvsRead?
    ensures ValueTraffic([read] + Notification(onChange)) == [read] + Notification(onChange)
  {
    assert ValueTraffic([read]) == [read] by {
      assert [read][..0] == [];
    }
    if onChange.Some? {
      var effects := [read] + Notification(onChange);
      assert effects[..1] == [read];
    }
  }

  /** The calls registration makes before it subscribes: for a PARAMETER the store read,
      its `on_change` and, when connected, the confirmation of the restored value. */
  function RegisterEffects(s: State, reg: Registration, mqtt: Mqtt, codec: Codec, config: Config): seq<Call>
  {
    var e := NewEntry(reg);
    if reg.kind == Parameter then
      [NvsRead(e.StoreSlot(), e.StoreSlot() in s.store)] + Notification(reg.onChange) +
        if mqtt.connected then ConfirmPublish(e, RestoredCells(s.cells, s.store, e), mqtt, codec, config) else []
    else []
  }

  /** The confirmation topic registration gives a new entry: built only for a PARAMETER
      with memory, and only when connected. */
  function RegisterConfirm(s: State, reg: Registration, mqtt: Mqtt, config: Config): Option<string>
  {
    if reg.kind == Parameter && mqtt.connected && Content(s.cells, NewEntry(reg)).Some?
    then ConfirmTopic(NewEntry(reg), mqtt, config) else None
  }

  /** `paramsRegValue` once the list exists: append the entry at the tail; for a
      PARAMETER restore it from the store, call its `on_change`, and publish the
      confirmation when connected; then try to subscribe it. What the new entry's topics
      and the memory become is stated by `AppendNewEntry`, its value traffic by
      `AppendValueTraffic`, its broker calls by `AppendBrokerCalls`. */
  function AppendStep(s: State, reg: Registration, mqtt: Mqtt, codec: Codec, config: Config): (r: State)
    ensures |r.entries| == |s.entries| + 1 && r.entries[..|s.entries|] == s.entries
    ensures r.entries[|s.entries|].(topic := None, confirm := None) == NewEntry(reg)
    ensures r.store == s.store
    ensures |r.calls| >= |s.calls| && r.calls[..|s.calls|] == s.calls
  {
    var i := |s.entries|;
    var s1 := s.(entries := s.entries + [NewEntry(reg)]);
    var s2 := if reg.kind == Parameter then RestoreStep(s1, i, mqtt, codec, config) else s1;
    var r := SubscribeEntryStep(s2, i, mqtt, config);
    AppendPrepared(s, s1, s2, reg, mqtt, codec, config);
    AppendSubscribed(s, s2, r, reg, mqtt, codec, config);
    AppendCalls(s, r, reg, mqtt, codec, config);
    r
  }

  /** The entry registration appends gets a topic only when its subscription (or the
      wildcard's) is accepted, and a confirmation topic only for a PARAMETER with memory
      registered while connected; a PARAMETER's cell is restored from the store, and
      other kinds leave memory alone. */
  lemma AppendNewEntry(s: State, reg: Registration, mqtt: Mqtt, codec: Codec, config: Config)
    ensures var r := AppendStep(s, reg, mqtt, codec, config);
      r.entries[|s.entries|].topic ==
        (if SubscribeSucceeds(NewEntry(reg), s.wildcard, mqtt, config) then SubscribeTopic(NewEntry(reg), mqtt, config) else None) &&
      r.entries[|s.entries|].confirm ==
        (if reg.kind == Parameter && mqtt.connected && Content(s.cells, NewEntry(reg)).Some?
         then ConfirmTopic(NewEntry(reg), mqtt, config) else None) &&
      r.cells == if reg.kind == Parameter then RestoredCells(s.cells, s.store, NewEntry(reg)) else s.cells
  {
    var i := |s.entries|;
    var s1 := s.(entries := s.entries + [NewEntry(reg)]);
    var s2 := if reg.kind == Parameter then RestoreStep(s1, i, mqtt, codec, config) else s1;
    var r := SubscribeEntryStep(s2, i, mqtt, config);
    assert r == AppendStep(s, reg, mqtt, codec, config);
    AppendPrepared(s, s1, s2, reg, mqtt, codec, config);
    AppendSubscribed(s, s2, r, reg, mqtt, codec, config);
  }

  /** Registration reads the store and calls `on_change` once for a PARAMETER, and
      makes no value traffic at all for the other kinds. */
  lemma AppendValueTraffic(s: State, reg: Registration, mqtt: Mqtt, codec: Codec, config: Config)
    ensures ValueTraffic(AppendStep(s, reg, mqtt, codec, config).calls) == ValueTraffic(s.calls) +
      if reg.kind == Parameter
      then [NvsRead(Slot(reg.group, reg.key), Slot(reg.group, reg.key) in s.store)] + Notification(reg.onChange)
      else []
  {
    var i := |s.entries|;
    var s1 := s.(entries := s.entries + [NewEntry(reg)]);
    var s2 := if reg.kind == Parameter then RestoreStep(s1, i, mqtt, codec, config) else s1;
    var r := SubscribeEntryStep(s2, i, mqtt, config);
    assert r == AppendStep(s, reg, mqtt, codec, config);
    AppendPrepared(s, s1, s2, reg, mqtt, codec, config);
    AppendSubscribed(s, s2, r, reg, mqtt, codec, config);
    AppendCalls(s, r, reg, mqtt, codec, config);
  }

  /** The broker calls of a registration: the registration effects (store read,
      `on_change`, confirmation when connected), then only the new entry's own
      subscription or the wildcard's; outside wildcard mode exactly its own attempt. */
  lemma AppendBrokerCalls(s: State, reg: Registration, mqtt: Mqtt, codec: Codec, config: Config)
    ensures var r := AppendStep(s, reg, mqtt, codec, config);
      var pre := s.calls + RegisterEffects(s, reg, mqtt, codec, config);
      |r.calls| >= |pre| && r.calls[..|pre|] == pre &&
      forall c :: c in r.calls[|pre|..] ==>
        c.Subscribe? && (Some(c.topic) == SubscribeTopic(NewEntry(reg), mqtt, config) || Some(c.topic) == WildcardTopic(mqtt, config))
    ensures !UsesWildcard(NewEntry(reg), config) ==>
      AppendStep(s, reg, mqtt, codec, config).calls == s.calls + RegisterEffects(s, reg, mqtt, codec, config) +
        TrySubscribe(SubscribeTopic(NewEntry(reg), mqtt, config), reg.qos, mqtt).calls
  {
    var i := |s.entries|;
    var s1 := s.(entries := s.entries + [NewEntry(reg)]);
    var s2 := if reg.kind == Parameter then RestoreStep(s1, i, mqtt, codec, config) else s1;
    var r := SubscribeEntryStep(s2, i, mqtt, config);
    assert r == AppendStep(s, reg, mqtt, codec, config);
    AppendPrepared(s, s1, s2, reg, mqtt, codec, config);
    AppendSubscribed(s, s2, r, reg, mqtt, codec, config);
  }

  /** `AppendStep` before its subscription: the entry is appended and, for a PARAMETER,
      restored and confirmed. */
  lemma AppendPrepared(s: State, s1: State, s2: State, reg: Registration, mqtt: Mqtt, codec: Codec, config: Config)
    requires s1 == s.(entries := s.entries + [NewEntry(reg)])
    requires s2 == if reg.kind == Parameter then RestoreStep(s1, |s.entries|, mqtt, codec, config) else s1
    ensures |s2.entries| == |s.entries| + 1 && s2.entries[..|s.entries|] == s.entries
    ensures s2.entries[|s.entries|] == NewEntry(reg).(confirm := RegisterConfirm(s, reg, mqtt, config))
    ensures s2.wildcard == s.wildcard && s2.store == s.store
    ensures s2.cells == if reg.kind == Parameter then RestoredCells(s.cells, s.store, NewEntry(reg)) else s.cells
    ensures s2.calls == s.calls + RegisterEffects(s, reg, mqtt, codec, config)
  {
    var i := |s.entries|;
    assert s1.entries[i] == NewEntry(reg) && s1.entries[..i] == s.entries;
    if reg.kind == Parameter {
      assert forall j :: 0 <= j < i ==> s2.entries[j] == s1.entries[j];
      assert s2.entries[..i] == s.entries;
    }
  }

  /** `AppendStep`'s subscription of the prepared entry. */
  lemma AppendSubscribed(s: State, s2: State, r: State, reg: Registration, mqtt: Mqtt, codec: Codec, config: Config)
    requires |s2.entries| == |s.entries| + 1 && s2.entries[..|s.entries|] == s.entries
    requires s2.entries[|s.entries|] == NewEntry(reg).(confirm := RegisterConfirm(s, reg, mqtt, config))
    requires s2.wildcard == s.wildcard
    requires s2.calls == s.calls + RegisterEffects(s, reg, mqtt, codec, config)
    requires r == SubscribeEntryStep(s2, |s.entries|, mqtt, config)
    ensures |r.entries| == |s.entries| + 1 && r.entries[..|s.entries|] == s.entries
    ensures r.entries[|s.entries|].(topic := None, confirm := None) == NewEntry(reg)
    ensures r.entries[|s.entries|].topic ==
      if SubscribeSucceeds(NewEntry(reg), s.wildcard, mqtt, config) then SubscribeTopic(NewEntry(reg), mqtt, config) else None
    ensures r.entries[|s.entries|].confirm == RegisterConfirm(s, reg, mqtt, config)
    ensures r.cells == s2.cells && r.store == s2.store
    ensures var pre := s.calls + RegisterEffects(s, reg, mqtt, codec, config);
      |r.calls| >= |pre| && r.calls[..|pre|] == pre &&
      forall c :: c in r.calls[|pre|..] ==>
        c.Subscribe? && (Some(c.topic) == SubscribeTopic(NewEntry(reg), mqtt, config) || Some(c.topic) == WildcardTopic(mqtt, config))
    ensures !UsesWildcard(NewEntry(reg), config) ==>
      r.calls == s.calls + RegisterEffects(s, reg, mqtt, codec, config) +
        TrySubscribe(SubscribeTopic(NewEntry(reg), mqtt, config), reg.qos, mqtt).calls
  {
    var i := |s.entries|;
    var e := NewEntry(reg);
    var p := s2.entries[i];
    assert p.kind == e.kind && p.group == e.group && p.key == e.key && p.qos == e.qos && p.topic.None?;
    assert SubscribeTopic(p, mqtt, config) == SubscribeTopic(e, mqtt, config);
    assert SubscribeSucceeds(p, s2.wildcard, mqtt, config) == SubscribeSucceeds(e, s.wildcard, mqtt, config);
    assert forall j :: 0 <= j < i ==> r.entries[j] == s2.entries[j];
    assert r.entries[..i] == s.entries;
  }

  /** The log part of `AppendStep`'s contract: a prefix of the old log, and the value
      traffic of the registration effects. */
  lemma AppendCalls(s: State, r: State, reg: Registration, mqtt: Mqtt, codec: Codec, config: Config)
    requires var pre := s.calls + RegisterEffects(s, reg, mqtt, codec, config);
      |r.calls| >= |pre| && r.calls[..|pre|] == pre && forall c :: c in r.calls[|pre|..] ==> c.Subscribe?
    ensures |r.calls| >= |s.calls| && r.calls[..|s.calls|] == s.calls
    ensures ValueTraffic(r.calls) == ValueTraffic(s.calls) +
      if reg.kind == Parameter
      then [NvsRead(Slot(reg.group, reg.key), Slot(reg.group, reg.key) in s.store)] + Notification(reg.onChange)
      else []
  {
    var effects := RegisterEffects(s, reg, mqtt, codec, config);
    TrafficAfterEffects(s.calls, effects, r.calls);
    RegisterEffectsTraffic(s, reg, mqtt, codec, config);
  }

  /** A log that is an old log, then some effects, then only broker calls, keeps the old log
      and adds the effects' value traffic. */
  lemma TrafficAfterEffects(before: seq<Call>, effects: seq<Call>, after: seq<Call>)
    requires |after| >= |before| + |effects| && after[..|before| + |effects|] == before + effects
    requires forall c :: c in after[|before| + |effects|..] ==> c.Subscribe?
    ensures |after| >= |before| && after[..|before|] == before
    ensures ValueTraffic(after) == ValueTraffic(before) + ValueTraffic(effects)
  {
    var pre := before + effects;
    assert forall c :: c in after[|pre|..] ==> IsMqttCall(c);
    MqttTailKeepsTraffic(pre, after);
    ValueTrafficAppend(before, effects);
    assert after[..|before|] == after[..|pre|][..|before|];
  }

  /** Of the registration effects, the store read and the `on_change` call are value
      traffic; the confirmation is not. */
  lemma RegisterEffectsTraffic(s: State, reg: Registration, mqtt: Mqtt, codec: Codec, config: Config)
    ensures ValueTraffic(RegisterEffects(s, reg, mqtt, codec, config)) ==
      if reg.kind == Parameter
      then [NvsRead(Slot(reg.group, reg.key), Slot(reg.group, reg.key) in s.store)] + Notification(reg.onChange)
      else []
  {
    var effects := RegisterEffects(s, reg, mqtt, codec, config);
    if reg.kind == Parameter {
      var e := NewEntry(reg);
      var read := NvsRead(e.StoreSlot(), e.StoreSlot() in s.store);
      var confirm := if mqtt.connected then ConfirmPublish(e, RestoredCells(s.cells, s.store, e), mqtt, codec, config) else [];
      assert effects == [read] + Notification(reg.onChange) + confirm;
      ValueTrafficAppend([read] + Notification(reg.onChange), confirm);
      EffectsAreValueTraffic(read, reg.onChange);
      assert forall c :: c in confirm ==> IsMqttCall(c);
      NoValueTraffic(confirm);
    } else {
      assert ValueTraffic([]) == [];
    }
  }

  lemma PrefixTrans(a: seq<Call>, b: seq<Call>, c: seq<Call>)
    requires |b| >= |a| && b[..|a|] == a
    requires |c| >= |b| && c[..|b|] == b
    ensures c[..|a|] == a
  {
    assert c[..|a|] == c[..|b|][..|a|];
  }

  /** The entries `paramsInit` registers: the OTA and command endpoints and the
      silent-mode window. */
  function SystemRegistrations(config: Config): (regs: seq<Registration>)
    ensures |regs| == 3 && regs[0].kind == Ota && regs[1].kind == Command && regs[2].kind == Parameter
  {
    [ Registration(Ota, StringType, None, Some(config.systemTopic), config.otaTopic,
        config.otaName, config.otaQos, None),
      Registration(Command, StringType, None, Some(config.systemTopic), config.commandTopic,
        config.commandName, config.commandQos, None),
      Registration(Parameter, TimespanType, None, Some(config.commonTopic), config.silentTopic,
        config.silentName, config.paramsQos, Some(config.silentCell)) ]
  }

  /** The entries of a list with their topics dropped: what registration decides about
      them, as opposed to what the broker later does. */
  function Registered(entries: seq<Entry>): (r: seq<Entry>)
    ensures |r| == |entries|
  {
    if entries == [] then []
    else Registered(entries[..|entries| - 1]) + [Cleared(entries[|entries| - 1])]
  }

  /** One more entry at the tail adds one more registered entry. */
  lemma RegisteredSnoc(entries: seq<Entry>, e: Entry)
    ensures Registered(entries + [e]) == Registered(entries) + [Cleared(e)]
  {
    assert (entries + [e])[..|entries|] == entries;
  }

  /** The registered entries after one append. */
  lemma AppendRegistered(before: seq<Entry>, after: seq<Entry>, reg: Registration)
    requires |after| == |before| + 1 && after[..|before|] == before
    requires after[|before|].(topic := None, confirm := None) == NewEntry(reg)
    ensures Registered(after) == Registered(before) + [NewEntry(reg)]
  {
    assert after == before + [after[|before|]];
    RegisteredSnoc(before, after[|before|]);
  }

  /** The entries `paramsInit` creates, in the order of its calls. */
  function SystemEntries(config: Config): (r: seq<Entry>)
    ensures |r| == 3 && r[0].kind == Ota && r[1].kind == Command && r[2].kind == Parameter
  {
    var regs := SystemRegistrations(config);
    [NewEntry(regs[0]), NewEntry(regs[1]), NewEntry(regs[2])]
  }

  /** A state stepped by each registration in turn. */
  function Fold(s: State, regs: seq<Registration>, step: (State, Registration) -> State): State
    decreases |regs|
  {
    if regs == [] then s else step(Fold(s, regs[..|regs| - 1], step), regs[|regs| - 1])
  }

  /** Folding three registrations is three steps in a row. */
  lemma FoldThree(s: State, regs: seq<Registration>, step: (State, Registration) -> State)
    requires |regs| == 3
    ensures Fold(s, regs, step) == step(step(step(s, regs[0]), regs[1]), regs[2])
  {
    assert regs[..1][..0] == [];
    assert Fold(s, regs[..1], step) == step(s, regs[0]);
    assert regs[..2][..1] == regs[..1];
    assert Fold(s, regs[..2], step) == step(step(s, regs[0]), regs[1]);
    assert regs[..2] == regs[..|regs| - 1];
  }

  /** Registration as a step function, for `Fold`. */
  function Appender(mqtt: Mqtt, codec: Codec, config: Config): (step: (State, Registration) -> State)
    ensures forall t, reg :: step(t, reg) == AppendStep(t, reg, mqtt, codec, config)
  {
    (t, reg) => AppendStep(t, reg, mqtt, codec, config)
  }

  /** `paramsInit` on an existing list: register the system entries, one call after the
      other. The registered entries are the old ones followed by the system entries. */
  function InitStep(s: State, mqtt: Mqtt, codec: Codec, config: Config): (r: State)
    ensures |r.entries| == |s.entries| + 3 && r.entries[..|s.entries|] == s.entries
    ensures Registered(r.entries) == Registered(s.entries) + SystemEntries(config)
    ensures r.store == s.store
  {
    var regs := SystemRegistrations(config);
    var step := Appender(mqtt, codec, config);
    FoldThree(s, regs, step);
    var s1 := AppendStep(s, regs[0], mqtt, codec, config);
    var s2 := AppendStep(s1, regs[1], mqtt, codec, config);
    var r := AppendStep(s2, regs[2], mqtt, codec, config);
    InitEntries(s.entries, s1.entries, s2.entries, r.entries, regs);
    Fold(s, regs, step)
  }

  /** Three appends in a row, as `paramsInit` makes them. */
  lemma InitEntries(e0: seq<Entry>, e1: seq<Entry>, e2: seq<Entry>, e3: seq<Entry>, regs: seq<Registration>)
    requires |regs| == 3
    requires |e1| == |e0| + 1 && e1[..|e0|] == e0 && e1[|e0|].(topic := None, confirm := None) == NewEntry(regs[0])
    requires |e2| == |e1| + 1 && e2[..|e1|] == e1 && e2[|e1|].(topic := None, confirm := None) == NewEntry(regs[1])
    requires |e3| == |e2| + 1 && e3[..|e2|] == e2 && e3[|e2|].(topic := None, confirm := None) == NewEntry(regs[2])
    ensures |e3| == |e0| + 3 && e3[..|e0|] == e0
    ensures Registered(e3) == Registered(e0) + [NewEntry(regs[0]), NewEntry(regs[1]), NewEntry(regs[2])]
  {
    AppendRegistered(e0, e1, regs[0]);
    AppendRegistered(e1, e2, regs[1]);
    AppendRegistered(e2, e3, regs[2]);
    EntriesExtend(e0, e1, e2);
    EntriesExtend(e0, e2, e3);
  }

  /** `paramsRegValue`: on the first call the list is created and `paramsInit` registers
      the system entries first; then the new entry is appended. */
  function RegisterStep(s: State, initialized: bool, reg: Registration, mqtt: Mqtt, codec: Codec,
                        config: Config): (r: State)
    ensures var added := if initialized then 1 else 4;
      |r.entries| == |s.entries| + added && r.entries[..|s.entries|] == s.entries
    ensures r.entries[|r.entries| - 1].(topic := None, confirm := None) == NewEntry(reg)
    ensures Registered(r.entries) == Registered(s.entries) +
      (if initialized then [] else SystemEntries(config)) + [NewEntry(reg)]
    ensures r.store == s.store
  {
    var s1 := if initialized then s else InitStep(s, mqtt, codec, config);
    var r := AppendStep(s1, reg, mqtt, codec, config);
    EntriesExtend(s.entries, s1.entries, r.entries);
    AppendRegistered(s1.entries, r.entries, reg);
    r
  }

  /** A registration is the append of the entry to the initialised list. */
  lemma RegisterIsAppend(s: State, initialized: bool, prepared: State, reg: Registration,
                         mqtt: Mqtt, codec: Codec, config: Config)
    requires prepared == if initialized then s else InitStep(s, mqtt, codec, config)
    ensures RegisterStep(s, initialized, reg, mqtt, codec, config) == AppendStep(prepared, reg, mqtt, codec, config)
  {
  }

  /** Entries appended in two rounds: the first round's new entries survive the second. */
  lemma EntriesExtend(a: seq<Entry>, b: seq<Entry>, c: seq<Entry>)
    requires |b| >= |a| && b[..|a|] == a
    requires |c| == |b| + 1 && c[..|b|] == b
    ensures c[..|a|] == a
    ensures forall k :: |a| <= k < |b| ==> c[k] == b[k]
  {
    assert c[..|a|] == c[..|b|][..|a|];
    forall k | |a| <= k < |b| ensures c[k] == b[k] {
      assert c[k] == c[..|b|][k];
    }
  }

  /** How many entries are registered under a slot. */
  function CountSlot(entries: seq<Entry>, slot: Slot): nat
  {
    if entries == [] then 0
    else CountSlot(entries[..|entries| - 1], slot) + (if entries[|entries| - 1].StoreSlot() == slot then 1 else 0)
  }

  /** Registration never deduplicates: every registration adds one more entry under its
      group and key, even when one is there already. */
  lemma RegisterAddsOneUnderSlot(s: State, reg: Registration, mqtt: Mqtt, codec: Codec, config: Config)
    ensures var r := AppendStep(s, reg, mqtt, codec, config);
      CountSlot(r.entries, Slot(reg.group, reg.key)) == CountSlot(s.entries, Slot(reg.group, reg.key)) + 1
  {
    var r := AppendStep(s, reg, mqtt, codec, config);
    assert r.entries[..|r.entries| - 1] == s.entries;
  }

  /** Registering the same group and key twice leaves two distinct entries for it. */
  lemma RegisterTwiceTwoEntries(s: State, reg: Registration, mqtt: Mqtt, codec: Codec, config: Config)
    ensures var r := AppendStep(AppendStep(s, reg, mqtt, codec, config), reg, mqtt, codec, config);
      |r.entries| == |s.entries| + 2 &&
      CountSlot(r.entries, Slot(reg.group, reg.key)) == CountSlot(s.entries, Slot(reg.group, reg.key)) + 2 &&
      r.entries[|s.entries|].StoreSlot() == r.entries[|s.entries| + 1].StoreSlot()
  {
    var r1 := AppendStep(s, reg, mqtt, codec, config);
    RegisterAddsOneUnderSlot(s, reg, mqtt, codec, config);
    RegisterAddsOneUnderSlot(r1, reg, mqtt, codec, config);
    var r := AppendStep(r1, reg, mqtt, codec, config);
    assert r.entries[|s.entries|] == r1.entries[|s.entries|];
  }

  // ---------------------------------------------------------------------------------------
  // Bulk topic operations
  // ---------------------------------------------------------------------------------------

  /** `paramsMqttSubscribing` after its first `k` entries: each entry without a topic is
      subscribed, in list order. */
  function SubscribingUpTo(s: State, k: nat, mqtt: Mqtt, config: Config): (r: State)
    requires k <= |s.entries|
    ensures |r.entries| == |s.entries|
    ensures r.cells == s.cells && r.store == s.store
    ensures |r.calls| >= |s.calls| && r.calls[..|s.calls|] == s.calls
    decreases k
  {
    if k == 0 then s
    else
      var t := SubscribingUpTo(s, k - 1, mqtt, config);
      var r := if t.entries[k - 1].topic.None? then SubscribeEntryStep(t, k - 1, mqtt, config) else t;
      PrefixTrans(s.calls, t.calls, r.calls);
      r
  }

  /** Bulk subscribing touches only the topic of an entry, and only of an entry that had
      none: an entry already holding a topic keeps it unchanged. */
  lemma {:induction false} SubscribingKeepsSubscribed(s: State, k: nat, j: nat, mqtt: Mqtt, config: Config)
    requires k <= |s.entries| && j < |s.entries|
    ensures var r := SubscribingUpTo(s, k, mqtt, config);
      r.entries[j].(topic := s.entries[j].topic) == s.entries[j] &&
      (s.entries[j].topic.Some? ==> r.entries[j] == s.entries[j]) &&
      (k <= j ==> r.entries[j] == s.entries[j])
    decreases k
  {
    if k > 0 {
      SubscribingKeepsSubscribed(s, k - 1, j, mqtt, config);
    }
  }

  /** Once the wildcard topic is set, bulk subscribing keeps it. */
  lemma {:induction false} SubscribingKeepsWildcard(s: State, k: nat, mqtt: Mqtt, config: Config)
    requires k <= |s.entries| && s.wildcard.Some?
    ensures SubscribingUpTo(s, k, mqtt, config).wildcard == s.wildcard
    decreases k
  {
    if k > 0 {
      SubscribingKeepsWildcard(s, k - 1, mqtt, config);
    }
  }

  /** A subscription bulk subscribing makes for one of the first `k` entries that does not
      share the wildcard: its own topic. */
  ghost predicate OwnSubscription(entries: seq<Entry>, k: nat, c: Call, mqtt: Mqtt, config: Config)
    requires k <= |entries|
  {
    c.Subscribe? &&
    exists j :: 0 <= j < k && !UsesWildcard(entries[j], config) && SubscribeTopic(entries[j], mqtt, config) == Some(c.topic)
  }

  /** With the wildcard topic already held, bulk subscribing only subscribes entries to
      their own topics: the `#` topic is subscribed at most once. */
  lemma {:induction false} SubscribingWildcardHeld(s: State, k: nat, mqtt: Mqtt, config: Config)
    requires k <= |s.entries| && s.wildcard.Some?
    ensures var r := SubscribingUpTo(s, k, mqtt, config);
      |r.calls| >= |s.calls| && r.calls[..|s.calls|] == s.calls &&
      forall c :: c in r.calls[|s.calls|..] ==> OwnSubscription(s.entries, k, c, mqtt, config)
    decreases k
  {
    var r := SubscribingUpTo(s, k, mqtt, config);
    if k == 0 {
      assert r.calls[|s.calls|..] == [];
    } else {
      var t := SubscribingUpTo(s, k - 1, mqtt, config);
      SubscribingWildcardHeld(s, k - 1, mqtt, config);
      SubscribingKeepsWildcard(s, k - 1, mqtt, config);
      SubscribingKeepsSubscribed(s, k - 1, k - 1, mqtt, config);
      var e := s.entries[k - 1];
      assert t.entries[k - 1] == e;
      var added: seq<Call> :=
        if e.topic.None? && !UsesWildcard(e, config)
        then TrySubscribe(SubscribeTopic(e, mqtt, config), e.qos, mqtt).calls else [];
      SubscribingCallsWithWildcard(s, k, mqtt, config);
      if e.topic.None? && !UsesWildcard(e, config) {
        NewSubscriptionIsOwn(s.entries, k, mqtt, config);
      }
      OwnSubscriptionsExtend(s.entries, k, |s.calls|, t.calls, added, mqtt, config);
    }
  }

  /** One step of bulk subscribing with the wildcard held: only an entry without a topic
      that does not share the wildcard makes a broker call. */
  lemma SubscribingCallsWithWildcard(s: State, k: nat, mqtt: Mqtt, config: Config)
    requires 1 <= k <= |s.entries| && SubscribingUpTo(s, k - 1, mqtt, config).wildcard.Some?
    ensures var t := SubscribingUpTo(s, k - 1, mqtt, config); var e := t.entries[k - 1];
      SubscribingUpTo(s, k, mqtt, config).calls == t.calls +
        if e.topic.None? && !UsesWildcard(e, config)
        then TrySubscribe(SubscribeTopic(e, mqtt, config), e.qos, mqtt).calls else []
  {
  }

  /** Subscriptions own to the first `k - 1` entries (after position `n` of a log),
      followed by ones own to the first `k`, are all own to the first `k`. */
  lemma OwnSubscriptionsExtend(entries: seq<Entry>, k: nat, n: nat, log: seq<Call>, added: seq<Call>,
                               mqtt: Mqtt, config: Config)
    requires 1 <= k <= |entries| && n <= |log|
    requires forall c :: c in log[n..] ==> OwnSubscription(entries, k - 1, c, mqtt, config)
    requires forall c :: c in added ==> OwnSubscription(entries, k, c, mqtt, config)
    ensures forall c :: c in (log + added)[n..] ==> OwnSubscription(entries, k, c, mqtt, config)
  {
    assert (log + added)[n..] == log[n..] + added;
    forall c | c in log[n..] + added ensures OwnSubscription(entries, k, c, mqtt, config) {
      if c in log[n..] {
        assert OwnSubscription(entries, k - 1, c, mqtt, config);
      }
    }
  }

  /** The subscription made for entry `k - 1` is one of its own. */
  lemma NewSubscriptionIsOwn(entries: seq<Entry>, k: nat, mqtt: Mqtt, config: Config)
    requires 1 <= k <= |entries| && !UsesWildcard(entries[k - 1], config)
    ensures var e := entries[k - 1];
      forall c :: c in TrySubscribe(SubscribeTopic(e, mqtt, config), e.qos, mqtt).calls ==>
        OwnSubscription(entries, k, c, mqtt, config)
  {
    var e := entries[k - 1];
    var topic := SubscribeTopic(e, mqtt, config);
    if topic.Some? {
      var c := TrySubscribe(topic, e.qos, mqtt).calls[0];
      assert c.Subscribe? && Some(c.topic) == topic;
      assert OwnSubscription(entries, k, c, mqtt, config);
    }
  }

  /** A subscription bulk subscribing makes while scanning the first `k` entries: the
      shared wildcard, or the own topic of a scanned entry that had no topic. */
  ghost predicate PendingSubscription(entries: seq<Entry>, k: nat, c: Call, mqtt: Mqtt, config: Config)
    requires k <= |entries|
  {
    c.Subscribe? &&
    (Some(c.topic) == WildcardTopic(mqtt, config) ||
     exists j :: 0 <= j < k && entries[j].topic.None? && SubscribeTopic(entries[j], mqtt, config) == Some(c.topic))
  }

  /** Bulk subscribing calls the broker only for entries that had no topic: every call it
      adds subscribes the wildcard or the own topic of such an entry. */
  lemma {:induction false} SubscribingOnlyPending(s: State, k: nat, mqtt: Mqtt, config: Config)
    requires k <= |s.entries|
    ensures var r := SubscribingUpTo(s, k, mqtt, config);
      forall c :: c in r.calls[|s.calls|..] ==> PendingSubscription(s.entries, k, c, mqtt, config)
    decreases k
  {
    var r := SubscribingUpTo(s, k, mqtt, config);
    if k == 0 {
      assert r.calls[|s.calls|..] == [];
    } else {
      var t := SubscribingUpTo(s, k - 1, mqtt, config);
      SubscribingOnlyPending(s, k - 1, mqtt, config);
      SubscribingKeepsSubscribed(s, k - 1, k - 1, mqtt, config);
      assert t.entries[k - 1] == s.entries[k - 1];
      if t.entries[k - 1].topic.None? {
        NewPendingSubscriptions(s, t, k, mqtt, config);
      } else {
        assert r == t;
      }
      PendingSubscriptionsExtend(s.entries, k, |s.calls|, t.calls, r.calls, mqtt, config);
    }
  }

  /** The calls the subscription of a topic-less entry `k - 1` adds are pending ones. */
  lemma NewPendingSubscriptions(s: State, t: State, k: nat, mqtt: Mqtt, config: Config)
    requires 1 <= k <= |s.entries| && |t.entries| == |s.entries|
    requires t.entries[k - 1] == s.entries[k - 1] && s.entries[k - 1].topic.None?
    ensures var r := SubscribeEntryStep(t, k - 1, mqtt, config);
      forall c :: c in r.calls[|t.calls|..] ==> PendingSubscription(s.entries, k, c, mqtt, config)
  {
    var r := SubscribeEntryStep(t, k - 1, mqtt, config);
    forall c | c in r.calls[|t.calls|..] ensures PendingSubscription(s.entries, k, c, mqtt, config) {
      if Some(c.topic) != WildcardTopic(mqtt, config) {
        assert 0 <= k - 1 < k && SubscribeTopic(s.entries[k - 1], mqtt, config) == Some(c.topic);
      }
    }
  }

  /** Pending subscriptions of the first `k - 1` entries (after position `n` of a log),
      followed by pending ones of the first `k`, are all pending ones of the first `k`. */
  lemma PendingSubscriptionsExtend(entries: seq<Entry>, k: nat, n: nat, log: seq<Call>, next: seq<Call>,
                                   mqtt: Mqtt, config: Config)
    requires 1 <= k <= |entries| && n <= |log| <= |next| && next[..|log|] == log
    requires forall c :: c in log[n..] ==> PendingSubscription(entries, k - 1, c, mqtt, config)
    requires forall c :: c in next[|log|..] ==> PendingSubscription(entries, k, c, mqtt, config)
    ensures forall c :: c in next[n..] ==> PendingSubscription(entries, k, c, mqtt, config)
  {
    assert next == log + next[|log|..];
    assert next[n..] == log[n..] + next[|log|..];
    forall c | c in next[n..] ensures PendingSubscription(entries, k, c, mqtt, config) {
      if c in log[n..] {
        assert PendingSubscription(entries, k - 1, c, mqtt, config);
      }
    }
  }

  /** An entry that gains a topic in bulk subscribing got it from a subscription the broker
      accepted: its own, or (wildcard mode) the shared one, which is then held. */
  lemma {:induction false} SubscribingTopicMeansAccepted(s: State, k: nat, j: nat, mqtt: Mqtt, config: Config)
    requires k <= |s.entries| && j < |s.entries|
    requires s.entries[j].topic.None?
    ensures var r := SubscribingUpTo(s, k, mqtt, config);
      r.entries[j].topic.Some? ==>
        r.entries[j].topic == SubscribeTopic(s.entries[j], mqtt, config) &&
        if UsesWildcard(s.entries[j], config) then r.wildcard.Some?
        else Subscribe(r.entries[j].topic.value, ToUint8(s.entries[j].qos) as int, true) in r.calls
    decreases k
  {
    if k > 0 {
      var t := SubscribingUpTo(s, k - 1, mqtt, config);
      var r := SubscribingUpTo(s, k, mqtt, config);
      SubscribingTopicMeansAccepted(s, k - 1, j, mqtt, config);
      SubscribingKeepsSubscribed(s, k - 1, j, mqtt, config);
      if t.entries[k - 1].topic.None? {
        if j == k - 1 {
          assert t.entries[j] == s.entries[j];
        } else if t.entries[j].topic.Some? {
          assert r.entries[j] == t.entries[j];
          if !UsesWildcard(s.entries[j], config) {
            assert r.calls[..|t.calls|] == t.calls;
          } else if t.wildcard.Some? {
            assert r.wildcard == t.wildcard;
          }
        }
      }
    }
  }

  /** `paramsMqttConfirmations` after its first `k` entries: each PARAMETER without a
      confirmation topic is confirmed, in list order. */
  function ConfirmationsUpTo(s: State, k: nat, mqtt: Mqtt, codec: Codec, config: Config): (r: State)
    requires k <= |s.entries|
    ensures |r.entries| == |s.entries| && r.entries[k..] == s.entries[k..]
    ensures r.wildcard == s.wildcard && r.cells == s.cells && r.store == s.store
    ensures r.calls == s.calls + PendingConfirms(s.entries, s.cells, k, mqtt, codec, config)
    decreases k
  {
    if k == 0 then s
    else
      var t := ConfirmationsUpTo(s, k - 1, mqtt, codec, config);
      var e := t.entries[k - 1];
      var r := if e.kind == Parameter && e.confirm.None? then ConfirmStep(t, k - 1, mqtt, codec, config) else t;
      assert e == t.entries[k - 1..][0];
      assert r.entries[k..] == t.entries[k - 1..][1..];
      var before := PendingConfirms(s.entries, s.cells, k - 1, mqtt, codec, config);
      var added := if e.kind == Parameter && e.confirm.None? then ConfirmPublish(e, s.cells, mqtt, codec, config) else [];
      assert r.calls == s.calls + before + added;
      assert s.calls + before + added == s.calls + (before + added);
      r
  }

  /** The publications bulk confirmation makes over the first `k` entries, in list order:
      one `ConfirmPublish` for each PARAMETER that has no confirmation topic yet. */
  function PendingConfirms(entries: seq<Entry>, cells: map<CellRef, Value>, k: nat,
                           mqtt: Mqtt, codec: Codec, config: Config): (r: seq<Call>)
    requires k <= |entries|
    ensures |r| <= k
    ensures forall c :: c in r ==> c.Publish? && c.payload.Some?
    decreases k
  {
    if k == 0 then []
    else
      var e := entries[k - 1];
      PendingConfirms(entries, cells, k - 1, mqtt, codec, config) +
        if e.kind == Parameter && e.confirm.None? then ConfirmPublish(e, cells, mqtt, codec, config) else []
  }

  /** Bulk confirmation leaves the subscribe topics and everything but `confirm` alone,
      and gives each scanned parameter that has memory and no confirmation topic yet the
      topic its confirmation is published to. */
  lemma {:induction false} ConfirmationsOnlyConfirm(s: State, k: nat, j: nat, mqtt: Mqtt, codec: Codec, config: Config)
    requires k <= |s.entries| && j < |s.entries|
    ensures var r := ConfirmationsUpTo(s, k, mqtt, codec, config);
      r.entries[j].(confirm := s.entries[j].confirm) == s.entries[j] &&
      (s.entries[j].confirm.Some? ==> r.entries[j] == s.entries[j]) &&
      (k <= j ==> r.entries[j] == s.entries[j]) &&
      (j < k && s.entries[j].kind == Parameter && s.entries[j].confirm.None? && Content(s.cells, s.entries[j]).Some? ==>
        r.entries[j].confirm == ConfirmTopic(s.entries[j], mqtt, config))
    decreases k
  {
    if k > 0 {
      ConfirmationsOnlyConfirm(s, k - 1, j, mqtt, codec, config);
      var t := ConfirmationsUpTo(s, k - 1, mqtt, codec, config);
      var r := ConfirmationsUpTo(s, k, mqtt, codec, config);
      var e := t.entries[k - 1];
      var confirms := e.kind == Parameter && e.confirm.None?;
      assert r == if confirms then ConfirmStep(t, k - 1, mqtt, codec, config) else t;
      if j == k - 1 {
        assert e == s.entries[j];
      } else {
        assert r.entries[j] == t.entries[j];
      }
    }
  }

  /** `paramsMqttSubscribesOpen`: when connected, confirmations and then subscriptions. */
  function OpenStep(s: State, mqtt: Mqtt, codec: Codec, config: Config): (r: State)
    ensures !mqtt.connected ==> r == s
    ensures |r.entries| == |s.entries| && r.cells == s.cells && r.store == s.store
  {
    if mqtt.connected then
      var c := ConfirmationsUpTo(s, |s.entries|, mqtt, codec, config);
      SubscribingUpTo(c, |c.entries|, mqtt, config)
    else s
  }

  /** What opening the connection does to one entry: its confirmation topic is set first
      (for a parameter with memory), then a topic-less entry is subscribed; a topic it
      gains is its own subscribe topic, and without the wildcard it is exactly the outcome
      of its own subscription. Topics already held, the wildcard and the log so far are
      kept. */
  lemma OpenConfirmsAndSubscribes(s: State, j: nat, mqtt: Mqtt, codec: Codec, config: Config)
    requires mqtt.connected && j < |s.entries|
    ensures var r := OpenStep(s, mqtt, codec, config); var e := s.entries[j];
      r.entries[j].(topic := e.topic, confirm := e.confirm) == e &&
      (e.topic.Some? ==> r.entries[j].topic == e.topic) &&
      (e.confirm.Some? ==> r.entries[j].confirm == e.confirm) &&
      (e.kind == Parameter && e.confirm.None? && Content(s.cells, e).Some? ==>
        r.entries[j].confirm == ConfirmTopic(e, mqtt, config)) &&
      (e.topic.None? && r.entries[j].topic.Some? ==> r.entries[j].topic == SubscribeTopic(e, mqtt, config)) &&
      (e.topic.None? && !config.wildcard ==>
        r.entries[j].topic == if SubscribeSucceeds(e, None, mqtt, config) then SubscribeTopic(e, mqtt, config) else None) &&
      (s.wildcard.Some? ==> r.wildcard == s.wildcard) &&
      |r.calls| >= |s.calls| && r.calls[..|s.calls|] == s.calls
  {
    var e := s.entries[j];
    var c := ConfirmationsUpTo(s, |s.entries|, mqtt, codec, config);
    var r := SubscribingUpTo(c, |c.entries|, mqtt, config);
    ConfirmationsOnlyConfirm(s, |s.entries|, j, mqtt, codec, config);
    SubscribingKeepsSubscribed(c, |c.entries|, j, mqtt, config);
    var ce := c.entries[j];
    assert ce.kind == e.kind && ce.group == e.group && ce.key == e.key && ce.qos == e.qos && ce.topic == e.topic;
    assert SubscribeTopic(ce, mqtt, config) == SubscribeTopic(e, mqtt, config);
    if e.topic.None? {
      SubscribingTopicMeansAccepted(c, |c.entries|, j, mqtt, config);
      if !config.wildcard {
        SubscribingRetries(c, |c.entries|, j, mqtt, config);
        assert SubscribeSucceeds(ce, None, mqtt, config) == SubscribeSucceeds(e, None, mqtt, config);
      }
    }
    if s.wildcard.Some? {
      SubscribingKeepsWildcard(c, |c.entries|, mqtt, config);
    }
    PrefixTrans(s.calls, c.calls, r.calls);
  }

  /** An entry with both topic strings freed. */
  function Cleared(e: Entry): (r: Entry)
    ensures r.topic.None? && r.confirm.None?
    ensures r.(topic := e.topic, confirm := e.confirm) == e
  {
    e.(topic := None, confirm := None)
  }

  /** Every entry cleared, in order. */
  function ClearAll(entries: seq<Entry>): (r: seq<Entry>)
    ensures |r| == |entries|
    ensures forall i :: 0 <= i < |entries| ==> r[i] == Cleared(entries[i])
  {
    if entries == [] then [] else [Cleared(entries[0])] + ClearAll(entries[1..])
  }

  /** `paramsMqttSubscribesClose`: free the wildcard topic and every entry's topics. */
  function CloseStep(s: State): (r: State)
    ensures r.wildcard.None?
    ensures forall i :: 0 <= i < |r.entries| ==> r.entries[i].topic.None? && r.entries[i].confirm.None?
    ensures |r.entries| == |s.entries|
    ensures forall i :: 0 <= i < |s.entries| ==>
      r.entries[i].(topic := s.entries[i].topic, confirm := s.entries[i].confirm) == s.entries[i]
    ensures r.cells == s.cells && r.store == s.store && r.calls == s.calls
  {
    s.(entries := ClearAll(s.entries), wildcard := None)
  }

  /** Closing twice is the same as closing once. */
  lemma CloseIdempotent(s: State)
    ensures CloseStep(CloseStep(s)) == CloseStep(s)
  {
    var once := CloseStep(s);
    assert ClearAll(once.entries) == once.entries;
  }

  /** After a close every entry is retried by the next bulk subscribe: the first `k`
      entries each get exactly what a single subscribe gives them. */
  lemma {:induction false} SubscribingAfterCloseRetriesAll(s: State, k: nat, j: nat, mqtt: Mqtt, config: Config)
    requires k <= |s.entries| && j < k
    requires !config.wildcard
    ensures var c := CloseStep(s);
      var r := SubscribingUpTo(c, k, mqtt, config);
      r.entries[j].topic ==
        if SubscribeSucceeds(c.entries[j], None, mqtt, config)
        then SubscribeTopic(c.entries[j], mqtt, config) else None
    decreases k
  {
    SubscribingRetries(CloseStep(s), k, j, mqtt, config);
  }

  /** In per-entry mode, bulk subscribing gives an entry without a topic exactly the
      outcome of its own attempt. */
  lemma {:induction false} SubscribingRetries(c: State, k: nat, j: nat, mqtt: Mqtt, config: Config)
    requires k <= |c.entries| && j < k
    requires !config.wildcard && c.entries[j].topic.None?
    ensures SubscribingUpTo(c, k, mqtt, config).entries[j].topic ==
      if SubscribeSucceeds(c.entries[j], None, mqtt, config)
      then SubscribeTopic(c.entries[j], mqtt, config) else None
    decreases k
  {
    var t := SubscribingUpTo(c, k - 1, mqtt, config);
    var r := SubscribingUpTo(c, k, mqtt, config);
    if j < k - 1 {
      SubscribingRetries(c, k - 1, j, mqtt, config);
      assert r.entries[j] == t.entries[j];
    } else {
      SubscribingKeepsSubscribed(c, k - 1, j, mqtt, config);
      var e := c.entries[j];
      assert t.entries[j] == e;
      assert r == SubscribeEntryStep(t, j, mqtt, config);
      assert SubscribeSucceeds(e, t.wildcard, mqtt, config) == SubscribeSucceeds(e, None, mqtt, config);
    }
  }

  /** The unsubscribe calls `paramsFree` makes: one per entry holding a topic, in order. */
  function UnsubscribeAll(entries: seq<Entry>): (r: seq<Call>)
    ensures forall c :: c in r ==> c.Unsubscribe?
  {
    if entries == [] then []
    else
      var e := entries[|entries| - 1];
      UnsubscribeAll(entries[..|entries| - 1]) + (if e.topic.Some? then [Unsubscribe(e.topic.value)] else [])
  }

  /** `paramsFree` unsubscribes exactly the topics the entries hold. */
  lemma {:induction false} UnsubscribeAllExact(entries: seq<Entry>, topic: string)
    ensures Unsubscribe(topic) in UnsubscribeAll(entries) <==>
      exists i :: 0 <= i < |entries| && entries[i].topic == Some(topic)
  {
    if entries != [] {
      var front := entries[..|entries| - 1];
      UnsubscribeAllExact(front, topic);
      if exists i :: 0 <= i < |front| && front[i].topic == Some(topic) {
        var i :| 0 <= i < |front| && front[i].topic == Some(topic);
        assert entries[i] == front[i];
      }
      if exists i :: 0 <= i < |entries| && entries[i].topic == Some(topic) {
        var i :| 0 <= i < |entries| && entries[i].topic == Some(topic);
        if i < |front| {
          assert front[i] == entries[i];
        }
      }
    }
  }

  /** `paramsFree`: unsubscribe and drop every entry. */
  function FreeStep(s: State): (r: State)
    ensures r.entries == [] && r.calls == s.calls + UnsubscribeAll(s.entries)
    ensures r.cells == s.cells && r.store == s.store && r.wildcard == s.wildcard
  {
    s.(entries := [], calls := s.calls + UnsubscribeAll(s.entries))
  }

  // ---------------------------------------------------------------------------------------
  // Incoming messages
  // ---------------------------------------------------------------------------------------

  /** Whether an incoming topic is the entry's topic; an entry without a topic matches
      nothing. */
  predicate Matches(e: Entry, topic: string)
  {
    e.topic.Some? && CaseInsensitive.SameIgnoringCase(e.topic.value, topic)
  }

  /** The first entry, in list order, whose topic matches. */
  function FirstMatch(entries: seq<Entry>, topic: string): (r: Option<nat>)
    ensures r.Some? ==>
      r.value < |entries| && Matches(entries[r.value], topic) &&
      forall j :: 0 <= j < r.value ==> !Matches(entries[j], topic)
    ensures r.None? ==> forall j :: 0 <= j < |entries| ==> !Matches(entries[j], topic)
  {
    if entries == [] then None
    else if Matches(entries[0], topic) then Some(0)
    else match FirstMatch(entries[1..], topic)
      case None => None
      case Some(k) => Some(k + 1)
  }

  /** The comparison as the source writes it, `strcasecmp(item->topic, topic) == 0`: with a
      NULL `item->topic` the call is undefined behaviour, shown here as None. */
  function CompareAsWritten(e: Entry, topic: string): (r: Option<bool>)
    ensures r.None? <==> e.topic.None?
    ensures r.Some? ==> (r.value <==> Matches(e, topic))
  {
    if e.topic.None? then None else Some(CaseInsensitive.SameIgnoringCase(e.topic.value, topic))
  }

  /** Some entry without a topic comes before every entry whose topic matches. */
  ghost predicate NullBeforeMatch(entries: seq<Entry>, topic: string)
  {
    exists j :: 0 <= j < |entries| && entries[j].topic.None? && NoMatchBefore(entries, topic, j)
  }

  ghost predicate NoMatchBefore(entries: seq<Entry>, topic: string, j: nat)
    requires j <= |entries|
  {
    forall k :: 0 <= k < j ==> !Matches(entries[k], topic)
  }

  /** The scan of `paramsMqttIncomingMessage` as written: None when it reaches an undefined
      comparison, otherwise the entry it stops at. */
  function ScanAsWritten(entries: seq<Entry>, topic: string): (r: Option<Option<nat>>)
    ensures r.Some? ==> r.value == FirstMatch(entries, topic)
    ensures r.None? <==> NullBeforeMatch(entries, topic)
  {
    if entries == [] then Some(None)
    else match CompareAsWritten(entries[0], topic)
      case None =>
        assert NoMatchBefore(entries, topic, 0);
        None
      case Some(true) => Some(Some(0))
      case Some(false) =>
        var rest := ScanAsWritten(entries[1..], topic);
        assert NullBeforeMatch(entries[1..], topic) <==> NullBeforeMatch(entries, topic) by {
          ShiftNullBeforeMatch(entries, topic);
        }
        match rest
        case None => None
        case Some(None) => Some(None)
        case Some(Some(k)) => Some(Some(k + 1))
  }

  lemma ShiftNullBeforeMatch(entries: seq<Entry>, topic: string)
    requires entries != [] && entries[0].topic.Some? && !Matches(entries[0], topic)
    ensures NullBeforeMatch(entries[1..], topic) <==> NullBeforeMatch(entries, topic)
  {
    var tail := entries[1..];
    if NullBeforeMatch(tail, topic) {
      var j :| 0 <= j < |tail| && tail[j].topic.None? && NoMatchBefore(tail, topic, j);
      assert entries[j + 1] == tail[j];
      forall k | 0 <= k < j + 1 ensures !Matches(entries[k], topic) {
        if k > 0 { assert entries[k] == tail[k - 1]; }
      }
      assert NoMatchBefore(entries, topic, j + 1);
    }
    if NullBeforeMatch(entries, topic) {
      var j :| 0 <= j < |entries| && entries[j].topic.None? && NoMatchBefore(entries, topic, j);
      assert j > 0;
      assert tail[j - 1] == entries[j];
      forall k | 0 <= k < j - 1 ensures !Matches(tail[k], topic) {
        assert tail[k] == entries[k + 1];
      }
      assert NoMatchBefore(tail, topic, j - 1);
    }
  }

  /** A message for the second entry while the first has no topic (its subscription
      failed): the scan as written calls `strcasecmp` on NULL before reaching the match,
      whereas the scan the model uses selects the second entry. */
  lemma NullTopicBeforeMatch(e: Entry)
    requires e.topic == Some("dev/params/x")
    ensures var entries := [e.(topic := None), e];
      ScanAsWritten(entries, "dev/params/x").None? &&
      FirstMatch(entries, "dev/params/x") == Some(1)
  {
    var entries := [e.(topic := None), e];
    CaseInsensitive.Reflexive("dev/params/x");
    assert Matches(entries[1], "dev/params/x");
    assert !Matches(entries[0], "dev/params/x");
  }

  /** Topics that differ only in letter case select the same entry. */
  lemma FirstMatchIgnoresCase(entries: seq<Entry>, a: string, b: string)
    requires CaseInsensitive.SameIgnoringCase(a, b)
    ensures FirstMatch(entries, a) == FirstMatch(entries, b)
  {
    forall j | 0 <= j < |entries|
      ensures Matches(entries[j], a) <==> Matches(entries[j], b)
    {
      if entries[j].topic.Some? {
        var t := entries[j].topic.value;
        if Matches(entries[j], a) {
          CaseInsensitive.Transitive(t, a, b);
        }
        if Matches(entries[j], b) {
          CaseInsensitive.Symmetric(a, b);
          CaseInsensitive.Transitive(t, b, a);
        }
      }
    }
    var ra, rb := FirstMatch(entries, a), FirstMatch(entries, b);
    if ra.Some? && rb.Some? {
      assert !(ra.value < rb.value) && !(rb.value < ra.value);
    }
  }

  /** How many download attempts the OTA loop makes: it stops at the first success or once
      `limit` attempts are made, and always makes at least one. */
  function AttemptsFrom(succeeds: nat -> bool, limit: uint8, k: nat): (n: nat)
    requires 1 <= k <= Max1(limit)
    ensures k <= n <= Max1(limit)
    ensures forall j :: k <= j < n ==> !succeeds(j)
    ensures succeeds(n) || n == Max1(limit)
    decreases Max1(limit) - k
  {
    if succeeds(k) || k >= limit as int then k else AttemptsFrom(succeeds, limit, k + 1)
  }

  function Max1(limit: uint8): nat
  {
    if limit as int < 1 then 1 else limit as int
  }

  /** The number of attempts of one OTA run. */
  function AttemptsUsed(succeeds: nat -> bool, limit: uint8): (n: nat)
    ensures 1 <= n <= Max1(limit)
    ensures forall j :: 1 <= j < n ==> !succeeds(j)
    ensures succeeds(n) || n == Max1(limit)
  {
    AttemptsFrom(succeeds, limit, 1)
  }

  /** The attempt calls `1..n`. */
  function AttemptCalls(url: string, succeeds: nat -> bool, n: nat): (r: seq<Call>)
    ensures |r| == n
    ensures forall j :: 0 <= j < n ==> r[j] == OtaAttempt(url, succeeds(j + 1))
  {
    if n == 0 then [] else AttemptCalls(url, succeeds, n - 1) + [OtaAttempt(url, succeeds(n))]
  }

  /** The reset of a retained control topic: drop the subscription, publish an empty
      retained message to clear it, and subscribe again with the topic's QoS. */
  function ResetCalls(topic: string, qos: int, mqtt: Mqtt): (r: seq<Call>)
    ensures |r| == 3 && r[0] == Unsubscribe(topic) && r[1] == Publish(topic, None)
    ensures r[2].Subscribe? && r[2].topic == topic && r[2].qos == qos
  {
    [Unsubscribe(topic), Publish(topic, None), Subscribe(topic, qos, mqtt.subscribe(topic, qos))]
  }

  /** `paramsStartOTA`: an empty payload does nothing; otherwise clear the retained
      message, download from the payload URL until success or the attempt limit, then
      restart. */
  function StartOtaStep(s: State, topic: string, payload: string, mqtt: Mqtt,
                        succeeds: nat -> bool, config: Config): (r: State)
    ensures payload == [] ==> r == s
    ensures r.entries == s.entries && r.wildcard == s.wildcard && r.cells == s.cells && r.store == s.store
    ensures |r.calls| >= |s.calls| && r.calls[..|s.calls|] == s.calls
    ensures payload != [] ==>
      var n := |s.calls|;
      var used := AttemptsUsed(succeeds, config.otaAttempts);
      |r.calls| == n + 3 + used + 1 &&
      r.calls[n..n + 3] == ResetCalls(topic, config.otaQos, mqtt) &&
      r.calls[n + 3..n + 3 + used] == AttemptCalls(payload, succeeds, used) &&
      r.calls[|r.calls| - 1] == Restart
  {
    if |payload| > 0 then
      var reset := ResetCalls(topic, config.otaQos, mqtt);
      var attempts := AttemptCalls(payload, succeeds, AttemptsUsed(succeeds, config.otaAttempts));
      var r := s.(calls := s.calls + reset + attempts + [Restart]);
      assert r.calls[..|s.calls|] == s.calls;
      assert r.calls[|s.calls|..|s.calls| + 3] == reset;
      assert r.calls[|s.calls| + 3..|s.calls| + 3 + |attempts|] == attempts;
      r
    else s
  }

  /** `paramsExecCmd`: clear the retained command; restart only on the reboot command,
      compared ignoring case. */
  function ExecCmdStep(s: State, topic: string, payload: string, mqtt: Mqtt, config: Config): (r: State)
    ensures r.entries == s.entries && r.wildcard == s.wildcard && r.cells == s.cells && r.store == s.store
    ensures |r.calls| >= |s.calls| + 3 && r.calls[..|s.calls|] == s.calls
    ensures r.calls[|s.calls|..|s.calls| + 3] == ResetCalls(topic, config.commandQos, mqtt)
    ensures r.calls[|s.calls| + 3..] == if CaseInsensitive.SameIgnoringCase(payload, config.rebootCommand) then [Restart] else []
    ensures (Restart in r.calls[|s.calls|..]) <==> CaseInsensitive.SameIgnoringCase(payload, config.rebootCommand)
  {
    var reset := ResetCalls(topic, config.commandQos, mqtt);
    var tail: seq<Call> := if CaseInsensitive.SameIgnoringCase(payload, config.rebootCommand) then [Restart] else [];
    var r := s.(calls := s.calls + (reset + tail));
    assert r.calls[|s.calls|..] == reset + tail;
    assert r.calls[..|s.calls|] == s.calls;
    assert (reset + tail)[..3] == reset && (reset + tail)[3..] == tail;
    assert r.calls[|s.calls|..|s.calls| + 3] == r.calls[|s.calls|..][..3];
    assert r.calls[|s.calls| + 3..] == r.calls[|s.calls|..][3..];
    assert Restart !in reset;
    r
  }

  /** What `paramsSetValue` does with a payload. */
  datatype SetOutcome = BadValue | Same(v: Value) | Differs(v: Value)

  function Classify(s: State, i: nat, payload: string, codec: Codec): (r: SetOutcome)
    requires i < |s.entries|
    ensures r.BadValue? <==> codec.parse(s.entries[i].valueType, payload).None?
    ensures !r.BadValue? ==> codec.parse(s.entries[i].valueType, payload) == Some(r.v)
    ensures !r.BadValue? ==>
      (r.Same? <==> codec.equal(s.entries[i].valueType, Content(s.cells, s.entries[i]), r.v))
  {
    var e := s.entries[i];
    match codec.parse(e.valueType, payload)
    case None => BadValue
    case Some(v) => if codec.equal(e.valueType, Content(s.cells, e), v) then Same(v) else Differs(v)
  }

  /** The value written: cell, then `on_change`, then the store. */
  function WriteValue(s: State, i: nat, v: Value): (r: State)
    requires i < |s.entries|
    ensures r.entries == s.entries && r.wildcard == s.wildcard && r.cells.Keys == s.cells.Keys
    ensures Content(s.cells, s.entries[i]).Some? ==>
      Content(r.cells, s.entries[i]) == Some(v) && r.store == s.store[s.entries[i].StoreSlot() := v]
    ensures Content(s.cells, s.entries[i]).None? ==> r.cells == s.cells && r.store == s.store
    ensures r.calls == s.calls + Notification(s.entries[i].onChange) +
      [NvsWrite(s.entries[i].StoreSlot(), Content(r.cells, s.entries[i]))]
  {
    var e := s.entries[i];
    var cells := if e.cell.Some? && e.cell.value in s.cells then s.cells[e.cell.value := v] else s.cells;
    var written := Content(cells, e);
    s.(cells := cells,
       store := if written.Some? then s.store[e.StoreSlot() := written.value] else s.store,
       calls := s.calls + Notification(e.onChange) + [NvsWrite(e.StoreSlot(), written)])
  }

  /** `paramsSetValue` for entry `i`: an unparseable payload changes nothing; a value equal
      to the current one is only confirmed; a different one is written to the cell, handed
      to `on_change`, stored once and then confirmed. */
  function SetValueStep(s: State, i: nat, payload: string, mqtt: Mqtt, codec: Codec, config: Config): (r: State)
    requires i < |s.entries|
    ensures |r.entries| == |s.entries| && r.wildcard == s.wildcard
    ensures r.entries == s.entries[i := r.entries[i]]
    ensures r.entries[i].(confirm := s.entries[i].confirm) == s.entries[i]
    ensures Classify(s, i, payload, codec).BadValue? ==> r == s
  {
    match Classify(s, i, payload, codec)
    case BadValue => s
    case Same(_) => ConfirmStep(s, i, mqtt, codec, config)
    case Differs(v) => ConfirmStep(WriteValue(s, i, v), i, mqtt, codec, config)
  }

  /** A value equal to the current one touches neither the cell nor the store and calls no
      handler; at most the confirmation is published. */
  lemma SetValueSameIsQuiet(s: State, i: nat, payload: string, mqtt: Mqtt, codec: Codec, config: Config)
    requires i < |s.entries|
    requires !Classify(s, i, payload, codec).Differs?
    ensures var r := SetValueStep(s, i, payload, mqtt, codec, config);
      r.cells == s.cells && r.store == s.store && ValueTraffic(r.calls) == ValueTraffic(s.calls) &&
      r.calls == s.calls +
        if Classify(s, i, payload, codec).Same? then ConfirmPublish(s.entries[i], s.cells, mqtt, codec, config)
        else []
  {
    var r := SetValueStep(s, i, payload, mqtt, codec, config);
    if Classify(s, i, payload, codec).Same? {
      MqttTailKeepsTraffic(s.calls, r.calls);
    }
  }

  /** A different value lands in the cell and in the store, and the calls are exactly: the
      handler (when set), one store write of the new value, then the confirmation. */
  lemma SetValueDiffersWrites(s: State, i: nat, payload: string, mqtt: Mqtt, codec: Codec, config: Config)
    requires i < |s.entries|
    requires CellsValid(s.entries, s.cells) && s.entries[i].cell.Some?
    requires Classify(s, i, payload, codec).Differs?
    ensures var v := Classify(s, i, payload, codec).v;
      var e := s.entries[i];
      var r := SetValueStep(s, i, payload, mqtt, codec, config);
      var effects := s.calls + Notification(e.onChange) + [NvsWrite(e.StoreSlot(), Some(v))];
      r.cells == s.cells[e.cell.value := v] && r.store == s.store[e.StoreSlot() := v] &&
      r.calls == effects + ConfirmPublish(e, r.cells, mqtt, codec, config) &&
      (e.kind == Parameter && ConfirmTopic(e, mqtt, config).Some? ==>
        r.calls[|r.calls| - 1] == Publish(ConfirmTopic(e, mqtt, config).value, Some(codec.format(e.valueType, v)))) &&
      ValueTraffic(r.calls) == ValueTraffic(s.calls) + Notification(e.onChange) + [NvsWrite(e.StoreSlot(), Some(v))]
  {
    var v := Classify(s, i, payload, codec).v;
    var e := s.entries[i];
    assert e.cell.value in s.cells;
    var w := WriteValue(s, i, v);
    var r := SetValueStep(s, i, payload, mqtt, codec, config);
    assert r == ConfirmStep(w, i, mqtt, codec, config);
    assert Content(w.cells, e) == Some(v);
    assert w.calls == s.calls + Notification(e.onChange) + [NvsWrite(e.StoreSlot(), Some(v))];
    MqttTailKeepsTraffic(w.calls, r.calls);
    ValueTrafficAppend(s.calls, Notification(e.onChange));
    ValueTrafficAppend(s.calls + Notification(e.onChange), [NvsWrite(e.StoreSlot(), Some(v))]);
  }

  /** Delivering the same payload twice: with a codec whose equality holds between a value
      and itself, the second delivery finds the value equal, so it writes nothing and calls
      no handler. */
  lemma SetValueTwiceIsQuiet(s: State, i: nat, payload: string, mqtt: Mqtt, codec: Codec, config: Config)
    requires i < |s.entries|
    requires CellsValid(s.entries, s.cells) && s.entries[i].cell.Some?
    requires forall t, v :: codec.equal(t, Some(v), v)
    ensures var once := SetValueStep(s, i, payload, mqtt, codec, config);
      var twice := SetValueStep(once, i, payload, mqtt, codec, config);
      twice.cells == once.cells && twice.store == once.store &&
      ValueTraffic(twice.calls) == ValueTraffic(once.calls)
  {
    var once := SetValueStep(s, i, payload, mqtt, codec, config);
    var e := s.entries[i];
    assert once.entries[i].valueType == e.valueType && once.entries[i].cell == e.cell;
    match Classify(s, i, payload, codec)
    case BadValue =>
    case Same(v) =>
      assert Content(once.cells, once.entries[i]) == Content(s.cells, e);
    case Differs(v) =>
      assert Content(once.cells, once.entries[i]) == Some(v);
      assert Classify(once, i, payload, codec) == Same(v);
  }

  /** `paramsMqttIncomingMessage`: the first entry whose topic matches handles the message
      by its kind; without a match nothing happens. */
  function IncomingStep(s: State, topic: string, payload: string, mqtt: Mqtt, codec: Codec,
                        succeeds: nat -> bool, config: Config): (r: State)
    ensures FirstMatch(s.entries, topic).None? ==> r == s
    ensures |r.entries| == |s.entries| && r.wildcard == s.wildcard
    ensures forall j :: 0 <= j < |s.entries| && Some(j) != FirstMatch(s.entries, topic) ==> r.entries[j] == s.entries[j]
  {
    match FirstMatch(s.entries, topic)
    case None => s
    case Some(i) =>
      match s.entries[i].kind
      case Ota => StartOtaStep(s, topic, payload, mqtt, succeeds, config)
      case Command => ExecCmdStep(s, topic, payload, mqtt, config)
      case Parameter => SetValueStep(s, i, payload, mqtt, codec, config)
  }

  /** An OTA message with an empty payload changes nothing. */
  lemma OtaEmptyPayloadIgnored(s: State, topic: string, mqtt: Mqtt, codec: Codec,
                               succeeds: nat -> bool, config: Config)
    requires FirstMatch(s.entries, topic).Some?
    requires s.entries[FirstMatch(s.entries, topic).value].kind == Ota
    ensures IncomingStep(s, topic, "", mqtt, codec, succeeds, config) == s
  {
  }

  /** A command restarts the device exactly when its payload is the reboot command,
      whatever the letter case. */
  lemma CommandRestartsOnlyOnReboot(s: State, topic: string, payload: string, mqtt: Mqtt,
                                    codec: Codec, succeeds: nat -> bool, config: Config)
    requires FirstMatch(s.entries, topic).Some?
    requires s.entries[FirstMatch(s.entries, topic).value].kind == Command
    ensures var r := IncomingStep(s, topic, payload, mqtt, codec, succeeds, config);
      Restart in r.calls[|s.calls|..] <==> CaseInsensitive.SameIgnoringCase(payload, config.rebootCommand)
  {
  }
}
