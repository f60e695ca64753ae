/** The registry of reParams as the C code runs it: one object whose fields are the module
    statics (`paramsList`, `_paramsTopic`) together with the memory its entries point to,
    the persistent store and the log of outside calls. Each method mirrors one function of
    the source and is proved to compute the step function of `ParamsModel` for it. */
module ParamsRegistry {
  import opened Opt
  import CaseInsensitive
  import opened ParamsModel

  /** The do-while download loop of `paramsStartOTA`: attempt `1, 2, ...` until one
      succeeds or `limit` attempts are made; at least one attempt is always made. */
  method DownloadAttempts(succeeds: nat -> bool, limit: uint8) returns (tries: nat, ok: bool)
    ensures 1 <= tries <= Max1(limit)
    ensures ok == succeeds(tries)
    ensures forall k :: 1 <= k < tries ==> !succeeds(k)
    ensures !ok ==> tries == Max1(limit)
    ensures tries == AttemptsUsed(succeeds, limit)
  {
    tries := 1;
    ok := succeeds(tries);
    while !ok && tries < limit as int
      invariant 1 <= tries <= Max1(limit)
      invariant ok == succeeds(tries)
      invariant forall k :: 1 <= k < tries ==> !succeeds(k)
      invariant AttemptsUsed(succeeds, limit) == AttemptsFrom(succeeds, limit, tries)
      decreases limit as int - tries
    {
      tries := tries + 1;
      ok := succeeds(tries);
    }
  }

  class Registry {
    const config: Config
    /** `paramsList != nullptr` */
    var initialized: bool
    /** the entries of `paramsList`, in list order */
    var entries: seq<Entry>
    /** `_paramsTopic`, the shared wildcard topic */
    var wildcardTopic: Option<string>
    /** the variables the entries' `value` pointers point to */
    var cells: map<CellRef, Value>
    /** the persistent store, by group and key */
    var store: map<Slot, Value>
    /** every call made to the store, the callbacks, the broker and the updater */
    var calls: seq<Call>

    function Snapshot(): State
      reads this`entries, this`wildcardTopic, this`cells, this`store, this`calls
    {
      ParamsModel.State(entries, wildcardTopic, cells, store, calls)
    }

    ghost predicate Valid()
      reads this`entries, this`cells
    {
      CellsValid(entries, cells) && config.silentCell in cells
    }

    constructor (config: Config, memory: map<CellRef, Value>, store: map<Slot, Value>)
      requires config.silentCell in memory
      ensures Valid() && this.config == config && !initialized
      ensures Snapshot() == ParamsModel.State([], None, memory, store, [])
    {
      this.config := config;
      initialized := false;
      entries := [];
      wildcardTopic := None;
      cells := memory;
      this.store := store;
      calls := [];
    }

    /** `paramsMqttSubscribeTry` */
    method SubscribeTry(topic: Option<string>, qos: int, mqtt: Mqtt) returns (ok: bool)
      modifies this`calls
      ensures ok == TrySubscribe(topic, qos, mqtt).ok
      ensures calls == old(calls) + TrySubscribe(topic, qos, mqtt).calls
    {
      ok := false;
      if topic.Some? {
        var q := ToUint8(qos) as int;
        ok := mqtt.subscribe(topic.value, q);
        calls := calls + [Subscribe(topic.value, q, ok)];
      }
    }

    /** `paramsMqttSubscribeEntry` */
    method SubscribeEntry(i: nat, mqtt: Mqtt)
      requires Valid() && i < |entries|
      modifies this`entries, this`wildcardTopic, this`calls
      ensures Valid()
      ensures Snapshot() == SubscribeEntryStep(old(Snapshot()), i, mqtt, config)
    {
      var e := entries[i];
      var topic := SubscribeTopic(e, mqtt, config);
      if topic.Some? {
        if config.wildcard && e.kind == Parameter {
          if wildcardTopic.None? {
            var temp := WildcardTopic(mqtt, config);
            var ok := SubscribeTry(temp, config.paramsQos, mqtt);
            if ok {
              wildcardTopic := temp;
              entries := entries[i := e.(topic := topic)];
            }
          } else {
            entries := entries[i := e.(topic := topic)];
          }
        } else {
          var ok := SubscribeTry(topic, e.qos, mqtt);
          if ok {
            entries := entries[i := e.(topic := topic)];
          }
        }
      }
    }

    /** `paramsMqttPublishConfirm` */
    method PublishConfirm(i: nat, mqtt: Mqtt, codec: Codec)
      requires Valid() && i < |entries|
      modifies this`entries, this`calls
      ensures Valid()
      ensures Snapshot() == ConfirmStep(old(Snapshot()), i, mqtt, codec, config)
    {
      var e := entries[i];
      if e.kind == Parameter && e.cell.Some? {
        if e.confirm.None? {
          entries := entries[i := e.(confirm := mqtt.getTopic(Some(config.confirmTopic), e.group, Some(e.key)))];
        }
        var confirm := entries[i].confirm;
        if confirm.Some? {
          calls := calls + [Publish(confirm.value, Some(codec.format(e.valueType, cells[e.cell.value])))];
        }
      }
    }

    /** `nvsRead` of entry `i` into its cell. */
    method ReadStore(i: nat)
      requires Valid() && i < |entries|
      modifies this`cells, this`calls
      ensures Valid() && cells.Keys == old(cells).Keys
      ensures Snapshot() == ReadStored(old(Snapshot()), i)
    {
      var e := entries[i];
      var slot := e.StoreSlot();
      calls := calls + [NvsRead(slot, slot in store)];
      if slot in store && e.cell.Some? {
        cells := cells[e.cell.value := store[slot]];
      }
    }

    /** The PARAMETER part of `paramsRegValue` for the new entry `i`: `nvsRead` into the
        cell, `on_change`, and the confirmation when connected. */
    method Restore(i: nat, mqtt: Mqtt, codec: Codec)
      requires Valid() && i < |entries|
      modifies this`entries, this`cells, this`calls
      ensures Valid() && cells.Keys == old(cells).Keys
      ensures Snapshot() == RestoreStep(old(Snapshot()), i, mqtt, codec, config)
    {
      ReadStore(i);
      ghost var read := Snapshot();
      calls := calls + Notification(entries[i].onChange);
      assert Snapshot() == read.(calls := read.calls + Notification(old(entries)[i].onChange));
      if mqtt.connected {
        PublishConfirm(i, mqtt, codec);
      }
    }

    /** The body of `paramsRegValue` once the list exists. */
    method Append(reg: Registration, mqtt: Mqtt, codec: Codec)
      requires Valid() && (reg.cell.Some? ==> reg.cell.value in cells)
      modifies this`entries, this`wildcardTopic, this`cells, this`calls
      ensures Valid() && cells.Keys == old(cells).Keys && initialized == old(initialized)
      ensures Snapshot() == AppendStep(old(Snapshot()), reg, mqtt, codec, config)
    {
      ghost var before := Snapshot();
      var i := |entries|;
      entries := entries + [NewEntry(reg)];
      ghost var appended := Snapshot();
      assert appended == before.(entries := before.entries + [NewEntry(reg)]);
      if reg.kind == Parameter {
        Restore(i, mqtt, codec);
      }
      ghost var restored := Snapshot();
      assert restored == if reg.kind == Parameter then RestoreStep(appended, i, mqtt, codec, config) else appended;
      SubscribeEntry(i, mqtt);
    }

    /** `paramsInit`: creates the list and registers the system entries. */
    method Init(mqtt: Mqtt, codec: Codec)
      requires Valid()
      modifies this
      ensures Valid() && initialized && cells.Keys == old(cells).Keys
      ensures Snapshot() == InitStep(old(Snapshot()), mqtt, codec, config)
    {
      initialized := true;
      ghost var start := Snapshot();
      assert start == old(Snapshot());
      var regs := SystemRegistrations(config);
      Append(regs[0], mqtt, codec);
      Append(regs[1], mqtt, codec);
      Append(regs[2], mqtt, codec);
      FoldThree(start, regs, Appender(mqtt, codec, config));
    }

    /** `paramsRegValue` */
    method Register(reg: Registration, mqtt: Mqtt, codec: Codec)
      requires Valid() && (reg.cell.Some? ==> reg.cell.value in cells)
      modifies this
      ensures Valid() && initialized
      ensures Snapshot() == RegisterStep(old(Snapshot()), old(initialized), reg, mqtt, codec, config)
    {
      ghost var before := Snapshot();
      ghost var wasInitialized := initialized;
      if !initialized {
        Init(mqtt, codec);
      }
      RegisterIsAppend(before, wasInitialized, Snapshot(), reg, mqtt, codec, config);
      Append(reg, mqtt, codec);
    }

    /** `paramsMqttSubscribing`: subscribe every entry that has no topic yet. */
    method Subscribing(mqtt: Mqtt)
      requires Valid()
      modifies this`entries, this`wildcardTopic, this`calls
      ensures Valid()
      ensures Snapshot() == SubscribingUpTo(old(Snapshot()), |old(entries)|, mqtt, config)
    {
      ghost var start := Snapshot();
      var n := |entries|;
      var i := 0;
      while i < n
        invariant Valid()
        invariant n == |start.entries| && i <= n
        invariant Snapshot() == SubscribingUpTo(start, i, mqtt, config)
      {
        SubscribePending(i, mqtt);
        i := i + 1;
      }
    }

    /** One step of `paramsMqttSubscribing`: an entry without a topic is subscribed, any
        other entry is skipped. */
    method SubscribePending(i: nat, mqtt: Mqtt)
      requires Valid() && i < |entries|
      modifies this`entries, this`wildcardTopic, this`calls
      ensures Valid()
      ensures Snapshot() ==
        if old(entries[i]).topic.None? then SubscribeEntryStep(old(Snapshot()), i, mqtt, config)
        else old(Snapshot())
    {
      if entries[i].topic.None? {
        SubscribeEntry(i, mqtt);
      }
    }

    /** `paramsMqttConfirmations`: confirm every PARAMETER that has no confirmation topic. */
    method Confirmations(mqtt: Mqtt, codec: Codec)
      requires Valid()
      modifies this`entries, this`calls
      ensures Valid()
      ensures Snapshot() == ConfirmationsUpTo(old(Snapshot()), |old(entries)|, mqtt, codec, config)
    {
      ghost var start := Snapshot();
      var n := |entries|;
      var i := 0;
      while i < n
        invariant Valid()
        invariant n == |start.entries| && i <= n
        invariant Snapshot() == ConfirmationsUpTo(start, i, mqtt, codec, config)
      {
        ConfirmPending(i, mqtt, codec);
        i := i + 1;
      }
    }

    /** One step of `paramsMqttConfirmations`: a PARAMETER without a confirmation topic is
        confirmed, any other entry is skipped. */
    method ConfirmPending(i: nat, mqtt: Mqtt, codec: Codec)
      requires Valid() && i < |entries|
      modifies this`entries, this`calls
      ensures Valid()
      ensures Snapshot() ==
        if old(entries[i]).kind == Parameter && old(entries[i]).confirm.None?
        then ConfirmStep(old(Snapshot()), i, mqtt, codec, config) else old(Snapshot())
    {
      if entries[i].kind == Parameter && entries[i].confirm.None? {
        PublishConfirm(i, mqtt, codec);
      }
    }

    /** `paramsMqttSubscribesOpen` */
    method SubscribesOpen(mqtt: Mqtt, codec: Codec)
      requires Valid()
      modifies this`entries, this`wildcardTopic, this`calls
      ensures Valid()
      ensures Snapshot() == OpenStep(old(Snapshot()), mqtt, codec, config)
    {
      if mqtt.connected {
        Confirmations(mqtt, codec);
        Subscribing(mqtt);
      }
    }

    /** `paramsMqttSubscribesClose`: free the wildcard topic and every entry's topics. */
    method SubscribesClose()
      requires Valid()
      modifies this`entries, this`wildcardTopic
      ensures Valid()
      ensures Snapshot() == CloseStep(old(Snapshot()))
    {
      wildcardTopic := None;
      var i := 0;
      while i < |entries|
        invariant |entries| == |old(entries)| && i <= |entries| && wildcardTopic.None?
        invariant forall j :: 0 <= j < i ==> entries[j] == Cleared(old(entries)[j])
        invariant forall j :: i <= j < |entries| ==> entries[j] == old(entries)[j]
      {
        entries := entries[i := entries[i].(topic := None, confirm := None)];
        i := i + 1;
      }
      assert entries == ClearAll(old(entries));
    }

    /** `paramsFree`: unsubscribe every entry holding a topic and drop the entries. */
    method Free()
      requires Valid()
      modifies this`entries, this`calls
      ensures Valid()
      ensures Snapshot() == FreeStep(old(Snapshot()))
    {
      var i := 0;
      while i < |entries|
        invariant entries == old(entries) && i <= |entries|
        invariant calls == old(calls) + UnsubscribeAll(entries[..i])
      {
        if entries[i].topic.Some? {
          calls := calls + [Unsubscribe(entries[i].topic.value)];
        }
        assert entries[..i + 1][..i] == entries[..i];
        i := i + 1;
      }
      assert entries[..i] == entries;
      entries := [];
    }

    /** The search loop of `paramsMqttIncomingMessage`. */
    method Lookup(topic: string) returns (found: Option<nat>)
      ensures found == FirstMatch(entries, topic)
    {
      var i := 0;
      while i < |entries|
        invariant i <= |entries|
        invariant forall j :: 0 <= j < i ==> !Matches(entries[j], topic)
      {
        var e := entries[i];
        if e.topic.Some? && CaseInsensitive.SameIgnoringCase(e.topic.value, topic) {
          return Some(i);
        }
        i := i + 1;
      }
      return None;
    }

    /** `paramsStartOTA` */
    method StartOta(topic: string, payload: string, mqtt: Mqtt, succeeds: nat -> bool)
      modifies this`calls
      ensures Snapshot() == StartOtaStep(old(Snapshot()), topic, payload, mqtt, succeeds, config)
    {
      if |payload| > 0 {
        ghost var before := calls;
        calls := calls + [Unsubscribe(topic), Publish(topic, None)];
        var ok := mqtt.subscribe(topic, config.otaQos);
        calls := calls + [Subscribe(topic, config.otaQos, ok)];
        assert calls == before + ResetCalls(topic, config.otaQos, mqtt);
        var tries, _ := DownloadAttempts(succeeds, config.otaAttempts);
        calls := calls + AttemptCalls(payload, succeeds, tries) + [Restart];
      }
    }

    /** `paramsExecCmd` */
    method ExecCmd(topic: string, payload: string, mqtt: Mqtt)
      modifies this`calls
      ensures Snapshot() == ExecCmdStep(old(Snapshot()), topic, payload, mqtt, config)
    {
      ghost var before := calls;
      calls := calls + [Unsubscribe(topic), Publish(topic, None)];
      var ok := mqtt.subscribe(topic, config.commandQos);
      calls := calls + [Subscribe(topic, config.commandQos, ok)];
      assert calls == before + ResetCalls(topic, config.commandQos, mqtt);
      if CaseInsensitive.SameIgnoringCase(payload, config.rebootCommand) {
        calls := calls + [Restart];
        assert calls == before + (ResetCalls(topic, config.commandQos, mqtt) + [Restart]);
      } else {
        assert calls == before + (ResetCalls(topic, config.commandQos, mqtt) + []);
      }
    }

    /** `paramsSetValue` */
    method SetValue(i: nat, payload: string, mqtt: Mqtt, codec: Codec)
      requires Valid() && i < |entries|
      modifies this`entries, this`cells, this`store, this`calls
      ensures Valid()
      ensures Snapshot() == SetValueStep(old(Snapshot()), i, payload, mqtt, codec, config)
    {
      ghost var before := Snapshot();
      var e := entries[i];
      var newValue := codec.parse(e.valueType, payload);
      if newValue.Some? {
        var current := if e.cell.Some? then Some(cells[e.cell.value]) else None;
        assert current == Content(cells, e);
        if codec.equal(e.valueType, current, newValue.value) {
          assert Classify(before, i, payload, codec) == Same(newValue.value);
          PublishConfirm(i, mqtt, codec);
        } else {
          assert Classify(before, i, payload, codec) == Differs(newValue.value);
          Write(i, newValue.value);
          PublishConfirm(i, mqtt, codec);
        }
      }
    }

    /** The writing branch of `paramsSetValue`: cell, then `on_change`, then the store. */
    method Write(i: nat, v: Value)
      requires Valid() && i < |entries|
      modifies this`cells, this`store, this`calls
      ensures Valid()
      ensures Snapshot() == WriteValue(old(Snapshot()), i, v)
    {
      var e := entries[i];
      if e.cell.Some? {
        cells := cells[e.cell.value := v];
      }
      if e.onChange.Some? {
        calls := calls + [OnChange(e.onChange.value)];
      }
      var written := if e.cell.Some? then Some(cells[e.cell.value]) else None;
      if written.Some? {
        store := store[e.StoreSlot() := written.value];
      }
      calls := calls + [NvsWrite(e.StoreSlot(), written)];
    }

    /** `paramsMqttIncomingMessage` */
    method IncomingMessage(topic: string, payload: string, mqtt: Mqtt, codec: Codec, succeeds: nat -> bool)
      requires Valid()
      modifies this`entries, this`cells, this`store, this`calls
      ensures Valid()
      ensures Snapshot() == IncomingStep(old(Snapshot()), topic, payload, mqtt, codec, succeeds, config)
    {
      var found := Lookup(topic);
      if found.Some? {
        var i := found.value;
        match entries[i].kind
        case Ota => StartOta(topic, payload, mqtt, succeeds);
        case Command => ExecCmd(topic, payload, mqtt);
        case Parameter => SetValue(i, payload, mqtt, codec);
      }
    }
  }
}
