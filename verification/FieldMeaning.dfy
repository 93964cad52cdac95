/** What the fields of a configuration message mean, by their numbers in the message format, and that the slot table and
    the device agree with it. */
module FieldMeaning {
  import opened Bits
  import opened Wire
  import opened Decoder
  import opened DevCfg

  /** A field that both forms of the configuration use: its number and type select a setting. */
  function Setting(c: DeviceConfig, f: Field): DeviceConfig {
    match f.value
    case Varint(n) =>
      if f.id == 5 then c.(isOtaa := n != 0)
      else if f.id == 14 then c.(txPort := n % 256)
      else if f.id == 15 then c.(txPower := n % 256)
      else if f.id == 16 then c.(sf := n % 256)
      else if f.id == 17 then c.(bw := n % 256)
      else if f.id == 18 then c.(confirmedMsgs := n != 0)
      else if f.id == 19 then c.(adaptiveDatarate := n != 0)
      else if f.id == 20 then c.(dutyCycle := n != 0)
      else if f.id == 21 then c.(sendInterval := n % 0x1_0000_0000)
      else if f.id == 22 then c.(sendTrigger := n % 256)
      else if f.id == 23 then c.(sendStrategy := n % 256)
      else c
    case Fixed64(n) =>
      if f.id == 6 then c.(devEui := LittleEndian(n, 8))
      else if f.id == 7 then c.(appEui := LittleEndian(n, 8))
      else c
    case Bytes(data) =>
      if |data| != 16 then c
      else if f.id == 8 then c.(appKey := data)
      else if f.id == 10 then c.(nwkSKey := data)
      else if f.id == 11 then c.(appSKey := data)
      else c
    case Fixed32(n) =>
      if f.id == 9 then c.(devAddr := n) else c
  }

  /** Over NFC the frequency plans 1 and 2 select the regions EU868 and US915, which the radio stack numbers 5 and 8. */
  function Received(c: DeviceConfig, f: Field): DeviceConfig {
    if f == Field(13, Varint(1)) then c.(region := 5)
    else if f == Field(13, Varint(2)) then c.(region := 8)
    else Setting(c, f)
  }

  /** From EEPROM every plan but 1 selects US915, and the button's counters come from the highest numbers. */
  function Loaded(c: DeviceConfig, f: Field): DeviceConfig {
    if f.id == 13 && f.value.Varint? then c.(region := if f.value.number == 1 then 5 else 8)
    else if f.id == 2047 && f.value.Varint? then c.(singleCount := f.value.number % 256)
    else if f.id == 2046 && f.value.Varint? then c.(doubleCount := f.value.number % 256)
    else if f.id == 2045 && f.value.Varint? then c.(longCount := f.value.number % 256)
    else Setting(c, f)
  }

  // ----- The slot table agrees -------------------------------------------------------------------

  /** Setting a slot to what it holds changes nothing. */
  lemma StoredHeld(c: DeviceConfig, e: Effect, f: Field)
    requires c.Valid() && e == NfcEffect(f) && e.Put? && Read(c, e.slot) == e.raw
    ensures Store(c, e.slot, e.stored) == c
  {
    RawInRange(f, c);
    StoreSame(c, e.slot);
  }

  /** The effect `e` makes `c1` of `c0`. */
  ghost predicate Makes(e: Effect, c0: DeviceConfig, c1: DeviceConfig) {
    match e
    case Nothing => c1 == c0
    case Put(s, _, stored) => Fits(s, stored) && c1 == Store(c0, s, stored)
  }

  /** The slot that a number and a type select. */
  function Numbered(f: Field): Target {
    match f.value
    case Varint(_) =>
      if f.id == 5 then ToSlot(IsOtaa)
      else if f.id == 13 then ToSlot(Region)
      else if f.id == 14 then ToSlot(TxPort)
      else if f.id == 15 then ToSlot(TxPower)
      else if f.id == 16 then ToSlot(Sf)
      else if f.id == 17 then ToSlot(Bw)
      else if f.id == 18 then ToSlot(ConfirmedMsgs)
      else if f.id == 19 then ToSlot(AdaptiveDatarate)
      else if f.id == 20 then ToSlot(DutyCycle)
      else if f.id == 21 then ToSlot(SendInterval)
      else if f.id == 22 then ToSlot(SendTrigger)
      else if f.id == 23 then ToSlot(SendStrategy)
      else NoSlot
    case Fixed64(_) => if f.id == 6 then ToSlot(DevEui) else if f.id == 7 then ToSlot(AppEui) else NoSlot
    case Bytes(_) =>
      if f.id == 8 then ToSlot(AppKey)
      else if f.id == 10 then ToSlot(NwkSKey)
      else if f.id == 11 then ToSlot(AppSKey)
      else NoSlot
    case Fixed32(_) => if f.id == 9 then ToSlot(DevAddr) else NoSlot
  }

  lemma KeyNumbered(f: Field)
    ensures KeySlot(Key(f)) == Numbered(f)
  {
  }

  lemma StoredKeyNumbered(f: Field)
    ensures StoredKeySlot(Key(f))
            == if f.value.Varint? && f.id == 2047 then ToSlot(SingleCount)
               else if f.value.Varint? && f.id == 2046 then ToSlot(DoubleCount)
               else if f.value.Varint? && f.id == 2045 then ToSlot(LongCount)
               else Numbered(f)
  {
    KeyNumbered(f);
  }

  lemma SwitchMakes(c: DeviceConfig, f: Field, s: Slot)
    requires f.value.Varint? && Numbered(f) == ToSlot(s) && Width(s) == 2
    ensures Makes(ValueEffect(s, f.value), c, Setting(c, f))
  {
  }

  lemma RadioNumberMakes(c: DeviceConfig, f: Field, s: Slot)
    requires f.value.Varint? && Numbered(f) == ToSlot(s) && 14 <= f.id <= 17
    ensures Makes(ValueEffect(s, f.value), c, Setting(c, f))
  {
  }

  lemma SendingNumberMakes(c: DeviceConfig, f: Field, s: Slot)
    requires f.value.Varint? && Numbered(f) == ToSlot(s) && 21 <= f.id <= 23
    ensures Makes(ValueEffect(s, f.value), c, Setting(c, f))
  {
  }

  /** A number for a slot, by the kind of the slot. */
  lemma NumberMakes(c: DeviceConfig, f: Field, s: Slot)
    requires f.value.Varint? && Numbered(f) == ToSlot(s) && s != Region
    ensures Makes(ValueEffect(s, f.value), c, Setting(c, f))
  {
    if Width(s) == 2 {
      SwitchMakes(c, f, s);
    } else if f.id <= 17 {
      RadioNumberMakes(c, f, s);
    } else {
      SendingNumberMakes(c, f, s);
    }
  }

  lemma OtherMakes(c: DeviceConfig, f: Field, s: Slot)
    requires !f.value.Varint? && Numbered(f) == ToSlot(s)
    ensures Makes(ValueEffect(s, f.value), c, Setting(c, f))
  {
  }

  lemma SettingMakes(c: DeviceConfig, f: Field, s: Slot)
    requires Numbered(f) == ToSlot(s) && s != Region
    ensures Makes(ValueEffect(s, f.value), c, Setting(c, f))
  {
    if f.value.Varint? {
      NumberMakes(c, f, s);
    } else {
      OtherMakes(c, f, s);
    }
  }

  lemma UnnumberedNumberSetsNothing(c: DeviceConfig, f: Field)
    requires f.value.Varint? && (Numbered(f) == NoSlot || f.id == 13)
    ensures Setting(c, f) == c
  {
  }

  lemma UnnumberedSetsNothing(c: DeviceConfig, f: Field)
    requires Numbered(f) == NoSlot || Numbered(f) == ToSlot(Region)
    ensures Setting(c, f) == c
  {
    if f.value.Varint? {
      UnnumberedNumberSetsNothing(c, f);
    }
  }

  lemma CountMakes(c: DeviceConfig, f: Field, s: Slot)
    requires f.value.Varint? && 2045 <= f.id <= 2047
    requires s == if f.id == 2047 then SingleCount else if f.id == 2046 then DoubleCount else LongCount
    ensures Makes(ValueEffect(s, f.value), c, Loaded(c, f))
  {
  }

  lemma ReceivedMakes(c: DeviceConfig, f: Field)
    ensures Makes(NfcEffect(f), c, Received(c, f))
  {
    KeyNumbered(f);
    match Numbered(f)
    case NoSlot => UnnumberedSetsNothing(c, f);
    case ToSlot(s) =>
      if s == Region {
        UnnumberedSetsNothing(c, f);
      } else {
        SettingMakes(c, f, s);
      }
  }

  lemma LoadedMakes(c: DeviceConfig, f: Field)
    ensures Makes(StoredEffect(f), c, Loaded(c, f))
  {
    StoredKeyNumbered(f);
    if f.value.Varint? && 2045 <= f.id <= 2047 {
      CountMakes(c, f, StoredKeySlot(Key(f)).slot);
    } else {
      match Numbered(f)
      case NoSlot => UnnumberedSetsNothing(c, f);
      case ToSlot(s) =>
        if s != Region {
          SettingMakes(c, f, s);
        }
    }
  }

  /** A field received over NFC acts on the configuration as its number says. */
  lemma FieldReceived(d: Device, f: Field)
    requires d.cfg.Valid()
    ensures Apply(d, f).cfg == Received(d.cfg, f)
  {
    ReceivedMakes(d.cfg, f);
    var e := NfcEffect(f);
    if e.Put? && Read(d.cfg, e.slot) == e.raw {
      StoredHeld(d.cfg, e, f);
    }
  }

  /** A field loaded from EEPROM acts on the configuration as its number says. */
  lemma FieldLoaded(c: DeviceConfig, f: Field)
    ensures Restore(c, f) == Loaded(c, f)
  {
    LoadedMakes(c, f);
  }

  // ----- Whole messages --------------------------------------------------------------------------

  function ReceivedAll(c: DeviceConfig, fs: seq<Field>): DeviceConfig {
    if fs == [] then c else Received(ReceivedAll(c, fs[..|fs| - 1]), fs[|fs| - 1])
  }

  function LoadedAll(c: DeviceConfig, fs: seq<Field>): DeviceConfig {
    if fs == [] then c else Loaded(LoadedAll(c, fs[..|fs| - 1]), fs[|fs| - 1])
  }

  lemma {:induction false} MessageReceived(d: Device, fs: seq<Field>)
    requires d.cfg.Valid()
    ensures ApplyAll(d, fs).cfg == ReceivedAll(d.cfg, fs)
  {
    if fs != [] {
      var front := fs[..|fs| - 1];
      MessageReceived(d, front);
      ApplyAllValid(d, front);
      FieldReceived(ApplyAll(d, front), fs[|fs| - 1]);
    }
  }

  lemma {:induction false} MessageLoaded(c: DeviceConfig, fs: seq<Field>)
    ensures RestoreAll(c, fs) == LoadedAll(c, fs)
  {
    if fs != [] {
      var front := fs[..|fs| - 1];
      MessageLoaded(c, front);
      FieldLoaded(RestoreAll(c, front), fs[|fs| - 1]);
    }
  }

  /** A message leaves the network exactly if it carries the join status zero. */
  lemma {:induction false} LeavesNetworkIff(d: Device, fs: seq<Field>)
    ensures ApplyAll(d, fs).unjoined <==> d.unjoined || Field(12, Varint(0)) in fs
  {
    if fs != [] {
      var front, f := fs[..|fs| - 1], fs[|fs| - 1];
      assert fs == front + [f];
      LeavesNetworkIff(d, front);
      JoinStatus(ApplyAll(d, front), f);
    }
  }

  lemma JoinStatus(d: Device, f: Field)
    ensures Apply(d, f).unjoined <==> d.unjoined || f == Field(12, Varint(0))
  {
    if f.value.Varint? {
      assert Key(f) == LORA_JOINED <==> f.id == 12;
    }
  }

  // ----- Which flags a message raises ------------------------------------------------------------

  predicate RadioField(f: Field) {
    5 <= f.id <= 11 || 13 <= f.id <= 20
  }

  predicate SendingField(f: Field) {
    21 <= f.id <= 23
  }

  lemma KindOfField(f: Field)
    ensures var e := NfcEffect(f);
            e.Put? ==> if LoRaSlot(e.slot) then RadioField(f) else SendingField(f)
  {
  }

  /** A message without radio settings does not raise `lrw`, one without sending settings not `resched`, and one with
      neither no flag. */
  lemma {:induction false} OtherFlagsStay(d: Device, fs: seq<Field>)
    ensures (forall f | f in fs :: !RadioField(f)) ==> ApplyAll(d, fs).changed.lrw == d.changed.lrw
    ensures (forall f | f in fs :: !SendingField(f)) ==> ApplyAll(d, fs).changed.resched == d.changed.resched
    ensures (forall f | f in fs :: !RadioField(f) && !SendingField(f)) ==> ApplyAll(d, fs).changed == d.changed
  {
    if fs != [] {
      var front, f := fs[..|fs| - 1], fs[|fs| - 1];
      assert fs == front + [f] && f in fs;
      assert forall g | g in front :: g in fs;
      OtherFlagsStay(d, front);
      KindOfField(f);
    }
  }
}
