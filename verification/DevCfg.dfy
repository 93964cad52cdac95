/** The device configuration and what a received field does to it.

    `DeviceConfig` is the persisted part of `struct DeviceConfig` in the button build. A field's effect is given here by
    a table from keys to slots, the reference the two dispatch chains of the firmware are proved against. */
module DevCfg {
  import opened Bits
  import opened Wire
  import opened Decoder

  const REGIONS := 10
  const LORAMAC_REGION_EU868 := 5
  const LORAMAC_REGION_US915 := 8
  const PBENUM_FP_EU868 := 1
  const PBENUM_FP_US915 := 2

  /** The enumerations `sendTrigger` and `sendStrategy` are one byte wide. */
  datatype DeviceConfig = DeviceConfig(
    isOtaa: bool,
    devEui: seq<byte>,
    appEui: seq<byte>,
    appKey: seq<byte>,
    devAddr: uint32,
    nwkSKey: seq<byte>,
    appSKey: seq<byte>,
    region: nat,
    txPort: byte,
    txPower: byte,
    sf: byte,
    bw: byte,
    confirmedMsgs: bool,
    adaptiveDatarate: bool,
    dutyCycle: bool,
    sendInterval: uint32,
    sendTrigger: byte,
    sendStrategy: byte,
    singleCount: byte,
    doubleCount: byte,
    longCount: byte)
  {
    /** The array fields have their declared lengths and the region is one of the enumeration. */
    ghost predicate Valid() {
      && |devEui| == 8 && |appEui| == 8
      && |appKey| == 16 && |nwkSKey| == 16 && |appSKey| == 16
      && region < REGIONS
    }
  }

  datatype Changed = Changed(any: bool, lrw: bool, resched: bool)

  const UNCHANGED := Changed(false, false, false)

  /** The configuration, its change flags, and whether the network activation was set to "none". */
  datatype Device = Device(cfg: DeviceConfig, changed: Changed, unjoined: bool)

  // ----- Keys ------------------------------------------------------------------------------------

  const LORA_OTAA := 5 * 8 + TAGTYPE_VARINT
  const LORA_DEV_EUI := 6 * 8 + TAGTYPE_FIXED64
  const LORA_APP_EUI := 7 * 8 + TAGTYPE_FIXED64
  const LORA_APP_KEY := 8 * 8 + TAGTYPE_BYTES
  const LORA_DEV_ADDR := 9 * 8 + TAGTYPE_FIXED32
  const LORA_MAC_NET_SESSION_KEY := 10 * 8 + TAGTYPE_BYTES
  const LORA_MAC_APP_SESSION_KEY := 11 * 8 + TAGTYPE_BYTES
  const LORA_JOINED := 12 * 8 + TAGTYPE_VARINT
  const LORA_FP := 13 * 8 + TAGTYPE_VARINT
  const LORA_PORT := 14 * 8 + TAGTYPE_VARINT
  const LORA_TXP := 15 * 8 + TAGTYPE_VARINT
  const LORA_SF := 16 * 8 + TAGTYPE_VARINT
  const LORA_BW := 17 * 8 + TAGTYPE_VARINT
  const LORA_CONFIRMED_MESSAGES := 18 * 8 + TAGTYPE_VARINT
  const LORA_ADAPTIVE_DATA_RATE := 19 * 8 + TAGTYPE_VARINT
  const LORA_RESPECT_DUTY_CYCLE := 20 * 8 + TAGTYPE_VARINT
  const SENSOR_TIMEBASE := 21 * 8 + TAGTYPE_VARINT
  const SENSOR_SEND_TRIGGER := 22 * 8 + TAGTYPE_VARINT
  const SENSOR_SEND_STRATEGY := 23 * 8 + TAGTYPE_VARINT
  const BUTTON_SINGLE_COUNT := 2047 * 8 + TAGTYPE_VARINT
  const BUTTON_DOUBLE_COUNT := 2046 * 8 + TAGTYPE_VARINT
  const BUTTON_LONG_COUNT := 2045 * 8 + TAGTYPE_VARINT

  // ----- Slots -----------------------------------------------------------------------------------

  datatype Slot =
    | IsOtaa | DevEui | AppEui | AppKey | DevAddr | NwkSKey | AppSKey | Region | TxPort | TxPower | Sf | Bw
    | ConfirmedMsgs | AdaptiveDatarate | DutyCycle | SendInterval | SendTrigger | SendStrategy
    | SingleCount | DoubleCount | LongCount

  datatype SlotValue = Num(n: nat) | Blob(bytes: seq<byte>)

  function Bit(b: bool): nat {
    if b then 1 else 0
  }

  function Read(c: DeviceConfig, s: Slot): SlotValue {
    match s
    case IsOtaa => Num(Bit(c.isOtaa))
    case DevEui => Blob(c.devEui)
    case AppEui => Blob(c.appEui)
    case AppKey => Blob(c.appKey)
    case DevAddr => Num(c.devAddr)
    case NwkSKey => Blob(c.nwkSKey)
    case AppSKey => Blob(c.appSKey)
    case Region => Num(c.region)
    case TxPort => Num(c.txPort)
    case TxPower => Num(c.txPower)
    case Sf => Num(c.sf)
    case Bw => Num(c.bw)
    case ConfirmedMsgs => Num(Bit(c.confirmedMsgs))
    case AdaptiveDatarate => Num(Bit(c.adaptiveDatarate))
    case DutyCycle => Num(Bit(c.dutyCycle))
    case SendInterval => Num(c.sendInterval)
    case SendTrigger => Num(c.sendTrigger)
    case SendStrategy => Num(c.sendStrategy)
    case SingleCount => Num(c.singleCount)
    case DoubleCount => Num(c.doubleCount)
    case LongCount => Num(c.longCount)
  }

  /** Number of values of a numeric slot, or zero for the byte arrays. */
  function Width(s: Slot): nat {
    match s
    case IsOtaa => 2
    case ConfirmedMsgs => 2
    case AdaptiveDatarate => 2
    case DutyCycle => 2
    case DevAddr => 0x1_0000_0000
    case SendInterval => 0x1_0000_0000
    case Region => REGIONS
    case DevEui => 0
    case AppEui => 0
    case AppKey => 0
    case NwkSKey => 0
    case AppSKey => 0
    case _ => 0x100
  }

  function ArraySize(s: Slot): nat {
    match s
    case DevEui => 8
    case AppEui => 8
    case AppKey => 16
    case NwkSKey => 16
    case AppSKey => 16
    case _ => 0
  }

  predicate Fits(s: Slot, v: SlotValue) {
    if Width(s) == 0 then v.Blob? && |v.bytes| == ArraySize(s) else v.Num? && v.n < Width(s)
  }

  function Store(c: DeviceConfig, s: Slot, v: SlotValue): DeviceConfig
    requires Fits(s, v)
  {
    match s
    case IsOtaa => c.(isOtaa := v.n == 1)
    case DevEui => c.(devEui := v.bytes)
    case AppEui => c.(appEui := v.bytes)
    case AppKey => c.(appKey := v.bytes)
    case DevAddr => c.(devAddr := v.n)
    case NwkSKey => c.(nwkSKey := v.bytes)
    case AppSKey => c.(appSKey := v.bytes)
    case Region => c.(region := v.n)
    case TxPort => c.(txPort := v.n)
    case TxPower => c.(txPower := v.n)
    case Sf => c.(sf := v.n)
    case Bw => c.(bw := v.n)
    case ConfirmedMsgs => c.(confirmedMsgs := v.n == 1)
    case AdaptiveDatarate => c.(adaptiveDatarate := v.n == 1)
    case DutyCycle => c.(dutyCycle := v.n == 1)
    case SendInterval => c.(sendInterval := v.n)
    case SendTrigger => c.(sendTrigger := v.n)
    case SendStrategy => c.(sendStrategy := v.n)
    case SingleCount => c.(singleCount := v.n)
    case DoubleCount => c.(doubleCount := v.n)
    case LongCount => c.(longCount := v.n)
  }

  lemma StoreThenRead(c: DeviceConfig, s: Slot, v: SlotValue, t: Slot)
    requires Fits(s, v)
    ensures Read(Store(c, s, v), t) == if s == t then v else Read(c, t)
  {
  }

  lemma ReadFits(c: DeviceConfig, s: Slot)
    requires c.Valid()
    ensures Fits(s, Read(c, s))
  {
  }

  lemma StoreKeepsValid(c: DeviceConfig, s: Slot, v: SlotValue)
    requires c.Valid() && Fits(s, v)
    ensures Store(c, s, v).Valid()
  {
  }

  lemma StoreSame(c: DeviceConfig, s: Slot)
    requires c.Valid()
    ensures Fits(s, Read(c, s)) && Store(c, s, Read(c, s)) == c
  {
  }

  /** The slots are all of a configuration. */
  lemma SameSlots(a: DeviceConfig, b: DeviceConfig)
    requires forall s :: Read(a, s) == Read(b, s)
    ensures a == b
  {
    SameIdentity(a, b);
    SameRadio(a, b);
    SamePolicy(a, b);
  }

  lemma SameIdentity(a: DeviceConfig, b: DeviceConfig)
    requires forall s :: Read(a, s) == Read(b, s)
    ensures a.isOtaa == b.isOtaa && a.devEui == b.devEui && a.appEui == b.appEui && a.appKey == b.appKey
    ensures a.devAddr == b.devAddr && a.nwkSKey == b.nwkSKey && a.appSKey == b.appSKey
  {
    assert Read(a, IsOtaa) == Read(b, IsOtaa) && Read(a, DevAddr) == Read(b, DevAddr);
    assert Read(a, DevEui) == Read(b, DevEui) && Read(a, AppEui) == Read(b, AppEui);
    assert Read(a, AppKey) == Read(b, AppKey) && Read(a, NwkSKey) == Read(b, NwkSKey);
    assert Read(a, AppSKey) == Read(b, AppSKey);
  }

  lemma SameRadio(a: DeviceConfig, b: DeviceConfig)
    requires forall s :: Read(a, s) == Read(b, s)
    ensures a.region == b.region && a.txPort == b.txPort && a.txPower == b.txPower && a.sf == b.sf && a.bw == b.bw
    ensures a.confirmedMsgs == b.confirmedMsgs && a.adaptiveDatarate == b.adaptiveDatarate
    ensures a.dutyCycle == b.dutyCycle
  {
    assert Read(a, Region) == Read(b, Region) && Read(a, TxPort) == Read(b, TxPort);
    assert Read(a, TxPower) == Read(b, TxPower) && Read(a, Sf) == Read(b, Sf) && Read(a, Bw) == Read(b, Bw);
    assert Read(a, ConfirmedMsgs) == Read(b, ConfirmedMsgs) && Read(a, DutyCycle) == Read(b, DutyCycle);
    assert Read(a, AdaptiveDatarate) == Read(b, AdaptiveDatarate);
  }

  lemma SamePolicy(a: DeviceConfig, b: DeviceConfig)
    requires forall s :: Read(a, s) == Read(b, s)
    ensures a.sendInterval == b.sendInterval && a.sendTrigger == b.sendTrigger && a.sendStrategy == b.sendStrategy
    ensures a.singleCount == b.singleCount && a.doubleCount == b.doubleCount && a.longCount == b.longCount
  {
    assert Read(a, SendInterval) == Read(b, SendInterval) && Read(a, SendTrigger) == Read(b, SendTrigger);
    assert Read(a, SendStrategy) == Read(b, SendStrategy) && Read(a, SingleCount) == Read(b, SingleCount);
    assert Read(a, DoubleCount) == Read(b, DoubleCount) && Read(a, LongCount) == Read(b, LongCount);
  }

  // ----- The effect of one field -----------------------------------------------------------------

  datatype Target = NoSlot | ToSlot(slot: Slot)

  /** The slot a configuration key addresses. */
  function KeySlot(key: nat): Target {
    if key == LORA_OTAA then ToSlot(IsOtaa)
    else if key == LORA_DEV_EUI then ToSlot(DevEui)
    else if key == LORA_APP_EUI then ToSlot(AppEui)
    else if key == LORA_APP_KEY then ToSlot(AppKey)
    else if key == LORA_DEV_ADDR then ToSlot(DevAddr)
    else if key == LORA_MAC_NET_SESSION_KEY then ToSlot(NwkSKey)
    else if key == LORA_MAC_APP_SESSION_KEY then ToSlot(AppSKey)
    else if key == LORA_FP then ToSlot(Region)
    else if key == LORA_PORT then ToSlot(TxPort)
    else if key == LORA_TXP then ToSlot(TxPower)
    else if key == LORA_SF then ToSlot(Sf)
    else if key == LORA_BW then ToSlot(Bw)
    else if key == LORA_CONFIRMED_MESSAGES then ToSlot(ConfirmedMsgs)
    else if key == LORA_ADAPTIVE_DATA_RATE then ToSlot(AdaptiveDatarate)
    else if key == LORA_RESPECT_DUTY_CYCLE then ToSlot(DutyCycle)
    else if key == SENSOR_TIMEBASE then ToSlot(SendInterval)
    else if key == SENSOR_SEND_TRIGGER then ToSlot(SendTrigger)
    else if key == SENSOR_SEND_STRATEGY then ToSlot(SendStrategy)
    else NoSlot
  }

  /** The keys that only the persisted form uses. */
  function StoredKeySlot(key: nat): Target {
    if key == BUTTON_SINGLE_COUNT then ToSlot(SingleCount)
    else if key == BUTTON_DOUBLE_COUNT then ToSlot(DoubleCount)
    else if key == BUTTON_LONG_COUNT then ToSlot(LongCount)
    else KeySlot(key)
  }

  /** `Put(s, raw, stored)`: slot `s` is compared with `raw` and set to `stored`, which is `raw` cut to its width. */
  datatype Effect = Nothing | Put(slot: Slot, raw: SlotValue, stored: SlotValue)

  /** What value `v` means for slot `s`; the frequency plan is the caller's. */
  function ValueEffect(s: Slot, v: Value): Effect
    requires s != Region
  {
    if ArraySize(s) == 8 then
      var eui := Blob(LittleEndian(Number(v), 8));
      Put(s, eui, eui)
    else if ArraySize(s) == 16 then
      if v.Bytes? && |v.data| == 16 then Put(s, Blob(v.data), Blob(v.data)) else Nothing
    else if Width(s) == 2 then
      var bit := Num(Bit(Number(v) != 0));
      Put(s, bit, bit)
    else
      assert Width(s) > 0;
      Put(s, Num(Number(v)), Num(Number(v) % Width(s)))
  }

  /** The effect of a field received over NFC; an unknown frequency plan is refused. */
  function NfcEffect(f: Field): (e: Effect)
    ensures e.Put? ==> Fits(e.slot, e.stored)
  {
    var t := KeySlot(Key(f));
    if t.NoSlot? then Nothing
    else if t.slot == Region then
      if Number(f.value) == PBENUM_FP_EU868 then
        Put(Region, Num(LORAMAC_REGION_EU868), Num(LORAMAC_REGION_EU868))
      else if Number(f.value) == PBENUM_FP_US915 then
        Put(Region, Num(LORAMAC_REGION_US915), Num(LORAMAC_REGION_US915))
      else Nothing
    else ValueEffect(t.slot, f.value)
  }

  /** The effect of a field loaded from EEPROM; every frequency plan but EU868 reads as US915. */
  function StoredEffect(f: Field): (e: Effect)
    ensures e.Put? ==> Fits(e.slot, e.stored)
  {
    var t := StoredKeySlot(Key(f));
    if t.NoSlot? then Nothing
    else if t.slot == Region then
      var r := Num(if Number(f.value) == PBENUM_FP_EU868 then LORAMAC_REGION_EU868 else LORAMAC_REGION_US915);
      Put(Region, r, r)
    else ValueEffect(t.slot, f.value)
  }

  function Flag(ch: Changed, s: Slot): Changed {
    if s == SendInterval || s == SendTrigger || s == SendStrategy then
      ch.(any := true, resched := true)
    else
      ch.(any := true, lrw := true)
  }

  /** One received field applied to the device. */
  function Apply(d: Device, f: Field): Device {
    match NfcEffect(f)
    case Nothing => if Key(f) == LORA_JOINED && Number(f.value) == 0 then d.(unjoined := true) else d
    case Put(s, raw, stored) =>
      if Read(d.cfg, s) == raw then d else d.(cfg := Store(d.cfg, s, stored), changed := Flag(d.changed, s))
  }

  function ApplyAll(d: Device, fs: seq<Field>): Device {
    if fs == [] then d else Apply(ApplyAll(d, fs[..|fs| - 1]), fs[|fs| - 1])
  }

  lemma ApplyAllStep(d: Device, fs: seq<Field>, k: nat)
    requires k < |fs|
    ensures ApplyAll(d, fs[..k + 1]) == Apply(ApplyAll(d, fs[..k]), fs[k])
  {
    assert fs[..k + 1][..k] == fs[..k];
  }

  /** One stored field restored into the configuration. */
  function Restore(c: DeviceConfig, f: Field): DeviceConfig {
    match StoredEffect(f)
    case Nothing => c
    case Put(s, _, stored) => Store(c, s, stored)
  }

  function RestoreAll(c: DeviceConfig, fs: seq<Field>): DeviceConfig {
    if fs == [] then c else Restore(RestoreAll(c, fs[..|fs| - 1]), fs[|fs| - 1])
  }

  lemma RestoreAllStep(c: DeviceConfig, fs: seq<Field>, k: nat)
    requires k < |fs|
    ensures RestoreAll(c, fs[..k + 1]) == Restore(RestoreAll(c, fs[..k]), fs[k])
  {
    assert fs[..k + 1][..k] == fs[..k];
  }

  // ----- Properties of the fold ------------------------------------------------------------------

  lemma {:induction false} ApplyAllValid(d: Device, fs: seq<Field>)
    requires d.cfg.Valid()
    ensures ApplyAll(d, fs).cfg.Valid()
  {
    if fs != [] {
      ApplyAllValid(d, fs[..|fs| - 1]);
      var e := NfcEffect(fs[|fs| - 1]);
      if e.Put? {
        StoreKeepsValid(ApplyAll(d, fs[..|fs| - 1]).cfg, e.slot, e.stored);
      }
    }
  }

  /** The value a list of effects leaves in slot `s`: that of the last field addressing it, or what was there. */
  function LastWritten(es: seq<Effect>, s: Slot, v0: SlotValue): SlotValue {
    if es == [] then v0
    else
      var e := es[|es| - 1];
      if e.Put? && e.slot == s then e.stored else LastWritten(es[..|es| - 1], s, v0)
  }

  function NfcEffects(fs: seq<Field>): (es: seq<Effect>)
    ensures |es| == |fs| && forall i | 0 <= i < |fs| :: es[i] == NfcEffect(fs[i])
  {
    seq(|fs|, i requires 0 <= i < |fs| => NfcEffect(fs[i]))
  }

  function StoredEffects(fs: seq<Field>): (es: seq<Effect>)
    ensures |es| == |fs| && forall i | 0 <= i < |fs| :: es[i] == StoredEffect(fs[i])
  {
    seq(|fs|, i requires 0 <= i < |fs| => StoredEffect(fs[i]))
  }

  /** The value fits the slot it addresses, so it is stored without loss. */
  predicate InRange(f: Field) {
    var e := NfcEffect(f);
    e.Put? ==> Fits(e.slot, e.raw)
  }

  lemma ValueInRange(s: Slot, v: Value)
    requires s != Region
    ensures var e := ValueEffect(s, v); e.Put? ==> e.slot == s && (Fits(s, e.raw) <==> e.raw == e.stored)
  {
  }

  lemma InRangeIsRaw(f: Field)
    ensures InRange(f) <==> (var e := NfcEffect(f); e.Put? ==> e.raw == e.stored)
  {
    var t := KeySlot(Key(f));
    if t.ToSlot? && t.slot != Region {
      ValueInRange(t.slot, f.value);
    }
  }

  /** A value that was already there needs no cutting. */
  lemma RawInRange(f: Field, c: DeviceConfig)
    requires c.Valid()
    ensures var e := NfcEffect(f); e.Put? && Read(c, e.slot) == e.raw ==> e.stored == e.raw
  {
    var e := NfcEffect(f);
    InRangeIsRaw(f);
    if e.Put? {
      ReadFits(c, e.slot);
    }
  }

  /** Last writer wins, slot by slot; unknown and refused fields leave no trace in the configuration. */
  lemma {:induction false} LastWriterWins(d: Device, fs: seq<Field>, s: Slot)
    requires d.cfg.Valid()
    ensures Read(ApplyAll(d, fs).cfg, s) == LastWritten(NfcEffects(fs), s, Read(d.cfg, s))
  {
    if fs != [] {
      var front, f := fs[..|fs| - 1], fs[|fs| - 1];
      LastWriterWins(d, front, s);
      ApplyAllValid(d, front);
      assert NfcEffects(fs)[..|fs| - 1] == NfcEffects(front);
      var e := NfcEffect(f);
      if e.Put? {
        RawInRange(f, ApplyAll(d, front).cfg);
        StoreThenRead(ApplyAll(d, front).cfg, e.slot, e.stored, s);
      }
    }
  }

  lemma {:induction false} LastStoredWins(c: DeviceConfig, fs: seq<Field>, s: Slot)
    ensures Read(RestoreAll(c, fs), s) == LastWritten(StoredEffects(fs), s, Read(c, s))
  {
    if fs != [] {
      var front := fs[..|fs| - 1];
      LastStoredWins(c, front, s);
      assert StoredEffects(fs)[..|fs| - 1] == StoredEffects(front);
      var e := StoredEffect(fs[|fs| - 1]);
      if e.Put? {
        StoreThenRead(RestoreAll(c, front), e.slot, e.stored, s);
      }
    }
  }

  /** Slots whose change concerns the LoRaWAN stack; the others reschedule the sending. */
  predicate LoRaSlot(s: Slot) {
    s != SendInterval && s != SendTrigger && s != SendStrategy
  }

  /** Changes are never silent: a slot that differs afterwards has raised the flags its reader looks at. */
  lemma {:induction false} ChangesAreFlagged(d: Device, fs: seq<Field>, s: Slot)
    ensures var d' := ApplyAll(d, fs);
            && (d.changed.any ==> d'.changed.any)
            && (d.changed.lrw ==> d'.changed.lrw)
            && (d.changed.resched ==> d'.changed.resched)
            && (Read(d'.cfg, s) != Read(d.cfg, s) ==>
                  d'.changed.any && if LoRaSlot(s) then d'.changed.lrw else d'.changed.resched)
  {
    if fs != [] {
      ChangesAreFlagged(d, fs[..|fs| - 1], s);
      var e := NfcEffect(fs[|fs| - 1]);
      if e.Put? {
        StoreThenRead(ApplyAll(d, fs[..|fs| - 1]).cfg, e.slot, e.stored, s);
      }
    }
  }

  // ----- Receiving the same message again --------------------------------------------------------

  predicate Holds(c: DeviceConfig, f: Field) {
    var e := NfcEffect(f);
    e.Put? ==> Read(c, e.slot) == e.stored
  }

  /** A message whose values are all held already changes nothing; it raises a flag exactly for values out of range. */
  lemma {:induction false} HeldMessage(d: Device, fs: seq<Field>)
    requires d.cfg.Valid()
    requires forall f | f in fs :: Holds(d.cfg, f)
    ensures ApplyAll(d, fs).cfg == d.cfg
    ensures ApplyAll(d, fs).changed.any <==> d.changed.any || exists f | f in fs :: !InRange(f)
    ensures (forall f | f in fs :: InRange(f)) ==> ApplyAll(d, fs).changed == d.changed
  {
    if fs != [] {
      var front, f := fs[..|fs| - 1], fs[|fs| - 1];
      assert fs == front + [f];
      HeldMessage(d, front);
      InRangeIsRaw(f);
      var e := NfcEffect(f);
      if e.Put? {
        StoreSame(d.cfg, e.slot);
      }
      assert f in fs;
      assert forall g | g in front :: g in fs;
    }
  }

  /** The field raises no flag against `c`. */
  predicate Silent(c: DeviceConfig, f: Field) {
    var e := NfcEffect(f);
    e.Put? ==> Read(c, e.slot) == e.raw
  }

  lemma FlagsAfterField(d: Device, f: Field)
    ensures d.changed.any ==> Apply(d, f).changed.any
    ensures d.changed == UNCHANGED ==> (Apply(d, f).changed == UNCHANGED <==> Silent(d.cfg, f))
    ensures d.changed == UNCHANGED ==> (Apply(d, f).changed == UNCHANGED <==> !Apply(d, f).changed.any)
    ensures Silent(d.cfg, f) ==> Apply(d, f).cfg == d.cfg
  {
  }

  /** A message leaves clear flags clear exactly when none of its fields differs from the present settings. */
  lemma {:induction false} FlagsStayClearIff(d: Device, fs: seq<Field>)
    requires d.changed == UNCHANGED
    ensures ApplyAll(d, fs).changed == UNCHANGED <==> forall f | f in fs :: Silent(d.cfg, f)
    ensures ApplyAll(d, fs).changed == UNCHANGED <==> !ApplyAll(d, fs).changed.any
    ensures ApplyAll(d, fs).changed == UNCHANGED ==> ApplyAll(d, fs).cfg == d.cfg
  {
    if fs != [] {
      var front, f := fs[..|fs| - 1], fs[|fs| - 1];
      assert fs == front + [f] && f in fs;
      FlagsStayClearIff(d, front);
      FlagsAfterField(ApplyAll(d, front), f);
      assert forall g | g in front :: g in fs;
    }
  }

  lemma {:induction false} WrittenAgain(es: seq<Effect>, s: Slot, v: SlotValue)
    ensures LastWritten(es, s, LastWritten(es, s, v)) == LastWritten(es, s, v)
  {
    if es != [] {
      WrittenAgain(es[..|es| - 1], s, v);
      WrittenOver(es[..|es| - 1], s, v, LastWritten(es, s, v));
    }
  }

  /** What a list of effects leaves does not depend on what was there, unless it writes nothing. */
  lemma {:induction false} WrittenOver(es: seq<Effect>, s: Slot, v: SlotValue, w: SlotValue)
    ensures (exists e | e in es :: e.Put? && e.slot == s) ==> LastWritten(es, s, v) == LastWritten(es, s, w)
    ensures !(exists e | e in es :: e.Put? && e.slot == s) ==> LastWritten(es, s, v) == v
  {
    if es != [] {
      var front, e := es[..|es| - 1], es[|es| - 1];
      assert es == front + [e] && e in es;
      WrittenOver(front, s, v, w);
      assert forall g | g in front :: g in es;
    }
  }

  /** The value left in a slot that is written is that of one of the effects on it. */
  lemma {:induction false} WrittenBy(es: seq<Effect>, s: Slot, v: SlotValue) returns (e: Effect)
    requires exists e | e in es :: e.Put? && e.slot == s
    ensures e in es && e.Put? && e.slot == s && LastWritten(es, s, v) == e.stored
  {
    var last := es[|es| - 1];
    if last.Put? && last.slot == s {
      e := last;
    } else {
      assert es == es[..|es| - 1] + [last];
      e := WrittenBy(es[..|es| - 1], s, v);
    }
  }

  /** Fields that address one setting all store the same value. */
  ghost predicate Agreeing(fs: seq<Field>) {
    forall f, g | f in fs && g in fs ::
      NfcEffect(f).Put? && NfcEffect(g).Put? && NfcEffect(f).slot == NfcEffect(g).slot
      ==> NfcEffect(f).stored == NfcEffect(g).stored
  }

  /** Receiving a message a second time changes no setting. */
  lemma SecondReceptionKeepsSettings(d: Device, fs: seq<Field>, flags: Changed)
    requires d.cfg.Valid()
    ensures ApplyAll(ApplyAll(d, fs).(changed := flags), fs).cfg == ApplyAll(d, fs).cfg
  {
    var once := ApplyAll(d, fs);
    var twice := ApplyAll(once.(changed := flags), fs);
    ApplyAllValid(d, fs);
    forall s ensures Read(twice.cfg, s) == Read(once.cfg, s) {
      LastWriterWins(d, fs, s);
      LastWriterWins(once.(changed := flags), fs, s);
      WrittenAgain(NfcEffects(fs), s, Read(d.cfg, s));
    }
    SameSlots(twice.cfg, once.cfg);
  }

  lemma EffectOf(fs: seq<Field>, f: Field)
    requires f in fs
    ensures NfcEffect(f) in NfcEffects(fs)
  {
    var i :| 0 <= i < |fs| && fs[i] == f;
    assert NfcEffects(fs)[i] == NfcEffect(f);
  }

  lemma FieldOf(fs: seq<Field>, e: Effect) returns (f: Field)
    requires e in NfcEffects(fs)
    ensures f in fs && NfcEffect(f) == e
  {
    var i :| 0 <= i < |fs| && NfcEffects(fs)[i] == e;
    f := fs[i];
  }

  /** After the message its setting holds the value of a field that addresses it. */
  lemma HeldAfterwards(d: Device, fs: seq<Field>, f: Field) returns (g: Field)
    requires d.cfg.Valid() && f in fs && NfcEffect(f).Put?
    ensures g in fs && NfcEffect(g).Put? && NfcEffect(g).slot == NfcEffect(f).slot
    ensures Read(ApplyAll(d, fs).cfg, NfcEffect(f).slot) == NfcEffect(g).stored
  {
    var s := NfcEffect(f).slot;
    LastWriterWins(d, fs, s);
    EffectOf(fs, f);
    var e := WrittenBy(NfcEffects(fs), s, Read(d.cfg, s));
    g := FieldOf(fs, e);
  }

  lemma SilentAfterwardsIff(d: Device, fs: seq<Field>)
    requires d.cfg.Valid()
    ensures (forall f | f in fs :: Silent(ApplyAll(d, fs).cfg, f))
            <==> (forall f | f in fs :: InRange(f)) && Agreeing(fs)
  {
    var c := ApplyAll(d, fs).cfg;
    ApplyAllValid(d, fs);
    if forall f | f in fs :: Silent(c, f) {
      forall f | f in fs ensures InRange(f) && Holds(c, f) {
        SilentIsHeld(c, f);
      }
    }
    if (forall f | f in fs :: InRange(f)) && Agreeing(fs) {
      forall f | f in fs ensures Silent(c, f) {
        InRangeIsRaw(f);
        if NfcEffect(f).Put? {
          var g := HeldAfterwards(d, fs, f);
        }
      }
    }
  }

  lemma SilentIsHeld(c: DeviceConfig, f: Field)
    requires c.Valid() && Silent(c, f)
    ensures InRange(f) && Holds(c, f)
  {
    var e := NfcEffect(f);
    if e.Put? {
      ReadFits(c, e.slot);
    }
    InRangeIsRaw(f);
  }

  /** Receiving a message twice, with the flags cleared in between, changes no setting the second time. The flags stay
      clear exactly when every value fits its setting and fields that address one setting agree on its value. */
  lemma SecondReceptionIsIdle(d: Device, fs: seq<Field>)
    requires d.cfg.Valid()
    ensures var once := ApplyAll(d, fs);
            var twice := ApplyAll(once.(changed := UNCHANGED), fs);
            && twice.cfg == once.cfg
            && (twice.changed == UNCHANGED <==> (forall f | f in fs :: InRange(f)) && Agreeing(fs))
            && (twice.changed == UNCHANGED <==> !twice.changed.any)
  {
    var once := ApplyAll(d, fs);
    SecondReceptionKeepsSettings(d, fs, UNCHANGED);
    FlagsStayClearIff(once.(changed := UNCHANGED), fs);
    SilentAfterwardsIff(d, fs);
  }

  lemma ApplyOne(d: Device, f: Field)
    ensures ApplyAll(d, [f]) == Apply(d, f)
  {
    assert [f][..0] == [];
  }

  /** A value too wide for its slot is reported as a change every time it is received. */
  lemma WideValueFlagsAgain(c: DeviceConfig)
    ensures var f := Field(14, Varint(256));
            var once := ApplyAll(Device(c, UNCHANGED, false), [f]);
            once.cfg.txPort == 0 && ApplyAll(once.(changed := UNCHANGED), [f]).changed.lrw
  {
    var f := Field(14, Varint(256));
    var d := Device(c, UNCHANGED, false);
    assert NfcEffect(f) == Put(TxPort, Num(256), Num(0));
    ApplyOne(d, f);
    ApplyOne(Apply(d, f).(changed := UNCHANGED), f);
  }

  /** Two values for one setting are reported as changes every time, although both fit. */
  lemma RepeatedSettingFlagsAgain(c: DeviceConfig)
    requires c.Valid()
    ensures var fs := [Field(14, Varint(1)), Field(14, Varint(2))];
            var once := ApplyAll(Device(c, UNCHANGED, false), fs);
            ApplyAll(once.(changed := UNCHANGED), fs).changed.any
  {
    var f, g := Field(14, Varint(1)), Field(14, Varint(2));
    assert NfcEffect(f) == Put(TxPort, Num(1), Num(1)) && NfcEffect(g) == Put(TxPort, Num(2), Num(2));
    assert f in [f, g] && g in [f, g] && !Agreeing([f, g]);
    SecondReceptionIsIdle(Device(c, UNCHANGED, false), [f, g]);
  }
}
