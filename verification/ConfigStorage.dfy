/** `EEPROM_Save` and `EEPROM_Load`: the device configuration as a message in the data EEPROM, behind its checksum and
    length. The checksum is some function of the message's bytes. */
module ConfigStorage {
  import opened Bits
  import opened Wire
  import opened Encoder
  import opened Decoder
  import opened DevCfg
  import FieldMeaning
  import opened NfcConfig
  import opened EepromWords

  const EEPROM_APP := 0x1000
  const EEPROM_APP_END := 0x1400
  const EEPROM_SIZE := 0x1800
  const MESSAGE := EEPROM_APP + 8

  // ----- The stored fields -----------------------------------------------------------------------

  const IDENTITY: seq<Slot> := [IsOtaa, DevEui, AppEui, AppKey, DevAddr, NwkSKey, AppSKey]
  const RADIO: seq<Slot> := [Region, TxPort, TxPower, Sf, Bw]
  const SWITCHES: seq<Slot> := [ConfirmedMsgs, AdaptiveDatarate, DutyCycle]
  const SENDING: seq<Slot> := [SendInterval, SendTrigger, SendStrategy]
  const COUNTS: seq<Slot> := [SingleCount, DoubleCount, LongCount]

  /** The field that stores a slot. */
  function StoredField(c: DeviceConfig, s: Slot): Field
    requires c.Valid()
  {
    match s
    case IsOtaa => Field(5, Varint(Bit(c.isOtaa)))
    case DevEui => Field(6, Fixed64(Eui(c.devEui)))
    case AppEui => Field(7, Fixed64(Eui(c.appEui)))
    case AppKey => Field(8, Bytes(c.appKey))
    case DevAddr => Field(9, Fixed32(c.devAddr))
    case NwkSKey => Field(10, Bytes(c.nwkSKey))
    case AppSKey => Field(11, Bytes(c.appSKey))
    case Region => Field(13, Varint(if c.region == LORAMAC_REGION_EU868 then PBENUM_FP_EU868 else PBENUM_FP_US915))
    case TxPort => Field(14, Varint(c.txPort))
    case TxPower => Field(15, Varint(c.txPower))
    case Sf => Field(16, Varint(c.sf))
    case Bw => Field(17, Varint(c.bw))
    case ConfirmedMsgs => Field(18, Varint(Bit(c.confirmedMsgs)))
    case AdaptiveDatarate => Field(19, Varint(Bit(c.adaptiveDatarate)))
    case DutyCycle => Field(20, Varint(Bit(c.dutyCycle)))
    case SendInterval => Field(21, Varint(c.sendInterval))
    case SendTrigger => Field(22, Varint(c.sendTrigger))
    case SendStrategy => Field(23, Varint(c.sendStrategy))
    case SingleCount => Field(2047, Varint(c.singleCount))
    case DoubleCount => Field(2046, Varint(c.doubleCount))
    case LongCount => Field(2045, Varint(c.longCount))
  }

  /** `u64` of an identifier. */
  function Eui(b: seq<byte>): (n: uint64)
    requires |b| == 8
    ensures LittleEndian(n, 8) == b
  {
    FromLittleEndianRoundTrip(b);
    Pow2Words();
    FromLittleEndian(b)
  }

  function FieldsOf(c: DeviceConfig, slots: seq<Slot>): (fs: seq<Field>)
    requires c.Valid()
    ensures |fs| == |slots| && forall i | 0 <= i < |fs| :: fs[i] == StoredField(c, slots[i])
  {
    seq(|slots|, i requires 0 <= i < |slots| => StoredField(c, slots[i]))
  }

  /** The fields of a stored configuration, in order. */
  function StoredFields(c: DeviceConfig): seq<Field>
    requires c.Valid()
  {
    FieldsOf(c, IDENTITY) + FieldsOf(c, RADIO) + FieldsOf(c, SWITCHES) + FieldsOf(c, SENDING) + FieldsOf(c, COUNTS)
  }

  lemma FieldsOfConcat(c: DeviceConfig, a: seq<Slot>, b: seq<Slot>)
    requires c.Valid()
    ensures FieldsOf(c, a) + FieldsOf(c, b) == FieldsOf(c, a + b)
  {
  }

  lemma StoredFieldsOf(c: DeviceConfig)
    requires c.Valid()
    ensures StoredFields(c) == FieldsOf(c, IDENTITY + RADIO + SWITCHES + SENDING + COUNTS)
  {
    FieldsOfConcat(c, IDENTITY, RADIO);
    FieldsOfConcat(c, IDENTITY + RADIO, SWITCHES);
    FieldsOfConcat(c, IDENTITY + RADIO + SWITCHES, SENDING);
    FieldsOfConcat(c, IDENTITY + RADIO + SWITCHES + SENDING, COUNTS);
  }

  lemma AllSlotsStored(s: Slot)
    ensures s in IDENTITY + RADIO + SWITCHES + SENDING + COUNTS
  {
    assert s in IDENTITY || s in RADIO || s in SWITCHES || s in SENDING || s in COUNTS;
  }

  lemma StoredFieldIsField(c: DeviceConfig, s: Slot)
    requires c.Valid()
    ensures IsField(StoredField(c, s)) && Decodable(StoredField(c, s).value)
  {
  }

  lemma StoredFieldsAreFields(c: DeviceConfig)
    requires c.Valid()
    ensures AreFields(StoredFields(c))
    ensures forall f | f in StoredFields(c) :: Decodable(f.value)
  {
    StoredFieldsOf(c);
    FieldsOfAreFields(c, IDENTITY + RADIO + SWITCHES + SENDING + COUNTS);
  }

  lemma FieldsOfAreFields(c: DeviceConfig, slots: seq<Slot>)
    requires c.Valid()
    ensures AreFields(FieldsOf(c, slots))
    ensures forall f | f in FieldsOf(c, slots) :: Decodable(f.value)
  {
    forall f | f in FieldsOf(c, slots) ensures IsField(f) && Decodable(f.value) {
      var i :| 0 <= i < |slots| && f == FieldsOf(c, slots)[i];
      StoredFieldIsField(c, slots[i]);
    }
  }

  // ----- Size ------------------------------------------------------------------------------------

  lemma ByteLength(n: nat)
    ensures n < 0x80 ==> |EncVarint(n)| == 1
    ensures 0x80 <= n < 0x100 ==> |EncVarint(n)| == 2
    ensures n < 0x4000 ==> |EncVarint(n)| <= 2
    ensures 0x80 <= n < 0x4000 ==> |EncVarint(n)| == 2
  {
    if n >= 0x80 {
      assert EncVarint(n) == [n % 0x80 + 0x80] + EncVarint(n / 0x80);
    }
  }

  lemma WordLength(n: uint32)
    ensures |EncVarint(n)| <= 5
  {
    Pow2Words();
    Pow2Monotone(32, 35);
    VarintLength(n, 5);
  }

  /** A byte of 128 or more takes a second varint byte. */
  function Long(b: byte): nat {
    if b < 0x80 then 0 else 1
  }

  /** Bytes of the field that stores a slot. */
  function SlotSize(c: DeviceConfig, s: Slot): nat {
    match s
    case IsOtaa => 2
    case DevEui => 9
    case AppEui => 9
    case AppKey => 18
    case DevAddr => 5
    case NwkSKey => 18
    case AppSKey => 18
    case Region => 2
    case TxPort => 2 + Long(c.txPort)
    case TxPower => 2 + Long(c.txPower)
    case Sf => 3 + Long(c.sf)
    case Bw => 3 + Long(c.bw)
    case ConfirmedMsgs => 3
    case AdaptiveDatarate => 3
    case DutyCycle => 3
    case SendInterval => 2 + |EncVarint(c.sendInterval)|
    case SendTrigger => 3 + Long(c.sendTrigger)
    case SendStrategy => 3 + Long(c.sendStrategy)
    case SingleCount => 3 + Long(c.singleCount)
    case DoubleCount => 3 + Long(c.doubleCount)
    case LongCount => 3 + Long(c.longCount)
  }

  /** A field's key, one byte below the sixteenth, and its value. */
  lemma FieldLength(f: Field)
    requires 1 <= f.id < 2048
    ensures |EncField(f)| == (if f.id < 16 then 1 else 2) + |EncValue(f.value)|
  {
    ByteLength(Key(f));
  }

  lemma NumberLength(c: DeviceConfig, s: Slot)
    requires c.Valid() && StoredField(c, s).value.Varint?
    ensures var f := StoredField(c, s);
            SlotSize(c, s) == (if f.id < 16 then 1 else 2) + |EncVarint(f.value.number)|
  {
    ByteLength(StoredField(c, s).value.number);
  }

  lemma SlotLength(c: DeviceConfig, s: Slot)
    requires c.Valid()
    ensures |EncField(StoredField(c, s))| == SlotSize(c, s)
  {
    var f := StoredField(c, s);
    FieldLength(f);
    if f.value.Varint? {
      NumberLength(c, s);
    } else if f.value.Bytes? {
      ByteLength(16);
    }
  }

  lemma FirstSlot(c: DeviceConfig, slots: seq<Slot>)
    requires c.Valid()
    ensures |EncAll(FieldsOf(c, slots)[..0])| == 0 && FieldsOf(c, slots)[..|slots|] == FieldsOf(c, slots)
  {
  }

  lemma NextSlot(c: DeviceConfig, slots: seq<Slot>, k: nat)
    requires c.Valid() && k < |slots|
    ensures |EncAll(FieldsOf(c, slots)[..k + 1])| == |EncAll(FieldsOf(c, slots)[..k])| + SlotSize(c, slots[k])
  {
    NextPrefix(FieldsOf(c, slots), k);
    SlotLength(c, slots[k]);
  }

  lemma IdentityLength(c: DeviceConfig)
    requires c.Valid()
    ensures |EncAll(FieldsOf(c, IDENTITY))| == 79
  {
    FirstSlot(c, IDENTITY);
    NextSlot(c, IDENTITY, 0);
    NextSlot(c, IDENTITY, 1);
    NextSlot(c, IDENTITY, 2);
    NextSlot(c, IDENTITY, 3);
    NextSlot(c, IDENTITY, 4);
    NextSlot(c, IDENTITY, 5);
    NextSlot(c, IDENTITY, 6);
  }

  lemma RadioLength(c: DeviceConfig)
    requires c.Valid()
    ensures |EncAll(FieldsOf(c, RADIO))| == 12 + Long(c.txPort) + Long(c.txPower) + Long(c.sf) + Long(c.bw)
  {
    FirstSlot(c, RADIO);
    NextSlot(c, RADIO, 0);
    NextSlot(c, RADIO, 1);
    NextSlot(c, RADIO, 2);
    NextSlot(c, RADIO, 3);
    NextSlot(c, RADIO, 4);
  }

  lemma SwitchesLength(c: DeviceConfig)
    requires c.Valid()
    ensures |EncAll(FieldsOf(c, SWITCHES))| == 9
  {
    FirstSlot(c, SWITCHES);
    NextSlot(c, SWITCHES, 0);
    NextSlot(c, SWITCHES, 1);
    NextSlot(c, SWITCHES, 2);
  }

  lemma SendingLength(c: DeviceConfig)
    requires c.Valid()
    ensures |EncAll(FieldsOf(c, SENDING))|
            == 8 + |EncVarint(c.sendInterval)| + Long(c.sendTrigger) + Long(c.sendStrategy)
  {
    FirstSlot(c, SENDING);
    NextSlot(c, SENDING, 0);
    NextSlot(c, SENDING, 1);
    NextSlot(c, SENDING, 2);
  }

  lemma CountLength(c: DeviceConfig)
    requires c.Valid()
    ensures |EncAll(FieldsOf(c, COUNTS))| == 9 + Long(c.singleCount) + Long(c.doubleCount) + Long(c.longCount)
  {
    FirstSlot(c, COUNTS);
    NextSlot(c, COUNTS, 0);
    NextSlot(c, COUNTS, 1);
    NextSlot(c, COUNTS, 2);
  }

  lemma JoinedLength(a: seq<Field>, b: seq<Field>, d: seq<Field>, e: seq<Field>, f: seq<Field>)
    ensures |EncAll(a + b + d + e + f)| == |EncAll(a)| + |EncAll(b)| + |EncAll(d)| + |EncAll(e)| + |EncAll(f)|
  {
    EncAllConcat(a + b + d + e, f);
    EncAllConcat(a + b + d, e);
    EncAllConcat(a + b, d);
    EncAllConcat(a, b);
  }

  /** The exact size of a stored configuration. It is at most 130 bytes, unless a sending enumeration holds a value of
      128 or more. */
  lemma StoredSize(c: DeviceConfig)
    requires c.Valid()
    ensures |Message(StoredFields(c))|
            == 118 + |EncVarint(c.sendInterval)| + Long(c.txPort) + Long(c.txPower) + Long(c.sf) + Long(c.bw)
               + Long(c.sendTrigger) + Long(c.sendStrategy)
               + Long(c.singleCount) + Long(c.doubleCount) + Long(c.longCount)
    ensures 119 <= |Message(StoredFields(c))| <= 130 + Long(c.sendTrigger) + Long(c.sendStrategy)
  {
    IdentityLength(c);
    RadioLength(c);
    SwitchesLength(c);
    SendingLength(c);
    CountLength(c);
    WordLength(c.sendInterval);
    JoinedLength(FieldsOf(c, IDENTITY), FieldsOf(c, RADIO), FieldsOf(c, SWITCHES), FieldsOf(c, SENDING),
                 FieldsOf(c, COUNTS));
  }

  // ----- Content ---------------------------------------------------------------------------------

  /** The frequency plan a region is stored as. */
  function Plan(region: nat): nat {
    if region == LORAMAC_REGION_EU868 then LORAMAC_REGION_EU868 else LORAMAC_REGION_US915
  }

  /** What a slot comes back as. */
  function Kept(c: DeviceConfig, s: Slot): SlotValue {
    if s == Region then Num(Plan(c.region)) else Read(c, s)
  }

  lemma KeyNamesSlot(c: DeviceConfig, s: Slot)
    requires c.Valid()
    ensures StoredKeySlot(Key(StoredField(c, s))) == ToSlot(s)
  {
  }

  /** A slot that has several values is stored by its number. */
  lemma NumberKept(c: DeviceConfig, s: Slot)
    requires c.Valid() && Width(s) > 0 && s != Region
    ensures var n := Number(StoredField(c, s).value); Read(c, s) == Num(n) && n < Width(s) && ArraySize(s) == 0
  {
  }

  lemma BytesKept(c: DeviceConfig, s: Slot)
    requires c.Valid() && Width(s) == 0
    ensures var v := StoredField(c, s).value;
            if v.Bytes? then Read(c, s) == Blob(v.data) && |v.data| == 16 == ArraySize(s)
            else Read(c, s) == Blob(LittleEndian(Number(v), 8)) && ArraySize(s) == 8
  {
  }

  lemma FieldRestores(c0: DeviceConfig, c: DeviceConfig, s: Slot)
    requires c.Valid()
    ensures Fits(s, Kept(c, s)) && Restore(c0, StoredField(c, s)) == Store(c0, s, Kept(c, s))
  {
    KeyNamesSlot(c, s);
    if Width(s) == 0 {
      BytesKept(c, s);
    } else if s != Region {
      NumberKept(c, s);
    }
  }

  /** Restoring the fields of some slots brings those back and leaves the others. */
  lemma {:induction false} FieldsRestore(c0: DeviceConfig, c: DeviceConfig, slots: seq<Slot>, s: Slot)
    requires c.Valid()
    ensures Read(RestoreAll(c0, FieldsOf(c, slots)), s) == if s in slots then Kept(c, s) else Read(c0, s)
    decreases |slots|
  {
    if slots != [] {
      var front, last := slots[..|slots| - 1], slots[|slots| - 1];
      assert slots == front + [last];
      assert FieldsOf(c, slots)[..|slots| - 1] == FieldsOf(c, front);
      FieldsRestore(c0, c, front, s);
      FieldRestores(RestoreAll(c0, FieldsOf(c, front)), c, last);
      StoreThenRead(RestoreAll(c0, FieldsOf(c, front)), last, Kept(c, last), s);
    }
  }

  /** Restoring the stored fields brings back every setting, over whatever configuration was there before. The region
      comes back as its frequency plan, so it survives exactly for EU868 and US915. */
  lemma StoredFieldsRestore(c0: DeviceConfig, c: DeviceConfig)
    requires c.Valid()
    ensures RestoreAll(c0, StoredFields(c)) == c.(region := Plan(c.region))
    ensures RestoreAll(c0, StoredFields(c)) == c <==> c.region in {LORAMAC_REGION_EU868, LORAMAC_REGION_US915}
  {
    var back, plan := RestoreAll(c0, StoredFields(c)), c.(region := Plan(c.region));
    StoredFieldsOf(c);
    forall s ensures Read(back, s) == Read(plan, s) {
      AllSlotsStored(s);
      FieldsRestore(c0, c, IDENTITY + RADIO + SWITCHES + SENDING + COUNTS, s);
      PlanReads(c, s);
    }
    SameSlots(back, plan);
  }

  lemma PlanReads(c: DeviceConfig, s: Slot)
    ensures Read(c.(region := Plan(c.region)), s) == Kept(c, s)
  {
  }

  // ----- The stored image ------------------------------------------------------------------------

  function Word(m: seq<byte>, at: nat): nat
    requires at + 4 <= |m|
  {
    FromLittleEndian(m[at..at + 4])
  }

  /** `m` holds a message with its checksum and length in front. */
  ghost predicate Stored(m: seq<byte>, Crc: seq<byte> -> uint32, msg: seq<byte>) {
    && |m| == EEPROM_SIZE
    && |msg| <= EEPROM_APP_END - MESSAGE
    && Word(m, EEPROM_APP) == Crc(msg)
    && Word(m, EEPROM_APP + 4) == |msg|
    && m[MESSAGE..MESSAGE + |msg|] == msg
  }

  /** The guard of the loader: there is no message, or it is of another version, or it is corrupt. */
  predicate Missing(m: seq<byte>, Crc: seq<byte> -> uint32)
    requires |m| == EEPROM_SIZE
  {
    var len := Word(m, EEPROM_APP + 4);
    || len > EEPROM_APP_END - EEPROM_APP - 8
    || len < 10
    || m[MESSAGE] != 0
    || Word(m, EEPROM_APP) != Crc(m[MESSAGE..MESSAGE + len])
  }

  /** There is a message of this version with its checksum and length in front. */
  ghost predicate HasMessage(m: seq<byte>, Crc: seq<byte> -> uint32) {
    exists msg :: Stored(m, Crc, msg) && |msg| >= 10 && msg[0] == 0
  }

  /** The guard refuses exactly a memory without a message. */
  lemma MissingIff(m: seq<byte>, Crc: seq<byte> -> uint32)
    requires |m| == EEPROM_SIZE
    ensures Missing(m, Crc) <==> !HasMessage(m, Crc)
  {
    if !Missing(m, Crc) {
      var msg := m[MESSAGE..MESSAGE + Word(m, EEPROM_APP + 4)];
      assert Stored(m, Crc, msg) && msg[0] == m[MESSAGE];
    }
    if HasMessage(m, Crc) {
      var msg :| Stored(m, Crc, msg) && |msg| >= 10 && msg[0] == 0;
      assert m[MESSAGE] == m[MESSAGE..MESSAGE + |msg|][0];
    }
  }

  /** In the words of memory: the length between 10 and 1016, the version byte zero, and the checksum that of the
      message's bytes. */
  lemma MessageInWords(m: seq<byte>, Crc: seq<byte> -> uint32)
    requires |m| == 0x1800
    ensures var len := FromLittleEndian(m[0x1004..0x1008]);
            HasMessage(m, Crc)
            <==> 10 <= len <= 1016 && m[0x1008] == 0
                 && FromLittleEndian(m[0x1000..0x1004]) == Crc(m[0x1008..0x1008 + len])
  {
    MissingIff(m, Crc);
  }

  lemma StoredIsMessage(m: seq<byte>, Crc: seq<byte> -> uint32, fs: seq<Field>)
    requires Stored(m, Crc, Message(fs)) && |Message(fs)| >= 10
    ensures HasMessage(m, Crc)
  {
  }

  /** What is in memory after a successful save passes the guard and restores every setting over any configuration. */
  lemma SavedConfigurationLoads(m: seq<byte>, Crc: seq<byte> -> uint32, c: DeviceConfig, c0: DeviceConfig)
    requires c.Valid() && Stored(m, Crc, Message(StoredFields(c)))
    ensures HasMessage(m, Crc)
    ensures var len := Word(m, EEPROM_APP + 4);
            && len <= 132
            && IsConfiguration(m[MESSAGE..][..len], StoredFields(c), End)
    ensures RestoreAll(c0, StoredFields(c)) == c
            <==> c.region in {LORAMAC_REGION_EU868, LORAMAC_REGION_US915}
  {
    var fs := StoredFields(c);
    StoredSize(c);
    StoredIsMessage(m, Crc, fs);
    StoredFieldsAreFields(c);
    StoredFieldsRestore(c0, c);
    var len := Word(m, EEPROM_APP + 4);
    assert m[MESSAGE..][..len] == Message(fs);
    assert Message(fs) + TailBytes(End) == Message(fs);
  }

  /** The image left behind by the checksum, length and message writes is the stored message. */
  lemma ImageIsStored(m: seq<byte>, Crc: seq<byte> -> uint32, msg: seq<byte>)
    requires |m| == EEPROM_SIZE && |msg| <= EEPROM_APP_END - MESSAGE
    ensures var crc, len := LittleEndian(Crc(msg), 4), LittleEndian(|msg|, 4);
            Stored(Overwrite(Overwrite(Overwrite(m, EEPROM_APP, crc), EEPROM_APP + 4, len), MESSAGE, msg), Crc, msg)
  {
    var crc, len := LittleEndian(Crc(msg), 4), LittleEndian(|msg|, 4);
    ThreeWrites(m, crc, len, msg);
    assert Pow2(32) == 0x1_0000_0000 by { Pow2Words(); }
    LittleEndianRoundTrip(Crc(msg), 4);
    LittleEndianRoundTrip(|msg|, 4);
  }

  lemma ThreeWrites(m: seq<byte>, a: seq<byte>, b: seq<byte>, msg: seq<byte>)
    requires |m| == EEPROM_SIZE && |msg| <= EEPROM_APP_END - MESSAGE && |a| == |b| == 4
    ensures var n := Overwrite(Overwrite(Overwrite(m, EEPROM_APP, a), EEPROM_APP + 4, b), MESSAGE, msg);
            && n[EEPROM_APP..EEPROM_APP + 4] == a
            && n[EEPROM_APP + 4..EEPROM_APP + 8] == b
            && n[MESSAGE..MESSAGE + |msg|] == msg
  {
    ReadBack(m, EEPROM_APP, a, EEPROM_APP, 4);
    var m1 := Overwrite(m, EEPROM_APP, a);
    ReadBack(m1, EEPROM_APP + 4, b, EEPROM_APP, 4);
    var m2 := Overwrite(m1, EEPROM_APP + 4, b);
    ReadBack(m1, EEPROM_APP + 4, b, EEPROM_APP + 4, 4);
    ReadBack(m2, MESSAGE, msg, EEPROM_APP, 4);
    ReadBack(m2, MESSAGE, msg, EEPROM_APP + 4, 4);
    ReadBack(m2, MESSAGE, msg, MESSAGE, |msg|);
  }

  /** Reading where a write went gives what was written; reading before it gives what was there. */
  lemma ReadBack(m: seq<byte>, at: nat, data: seq<byte>, from: nat, n: nat)
    requires at + |data| <= |m|
    requires from + n <= at || (from == at && n == |data|)
    ensures Overwrite(m, at, data)[from..from + n] == if from == at && n == |data| then data else m[from..from + n]
  {
  }

  /** Only the application area differs. */
  ghost predicate OnlyAppArea(m: seq<byte>, n: seq<byte>) {
    |m| == |n| == EEPROM_SIZE
    && (forall k | 0 <= k < EEPROM_APP :: m[k] == n[k])
    && (forall k | EEPROM_APP_END <= k < EEPROM_SIZE :: m[k] == n[k])
  }

  lemma OverwriteInAppArea(m: seq<byte>, n: seq<byte>, at: nat, data: seq<byte>)
    requires OnlyAppArea(m, n) && EEPROM_APP <= at && at + |data| <= EEPROM_APP_END
    ensures OnlyAppArea(m, Overwrite(n, at, data))
  {
  }

  /** Behind a message of `len` bytes the rest of its last word is erased, and what follows is as before. */
  ghost predicate Padded(m: seq<byte>, n: seq<byte>, len: nat) {
    && |m| == |n| == EEPROM_SIZE
    && (forall k | MESSAGE + len <= k < MESSAGE + (len + 3) / 4 * 4 && k < EEPROM_SIZE :: n[k] == 0)
    && (forall k | MESSAGE + (len + 3) / 4 * 4 <= k < EEPROM_SIZE :: n[k] == m[k])
  }

  lemma OverwriteKeepsPadding(m: seq<byte>, n: seq<byte>, len: nat, at: nat, data: seq<byte>)
    requires Padded(m, n, len) && at + |data| <= MESSAGE + len && at + |data| <= EEPROM_SIZE
    ensures Padded(m, Overwrite(n, at, data), len)
  {
  }

  datatype LoadOutcome = Loaded | Rebooted(invalidated: bool) | DefaultsNotSaved

  class Storage {
    const eeprom: DataEeprom
    const Crc: seq<byte> -> uint32
    var DevCfg: DeviceConfig
    var allChanged: bool

    constructor (eeprom: DataEeprom, Crc: seq<byte> -> uint32, c: DeviceConfig)
      ensures this.eeprom == eeprom && this.Crc == Crc && DevCfg == c && !allChanged
    {
      this.eeprom, this.Crc, DevCfg, allChanged := eeprom, Crc, c, false;
    }

    ghost predicate Valid()
      reads this
    {
      DevCfg.Valid() && eeprom.mem.Length == EEPROM_SIZE
    }

    /** Serialize the configuration into a local buffer of 256 bytes. */
    method Serialize() returns (msg: seq<byte>)
      requires Valid()
      ensures msg == Message(StoredFields(DevCfg))
    {
      var buf := new byte[256];
      buf[0] := 0;
      ghost var before := buf[..];
      assert Clip([0], 256) == [0];
      assert Overwrite(before, 0, [0]) == before;
      StoredFieldsAreFields(DevCfg);
      StoredSize(DevCfg);
      var size := PBEncodeMsgFields(buf, 256, 1, StoredFields(DevCfg), before, [0]);
      ghost var enc := Message(StoredFields(DevCfg));
      assert Clip(enc, 256) == enc;
      assert Overwrite(before, 0, enc)[..|enc|] == enc;
      msg := buf[..size];
    }

    /** Save the configuration: erase, then checksum, length and message. `ok` is whether the hardware took every word;
        the firmware only logs a refusal. */
    method EEPROM_Save() returns (ok: bool)
      requires Valid()
      modifies eeprom.mem
      ensures ok ==> Stored(eeprom.mem[..], Crc, Message(StoredFields(DevCfg)))
      ensures eeprom.healthy ==> ok
      ensures eeprom.healthy ==> Padded(old(eeprom.mem[..]), eeprom.mem[..], |Message(StoredFields(DevCfg))|)
      ensures OnlyAppArea(old(eeprom.mem[..]), eeprom.mem[..])
    {
      var msg := Serialize();
      StoredSize(DevCfg);
      Pow2Words();
      ghost var before := eeprom.mem[..];
      var erased := eeprom.HW_ResetEEPROM(MESSAGE, |msg|);
      assert OnlyAppArea(before, eeprom.mem[..]);
      ghost var m := eeprom.mem[..];
      assert erased ==> Padded(before, m, |msg|);
      var crc := HW_ProgramEEPROM(EEPROM_APP, Crc(msg));
      OverwriteInAppArea(before, m, EEPROM_APP, LittleEndian(Crc(msg), 4));
      ghost var m1 := eeprom.mem[..];
      var length := HW_ProgramEEPROM(EEPROM_APP + 4, |msg|);
      OverwriteInAppArea(before, m1, EEPROM_APP + 4, LittleEndian(|msg|, 4));
      ghost var m2 := eeprom.mem[..];
      ghost var written;
      ok, written := eeprom.HW_WriteEEPROM(MESSAGE, msg);
      OverwriteInAppArea(before, m2, MESSAGE, msg[..written]);
      assert msg[..|msg|] == msg;
      ok := ok && crc && length;
      ImageIsStored(m, Crc, msg);
      if eeprom.healthy {
        OverwriteKeepsPadding(before, m, |msg|, EEPROM_APP, LittleEndian(Crc(msg), 4));
        OverwriteKeepsPadding(before, m1, |msg|, EEPROM_APP + 4, LittleEndian(|msg|, 4));
        OverwriteKeepsPadding(before, m2, |msg|, MESSAGE, msg);
      }
    }

    method HW_ProgramEEPROM(address: nat, data: uint32) returns (ok: bool)
      requires address % 4 == 0 && address + 4 <= eeprom.mem.Length
      modifies eeprom.mem
      ensures ok ==> eeprom.mem[..] == Overwrite(old(eeprom.mem[..]), address, LittleEndian(data, 4))
      ensures !ok ==> eeprom.mem[..] == old(eeprom.mem[..])
      ensures eeprom.healthy ==> ok
    {
      var unlocked := eeprom.HalReady();
      ok := eeprom.HalProgram(address, LittleEndian(data, 4));
      var locked := eeprom.HalReady();
    }

    /** The loader's chain of comparisons, first the identity and credentials. */
    method RestoreCredentials(key: nat, number: nat, payload: seq<byte>, ghost f: Field) returns (known: bool)
      requires DevCfg.Valid() && key == Key(f) && number == Number(f.value)
      requires f.value.Bytes? ==> payload == f.value.data
      modifies this`DevCfg
      ensures known ==> DevCfg == Restore(old(DevCfg), f)
      ensures !known ==> DevCfg == old(DevCfg)
      ensures !known ==> key !in {LORA_OTAA, LORA_DEV_EUI, LORA_APP_EUI, LORA_DEV_ADDR}
      ensures !known && key in {LORA_APP_KEY, LORA_MAC_NET_SESSION_KEY, LORA_MAC_APP_SESSION_KEY} ==> |payload| != 16
    {
      known := true;
      if key == LORA_OTAA {
        DevCfg := DevCfg.(isOtaa := number != 0);
      } else if key == LORA_DEV_EUI {
        DevCfg := DevCfg.(devEui := LittleEndian(number, 8));
      } else if key == LORA_APP_EUI {
        DevCfg := DevCfg.(appEui := LittleEndian(number, 8));
      } else if key == LORA_APP_KEY && |payload| == 16 {
        DevCfg := DevCfg.(appKey := payload);
      } else if key == LORA_DEV_ADDR {
        DevCfg := DevCfg.(devAddr := number % 0x1_0000_0000);
      } else if key == LORA_MAC_NET_SESSION_KEY && |payload| == 16 {
        DevCfg := DevCfg.(nwkSKey := payload);
      } else if key == LORA_MAC_APP_SESSION_KEY && |payload| == 16 {
        DevCfg := DevCfg.(appSKey := payload);
      } else {
        known := false;
      }
    }

    /** The radio parameters. */
    method RestoreRadio(key: nat, number: nat, ghost f: Field) returns (known: bool)
      requires DevCfg.Valid() && key == Key(f) && number == Number(f.value)
      modifies this`DevCfg
      ensures known ==> DevCfg == Restore(old(DevCfg), f)
      ensures !known ==> DevCfg == old(DevCfg)
      ensures !known ==> key !in {LORA_FP, LORA_PORT, LORA_TXP, LORA_SF, LORA_BW}
    {
      known := true;
      if key == LORA_FP {
        DevCfg := DevCfg.(region := if number == PBENUM_FP_EU868 then LORAMAC_REGION_EU868 else LORAMAC_REGION_US915);
      } else if key == LORA_PORT {
        DevCfg := DevCfg.(txPort := number % 0x100);
      } else if key == LORA_TXP {
        DevCfg := DevCfg.(txPower := number % 0x100);
      } else if key == LORA_SF {
        DevCfg := DevCfg.(sf := number % 0x100);
      } else if key == LORA_BW {
        DevCfg := DevCfg.(bw := number % 0x100);
      } else {
        known := false;
      }
    }

    /** The LoRaWAN switches. */
    method RestoreSwitches(key: nat, number: nat, ghost f: Field) returns (known: bool)
      requires DevCfg.Valid() && key == Key(f) && number == Number(f.value)
      modifies this`DevCfg
      ensures known ==> DevCfg == Restore(old(DevCfg), f)
      ensures !known ==> DevCfg == old(DevCfg)
      ensures !known ==> key !in {LORA_CONFIRMED_MESSAGES, LORA_ADAPTIVE_DATA_RATE, LORA_RESPECT_DUTY_CYCLE}
    {
      known := true;
      if key == LORA_CONFIRMED_MESSAGES {
        DevCfg := DevCfg.(confirmedMsgs := number != 0);
      } else if key == LORA_ADAPTIVE_DATA_RATE {
        DevCfg := DevCfg.(adaptiveDatarate := number != 0);
      } else if key == LORA_RESPECT_DUTY_CYCLE {
        DevCfg := DevCfg.(dutyCycle := number != 0);
      } else {
        known := false;
      }
    }

    /** The sending settings. */
    method RestoreSending(key: nat, number: nat, ghost f: Field) returns (known: bool)
      requires DevCfg.Valid() && key == Key(f) && number == Number(f.value)
      modifies this`DevCfg
      ensures known ==> DevCfg == Restore(old(DevCfg), f)
      ensures !known ==> DevCfg == old(DevCfg)
      ensures !known ==> key !in {SENSOR_TIMEBASE, SENSOR_SEND_TRIGGER, SENSOR_SEND_STRATEGY}
    {
      known := true;
      if key == SENSOR_TIMEBASE {
        DevCfg := DevCfg.(sendInterval := number % 0x1_0000_0000);
      } else if key == SENSOR_SEND_TRIGGER {
        DevCfg := DevCfg.(sendTrigger := number % 0x100);
      } else if key == SENSOR_SEND_STRATEGY {
        DevCfg := DevCfg.(sendStrategy := number % 0x100);
      } else {
        known := false;
      }
    }

    /** The button counters. */
    method RestoreCounts(key: nat, number: nat, ghost f: Field) returns (known: bool)
      requires DevCfg.Valid() && key == Key(f) && number == Number(f.value)
      modifies this`DevCfg
      ensures known ==> DevCfg == Restore(old(DevCfg), f)
      ensures !known ==> DevCfg == old(DevCfg)
      ensures !known ==> key !in {BUTTON_SINGLE_COUNT, BUTTON_DOUBLE_COUNT, BUTTON_LONG_COUNT}
    {
      known := true;
      if key == BUTTON_SINGLE_COUNT {
        DevCfg := DevCfg.(singleCount := number % 0x100);
      } else if key == BUTTON_DOUBLE_COUNT {
        DevCfg := DevCfg.(doubleCount := number % 0x100);
      } else if key == BUTTON_LONG_COUNT {
        DevCfg := DevCfg.(longCount := number % 0x100);
      } else {
        known := false;
      }
    }

    method RestoreField(tagnr: nat, tagtype: nat, number: nat, payload: seq<byte>, ghost f: Field)
      requires DevCfg.Valid()
      requires tagnr == f.id && tagtype == TagType(f.value) && number == Number(f.value)
      requires f.value.Bytes? ==> payload == f.value.data
      modifies this`DevCfg
      ensures DevCfg == Restore(old(DevCfg), f)
    {
      var key := tagnr * 8 + tagtype;
      var known := RestoreCredentials(key, number, payload, f);
      if !known {
        known := RestoreRadio(key, number, f);
      }
      if !known {
        known := RestoreSwitches(key, number, f);
      }
      if !known {
        known := RestoreSending(key, number, f);
      }
      if !known {
        known := RestoreCounts(key, number, f);
      }
    }

    /** The loader's field loop over the message in memory. */
    method Deserialize(len: nat, ghost fs: seq<Field>, ghost t: Tail) returns (err: bool)
      requires Valid() && MESSAGE + len <= EEPROM_SIZE && 2 <= len <= 255
      requires IsConfiguration(eeprom.mem[MESSAGE..][..len], fs, t)
      modifies this`DevCfg
      ensures DevCfg.Valid() && DevCfg == RestoreAll(old(DevCfg), fs) == FieldMeaning.LoadedAll(old(DevCfg), fs)
      ensures err <==> t.Stop?
    {
      var msg := eeprom.mem[MESSAGE..];
      var pos := 1;
      ghost var before := DevCfg;
      FieldMeaning.MessageLoaded(before, fs);
      ghost var k := 0;
      assert fs[..0] == [];
      EndReached(msg, len, fs, t, 0);
      while pos != len
        invariant k <= |fs| && pos == 1 + |EncAll(fs[..k])| <= len
        invariant pos == len ==> k == |fs| && t.End?
        invariant DevCfg == RestoreAll(before, fs[..k]) && DevCfg.Valid()
        decreases |fs| - k
      {
        var r := ReadField(msg, len, pos, fs, t, k);
        if r.Abort? {
          assert fs[..k] == fs;
          return true;
        }
        RestoreValid(DevCfg, fs[k]);
        RestoreField(r.tagnr, r.tagtype, r.number, msg[r.at..r.at + r.rawbytes], fs[k]);
        RestoreAllStep(before, fs, k);
        pos := r.at + r.rawbytes;
        k := k + 1;
        EndReached(msg, len, fs, t, k);
      }
      assert fs[..k] == fs;
      err := false;
    }

    /** Store the present configuration under the chip's identifier. */
    method StoreDefaults(chipId: seq<byte>) returns (saved: bool)
      requires Valid() && |chipId| == 8
      modifies this`DevCfg, eeprom.mem
      ensures Valid() && DevCfg == old(DevCfg).(devEui := chipId) && (eeprom.healthy ==> saved)
      ensures OnlyAppArea(old(eeprom.mem[..]), eeprom.mem[..])
      ensures saved ==>
                var len := Word(eeprom.mem[..], EEPROM_APP + 4);
                && Stored(eeprom.mem[..], Crc, Message(StoredFields(DevCfg)))
                && 2 <= len <= 255 && IsConfiguration(eeprom.mem[MESSAGE..][..len], StoredFields(DevCfg), End)
    {
      DevCfg := DevCfg.(devEui := chipId);
      saved := EEPROM_Save();
      if saved {
        SavedConfigurationLoads(eeprom.mem[..], Crc, DevCfg, DevCfg);
        assert eeprom.mem[..][MESSAGE..] == eeprom.mem[MESSAGE..];
      }
    }

    /** Erase the checksum and the length, so that the next start finds no message. */
    method Invalidate() returns (ok: bool)
      requires Valid()
      modifies eeprom.mem
      ensures OnlyAppArea(old(eeprom.mem[..]), eeprom.mem[..])
      ensures ok ==> !HasMessage(eeprom.mem[..], Crc)
      ensures eeprom.healthy ==> ok
    {
      ghost var m := eeprom.mem[..];
      var crcErased := eeprom.HalErase(EEPROM_APP);
      OverwriteInAppArea(m, m, EEPROM_APP, [0, 0, 0, 0]);
      ghost var m1 := eeprom.mem[..];
      var lenErased := eeprom.HalErase(EEPROM_APP + 4);
      OverwriteInAppArea(m, m1, EEPROM_APP + 4, [0, 0, 0, 0]);
      ReadBack(m1, EEPROM_APP + 4, [0, 0, 0, 0], EEPROM_APP + 4, 4);
      LittleEndianRoundTrip(0, 4);
      assert LittleEndian(0, 4) == [0, 0, 0, 0];
      ok := crcErased && lenErased;
      MissingIff(eeprom.mem[..], Crc);
    }

    /** Load the configuration, or store the present one under the chip's identifier when none is stored.

        The old contents are looked at exactly if they hold a message; without defects it restores its fields, and at
        a defect the loader invalidates it and reboots. When the defaults cannot be stored the firmware goes on with
        whatever is in memory, which is not modelled. */
    method EEPROM_Load(chipId: seq<byte>, ghost fs: seq<Field>, ghost t: Tail) returns (r: LoadOutcome)
      requires Valid() && |chipId| == 8
      requires HasMessage(eeprom.mem[..], Crc) ==>
                 var len := Word(eeprom.mem[..], EEPROM_APP + 4);
                 len <= 255 && IsConfiguration(eeprom.mem[MESSAGE..][..len], fs, t)
      modifies this, eeprom.mem
      ensures Valid()
      ensures OnlyAppArea(old(eeprom.mem[..]), eeprom.mem[..])
      ensures !old(HasMessage(eeprom.mem[..], Crc)) ==>
                var c := old(DevCfg).(devEui := chipId);
                && !r.Rebooted? && (eeprom.healthy ==> r == Loaded)
                && (r == Loaded ==> DevCfg == c.(region := Plan(c.region)) && allChanged
                                    && Stored(eeprom.mem[..], Crc, Message(StoredFields(c))))
      ensures old(HasMessage(eeprom.mem[..], Crc)) ==>
                && (if t.End? then r == Loaded else r.Rebooted?)
                && DevCfg == RestoreAll(old(DevCfg), fs) == FieldMeaning.LoadedAll(old(DevCfg), fs)
                && (r == Loaded ==> allChanged && eeprom.mem[..] == old(eeprom.mem[..]))
                && (r.Rebooted? && r.invalidated ==> !HasMessage(eeprom.mem[..], Crc))
                && (r.Rebooted? && eeprom.healthy ==> r.invalidated)
    {
      ghost var stored, tail := fs, t;
      MissingIff(eeprom.mem[..], Crc);
      if Missing(eeprom.mem[..], Crc) {
        var saved := StoreDefaults(chipId);
        if !saved {
          return DefaultsNotSaved;
        }
        stored, tail := StoredFields(DevCfg), End;
        StoredFieldsRestore(DevCfg, DevCfg);
      }
      var len := Word(eeprom.mem[..], EEPROM_APP + 4);
      var err := Deserialize(len, stored, tail);
      if err {
        var invalidated := Invalidate();
        return Rebooted(invalidated);
      }
      allChanged := true;
      r := Loaded;
    }
  }

  lemma RestoreValid(c: DeviceConfig, f: Field)
    requires c.Valid()
    ensures Restore(c, f).Valid()
  {
    var e := StoredEffect(f);
    if e.Put? {
      StoreKeepsValid(c, e.slot, e.stored);
    }
  }

  /** A save, a restart with whatever configuration the program starts from, and a load: when the hardware took every
      word, the load succeeds, leaves the memory as it is and brings back the configuration that was saved, exactly for
      the regions EU868 and US915. */
  method SaveAndLoad(s: Storage, start: DeviceConfig, chipId: seq<byte>) returns (saved: bool, r: LoadOutcome)
    requires s.Valid() && start.Valid() && |chipId| == 8
    modifies s, s.eeprom.mem
    ensures s.eeprom.healthy ==> saved
    ensures saved ==> r == Loaded && Stored(s.eeprom.mem[..], s.Crc, Message(StoredFields(old(s.DevCfg))))
    ensures saved ==> s.DevCfg == old(s.DevCfg).(region := Plan(old(s.DevCfg).region))
    ensures saved ==>
              (s.DevCfg == old(s.DevCfg)
               <==> old(s.DevCfg).region in {LORAMAC_REGION_EU868, LORAMAC_REGION_US915})
  {
    ghost var c := s.DevCfg;
    saved := s.EEPROM_Save();
    s.DevCfg := start;
    r := DefaultsNotSaved;
    if saved {
      SavedConfigurationLoads(s.eeprom.mem[..], s.Crc, c, start);
      assert s.eeprom.mem[..][MESSAGE..] == s.eeprom.mem[MESSAGE..];
      r := s.EEPROM_Load(chipId, StoredFields(c), End);
      StoredFieldsRestore(start, c);
    }
  }
}
