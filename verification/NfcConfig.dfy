/** `PBDecodeMsg`: a configuration message received over NFC, field by field into the device configuration. */
module NfcConfig {
  import opened Bits
  import opened Wire
  import opened Decoder
  import opened DevCfg
  import FieldMeaning

  /** What follows the well-formed fields: nothing, or an item the decoder stops at. */
  datatype Tail = End | Stop(bad: Item, more: seq<byte>)

  function TailBytes(t: Tail): seq<byte> {
    match t
    case End => []
    case Stop(bad, more) => ItemBytes(bad) + more
  }

  /** Only a field of the encoder, here one with an empty or oversized payload, tells where it ends. */
  ghost predicate IsTail(t: Tail) {
    t.Stop? ==> IsItem(t.bad) && !Accepted(t.bad) && (!IsFieldItem(t.bad) ==> t.more == [])
  }

  ghost predicate IsConfiguration(s: seq<byte>, fs: seq<Field>, t: Tail) {
    && AreFields(fs)
    && (forall f | f in fs :: Decodable(f.value))
    && IsTail(t)
    && s == Message(fs) + TailBytes(t)
  }

  lemma FieldBytesAt(msg: seq<byte>, len: nat, fs: seq<Field>, t: Tail, k: nat)
    requires len <= |msg| && IsConfiguration(msg[..len], fs, t) && k < |fs|
    ensures IsAt(msg, 1 + |EncAll(fs[..k])|, EncField(fs[k]))
    ensures 1 + |EncAll(fs[..k])| + |EncField(fs[k])| <= len
  {
    FieldOffset(fs, k);
    PartOfMessage(msg, len, EncAll(fs), EncAll(fs[..k]), EncField(fs[k]), EncAll(fs[k + 1..]), TailBytes(t));
  }

  /** Part `b` of a message whose fields are `whole`. */
  lemma PartOfMessage(msg: seq<byte>, len: nat, whole: seq<byte>, a: seq<byte>, b: seq<byte>, c: seq<byte>,
      tail: seq<byte>)
    requires len <= |msg| && msg[..len] == [0] + whole + tail && whole == a + b + c
    ensures IsAt(msg, 1 + |a|, b) && 1 + |a| + |b| <= len
  {
    Regroup(a, b, c, tail);
    InTheMiddle(msg, len, [0] + a, b, c + tail);
  }

  lemma FieldAt(msg: seq<byte>, len: nat, fs: seq<Field>, t: Tail, k: nat)
    requires len <= |msg| && IsConfiguration(msg[..len], fs, t) && k < |fs|
    ensures ItemAt(msg, len, 1 + |EncAll(fs[..k])|, FieldItem(fs[k]))
    ensures |EncAll(fs[..k + 1])| == |EncAll(fs[..k])| + |EncField(fs[k])|
    ensures Accepted(FieldItem(fs[k])) && ItemBytes(FieldItem(fs[k])) == EncField(fs[k])
  {
    FieldItemIsItem(fs[k]);
    FieldOffset(fs, k);
    FieldBytesAt(msg, len, fs, t, k);
  }

  lemma Regroup(a: seq<byte>, b: seq<byte>, c: seq<byte>, d: seq<byte>)
    ensures [0] + (a + b + c) + d == ([0] + a) + (b + (c + d))
  {
  }

  lemma InTheMiddle(msg: seq<byte>, len: nat, before: seq<byte>, enc: seq<byte>, after: seq<byte>)
    requires len <= |msg| && msg[..len] == before + (enc + after)
    ensures IsAt(msg, |before|, enc) && |before| + |enc| + |after| == len
  {
    assert (before + (enc + after))[|before|..|before| + |enc|] == enc;
    assert msg[..len][|before|..|before| + |enc|] == msg[|before|..|before| + |enc|];
  }

  lemma TailAt(msg: seq<byte>, len: nat, fs: seq<Field>, t: Tail)
    requires len <= |msg| && IsConfiguration(msg[..len], fs, t)
    ensures t.End? ==> 1 + |EncAll(fs)| == len
    ensures t.Stop? ==> ItemAt(msg, len, 1 + |EncAll(fs)|, t.bad) && 1 + |EncAll(fs)| < len
  {
    if t.Stop? {
      assert msg[..len] == Message(fs) + (ItemBytes(t.bad) + t.more);
      InTheMiddle(msg, len, Message(fs), ItemBytes(t.bad), t.more);
      ItemNotEmpty(t.bad);
    }
  }

  lemma ItemNotEmpty(i: Item)
    requires IsItem(i)
    ensures ItemBytes(i) != []
  {
  }

  /** The payload of a bytes field ends where the field ends. */
  lemma PayloadAt(msg: seq<byte>, pos: nat, at: nat, n: nat, f: Field)
    requires f.value.Bytes? && IsAt(msg, pos, EncField(f))
    requires n == RawBytes(f.value) && at + n == pos + |EncField(f)|
    ensures at + n <= |msg| && msg[at..at + n] == f.value.data
  {
    var data := f.value.data;
    var head := EncVarint(Key(f)) + EncVarint(|data|);
    ConcatAssociative(EncVarint(Key(f)), EncVarint(|data|), data);
    IsAtParts(msg, pos, head, data);
    IsAtSlice(msg, at, data);
  }

  /** What the decoder meets after `k` fields, unless the message has ended. */
  function NextItem(fs: seq<Field>, t: Tail, k: nat): Item
    requires k < |fs| || (k == |fs| && t.Stop?)
  {
    if k < |fs| then FieldItem(fs[k]) else t.bad
  }

  lemma NextItemAt(msg: seq<byte>, len: nat, fs: seq<Field>, t: Tail, k: nat)
    requires len <= |msg| && IsConfiguration(msg[..len], fs, t)
    requires k < |fs| || (k == |fs| && t.Stop?)
    ensures ItemAt(msg, len, 1 + |EncAll(fs[..k])|, NextItem(fs, t, k))
  {
    if k < |fs| {
      FieldAt(msg, len, fs, t, k);
    } else {
      assert fs[..k] == fs;
      TailAt(msg, len, fs, t);
    }
  }

  lemma NextItemAccepted(s: seq<byte>, fs: seq<Field>, t: Tail, k: nat)
    requires IsConfiguration(s, fs, t) && k <= |fs| && 1 + |EncAll(fs[..k])| < |s|
    ensures k == |fs| ==> t.Stop?
    ensures Accepted(NextItem(fs, t, k)) <==> k < |fs|
  {
    if k < |fs| {
      assert fs[k] in fs;
    } else {
      assert fs[..k] == fs;
    }
  }

  lemma FieldEnd(msg: seq<byte>, len: nat, fs: seq<Field>, t: Tail, k: nat)
    requires len <= |msg| && IsConfiguration(msg[..len], fs, t) && k < |fs|
    ensures 1 + |EncAll(fs[..k])| + |EncField(fs[k])| == 1 + |EncAll(fs[..k + 1])| <= len
    ensures IsAt(msg, 1 + |EncAll(fs[..k])|, EncField(fs[k]))
    ensures IsField(fs[k]) && ItemBytes(FieldItem(fs[k])) == EncField(fs[k])
  {
    assert fs[k] in fs;
    FieldItemIsItem(fs[k]);
    FieldAt(msg, len, fs, t, k);
  }

  lemma FieldPayload(msg: seq<byte>, len: nat, fs: seq<Field>, t: Tail, k: nat, at: nat, n: nat)
    requires len <= |msg| && IsConfiguration(msg[..len], fs, t) && k < |fs| && fs[k].value.Bytes?
    requires at + n == 1 + |EncAll(fs[..k + 1])| && n == RawBytes(fs[k].value)
    ensures at + n <= len && msg[at..at + n] == fs[k].value.data
  {
    FieldEnd(msg, len, fs, t, k);
    PayloadAt(msg, 1 + |EncAll(fs[..k])|, at, n, fs[k]);
  }

  /** The next key and value of a message: field `k`, or the reason to stop at the malformed tail. */
  method ReadField(msg: seq<byte>, len: nat, pos: nat, ghost fs: seq<Field>, ghost t: Tail, ghost k: nat)
    returns (r: Parsed)
    requires len <= |msg| && len <= 255 && IsConfiguration(msg[..len], fs, t)
    requires k <= |fs| && pos == 1 + |EncAll(fs[..k])| < len
    ensures r.Abort? <==> k == |fs|
    ensures r.Abort? ==> t.Stop? && r.reason == Reason(t.bad)
    ensures r.KeyValue? ==>
              var f := fs[k];
              && r.tagnr == f.id && r.tagtype == TagType(f.value) && r.number == Number(f.value)
              && r.at + r.rawbytes == 1 + |EncAll(fs[..k + 1])| <= len
              && (f.value.Bytes? ==> msg[r.at..r.at + r.rawbytes] == f.value.data)
  {
    NextItemAccepted(msg[..len], fs, t, k);
    NextItemAt(msg, len, fs, t, k);
    r := NextField(msg, len, pos, NextItem(fs, t, k));
    if r.KeyValue? {
      FieldItemIsItem(fs[k]);
      FieldEnd(msg, len, fs, t, k);
      if fs[k].value.Bytes? {
        FieldPayload(msg, len, fs, t, k, r.at, r.rawbytes);
      }
    }
  }

  class ConfigStore {
    var DevCfg: DeviceConfig
    var changed: Changed
    var unjoined: bool

    ghost function State(): Device
      reads this
    {
      Device(DevCfg, changed, unjoined)
    }

    constructor (c: DeviceConfig)
      ensures State() == Device(c, UNCHANGED, false)
    {
      DevCfg, changed, unjoined := c, UNCHANGED, false;
    }

    /** The chain of comparisons with the known keys, first the identity; `number` is the decoded integer. */
    method DispatchIdentity(key: nat, number: nat, ghost f: Field) returns (known: bool)
      requires DevCfg.Valid() && key == Key(f) && number == Number(f.value)
      modifies this
      ensures known ==> State() == Apply(old(State()), f)
      ensures !known ==> State() == old(State())
      ensures !known ==> key !in {LORA_OTAA, LORA_DEV_EUI, LORA_APP_EUI}
    {
      known := true;
      if key == LORA_OTAA {
        var v := number != 0;
        if DevCfg.isOtaa != v { DevCfg := DevCfg.(isOtaa := v); LrwChanged(); }
      } else if key == LORA_DEV_EUI {
        var v := LittleEndian(number, 8);
        if DevCfg.devEui != v { DevCfg := DevCfg.(devEui := v); LrwChanged(); }
      } else if key == LORA_APP_EUI {
        var v := LittleEndian(number, 8);
        if DevCfg.appEui != v { DevCfg := DevCfg.(appEui := v); LrwChanged(); }
      } else {
        known := false;
      }
    }

    /** The credentials; `payload` is the raw value. */
    method DispatchCredentials(key: nat, number: nat, payload: seq<byte>, ghost f: Field) returns (known: bool)
      requires DevCfg.Valid() && key == Key(f) && number == Number(f.value)
      requires f.value.Bytes? ==> payload == f.value.data
      modifies this
      ensures known ==> State() == Apply(old(State()), f)
      ensures !known ==> State() == old(State())
      ensures !known ==> key != LORA_DEV_ADDR
      ensures !known && key in {LORA_APP_KEY, LORA_MAC_NET_SESSION_KEY, LORA_MAC_APP_SESSION_KEY} ==> |payload| != 16
    {
      known := true;
      if key == LORA_APP_KEY && |payload| == 16 {
        if DevCfg.appKey != payload { DevCfg := DevCfg.(appKey := payload); LrwChanged(); }
      } else if key == LORA_DEV_ADDR {
        if DevCfg.devAddr != number { DevCfg := DevCfg.(devAddr := number % 0x1_0000_0000); LrwChanged(); }
      } else if key == LORA_MAC_NET_SESSION_KEY && |payload| == 16 {
        if DevCfg.nwkSKey != payload { DevCfg := DevCfg.(nwkSKey := payload); LrwChanged(); }
      } else if key == LORA_MAC_APP_SESSION_KEY && |payload| == 16 {
        if DevCfg.appSKey != payload { DevCfg := DevCfg.(appSKey := payload); LrwChanged(); }
      } else {
        known := false;
      }
    }

    /** The join status and the frequency plan; a plan that is not known changes nothing. */
    method DispatchPlan(key: nat, number: nat, ghost f: Field) returns (known: bool)
      requires DevCfg.Valid() && key == Key(f) && number == Number(f.value)
      modifies this
      ensures known ==> State() == Apply(old(State()), f)
      ensures !known ==> State() == old(State())
      ensures !known ==> key !in {LORA_JOINED, LORA_FP}
    {
      known := true;
      if key == LORA_JOINED {
        if number == 0 { unjoined := true; }
      } else if key == LORA_FP {
        if number == PBENUM_FP_EU868 {
          if DevCfg.region != LORAMAC_REGION_EU868 { DevCfg := DevCfg.(region := LORAMAC_REGION_EU868); LrwChanged(); }
        } else if number == PBENUM_FP_US915 {
          if DevCfg.region != LORAMAC_REGION_US915 { DevCfg := DevCfg.(region := LORAMAC_REGION_US915); LrwChanged(); }
        }
      } else {
        known := false;
      }
    }

    /** The radio parameters. */
    method DispatchRadio(key: nat, number: nat, ghost f: Field) returns (known: bool)
      requires DevCfg.Valid() && key == Key(f) && number == Number(f.value)
      modifies this
      ensures known ==> State() == Apply(old(State()), f)
      ensures !known ==> State() == old(State())
      ensures !known ==> key !in {LORA_PORT, LORA_TXP, LORA_SF, LORA_BW}
    {
      known := true;
      if key == LORA_PORT {
        if DevCfg.txPort != number { DevCfg := DevCfg.(txPort := number % 0x100); LrwChanged(); }
      } else if key == LORA_TXP {
        if DevCfg.txPower != number { DevCfg := DevCfg.(txPower := number % 0x100); LrwChanged(); }
      } else if key == LORA_SF {
        if DevCfg.sf != number { DevCfg := DevCfg.(sf := number % 0x100); LrwChanged(); }
      } else if key == LORA_BW {
        if DevCfg.bw != number { DevCfg := DevCfg.(bw := number % 0x100); LrwChanged(); }
      } else {
        known := false;
      }
    }

    /** The LoRaWAN switches. */
    method DispatchSwitches(key: nat, number: nat, ghost f: Field) returns (known: bool)
      requires DevCfg.Valid() && key == Key(f) && number == Number(f.value)
      modifies this
      ensures known ==> State() == Apply(old(State()), f)
      ensures !known ==> State() == old(State())
      ensures !known ==> key !in {LORA_CONFIRMED_MESSAGES, LORA_ADAPTIVE_DATA_RATE, LORA_RESPECT_DUTY_CYCLE}
    {
      known := true;
      if key == LORA_CONFIRMED_MESSAGES {
        var v := number != 0;
        if DevCfg.confirmedMsgs != v { DevCfg := DevCfg.(confirmedMsgs := v); LrwChanged(); }
      } else if key == LORA_ADAPTIVE_DATA_RATE {
        var v := number != 0;
        if DevCfg.adaptiveDatarate != v { DevCfg := DevCfg.(adaptiveDatarate := v); LrwChanged(); }
      } else if key == LORA_RESPECT_DUTY_CYCLE {
        var v := number != 0;
        if DevCfg.dutyCycle != v { DevCfg := DevCfg.(dutyCycle := v); LrwChanged(); }
      } else {
        known := false;
      }
    }

    /** The sending settings. */
    method DispatchSending(key: nat, number: nat, ghost f: Field) returns (known: bool)
      requires DevCfg.Valid() && key == Key(f) && number == Number(f.value)
      modifies this
      ensures known ==> State() == Apply(old(State()), f)
      ensures !known ==> State() == old(State())
      ensures !known ==> key !in {SENSOR_TIMEBASE, SENSOR_SEND_TRIGGER, SENSOR_SEND_STRATEGY}
    {
      known := true;
      if key == SENSOR_TIMEBASE {
        if DevCfg.sendInterval != number {
          DevCfg := DevCfg.(sendInterval := number % 0x1_0000_0000);
          SendingChanged();
        }
      } else if key == SENSOR_SEND_TRIGGER {
        if DevCfg.sendTrigger != number { DevCfg := DevCfg.(sendTrigger := number % 0x100); SendingChanged(); }
      } else if key == SENSOR_SEND_STRATEGY {
        if DevCfg.sendStrategy != number { DevCfg := DevCfg.(sendStrategy := number % 0x100); SendingChanged(); }
      } else {
        known := false;
      }
    }

    /** One decoded field; a key that no link of the chain knows is skipped. */
    method Dispatch(tagnr: nat, tagtype: nat, number: nat, payload: seq<byte>, ghost f: Field)
      requires DevCfg.Valid()
      requires tagnr == f.id && tagtype == TagType(f.value) && number == Number(f.value)
      requires f.value.Bytes? ==> payload == f.value.data
      modifies this
      ensures State() == Apply(old(State()), f)
    {
      var key := tagnr * 8 + tagtype;
      var known := DispatchIdentity(key, number, f);
      if !known {
        known := DispatchCredentials(key, number, payload, f);
      }
      if !known {
        known := DispatchPlan(key, number, f);
      }
      if !known {
        known := DispatchRadio(key, number, f);
      }
      if !known {
        known := DispatchSwitches(key, number, f);
      }
      if !known {
        known := DispatchSending(key, number, f);
      }
    }

    method LrwChanged()
      modifies this`changed
      ensures changed == old(changed).(any := true, lrw := true)
    {
      changed := changed.(any := true, lrw := true);
    }

    method SendingChanged()
      modifies this`changed
      ensures changed == old(changed).(any := true, resched := true)
    {
      changed := changed.(any := true, resched := true);
    }

    /** Decode a message: it has the effect of its well-formed fields in order, and stops only where `t` says.

        Messages that are empty, lack the version byte or hold nothing else have no effect. */
    method PBDecodeMsg(msg: seq<byte>, len: nat, ghost fs: seq<Field>, ghost t: Tail) returns (aborted: bool)
      requires DevCfg.Valid()
      requires len <= |msg| && len <= 255
      requires len >= 2 && msg[0] == 0 ==> IsConfiguration(msg[..len], fs, t)
      modifies this
      ensures DevCfg.Valid()
      ensures len < 2 || msg[0] != 0 ==> aborted && State() == old(State())
      ensures len >= 2 && msg[0] == 0 ==> (aborted <==> t.Stop?) && State() == ApplyAll(old(State()), fs)
      ensures len >= 2 && msg[0] == 0 ==>
                && DevCfg == FieldMeaning.ReceivedAll(old(DevCfg), fs)
                && (unjoined <==> old(unjoined) || Field(12, Varint(0)) in fs)
    {
      if len < 1 || msg[0] != 0 {
        return true;
      }
      if len == 1 {
        return true;
      }
      var pos := 1;
      ghost var before := State();
      FieldMeaning.MessageReceived(before, fs);
      FieldMeaning.LeavesNetworkIff(before, fs);
      ghost var k := 0;
      assert fs[..0] == [];
      EndReached(msg, len, fs, t, 0);
      while pos != len
        invariant k <= |fs| && pos == 1 + |EncAll(fs[..k])| <= len
        invariant pos == len ==> k == |fs| && t.End?
        invariant State() == ApplyAll(before, fs[..k]) && DevCfg.Valid()
        decreases |fs| - k
      {
        var r := ReadField(msg, len, pos, fs, t, k);
        if r.Abort? {
          assert fs[..k] == fs;
          return true;
        }
        Dispatch(r.tagnr, r.tagtype, r.number, msg[r.at..r.at + r.rawbytes], fs[k]);
        ApplyValid(ApplyAll(before, fs[..k]), fs[k]);
        ApplyAllStep(before, fs, k);
        pos := r.at + r.rawbytes;
        k := k + 1;
        EndReached(msg, len, fs, t, k);
      }
      assert fs[..k] == fs;
      aborted := false;
    }
  }

  lemma ApplyValid(d: Device, f: Field)
    requires d.cfg.Valid()
    ensures Apply(d, f).cfg.Valid()
  {
    assert [f][..0] == [];
    ApplyAllValid(d, [f]);
    assert ApplyAll(d, [f]) == Apply(ApplyAll(d, []), f);
  }

  lemma EndReached(msg: seq<byte>, len: nat, fs: seq<Field>, t: Tail, k: nat)
    requires len <= |msg| && IsConfiguration(msg[..len], fs, t) && k <= |fs|
    ensures 1 + |EncAll(fs[..k])| <= len
    ensures 1 + |EncAll(fs[..k])| == len ==> k == |fs| && t.End?
  {
    TailAt(msg, len, fs, t);
    assert fs == fs[..k] + fs[k..];
    EncAllConcat(fs[..k], fs[k..]);
    if k < |fs| {
      assert |EncAll(fs[k..])| >= |EncField(fs[k])|;
    }
  }
}
