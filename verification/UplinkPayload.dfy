/** The uplink payloads of the button: what `enqueueToSend` composes, what `LRW_Send` adds to it, and what a receiver
    that follows the message format document reads back. */
module UplinkPayload {
  import opened Bits

  datatype MsgType = NoMsg | Scheduled | Event

  /** What is measured when a message is composed: volts in hundredths, degrees in tenths, as integers. */
  datatype Reading = Reading(volts: uint32, temp: int)

  function Clamp(x: int, low: int, high: int): (r: int)
    requires low <= high
    ensures low <= r <= high
  {
    if x < low then low else if x > high then high else x
  }

  function VoltageByte(r: Reading): byte {
    (Clamp(r.volts, 201, 327) - 200) % 0x80
  }

  function TemperatureByte(r: Reading): byte {
    (Clamp(r.temp, -400, 1250) + 400) * 255 / 1650
  }

  /** The gesture code and its count; gestures are numbered 1 to 3. */
  function GestureCode(gesture: byte): byte {
    if gesture == 1 then 0 else if gesture == 2 then 1 else if gesture == 3 then 2 else 3
  }

  function GestureCount(gesture: byte, count: byte): byte {
    if 1 <= gesture <= 3 then count else 0
  }

  const VERSION_BITS := 0x40
  const TRIGGER_EVENT := 1

  /** The payload as it is queued: the bits for the transmit power are clear. */
  function Compose(kind: MsgType, r: Reading, gesture: byte, count: byte): (p: seq<byte>)
    requires kind != NoMsg
    ensures |p| <= 12
  {
    if kind == Scheduled then
      [VERSION_BITS, VoltageByte(r), TemperatureByte(r)]
    else
      var gest := GestureCode(gesture);
      [gest % 2 * 2 + VERSION_BITS + TRIGGER_EVENT, VoltageByte(r) + gest / 2 * 0x80, TemperatureByte(r),
       GestureCount(gesture, count)]
  }

  /** `b & 0xc3 | (power & 7) << 2` */
  function EmbedPower(b: byte, power: int): byte {
    b / 0x40 * 0x40 + b % 4 + power % 8 * 4
  }

  /** Equal but for bits 2 to 5 of the first byte. */
  ghost predicate SameButPower(p: seq<byte>, q: seq<byte>) {
    && |p| == |q| > 0
    && p[0] / 0x40 == q[0] / 0x40 && p[0] % 4 == q[0] % 4
    && p[1..] == q[1..]
  }

  lemma EmbedKeepsRest(p: seq<byte>, q: seq<byte>, power: int)
    requires SameButPower(p, q)
    ensures SameButPower(p[0 := EmbedPower(p[0], power)], q)
    ensures EmbedPower(p[0], power) / 4 % 8 == power % 8
  {
    assert p[0 := EmbedPower(p[0], power)][1..] == p[1..];
  }

  // ----- The receiver ----------------------------------------------------------------------------

  datatype Uplink = Uplink(
    version: nat,
    txPower: nat,
    event: bool,
    voltage: nat,
    temperature: nat,
    gesture: nat,
    count: nat)

  function Receive(p: seq<byte>): Uplink
    requires |p| >= 3 && (p[0] % 2 == 1 ==> |p| >= 4)
  {
    var event := p[0] % 2 == 1;
    Uplink(p[0] / 0x40, p[0] / 4 % 8, event, p[1] % 0x80, p[2],
           if event then p[0] / 2 % 2 + p[1] / 0x80 * 2 else 0,
           if event then p[3] else 0)
  }

  /** Whatever power a message is sent at, the receiver reads back that power and everything that was composed. */
  lemma ReceivedAsComposed(kind: MsgType, r: Reading, gesture: byte, count: byte, sent: seq<byte>, power: int)
    requires kind != NoMsg && SameButPower(sent, Compose(kind, r, gesture, count))
    requires sent[0] / 4 % 8 == power % 8
    ensures Receive(sent)
            == Uplink(1, power % 8, kind == Event, Clamp(r.volts, 201, 327) - 200, TemperatureByte(r),
                      if kind == Event then GestureCode(gesture) else 0,
                      if kind == Event then GestureCount(gesture, count) else 0)
  {
    var p := Compose(kind, r, gesture, count);
    assert sent[1] == sent[1..][0] == p[1..][0];
    assert sent[2] == sent[1..][1] == p[1..][1];
    if kind == Event {
      assert sent[3] == sent[1..][2] == p[1..][2];
    }
  }

  /** Degrees from the temperature byte, by the formula of the message format. */
  function Degrees(b: nat): real {
    b as real / 255.0 * 165.0 - 40.0
  }

  /** What the composed message means to a receiver: the voltage in hundredths between 2.01 and 3.27, the temperature
      between -40.0 and 125.0 degrees to within one step of the byte, and for an event which gesture it was. */
  lemma ReadingReceived(kind: MsgType, r: Reading, gesture: byte, count: byte, sent: seq<byte>, power: int)
    requires kind != NoMsg && SameButPower(sent, Compose(kind, r, gesture, count))
    requires sent[0] / 4 % 8 == power % 8
    ensures var u := Receive(sent);
            && u.version == 1 && u.txPower == power % 8 && (u.event <==> kind == Event)
            && (r.volts < 201 ==> u.voltage == 1) && (r.volts > 327 ==> u.voltage == 127)
            && (201 <= r.volts <= 327 ==> u.voltage + 200 == r.volts)
            && (r.temp <= -400 ==> u.temperature == 0) && (r.temp >= 1250 ==> u.temperature == 255)
            && (-400 <= r.temp <= 1250 ==>
                  Degrees(u.temperature) <= r.temp as real / 10.0 < Degrees(u.temperature + 1))
            && (kind == Scheduled ==> u.gesture == 0 && u.count == 0)
            && (kind == Event && gesture == 1 ==> u.gesture == 0 && u.count == count)
            && (kind == Event && gesture == 2 ==> u.gesture == 1 && u.count == count)
            && (kind == Event && gesture == 3 ==> u.gesture == 2 && u.count == count)
            && (kind == Event && !(1 <= gesture <= 3) ==> u.gesture == 3 && u.count == 0)
  {
    ReceivedAsComposed(kind, r, gesture, count, sent, power);
    var t, b := Clamp(r.temp, -400, 1250), TemperatureByte(r) as nat;
    assert b * 1650 <= (t + 400) * 255 < (b + 1) * 1650;
    assert (b * 1650) as real <= ((t + 400) * 255) as real < ((b + 1) * 1650) as real;
  }
}
