/** The frame parser of the BMA400 accelerometer's FIFO: `unpack_accel_frame` and its helpers. */
module Fifo {
  import opened Bits

  // frame headers, without the bit that tells the sample width
  const FIFO_SENSOR_TIME := 0xA0
  const FIFO_EMPTY_FRAME := 0x80
  const FIFO_CONTROL_FRAME := 0x48
  const FIFO_XYZ_ENABLE := 0x8E
  const FIFO_X_ENABLE := 0x82
  const FIFO_Y_ENABLE := 0x84
  const FIFO_Z_ENABLE := 0x88
  const FIFO_XY_ENABLE := 0x86
  const FIFO_YZ_ENABLE := 0x8C
  const FIFO_XZ_ENABLE := 0x8A

  datatype Sample = Sample(x: int, y: int, z: int)

  /** What extracting frames leaves behind: the samples and the fields of `struct bma400_fifo_data` it writes. */
  datatype Parse = Parse(samples: seq<Sample>, index: nat, time: nat, conf: byte)

  /** `header & BMA400_AWIDTH_MASK` and the width bit it masks out. */
  function Kind(header: byte): byte {
    header / 0x20 * 0x20 + header % 0x10
  }

  predicate Wide(header: byte) {
    header / 0x10 % 2 == 1
  }

  predicate AccelKind(kind: byte) {
    kind in {FIFO_XYZ_ENABLE, FIFO_X_ENABLE, FIFO_Y_ENABLE, FIFO_Z_ENABLE, FIFO_XY_ENABLE, FIFO_YZ_ENABLE,
             FIFO_XZ_ENABLE}
  }

  predicate HasX(kind: byte) { kind / 2 % 2 == 1 }

  predicate HasY(kind: byte) { kind / 4 % 2 == 1 }

  predicate HasZ(kind: byte) { kind / 8 % 2 == 1 }

  function Axes(kind: byte): nat {
    (if HasX(kind) then 1 else 0) + (if HasY(kind) then 1 else 0) + (if HasZ(kind) then 1 else 0)
  }

  /** Bytes of one axis. */
  function AxisWidth(wide: bool): nat {
    if wide then 2 else 1
  }

  /** The signed value of one axis from its bytes; only the upper byte is there when samples are narrow. */
  function AxisValue(wide: bool, bytes: seq<byte>): (v: int)
    requires |bytes| == AxisWidth(wide)
  {
    var raw := if wide then BitOr(Shl(bytes[1], 4), bytes[0]) else Shl(bytes[0], 4);
    if raw > 2047 then raw - 4096 else raw
  }

  lemma AxisValueRange(wide: bool, bytes: seq<byte>)
    requires |bytes| == AxisWidth(wide)
    ensures -2048 <= AxisValue(wide, bytes) <= 2047
  {
    ShlIsProduct(bytes[|bytes| - 1], 4);
    Pow2Bytes();
    Pow2Add(4, 8);
    if wide {
      BitOrBelow(Shl(bytes[1], 4), bytes[0], 12);
    }
  }

  function Axis(wide: bool, present: bool, data: seq<byte>, at: nat): int
    requires present ==> at + AxisWidth(wide) <= |data|
  {
    if present then AxisValue(wide, data[at..at + AxisWidth(wide)]) else 0
  }

  /** The sample of an accelerometer frame whose payload is at `at`. */
  function FrameSample(kind: byte, wide: bool, data: seq<byte>, at: nat): Sample
    requires at + Axes(kind) * AxisWidth(wide) <= |data|
  {
    var w := AxisWidth(wide);
    var y := at + (if HasX(kind) then w else 0);
    var z := y + (if HasY(kind) then w else 0);
    Sample(Axis(wide, HasX(kind), data, at), Axis(wide, HasY(kind), data, y), Axis(wide, HasZ(kind), data, z))
  }

  /** Payload bytes of a frame that carries something. */
  function PayloadSize(kind: byte, wide: bool): nat {
    if AccelKind(kind) then Axes(kind) * AxisWidth(wide)
    else if kind == FIFO_SENSOR_TIME then 3
    else 1
  }

  predicate Carries(kind: byte) {
    AccelKind(kind) || kind == FIFO_SENSOR_TIME || kind == FIFO_CONTROL_FRAME
  }

  function Time(xlsb: nat, lsb: nat, msb: nat): nat {
    xlsb + 0x100 * lsb + 0x1_0000 * msb
  }

  /** The state after the frame whose header is at `p.index`. A frame that is cut off, empty or unknown ends the
      data. */
  function OneFrame(data: seq<byte>, p: Parse): (r: Parse)
    requires p.index < |data|
    ensures p.index < r.index <= |data| && |p.samples| <= |r.samples| <= |p.samples| + 1
  {
    var kind, wide, at := Kind(data[p.index]), Wide(data[p.index]), p.index + 1;
    var end := at + PayloadSize(kind, wide);
    if !Carries(kind) || end > |data| then p.(index := |data|)
    else if AccelKind(kind) then p.(samples := p.samples + [FrameSample(kind, wide, data, at)], index := end)
    else if kind == FIFO_SENSOR_TIME then p.(time := Time(data[at], data[at + 1], data[at + 2]), index := end)
    else p.(conf := data[at], index := end)
  }

  /** Frame by frame until `n` samples are there or the data has ended. */
  function Extract(data: seq<byte>, p: Parse, n: nat): (r: Parse)
    ensures p.index <= r.index && |p.samples| <= |r.samples|
    decreases |data| - p.index
  {
    if p.index >= |data| then p
    else
      var r := OneFrame(data, p);
      if |r.samples| == n then r else Extract(data, r, n)
  }

  // ----- The implementation ----------------------------------------------------------------------

  class FifoData {
    const data: array<byte>
    var length: nat
    var accelByteStartIdx: nat
    var confChange: byte
    var sensorTime: nat

    constructor (data: array<byte>, length: nat)
      ensures this.data == data && this.length == length && accelByteStartIdx == 0
    {
      this.data, this.length, accelByteStartIdx, confChange, sensorTime := data, length, 0, 0, 0;
    }

    ghost predicate Valid()
      reads this
    {
      length <= data.Length && length < 0x1_0000
    }

    ghost function Bytes(): seq<byte>
      requires Valid()
      reads this, data
    {
      data[..length]
    }

    /** Whether the frame's payload is all there; otherwise the index moves to the end. */
    method CheckFrameAvailable(available: bool, wide: bool, kind: byte, dataIndex: nat)
      returns (frameAvailable: bool, index: nat)
      requires Carries(kind)
      ensures index == if dataIndex + PayloadSize(kind, wide) > length then length else dataIndex
      ensures frameAvailable == (available && dataIndex + PayloadSize(kind, wide) <= length)
    {
      var size;
      match kind {
        case 0x8E => size := if wide then 6 else 3;
        case 0x82 => size := if wide then 2 else 1;
        case 0x84 => size := if wide then 2 else 1;
        case 0x88 => size := if wide then 2 else 1;
        case 0x86 => size := if wide then 4 else 2;
        case 0x8C => size := if wide then 4 else 2;
        case 0x8A => size := if wide then 4 else 2;
        case 0xA0 => size := 3;
        case _ => size := 1;
      }
      frameAvailable, index := available, dataIndex;
      if dataIndex + size > length {
        index := length;
        frameAvailable := false;
      }
    }

    /** One axis of a sample; the index moves behind it. An absent axis reads as zero. */
    method UnpackAxis(wide: bool, present: bool, dataIndex: nat) returns (v: int, index: nat)
      requires Valid() && (present ==> dataIndex + AxisWidth(wide) <= length)
      ensures v == Axis(wide, present, Bytes(), dataIndex)
      ensures index == dataIndex + (if present then AxisWidth(wide) else 0)
    {
      index := dataIndex;
      if !present {
        return 0, index;
      }
      ghost var bytes := Bytes()[dataIndex..dataIndex + AxisWidth(wide)];
      if wide {
        var lsb := data[index];
        index := index + 1;
        var msb := data[index];
        index := index + 1;
        assert bytes == [lsb, msb];
        v := BitOr(Shl(msb, 4), lsb);
      } else {
        var msb := data[index];
        index := index + 1;
        assert bytes == [msb];
        v := Shl(msb, 4);
      }
      if v > 2047 {
        v := v - 4096;
      }
    }

    method UnpackAccel(kind: byte, wide: bool, dataIndex: nat) returns (s: Sample, index: nat)
      requires Valid() && dataIndex + Axes(kind) * AxisWidth(wide) <= length
      ensures s == FrameSample(kind, wide, Bytes(), dataIndex)
      ensures index == dataIndex + Axes(kind) * AxisWidth(wide)
    {
      var x, y, z;
      x, index := UnpackAxis(wide, HasX(kind), dataIndex);
      y, index := UnpackAxis(wide, HasY(kind), index);
      z, index := UnpackAxis(wide, HasZ(kind), index);
      s := Sample(x, y, z);
    }

    /** The frame at `index0`, the body of the extraction loop. */
    method UnpackFrame(accelData: array<Sample>, count0: nat, index0: nat, ghost p: Parse)
      returns (count: nat, dataIndex: nat)
      requires Valid() && index0 < length && count0 < accelData.Length
      requires p == Parse(p.samples, index0, sensorTime, confChange) && |p.samples| == count0
      modifies this`sensorTime, this`confChange, accelData
      ensures var r := OneFrame(Bytes(), p);
              && count == |r.samples| && dataIndex == r.index && sensorTime == r.time && confChange == r.conf
              && (count == count0 ==> r.samples == p.samples && accelData[..] == old(accelData[..]))
              && (count != count0 ==> r.samples == p.samples + [r.samples[count0]]
                                      && accelData[..] == old(accelData[..])[count0 := r.samples[count0]])
    {
      var header := data[index0];
      assert header == Bytes()[index0];
      var wide := Wide(header);
      var kind := Kind(header);
      var frameAvailable := true;
      count, dataIndex := count0, index0 + 1;
      if AccelKind(kind) {
        frameAvailable, dataIndex := CheckFrameAvailable(frameAvailable, wide, kind, dataIndex);
        if frameAvailable {
          var s;
          s, dataIndex := UnpackAccel(kind, wide, dataIndex);
          accelData[count] := s;
          count := count + 1;
        }
      } else if kind == FIFO_SENSOR_TIME {
        frameAvailable, dataIndex := CheckFrameAvailable(frameAvailable, wide, kind, dataIndex);
        if frameAvailable {
          sensorTime := Time(data[dataIndex], data[dataIndex + 1], data[dataIndex + 2]);
          dataIndex := dataIndex + 3;
        }
      } else if kind == FIFO_CONTROL_FRAME {
        frameAvailable, dataIndex := CheckFrameAvailable(frameAvailable, wide, kind, dataIndex);
        if frameAvailable {
          confChange := data[dataIndex];
          dataIndex := dataIndex + 1;
        }
      } else if kind == FIFO_EMPTY_FRAME {
        dataIndex := length;
      } else {
        // an unknown header
        dataIndex := length;
      }
    }

    /** Extract up to `frameCount` samples, from where the last call stopped or from the start behind the dummy byte.

        The result depends on the first `length` bytes only, and only the samples counted are written. */
    method UnpackAccelFrame(accelData: array<Sample>, frameCount: nat, dummyByte: nat) returns (count: nat)
      requires Valid() && 1 <= frameCount <= accelData.Length && dummyByte <= 1
      modifies this, accelData
      ensures Valid() && length == old(length)
      ensures var start := if old(accelByteStartIdx) == 0 then dummyByte else old(accelByteStartIdx);
              var r := Extract(Bytes(), Parse([], start, old(sensorTime), old(confChange)), frameCount);
              && count == |r.samples| <= frameCount
              && accelData[..] == r.samples + old(accelData[..])[count..]
              && accelByteStartIdx == r.index && sensorTime == r.time && confChange == r.conf
    {
      ghost var before := accelData[..];
      count := 0;
      if accelByteStartIdx == 0 {
        accelByteStartIdx := dummyByte;
      }
      var dataIndex := accelByteStartIdx;
      ghost var start := Parse([], dataIndex, sensorTime, confChange);
      ghost var r := start;
      while dataIndex < length
        invariant Valid() && length == old(length) && count == |r.samples| < frameCount
        invariant r == Parse(r.samples, dataIndex, sensorTime, confChange)
        invariant accelData[..] == r.samples + before[count..]
        invariant Extract(Bytes(), start, frameCount) == Extract(Bytes(), r, frameCount)
        decreases length - dataIndex
      {
        ghost var next := OneFrame(Bytes(), r);
        ghost var count0 := count;
        count, dataIndex := UnpackFrame(accelData, count, dataIndex, r);
        if count != count0 {
          OneMore(r.samples, before, next.samples[count0]);
        }
        r := next;
        if frameCount == count {
          break;
        }
      }
      accelByteStartIdx := dataIndex;
    }
  }

  lemma OneMore(samples: seq<Sample>, before: seq<Sample>, s: Sample)
    requires |samples| < |before|
    ensures (samples + before[|samples|..])[|samples| := s] == (samples + [s]) + before[|samples| + 1..]
  {
  }
}
