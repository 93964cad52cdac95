/** What the FIFO parser promises: extraction can be interrupted and resumed, and it inverts the sensor's framing. */
module FifoFrames {
  import opened Bits
  import opened Fifo

  // ----- Resuming --------------------------------------------------------------------------------

  /** The parse with samples of earlier calls in front. */
  function Behind(earlier: seq<Sample>, p: Parse): Parse {
    p.(samples := earlier + p.samples)
  }

  lemma OneFrameBehind(data: seq<byte>, earlier: seq<Sample>, p: Parse)
    requires p.index < |data|
    ensures OneFrame(data, Behind(earlier, p)) == Behind(earlier, OneFrame(data, p))
  {
    var r := OneFrame(data, p);
    if |r.samples| > |p.samples| {
      var s := r.samples[|p.samples|];
      assert r.samples == p.samples + [s];
      assert (earlier + p.samples) + [s] == earlier + (p.samples + [s]);
    }
  }

  lemma {:induction false} ExtractBehind(data: seq<byte>, earlier: seq<Sample>, p: Parse, m: nat)
    ensures Extract(data, Behind(earlier, p), |earlier| + m) == Behind(earlier, Extract(data, p, m))
    decreases |data| - p.index
  {
    if p.index < |data| {
      OneFrameBehind(data, earlier, p);
      var r := OneFrame(data, p);
      if |r.samples| != m {
        ExtractBehind(data, earlier, r, m);
      }
    }
  }

  /** What two calls one after the other leave behind; each call starts with no samples of its own. */
  function TwoCalls(data: seq<byte>, p: Parse, n: nat, m: nat): Parse {
    var first := Extract(data, p, n);
    Behind(first.samples, Extract(data, first.(samples := []), m))
  }

  /** Extraction stops at the `n`th sample on the way to the `n + m`th, or at the end of the data for both. */
  lemma {:induction false} ExtractOn(data: seq<byte>, p: Parse, n: nat, m: nat)
    requires |p.samples| < n && m >= 1
    ensures Extract(data, p, n + m) == Extract(data, Extract(data, p, n), n + m)
    ensures |Extract(data, p, n).samples| < n ==> Extract(data, p, n).index >= |data|
    ensures |Extract(data, p, n).samples| <= n
    decreases |data| - p.index
  {
    if p.index < |data| {
      var r := OneFrame(data, p);
      if |r.samples| != n {
        ExtractOn(data, r, n, m);
      }
    }
  }

  /** The first call has found its `n` samples, or has come to the end of the data. */
  lemma Resumes(data: seq<byte>, first: Parse, n: nat, m: nat, total: nat)
    requires total == n + m && (|first.samples| == n || first.index >= |data|)
    ensures Extract(data, first, total) == Behind(first.samples, Extract(data, first.(samples := []), m))
  {
    var again := first.(samples := []);
    assert Behind(first.samples, again) == first;
    if |first.samples| == n {
      ExtractBehind(data, first.samples, again, m);
    }
  }

  /** Extraction is resumable: `n` frames and then `m` frames are `n + m` frames, on any bytes and from any state. */
  lemma ExtractionResumes(data: seq<byte>, p: Parse, n: nat, m: nat)
    requires p.samples == [] && n >= 1 && m >= 1
    ensures Extract(data, p, n + m) == TwoCalls(data, p, n, m)
  {
    ExtractOn(data, p, n, m);
    Resumes(data, Extract(data, p, n), n, m, n + m);
  }

  /** The second of two calls starts where the first one stopped: the dummy byte is skipped once, and only once. */
  lemma DummyByteSkippedOnce(data: seq<byte>, start: nat, dummyByte: nat, n: nat, time: nat, conf: byte)
    requires start == dummyByte || start > 0
    ensures var stop := Extract(data, Parse([], start, time, conf), n).index;
            (if stop == 0 then dummyByte else stop) == stop
  {
  }

  // ----- Ranges ----------------------------------------------------------------------------------

  ghost predicate InRange(s: Sample) {
    -2048 <= s.x <= 2047 && -2048 <= s.y <= 2047 && -2048 <= s.z <= 2047
  }

  lemma AxisInRange(wide: bool, present: bool, data: seq<byte>, at: nat)
    requires present ==> at + AxisWidth(wide) <= |data|
    ensures -2048 <= Axis(wide, present, data, at) <= 2047
  {
    if present {
      AxisValueRange(wide, data[at..at + AxisWidth(wide)]);
    }
  }

  lemma FrameSampleInRange(kind: byte, wide: bool, data: seq<byte>, at: nat)
    requires at + Axes(kind) * AxisWidth(wide) <= |data|
    ensures InRange(FrameSample(kind, wide, data, at))
  {
    var w := AxisWidth(wide);
    var y := at + (if HasX(kind) then w else 0);
    var z := y + (if HasY(kind) then w else 0);
    AxisInRange(wide, HasX(kind), data, at);
    AxisInRange(wide, HasY(kind), data, y);
    AxisInRange(wide, HasZ(kind), data, z);
  }

  /** On any bytes at all, every sample is a signed twelve-bit number in each axis, and there are no more than asked. */
  lemma {:induction false} SamplesInRange(data: seq<byte>, p: Parse, n: nat)
    requires |p.samples| < n && forall i | 0 <= i < |p.samples| :: InRange(p.samples[i])
    ensures |Extract(data, p, n).samples| <= n
    ensures forall i | 0 <= i < |Extract(data, p, n).samples| :: InRange(Extract(data, p, n).samples[i])
    decreases |data| - p.index
  {
    if p.index < |data| {
      var r := OneFrame(data, p);
      if |r.samples| > |p.samples| {
        FrameSampleInRange(Kind(data[p.index]), Wide(data[p.index]), data, p.index + 1);
      }
      if |r.samples| != n {
        SamplesInRange(data, r, n);
      }
    }
  }

  // ----- Framing ---------------------------------------------------------------------------------

  /** A frame as the sensor writes it: samples of the enabled axes, the time, or a configuration change. */
  datatype Frame =
    | Accel(kind: byte, wide: bool, sample: Sample)
    | SensorTime(time: nat)
    | Control(conf: byte)

  /** An axis that is there fits the width; one that is not reads as zero. */
  predicate AxisFits(wide: bool, present: bool, v: int) {
    if present then -2048 <= v <= 2047 && (wide || v % 0x10 == 0) else v == 0
  }

  ghost predicate IsFrame(f: Frame) {
    match f
    case Accel(kind, wide, s) =>
      && AccelKind(kind)
      && AxisFits(wide, HasX(kind), s.x) && AxisFits(wide, HasY(kind), s.y) && AxisFits(wide, HasZ(kind), s.z)
    case SensorTime(t) => t < 0x100_0000
    case Control(_) => true
  }

  /** Twelve bits, low nibble first when wide, the upper eight bits only when narrow. */
  function AxisBytes(wide: bool, present: bool, v: int): (s: seq<byte>)
    ensures |s| == if present then AxisWidth(wide) else 0
  {
    if !present then []
    else if wide then [v % 0x1000 % 0x10, v % 0x1000 / 0x10]
    else [v % 0x1000 / 0x10]
  }

  function AccelBytes(kind: byte, wide: bool, s: Sample): seq<byte> {
    AxisBytes(wide, HasX(kind), s.x) + AxisBytes(wide, HasY(kind), s.y) + AxisBytes(wide, HasZ(kind), s.z)
  }

  function Header(kind: byte, wide: bool): byte
    requires AccelKind(kind)
  {
    kind + (if wide then 0x10 else 0)
  }

  function FrameBytes(f: Frame): (s: seq<byte>)
    requires IsFrame(f)
    ensures |s| >= 1
  {
    match f
    case Accel(kind, wide, s) => [Header(kind, wide)] + AccelBytes(kind, wide, s)
    case SensorTime(t) => [FIFO_SENSOR_TIME, t % 0x100, t / 0x100 % 0x100, t / 0x1_0000]
    case Control(c) => [FIFO_CONTROL_FRAME, c]
  }

  ghost predicate AreFrames(fs: seq<Frame>) {
    forall i | 0 <= i < |fs| :: IsFrame(fs[i])
  }

  function Serialize(fs: seq<Frame>): seq<byte>
    requires AreFrames(fs)
  {
    if fs == [] then [] else FrameBytes(fs[0]) + Serialize(fs[1..])
  }

  /** What a frame adds to a parse. */
  function Play(f: Frame, p: Parse): Parse
    requires IsFrame(f)
  {
    var next := p.index + |FrameBytes(f)|;
    match f
    case Accel(_, _, s) => p.(samples := p.samples + [s], index := next)
    case SensorTime(t) => p.(time := t, index := next)
    case Control(c) => p.(conf := c, index := next)
  }

  /** The frames up to the one that brings the `n`th sample. */
  function PlayAll(fs: seq<Frame>, p: Parse, n: nat): Parse
    requires AreFrames(fs)
  {
    if fs == [] then p
    else
      var r := Play(fs[0], p);
      if |r.samples| == n then r else PlayAll(fs[1..], r, n)
  }

  lemma AxisRoundTrip(wide: bool, v: int)
    requires AxisFits(wide, true, v)
    ensures AxisValue(wide, AxisBytes(wide, true, v)) == v
  {
    var u := v % 0x1000;
    assert u == if v < 0 then v + 0x1000 else v;
    Pow2Bytes();
    ShlIsProduct(u / 0x10, 4);
    if wide {
      BitOrDisjoint(u % 0x10, u / 0x10, 4);
    }
  }

  /** `part` is in `data` at `at`. */
  ghost predicate At(data: seq<byte>, at: nat, part: seq<byte>) {
    at + |part| <= |data| && forall k | 0 <= k < |part| :: part[k] == data[at + k]
  }

  lemma AtParts(data: seq<byte>, at: nat, a: seq<byte>, b: seq<byte>, next: nat)
    requires At(data, at, a + b) && next == at + |a|
    ensures At(data, at, a) && At(data, next, b)
  {
    var c := a + b;
    forall k | 0 <= k < |a| ensures a[k] == data[at + k] {
      assert c[k] == a[k];
    }
    forall k | 0 <= k < |b| ensures b[k] == data[next + k] {
      assert c[|a| + k] == b[k];
    }
  }

  lemma AtSlice(data: seq<byte>, at: nat, part: seq<byte>)
    requires at + |part| <= |data|
    ensures At(data, at, part) <==> data[at..at + |part|] == part
  {
    var s := data[at..at + |part|];
    assert forall k | 0 <= k < |part| :: s[k] == data[at + k];
  }

  lemma AxisAt(data: seq<byte>, at: nat, wide: bool, present: bool, v: int)
    requires AxisFits(wide, present, v) && At(data, at, AxisBytes(wide, present, v))
    ensures present ==> at + AxisWidth(wide) <= |data|
    ensures Axis(wide, present, data, at) == v
  {
    if present {
      AxisRoundTrip(wide, v);
      AtSlice(data, at, AxisBytes(wide, present, v));
    }
  }

  lemma HeaderBits(kind: byte, wide: bool)
    requires AccelKind(kind)
    ensures Kind(Header(kind, wide)) == kind && Wide(Header(kind, wide)) == wide
  {
    assert 0x80 <= kind < 0x90;
    NibbleBits(kind - 0x80, wide);
  }

  lemma NibbleBits(k: nat, wide: bool)
    requires k < 0x10
    ensures var h := 0x80 + k + (if wide then 0x10 else 0);
            h / 0x20 * 0x20 + h % 0x10 == 0x80 + k && (h / 0x10 % 2 == 1 <==> wide)
  {
  }

  lemma SampleAt(data: seq<byte>, at: nat, kind: byte, wide: bool, s: Sample)
    requires AxisFits(wide, HasX(kind), s.x) && AxisFits(wide, HasY(kind), s.y) && AxisFits(wide, HasZ(kind), s.z)
    requires At(data, at, AccelBytes(kind, wide, s))
    ensures at + Axes(kind) * AxisWidth(wide) <= |data| && FrameSample(kind, wide, data, at) == s
  {
    var x, y, z := AxisBytes(wide, HasX(kind), s.x), AxisBytes(wide, HasY(kind), s.y), AxisBytes(wide, HasZ(kind), s.z);
    AtParts(data, at, x + y, z, at + |x| + |y|);
    AtParts(data, at, x, y, at + |x|);
    AxisAt(data, at, wide, HasX(kind), s.x);
    AxisAt(data, at + |x|, wide, HasY(kind), s.y);
    AxisAt(data, at + |x| + |y|, wide, HasZ(kind), s.z);
  }

  lemma AccelStep(data: seq<byte>, p: Parse, kind: byte, wide: bool)
    requires p.index < |data| && Kind(data[p.index]) == kind && Wide(data[p.index]) == wide && AccelKind(kind)
    requires p.index + 1 + Axes(kind) * AxisWidth(wide) <= |data|
    ensures OneFrame(data, p)
            == p.(samples := p.samples + [FrameSample(kind, wide, data, p.index + 1)],
                  index := p.index + 1 + Axes(kind) * AxisWidth(wide))
  {
  }

  lemma AccelAt(data: seq<byte>, p: Parse, kind: byte, wide: bool, s: Sample)
    requires IsFrame(Accel(kind, wide, s)) && p.index < |data|
    requires data[p.index] == Header(kind, wide) && At(data, p.index + 1, AccelBytes(kind, wide, s))
    ensures OneFrame(data, p) == p.(samples := p.samples + [s], index := p.index + 1 + Axes(kind) * AxisWidth(wide))
  {
    HeaderBits(kind, wide);
    SampleAt(data, p.index + 1, kind, wide, s);
    AccelStep(data, p, kind, wide);
  }

  lemma AccelLength(kind: byte, wide: bool, s: Sample)
    ensures |AccelBytes(kind, wide, s)| == Axes(kind) * AxisWidth(wide)
  {
    if wide {
      assert AxisWidth(wide) == 2;
    } else {
      assert AxisWidth(wide) == 1;
    }
  }

  /** A header and the payload behind it. */
  lemma HeaderAndPayload(data: seq<byte>, at: nat, header: byte, payload: seq<byte>)
    requires At(data, at, [header] + payload)
    ensures at < |data| && data[at] == header && At(data, at + 1, payload)
  {
    AtParts(data, at, [header], payload, at + 1);
    ByteAt(data, at, [header], 0);
  }

  lemma AccelRoundTrip(data: seq<byte>, p: Parse, kind: byte, wide: bool, s: Sample)
    requires IsFrame(Accel(kind, wide, s)) && At(data, p.index, [Header(kind, wide)] + AccelBytes(kind, wide, s))
    ensures p.index < |data|
    ensures OneFrame(data, p) == p.(samples := p.samples + [s], index := p.index + 1 + |AccelBytes(kind, wide, s)|)
  {
    HeaderAndPayload(data, p.index, Header(kind, wide), AccelBytes(kind, wide, s));
    AccelAt(data, p, kind, wide, s);
    AccelLength(kind, wide, s);
  }

  lemma ByteAt(data: seq<byte>, at: nat, part: seq<byte>, k: nat)
    requires At(data, at, part) && k < |part|
    ensures data[at + k] == part[k]
  {
  }

  lemma TimeParts(t: nat)
    requires t < 0x100_0000
    ensures Time(t % 0x100, t / 0x100 % 0x100, t / 0x1_0000) == t
  {
  }

  lemma TimeStep(data: seq<byte>, p: Parse)
    requires p.index + 4 <= |data| && data[p.index] == FIFO_SENSOR_TIME
    ensures OneFrame(data, p)
            == p.(time := Time(data[p.index + 1], data[p.index + 2], data[p.index + 3]), index := p.index + 4)
  {
  }

  lemma TimeRoundTrip(data: seq<byte>, p: Parse, t: nat)
    requires t < 0x100_0000 && At(data, p.index, FrameBytes(SensorTime(t)))
    ensures p.index < |data| && OneFrame(data, p) == p.(time := t, index := p.index + 4)
  {
    var bytes := FrameBytes(SensorTime(t));
    ByteAt(data, p.index, bytes, 0);
    ByteAt(data, p.index, bytes, 1);
    ByteAt(data, p.index, bytes, 2);
    ByteAt(data, p.index, bytes, 3);
    TimeStep(data, p);
    TimeParts(t);
  }

  lemma ControlRoundTrip(data: seq<byte>, p: Parse, c: byte)
    requires At(data, p.index, FrameBytes(Control(c)))
    ensures p.index < |data| && OneFrame(data, p) == p.(conf := c, index := p.index + 2)
  {
    ByteAt(data, p.index, FrameBytes(Control(c)), 0);
    ByteAt(data, p.index, FrameBytes(Control(c)), 1);
  }

  /** The parser reads back one frame of the sensor, wherever it is. */
  lemma FrameRoundTrip(data: seq<byte>, p: Parse, f: Frame)
    requires IsFrame(f) && At(data, p.index, FrameBytes(f))
    ensures p.index < |data| && OneFrame(data, p) == Play(f, p)
  {
    match f
    case Accel(kind, wide, sample) => AccelRoundTrip(data, p, kind, wide, sample);
    case SensorTime(t) => TimeRoundTrip(data, p, t);
    case Control(c) => ControlRoundTrip(data, p, c);
  }

  /** Parsing inverts framing: on the bytes of a frame list, whatever follows them, extraction goes through the
      frames. */
  lemma {:induction false} ParsingInvertsFraming(data: seq<byte>, p: Parse, fs: seq<Frame>, n: nat)
    requires AreFrames(fs) && At(data, p.index, Serialize(fs)) && |p.samples| < n
    ensures var r := PlayAll(fs, p, n);
            Extract(data, p, n) == if |r.samples| == n then r else Extract(data, r, n)
    decreases |fs|
  {
    if fs != [] {
      var r := Play(fs[0], p);
      AtParts(data, p.index, FrameBytes(fs[0]), Serialize(fs[1..]), r.index);
      FrameRoundTrip(data, p, fs[0]);
      if |r.samples| != n {
        ParsingInvertsFraming(data, r, fs[1..], n);
      }
    }
  }

  // ----- The samples of a whole buffer -----------------------------------------------------------

  function Samples(fs: seq<Frame>): seq<Sample> {
    if fs == [] then [] else (if fs[0].Accel? then [fs[0].sample] else []) + Samples(fs[1..])
  }

  /** The time and the configuration change that the last such frame carries. */
  function LastTime(fs: seq<Frame>, t: nat): nat {
    if fs == [] then t else LastTime(fs[1..], if fs[0].SensorTime? then fs[0].time else t)
  }

  function LastConf(fs: seq<Frame>, c: byte): byte {
    if fs == [] then c else LastConf(fs[1..], if fs[0].Control? then fs[0].conf else c)
  }

  /** The first `k` samples of the frames. */
  function Taken(fs: seq<Frame>, k: nat): seq<Sample> {
    if fs == [] || k == 0 then []
    else if fs[0].Accel? then [fs[0].sample] + Taken(fs[1..], k - 1)
    else Taken(fs[1..], k)
  }

  lemma {:induction false} TakenIsPrefix(fs: seq<Frame>, k: nat)
    ensures Taken(fs, k) == Samples(fs)[..Min(|Samples(fs)|, k)]
  {
    if fs == [] || k == 0 {
    } else if fs[0].Accel? {
      TakenIsPrefix(fs[1..], k - 1);
      var rest := Samples(fs[1..]);
      var m := Min(|rest|, k - 1);
      assert [fs[0].sample] + rest[..m] == ([fs[0].sample] + rest)[..m + 1];
    } else {
      TakenIsPrefix(fs[1..], k);
      assert Samples(fs) == Samples(fs[1..]);
    }
  }

  lemma SnocAppend(a: seq<Sample>, s: Sample, b: seq<Sample>)
    ensures (a + [s]) + b == a + ([s] + b)
  {
  }

  lemma {:induction false} PlayedSamples(fs: seq<Frame>, p: Parse, n: nat)
    requires AreFrames(fs) && |p.samples| < n
    ensures PlayAll(fs, p, n).samples == p.samples + Taken(fs, n - |p.samples|)
    decreases |fs|
  {
    if fs != [] {
      var r, k := Play(fs[0], p), n - |p.samples|;
      if fs[0].Accel? {
        assert r.samples == p.samples + [fs[0].sample];
        SnocAppend(p.samples, fs[0].sample, Taken(fs[1..], k - 1));
        if k > 1 {
          PlayedSamples(fs[1..], r, n);
        }
      } else {
        assert r.samples == p.samples;
        PlayedSamples(fs[1..], r, n);
      }
    }
  }

  lemma {:induction false} PlayedAll(fs: seq<Frame>, p: Parse, n: nat)
    requires AreFrames(fs) && |p.samples| + |Samples(fs)| < n
    ensures var r := PlayAll(fs, p, n);
            && r.index == p.index + |Serialize(fs)|
            && r.time == LastTime(fs, p.time) && r.conf == LastConf(fs, p.conf)
    decreases |fs|
  {
    if fs != [] {
      PlayedAll(fs[1..], Play(fs[0], p), n);
    }
  }

  // ----- Where extraction stops ------------------------------------------------------------------

  /** Number of frames up to the one that brings the `n`th sample, or all. */
  function FramesFor(fs: seq<Frame>, n: nat): (k: nat)
    ensures k <= |fs|
  {
    if fs == [] || n == 0 then 0 else 1 + FramesFor(fs[1..], if fs[0].Accel? then n - 1 else n)
  }

  lemma {:induction false} FramesForSamples(fs: seq<Frame>, n: nat)
    requires 1 <= n <= |Samples(fs)|
    ensures var k := FramesFor(fs, n); k >= 1 && fs[k - 1].Accel? && |Samples(fs[..k])| == n
  {
    var m := if fs[0].Accel? then n - 1 else n;
    var k := FramesFor(fs[1..], m);
    assert fs[..k + 1][1..] == fs[1..][..k] && fs[..k + 1][0] == fs[0];
    if m > 0 {
      FramesForSamples(fs[1..], m);
    } else {
      assert fs[1..][..0] == [];
    }
  }

  /** Frames go by up to the one that brings the `n`th sample, and none behind it is looked at. */
  lemma {:induction false} PlayedPrefix(fs: seq<Frame>, p: Parse, n: nat)
    requires AreFrames(fs) && |p.samples| < n
    ensures var r, front := PlayAll(fs, p, n), fs[..FramesFor(fs, n - |p.samples|)];
            && AreFrames(front) && r.index == p.index + |Serialize(front)|
            && r.time == LastTime(front, p.time) && r.conf == LastConf(front, p.conf)
    decreases |fs|
  {
    if fs != [] {
      var r, m := Play(fs[0], p), n - |p.samples| - (if fs[0].Accel? then 1 else 0);
      var k := FramesFor(fs[1..], m);
      var front := fs[..k + 1];
      assert front[1..] == fs[1..][..k] && front[0] == fs[0];
      if m > 0 {
        PlayedPrefix(fs[1..], r, n);
      } else {
        assert front[1..] == [];
      }
    }
  }

  lemma StopsInFrames(data: seq<byte>, p: Parse, fs: seq<Frame>, n: nat)
    requires AreFrames(fs) && At(data, p.index, Serialize(fs)) && p.samples == [] && 1 <= n <= |Samples(fs)|
    ensures Extract(data, p, n) == PlayAll(fs, p, n) && PlayAll(fs, p, n).samples == Samples(fs)[..n]
  {
    ParsingInvertsFraming(data, p, fs, n);
    SamplesPlayed(fs, p, n);
  }

  /** A buffer with at least `n` samples: extraction stops behind the frame that brings the `n`th, whatever follows, and
      has seen only the times and configuration changes in front of it. */
  lemma StopsBehindSample(fs: seq<Frame>, dummy: seq<byte>, rest: seq<byte>, n: nat, time: nat, conf: byte)
    requires AreFrames(fs) && |dummy| <= 1 && 1 <= n <= |Samples(fs)|
    ensures var r := Extract(dummy + Serialize(fs) + rest, Parse([], |dummy|, time, conf), n);
            var k := FramesFor(fs, n);
            && k >= 1 && fs[k - 1].Accel? && |Samples(fs[..k])| == n
            && r.samples == Samples(fs)[..n] && AreFrames(fs[..k]) && r.index == |dummy| + |Serialize(fs[..k])|
            && r.time == LastTime(fs[..k], time) && r.conf == LastConf(fs[..k], conf)
  {
    var data, p := dummy + Serialize(fs) + rest, Parse([], |dummy|, time, conf);
    InTheMiddle(dummy, Serialize(fs), rest);
    StopsInFrames(data, p, fs, n);
    FramesForSamples(fs, n);
    PlayedPrefix(fs, p, n);
  }

  // ----- Where the frames end --------------------------------------------------------------------

  /** Bytes of a frame with this header, the header included; zero for the empty frame and unknown headers. */
  function FrameSize(header: byte): nat {
    match header
    case 0x82 | 0x84 | 0x88 => 2
    case 0x86 | 0x8A | 0x8C => 3
    case 0x8E => 4
    case 0x92 | 0x94 | 0x98 => 3
    case 0x96 | 0x9A | 0x9C => 5
    case 0x9E => 7
    case 0xA0 | 0xB0 => 4
    case 0x48 | 0x58 => 2
    case _ => 0
  }

  lemma HeadersKnown(header: byte)
    ensures Carries(Kind(header)) <==> FrameSize(header) > 0
    ensures FrameSize(header) > 0 ==> FrameSize(header) == 1 + PayloadSize(Kind(header), Wide(header))
  {
    if header / 0x20 == 4 {
      var k := header % 0x10;
      assert header == 0x80 + k + (if Wide(header) then 0x10 else 0) && Kind(header) == 0x80 + k;
      AccelHeader(k, Wide(header));
    } else {
      OtherHeader(header);
    }
  }

  lemma OtherHeader(header: byte)
    requires header / 0x20 != 4
    ensures !AccelKind(Kind(header))
    ensures Kind(header) == FIFO_SENSOR_TIME <==> FrameSize(header) == 4
    ensures Kind(header) == FIFO_CONTROL_FRAME <==> FrameSize(header) == 2
    ensures FrameSize(header) in {0, 2, 4}
  {
  }

  lemma AccelHeader(k: byte, wide: bool)
    requires k < 0x10
    ensures var size := FrameSize(0x80 + k + (if wide then 0x10 else 0));
            && (AccelKind(0x80 + k) <==> size > 0)
            && (AccelKind(0x80 + k) ==> size == 1 + Axes(0x80 + k) * AxisWidth(wide))
  {
    if k == 2 || k == 4 || k == 8 {
      assert Axes(0x80 + k) == 1;
    } else if k == 6 || k == 10 || k == 12 {
      assert Axes(0x80 + k) == 2;
    } else if k == 14 {
      assert Axes(0x80 + k) == 3;
    }
  }

  lemma FrameHasItsSize(f: Frame)
    requires IsFrame(f)
    ensures |FrameBytes(f)| == FrameSize(FrameBytes(f)[0])
  {
    HeadersKnown(FrameBytes(f)[0]);
    if f.Accel? {
      HeaderBits(f.kind, f.wide);
      AccelLength(f.kind, f.wide, f.sample);
    }
  }

  /** The data behind the frames is nothing, or begins with an empty frame or an unknown header, or is cut off before
      its header's frame is complete. */
  predicate NoFrame(tail: seq<byte>) {
    tail == [] || FrameSize(tail[0]) == 0 || |tail| < FrameSize(tail[0])
  }

  /** In particular a frame that is cut off anywhere. */
  lemma CutOffIsNoFrame(f: Frame, k: nat)
    requires IsFrame(f) && k < |FrameBytes(f)|
    ensures NoFrame(FrameBytes(f)[..k])
  {
    FrameHasItsSize(f);
  }

  /** A frame is taken exactly when it is there: otherwise the index moves to the end and nothing else changes. */
  lemma NothingTakenIff(data: seq<byte>, p: Parse)
    requires p.index < |data|
    ensures NoFrame(data[p.index..]) ==> OneFrame(data, p) == p.(index := |data|)
    ensures !NoFrame(data[p.index..]) ==> OneFrame(data, p).index == p.index + FrameSize(data[p.index])
  {
    HeadersKnown(data[p.index]);
  }

  lemma InTheMiddle(a: seq<byte>, b: seq<byte>, c: seq<byte>)
    ensures At(a + b + c, |a|, b)
  {
  }

  /** What follows the frames ends the data. */
  lemma TailEnds(data: seq<byte>, r: Parse, tail: seq<byte>, n: nat)
    requires At(data, r.index, tail) && r.index + |tail| == |data| && NoFrame(tail)
    ensures Extract(data, r, n) == r.(index := |data|)
  {
    if tail != [] {
      assert data[r.index..] == tail;
      NothingTakenIff(data, r);
      var e := OneFrame(data, r);
      assert Extract(data, e, n) == e;
    }
  }

  /** A buffer of frames, whatever frame may be cut off behind them, gives their first `n` samples in order; with fewer
      there, also the last time and configuration change, and the index at the end of the data. */
  lemma BufferRoundTrip(fs: seq<Frame>, dummy: seq<byte>, tail: seq<byte>, n: nat, time: nat, conf: byte)
    requires AreFrames(fs) && |dummy| <= 1 && NoFrame(tail) && n >= 1
    ensures var data := dummy + Serialize(fs) + tail;
            var r := Extract(data, Parse([], |dummy|, time, conf), n);
            && r.samples == Samples(fs)[..Min(|Samples(fs)|, n)]
            && (|Samples(fs)| < n ==>
                  r.index == |data| && r.time == LastTime(fs, time) && r.conf == LastConf(fs, conf))
  {
    var data := dummy + Serialize(fs) + tail;
    var p := Parse([], |dummy|, time, conf);
    InTheMiddle(dummy, Serialize(fs), tail);
    AtTheEnd(dummy, Serialize(fs), tail);
    BufferParsed(data, p, fs, tail, n);
  }

  /** A buffer whose last frame is cut off gives the samples of the frames before it and nothing else. */
  lemma CutOffBuffer(fs: seq<Frame>, f: Frame, k: nat, dummy: seq<byte>, n: nat, time: nat, conf: byte)
    requires AreFrames(fs) && IsFrame(f) && k < |FrameBytes(f)| && |dummy| <= 1 && n > |Samples(fs)|
    ensures var data := dummy + Serialize(fs) + FrameBytes(f)[..k];
            Extract(data, Parse([], |dummy|, time, conf), n)
            == Parse(Samples(fs), |data|, LastTime(fs, time), LastConf(fs, conf))
  {
    CutOffIsNoFrame(f, k);
    BufferRoundTrip(fs, dummy, FrameBytes(f)[..k], n, time, conf);
  }

  /** Three buffers byte by byte: wide and narrow samples, a time, a configuration change, and a time cut off in front
      of what would be a sample. */
  lemma BuffersInBytes(time: nat, conf: byte)
    ensures var frames := [0x9E, 0x01, 0x7F, 0x0F, 0xFF, 0x00, 0x80] + ([0xA0, 0x01, 0x02, 0x03] + [0x82, 0x10]);
            var data := [0x00] + frames + [0x80];
            Extract(data, Parse([], 1, time, conf), 3)
            == Parse([Sample(2033, -1, -2048), Sample(256, 0, 0)], 15, 0x03_0201, conf)
    ensures var data := [0x00] + ([0x8C, 0xF0, 0x7F] + ([0x48, 0x05] + [0x8A, 0x01, 0xFF])) + [0x80];
            Extract(data, Parse([], 1, time, conf), 3)
            == Parse([Sample(0, -256, 2032), Sample(16, 0, -16)], 10, time, 5)
    ensures Extract([0xA0, 0x82, 0x10], Parse([], 0, time, conf), 1) == Parse([], 3, time, conf)
  {
    WideBuffer(time, conf);
    NarrowBuffer(time, conf);
    HeadersKnown(0xA0);
  }

  lemma WideBuffer(time: nat, conf: byte)
    ensures var frames := [0x9E, 0x01, 0x7F, 0x0F, 0xFF, 0x00, 0x80] + ([0xA0, 0x01, 0x02, 0x03] + [0x82, 0x10]);
            var data := [0x00] + frames + [0x80];
            Extract(data, Parse([], 1, time, conf), 3)
            == Parse([Sample(2033, -1, -2048), Sample(256, 0, 0)], 15, 0x03_0201, conf)
  {
    var a := Accel(0x8E, true, Sample(2033, -1, -2048));
    var t := SensorTime(0x03_0201);
    var x := Accel(0x82, false, Sample(256, 0, 0));
    assert FrameBytes(a) == [0x9E, 0x01, 0x7F, 0x0F, 0xFF, 0x00, 0x80];
    assert FrameBytes(t) == [0xA0, 0x01, 0x02, 0x03];
    assert FrameBytes(x) == [0x82, 0x10];
    ThreeSerialized(a, t, x);
    TwoOfThree(a, t, x);
    LastOfThree(a, t, x, time, conf);
    HeadersKnown(0x80);
    BufferRoundTrip([a, t, x], [0x00], [0x80], 3, time, conf);
  }

  lemma NarrowBuffer(time: nat, conf: byte)
    ensures var data := [0x00] + ([0x8C, 0xF0, 0x7F] + ([0x48, 0x05] + [0x8A, 0x01, 0xFF])) + [0x80];
            Extract(data, Parse([], 1, time, conf), 3)
            == Parse([Sample(0, -256, 2032), Sample(16, 0, -16)], 10, time, 5)
  {
    var y := Accel(0x8C, false, Sample(0, -256, 2032));
    var c := Control(5);
    var x := Accel(0x8A, false, Sample(16, 0, -16));
    assert FrameBytes(y) == [0x8C, 0xF0, 0x7F];
    assert FrameBytes(x) == [0x8A, 0x01, 0xFF];
    ThreeSerialized(y, c, x);
    TwoOfThree(y, c, x);
    LastOfThree(y, c, x, time, conf);
    HeadersKnown(0x80);
    BufferRoundTrip([y, c, x], [0x00], [0x80], 3, time, conf);
  }

  lemma ThreeSerialized(a: Frame, b: Frame, c: Frame)
    requires IsFrame(a) && IsFrame(b) && IsFrame(c)
    ensures Serialize([a, b, c]) == FrameBytes(a) + (FrameBytes(b) + FrameBytes(c))
  {
    assert [a, b, c][1..] == [b, c] && [b, c][1..] == [c] && [c][1..] == [];
    assert Serialize([c]) == FrameBytes(c);
    assert Serialize([b, c]) == FrameBytes(b) + FrameBytes(c);
  }

  /** Two samples with another frame between them. */
  lemma TwoOfThree(a: Frame, b: Frame, c: Frame)
    requires a.Accel? && !b.Accel? && c.Accel?
    ensures Samples([a, b, c]) == [a.sample, c.sample]
  {
    assert [a, b, c][1..] == [b, c] && [b, c][1..] == [c] && [c][1..] == [];
    assert Samples([c]) == [c.sample];
    assert Samples([b, c]) == [c.sample];
  }

  lemma LastOfThree(a: Frame, b: Frame, c: Frame, time: nat, conf: byte)
    requires a.Accel? && c.Accel?
    ensures LastTime([a, b, c], time) == if b.SensorTime? then b.time else time
    ensures LastConf([a, b, c], conf) == if b.Control? then b.conf else conf
  {
    var t, d := if b.SensorTime? then b.time else time, if b.Control? then b.conf else conf;
    assert [a, b, c][1..] == [b, c] && [b, c][1..] == [c] && [c][1..] == [];
    assert LastTime([c], t) == LastTime([], t) && LastConf([c], d) == LastConf([], d);
    assert LastTime([b, c], time) == LastTime([c], t) && LastConf([b, c], conf) == LastConf([c], d);
  }

  lemma AtTheEnd(a: seq<byte>, b: seq<byte>, c: seq<byte>)
    ensures At(a + b + c, |a| + |b|, c)
  {
  }

  lemma BufferParsed(data: seq<byte>, p: Parse, fs: seq<Frame>, tail: seq<byte>, n: nat)
    requires AreFrames(fs) && NoFrame(tail) && n >= 1 && p.samples == []
    requires At(data, p.index, Serialize(fs)) && At(data, p.index + |Serialize(fs)|, tail)
    requires p.index + |Serialize(fs)| + |tail| == |data|
    ensures var r := Extract(data, p, n);
            && r.samples == Samples(fs)[..Min(|Samples(fs)|, n)]
            && (|Samples(fs)| < n ==>
                  r.index == |data| && r.time == LastTime(fs, p.time) && r.conf == LastConf(fs, p.conf))
  {
    BufferPlayed(fs, p, n);
    PlayedBuffer(data, p, fs, tail, n);
  }

  /** Extraction plays the frames, and goes to the end of the data when they bring fewer samples than asked. */
  lemma PlayedBuffer(data: seq<byte>, p: Parse, fs: seq<Frame>, tail: seq<byte>, n: nat)
    requires AreFrames(fs) && NoFrame(tail) && n >= 1 && p.samples == []
    requires At(data, p.index, Serialize(fs)) && At(data, p.index + |Serialize(fs)|, tail)
    requires p.index + |Serialize(fs)| + |tail| == |data|
    ensures var r := PlayAll(fs, p, n);
            Extract(data, p, n) == if |Samples(fs)| < n then r.(index := |data|) else r
  {
    BufferPlayed(fs, p, n);
    ParsingInvertsFraming(data, p, fs, n);
    EndsWithTail(data, PlayAll(fs, p, n), p.index + |Serialize(fs)|, tail, n, |Samples(fs)| < n);
  }

  lemma EndsWithTail(data: seq<byte>, r: Parse, end: nat, tail: seq<byte>, n: nat, short: bool)
    requires At(data, end, tail) && end + |tail| == |data| && NoFrame(tail)
    requires (|r.samples| != n <==> short) && (short ==> r.index == end)
    ensures (if |r.samples| == n then r else Extract(data, r, n)) == if short then r.(index := |data|) else r
  {
    if short {
      TailEnds(data, r, tail, n);
    }
  }

  lemma BufferPlayed(fs: seq<Frame>, p: Parse, n: nat)
    requires AreFrames(fs) && n >= 1 && p.samples == []
    ensures var r := PlayAll(fs, p, n);
            && r.samples == Samples(fs)[..Min(|Samples(fs)|, n)]
            && (|r.samples| == n <==> n <= |Samples(fs)|)
            && (|Samples(fs)| < n ==>
                  r.index == p.index + |Serialize(fs)|
                  && r.time == LastTime(fs, p.time) && r.conf == LastConf(fs, p.conf))
  {
    SamplesPlayed(fs, p, n);
    if |Samples(fs)| < n {
      PlayedAll(fs, p, n);
    }
  }

  lemma SamplesPlayed(fs: seq<Frame>, p: Parse, n: nat)
    requires AreFrames(fs) && n >= 1 && p.samples == []
    ensures PlayAll(fs, p, n).samples == Samples(fs)[..Min(|Samples(fs)|, n)]
    ensures |PlayAll(fs, p, n).samples| == n <==> n <= |Samples(fs)|
  {
    PlayedSamples(fs, p, n);
    TakenIsPrefix(fs, n);
  }
}
