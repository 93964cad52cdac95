/** `PBDecodeVarint` and the key-value step shared by `PBDecodeMsg` and `EEPROM_Load`. */
module Decoder {
  import opened Bits
  import opened Wire

  /** Input bytes a varint of at most `maxbits` bits may take. */
  function Window(maxbits: nat): nat {
    (maxbits + 6) / 7
  }

  /** Every byte of `s` has its continuation bit set. */
  ghost predicate Continued(s: seq<byte>) {
    forall i | 0 <= i < |s| :: s[i] >= 0x80
  }

  /** The decoder stays inside `buf`: either the whole window is there or a byte before its end stops the varint. */
  ghost predicate Readable(buf: seq<byte>, at: nat, maxbits: nat) {
    || at + Window(maxbits) <= |buf|
    || exists k | at <= k < at + Window(maxbits) && k < |buf| :: buf[k] < 0x80
  }

  lemma {:induction false} GroupsSnoc(s: seq<byte>, b: byte)
    ensures Groups(s + [b]) == Groups(s) + Shl(b % 0x80, 7 * |s|)
    ensures Groups(s) < Pow2(7 * |s|)
  {
    Pow2Bytes();
    if s == [] {
      assert s + [b] == [b] && [b][1..] == [];
      assert Groups([b][1..]) == 0;
    } else {
      GroupsSnoc(s[1..], b);
      assert (s + [b])[1..] == s[1..] + [b];
      ShlTwice(b % 0x80, 7 * (|s| - 1), 7);
      Shl7(Shl(b % 0x80, 7 * (|s| - 1)));
      Pow2Add(7, 7 * (|s| - 1));
    }
  }

  lemma Shl7(x: nat)
    ensures Shl(x, 7) == 0x80 * x
  {
    ShlIsProduct(x, 7);
    Pow2Bytes();
  }

  /** Masking the last group keeps the sum right modulo `2^(bits + next)`. */
  lemma {:induction false} LastGroup(g: nat, x: nat, bits: nat, next: nat)
    requires g < Pow2(bits)
    ensures (g + Shl(x, bits)) % Pow2(bits + next) == g + Shl(x % Pow2(next), bits)
    decreases bits
  {
    if bits > 0 {
      LastGroup(g / 2, x, bits - 1, next);
      var y, p := g + Shl(x, bits), Pow2(bits - 1 + next);
      HalfRemainder(y, p);
      assert y / 2 == g / 2 + Shl(x, bits - 1) && y % 2 == g % 2;
    }
  }

  /** Reducing to `k` bits first does not change the low `j <= k` bits. */
  lemma {:induction false} LowBits(b: nat, j: nat, k: nat)
    requires j <= k
    ensures (b % Pow2(k)) % Pow2(j) == b % Pow2(j)
    decreases j
  {
    if j > 0 {
      LowBits(b / 2, j - 1, k - 1);
      HalfRemainder(b, Pow2(j - 1));
      HalfRemainder(b, Pow2(k - 1));
      var r := b % Pow2(k);
      assert r / 2 == (b / 2) % Pow2(k - 1) && r % 2 == b % 2;
      HalfRemainder(r, Pow2(j - 1));
    }
  }

  lemma SmallRemainder(x: nat, p: nat)
    requires x < p
    ensures x % p == x
  {
  }

  /** As long as the groups fit they are not reduced. */
  lemma FullGroups(s: seq<byte>, maxbits: nat)
    requires 7 * |s| <= maxbits
    ensures Groups(s) % Pow2(maxbits) == Groups(s)
  {
    GroupsSnoc(s, 0);
    Pow2Monotone(7 * |s|, maxbits);
    SmallRemainder(Groups(s), Pow2(maxbits));
  }

  /** The bits of `b` that the stencil lets through, affixed above the groups before them. */
  lemma AffixGroup(s: seq<byte>, b: byte, maxbits: nat, next: nat)
    requires 7 * |s| < maxbits && next == Min(7, maxbits - 7 * |s|)
    ensures Groups(s) + Shl(b % Pow2(next), 7 * |s|) == Groups(s + [b]) % Pow2(maxbits)
  {
    AffixPart(s, b, next, 7 * |s| + next);
    if next == 7 {
      GroupsFit(s + [b], 7 * |s| + next, maxbits);
    }
  }

  lemma GroupsFit(s: seq<byte>, j: nat, k: nat)
    requires 7 * |s| <= j && 7 * |s| <= k
    ensures Groups(s) % Pow2(j) == Groups(s) % Pow2(k)
  {
    FullGroups(s, j);
    FullGroups(s, k);
  }

  lemma AffixPart(s: seq<byte>, b: byte, next: nat, bits: nat)
    requires next <= 7 && bits == 7 * |s| + next
    ensures Groups(s) + Shl(b % Pow2(next), 7 * |s|) == Groups(s + [b]) % Pow2(bits)
  {
    GroupsSnoc(s, b);
    LowGroup(b, next);
    MaskLast(Groups(s), b % 0x80, 7 * |s|, next, bits, Groups(s + [b]), b % Pow2(next));
  }

  lemma MaskLast(g: nat, x: nat, bits: nat, next: nat, total: nat, y: nat, r: nat)
    requires g < Pow2(bits) && total == bits + next && y == g + Shl(x, bits) && r == x % Pow2(next)
    ensures y % Pow2(total) == g + Shl(r, bits)
  {
    LastGroup(g, x, bits, next);
  }

  lemma LowGroup(b: byte, next: nat)
    requires next <= 7
    ensures (b % 0x80) % Pow2(next) == b % Pow2(next)
  {
    Pow2Bytes();
    LowBits(b, next, 7);
  }

  /** One group or-ed into the value above the groups before it. */
  lemma OrGroup(value0: nat, s: seq<byte>, b: byte, maxbits: nat, next: nat)
    requires 7 * |s| < maxbits && next == Min(7, maxbits - 7 * |s|)
    ensures BitOr(BitOr(value0, Groups(s)), Shl(BitAnd(Pow2(next) - 1, b), 7 * |s|))
            == BitOr(value0, Groups(s + [b]) % Pow2(maxbits))
  {
    GroupsSnoc(s, b);
    BitAndMask(b, next);
    AffixGroup(s, b, maxbits, next);
    OrAbove(value0, Groups(s), BitAnd(Pow2(next) - 1, b), 7 * |s|, Groups(s + [b]) % Pow2(maxbits));
  }

  lemma OrAbove(value0: nat, low: nat, high: nat, k: nat, sum: nat)
    requires low < Pow2(k) && sum == low + Shl(high, k)
    ensures BitOr(BitOr(value0, low), Shl(high, k)) == BitOr(value0, sum)
  {
    BitOrDisjoint(low, high, k);
    BitOrAssociative(value0, low, Shl(high, k));
  }

  /** What the decoder has read and or-ed so far. */
  ghost predicate Decoded(buf: seq<byte>, at: nat, maxbits: nat, value0: nat, n: nat, value: nat) {
    && at + n <= |buf|
    && n <= Window(maxbits)
    && value == BitOr(value0, Groups(buf[at..at + n]) % Pow2(maxbits))
  }

  /** The next byte's group joins the value. */
  lemma ReadNext(buf: seq<byte>, at: nat, maxbits: nat, value0: nat, n: nat, value: nat, next: nat, more: nat)
    requires Decoded(buf, at, maxbits, value0, n, value) && at + n < |buf| && n < Window(maxbits)
    requires 7 * n < maxbits && next == Min(7, maxbits - 7 * n)
    requires more == BitOr(value, Shl(BitAnd(Pow2(next) - 1, buf[at + n]), 7 * n))
    ensures Decoded(buf, at, maxbits, value0, n + 1, more)
  {
    var read := buf[at..at + n];
    FullGroups(read, maxbits);
    OrGroup(value0, read, buf[at + n], maxbits, next);
    assert read + [buf[at + n]] == buf[at..at + n + 1];
  }

  /** The next byte is there, and goes on with the varint or ends it. */
  lemma NextByte(buf: seq<byte>, at: nat, maxbits: nat, n: nat, next: nat)
    requires Readable(buf, at, maxbits) && 7 * n < maxbits && next == n + 1
    requires at + n <= |buf| && Continued(buf[at..at + n])
    ensures at + n < |buf| && n < Window(maxbits)
    ensures buf[at + n] >= 0x80 ==> Continued(buf[at..at + next])
    ensures buf[at + n] < 0x80 ==> Terminated(buf[at..at + next])
  {
    StillReadable(buf, at, maxbits, buf[at..at + n]);
    assert buf[at..at + n] + [buf[at + n]] == buf[at..at + next];
  }

  /** Decode a varint into at most `maxbits` bits, or-ing it into `value0`.

      `n` is the number of input bytes, or zero when every byte of the window has its continuation bit set. The
      destination's width, the next power of two bytes, never truncates: all bits written are below `maxbits`. */
  method PBDecodeVarint(buf: seq<byte>, at: nat, maxbits: nat, value0: nat) returns (n: nat, value: nat)
    requires 1 <= maxbits <= 64
    requires Readable(buf, at, maxbits)
    ensures n == 0 <==> at + Window(maxbits) <= |buf| && Continued(buf[at..at + Window(maxbits)])
    ensures Decoded(buf, at, maxbits, value0, if n == 0 then Window(maxbits) else n, value)
    ensures n != 0 ==> Terminated(buf[at..at + n])
  {
    var bits, varint;
    ghost var j;
    bits, varint, value, j := ReadGroups(buf, at, maxbits, value0);
    CountBytes(bits, j, maxbits);
    n := if buf[varint] >= 0x80 then 0 else bits / 7 + (if bits % 7 != 0 then 1 else 0);
    Stopped(buf, at, maxbits, value0, j, n, value);
  }

  /** The loop of `PBDecodeVarint`: `j` groups are read, the last from `varint`. */
  method ReadGroups(buf: seq<byte>, at: nat, maxbits: nat, value0: nat)
    returns (bits: nat, varint: nat, value: nat, ghost j: nat)
    requires 1 <= maxbits <= 64 && Readable(buf, at, maxbits)
    ensures 7 * (j - 1) < maxbits && bits == Min(7 * j, maxbits)
    ensures 1 <= j && varint == at + j - 1 < |buf| && Decoded(buf, at, maxbits, value0, j, value)
    ensures buf[varint] >= 0x80 ==> bits == maxbits && Continued(buf[at..at + j])
    ensures buf[varint] < 0x80 ==> Terminated(buf[at..at + j])
  {
    bits, varint, value, j := 0, at, value0, 0;
    NothingDecoded(buf, at, maxbits, value0);
    while true
      invariant bits == 7 * j < maxbits
      invariant varint == if j == 0 then at else at + j - 1
      invariant Decoded(buf, at, maxbits, value0, j, value) && Continued(buf[at..at + j])
      decreases maxbits - bits
    {
      varint := varint + (if bits != 0 then 1 else 0);
      ghost var next := j + 1;
      NextByte(buf, at, maxbits, j, next);
      bits, value := ReadGroup(buf, at, maxbits, value0, bits, varint, value, j, next);
      j := next;
      if buf[varint] < 0x80 || bits >= maxbits {
        break;
      }
    }
  }

  /** One group: a stencil carves its bits from the byte at `varint`, and they join the value. */
  method ReadGroup(buf: seq<byte>, at: nat, maxbits: nat, value0: nat, bits0: nat, varint: nat, before: nat,
      ghost j: nat, ghost next: nat)
    returns (bits: nat, value: nat)
    requires bits0 == 7 * j < maxbits && varint == at + j < |buf| && j < Window(maxbits) && next == j + 1
    requires Decoded(buf, at, maxbits, value0, j, before)
    ensures bits == Min(7 * next, maxbits) && Decoded(buf, at, maxbits, value0, next, value)
  {
    var nextbits := Min(7, maxbits - bits0);
    var bitmask := Pow2(nextbits) - 1;
    value := BitOr(before, Shl(BitAnd(bitmask, buf[varint]), bits0));
    ReadNext(buf, at, maxbits, value0, j, before, nextbits, value);
    bits := bits0 + nextbits;
  }

  /** After `j` bytes the loop has met a terminator or used up its window. */
  lemma Stopped(buf: seq<byte>, at: nat, maxbits: nat, value0: nat, j: nat, n: nat, value: nat)
    requires 1 <= j && Decoded(buf, at, maxbits, value0, j, value)
    requires if buf[at + j - 1] >= 0x80 then Continued(buf[at..at + j]) && j == Window(maxbits) && n == 0
             else Terminated(buf[at..at + j]) && n == j
    ensures n == 0 <==> at + Window(maxbits) <= |buf| && Continued(buf[at..at + Window(maxbits)])
    ensures Decoded(buf, at, maxbits, value0, if n == 0 then Window(maxbits) else n, value)
    ensures n != 0 ==> Terminated(buf[at..at + n])
  {
    if at + Window(maxbits) <= |buf| && Continued(buf[at..at + Window(maxbits)]) {
      ContinuedAt(buf, at, Window(maxbits), j - 1);
    }
  }

  lemma CountBytes(bits: nat, j: nat, maxbits: nat)
    requires j >= 1 && 7 * (j - 1) < maxbits && bits == Min(7 * j, maxbits)
    ensures bits / 7 + (if bits % 7 != 0 then 1 else 0) == j
    ensures bits == maxbits ==> j == Window(maxbits)
  {
  }

  lemma NothingDecoded(buf: seq<byte>, at: nat, maxbits: nat, value0: nat)
    requires Readable(buf, at, maxbits)
    ensures Decoded(buf, at, maxbits, value0, 0, value0) && Continued(buf[at..at])
  {
    assert buf[at..at] == [];
    SmallRemainder(0, Pow2(maxbits));
  }

  lemma StillReadable(buf: seq<byte>, at: nat, maxbits: nat, read: seq<byte>)
    requires Readable(buf, at, maxbits) && 7 * |read| < maxbits
    requires at + |read| <= |buf| && read == buf[at..at + |read|] && Continued(read)
    ensures at + |read| < |buf| && |read| < Window(maxbits)
  {
    assert forall k | at <= k < at + |read| :: buf[k] == read[k - at];
    if at + |read| == |buf| && at + Window(maxbits) > |buf| {
      assert false;
    }
  }

  // ----- Reading back what the encoder wrote -----------------------------------------------------

  /** `enc` is in `buf` at `at`. */
  ghost predicate IsAt(buf: seq<byte>, at: nat, enc: seq<byte>) {
    at + |enc| <= |buf| && forall k | 0 <= k < |enc| :: enc[k] == buf[at + k]
  }

  lemma IsAtSlice(buf: seq<byte>, at: nat, enc: seq<byte>)
    requires at + |enc| <= |buf|
    ensures IsAt(buf, at, enc) <==> buf[at..at + |enc|] == enc
  {
    var s := buf[at..at + |enc|];
    assert forall k | 0 <= k < |enc| :: s[k] == buf[at + k];
  }

  lemma IsAtParts(buf: seq<byte>, at: nat, a: seq<byte>, b: seq<byte>)
    requires IsAt(buf, at, a + b)
    ensures IsAt(buf, at, a) && IsAt(buf, at + |a|, b)
  {
    var s := buf[at..at + |a + b|];
    assert buf[at..at + |a|] == s[..|a|];
    assert buf[at + |a|..at + |a| + |b|] == s[|a|..];
    assert (a + b)[..|a|] == a && (a + b)[|a|..] == b;
  }

  lemma EncodedIsReadable(buf: seq<byte>, at: nat, maxbits: nat, v: nat)
    requires IsAt(buf, at, EncVarint(v)) && |EncVarint(v)| <= Window(maxbits)
    ensures Readable(buf, at, maxbits)
  {
    VarintRoundTrip(v);
    var last := |EncVarint(v)| - 1;
    assert buf[at..at + |EncVarint(v)|][last] == buf[at + last];
  }

  /** The decoder recovers every number the encoder wrote, whatever follows it in the buffer. */
  lemma DecodesWhatWasEncoded(buf: seq<byte>, at: nat, maxbits: nat, v: nat, n: nat, value: nat)
    requires IsAt(buf, at, EncVarint(v)) && |EncVarint(v)| <= Window(maxbits) && v < Pow2(maxbits)
    requires n == 0 <==> at + Window(maxbits) <= |buf| && Continued(buf[at..at + Window(maxbits)])
    requires n != 0 ==> Decoded(buf, at, maxbits, 0, n, value) && Terminated(buf[at..at + n])
    ensures n == |EncVarint(v)| && value == v
  {
    EndsOnce(buf, at, maxbits, v, n);
    IsAtSlice(buf, at, EncVarint(v));
    VarintRoundTrip(v);
    SmallRemainder(v, Pow2(maxbits));
  }

  lemma ContinuedAt(buf: seq<byte>, at: nat, n: nat, k: nat)
    requires at + n <= |buf| && Continued(buf[at..at + n]) && k < n
    ensures buf[at + k] >= 0x80
  {
    assert buf[at..at + n][k] == buf[at + k];
  }

  /** The first byte below 0x80 from `at` on is the last of `n`. */
  ghost predicate StopsAfter(buf: seq<byte>, at: nat, n: nat) {
    && 1 <= n && at + n <= |buf|
    && buf[at + n - 1] < 0x80
    && forall k | at <= k < at + n - 1 :: buf[k] >= 0x80
  }

  lemma StopsOnce(buf: seq<byte>, at: nat, m: nat, n: nat)
    requires StopsAfter(buf, at, m) && StopsAfter(buf, at, n)
    ensures m == n
  {
  }

  lemma TerminatedStops(buf: seq<byte>, at: nat, n: nat, s: seq<byte>)
    requires IsAt(buf, at, s) && n == |s| && Terminated(s)
    ensures StopsAfter(buf, at, n)
  {
    assert s[n - 1] == buf[at + n - 1];
    forall k | at <= k < at + n - 1 ensures buf[k] >= 0x80 {
      assert s[k - at] == buf[at + (k - at)];
    }
  }

  lemma StopsBefore(buf: seq<byte>, at: nat, n: nat, m: nat)
    requires StopsAfter(buf, at, m) && m <= n && at + n <= |buf|
    ensures !Continued(buf[at..at + n])
  {
    assert buf[at..at + n][m - 1] == buf[at + m - 1];
  }

  /** The decoder stops exactly at the end of the varint that is there. */
  lemma EndsOnce(buf: seq<byte>, at: nat, maxbits: nat, v: nat, n: nat)
    requires IsAt(buf, at, EncVarint(v)) && |EncVarint(v)| <= Window(maxbits)
    requires n == 0 <==> at + Window(maxbits) <= |buf| && Continued(buf[at..at + Window(maxbits)])
    requires n != 0 ==> at + n <= |buf| && Terminated(buf[at..at + n])
    ensures n == |EncVarint(v)|
  {
    VarintRoundTrip(v);
    var m := |EncVarint(v)|;
    TerminatedStops(buf, at, m, EncVarint(v));
    if at + Window(maxbits) <= |buf| {
      StopsBefore(buf, at, Window(maxbits), m);
    }
    IsAtSlice(buf, at, buf[at..at + n]);
    TerminatedStops(buf, at, n, buf[at..at + n]);
    StopsOnce(buf, at, m, n);
  }

  // ----- The longest varints ---------------------------------------------------------------------

  function Ones(n: nat): (s: seq<byte>)
    ensures |s| == n && Continued(s)
  {
    seq(n, _ => 0xFF)
  }

  lemma {:induction false} GroupsOfOnes(n: nat)
    ensures Groups(Ones(n)) == Pow2(7 * n) - 1
  {
    if n > 0 {
      assert Ones(n) == Ones(n - 1) + [0xFF];
      GroupsSnoc(Ones(n - 1), 0xFF);
      GroupsOfOnes(n - 1);
      ShlIsProduct(0x7F, 7 * (n - 1));
      Pow2Add(7, 7 * (n - 1));
      Pow2Bytes();
    }
  }

  lemma OnesAndByte(n: nat, b: byte, bits: nat)
    requires bits == 7 * n
    ensures Groups(Ones(n) + [b]) == Pow2(bits) - 1 + b % 0x80 * Pow2(bits)
  {
    GroupsOfOnes(n);
    GroupsSnoc(Ones(n), b);
    ShlIsProduct(b % 0x80, bits);
  }

  /** Decoding nine bytes 0xff and one more. Behind them a zero gives 2^63 - 1, whatever a comment of the firmware
      says, and 0x7f gives 2^64 - 1; of the last byte only its lowest bit counts. */
  method DecodeLongest(last: byte) returns (n: nat, value: nat)
    requires last < 0x80
    ensures n == 10
    ensures value == 0x7FFF_FFFF_FFFF_FFFF + last % 2 * 0x8000_0000_0000_0000
  {
    var buf := Ones(9) + [last];
    n, value := PBDecodeVarint(buf, 0, 64, 0);
    LongestEnds(buf, last, n);
    assert buf[0..10] == buf;
    LongestValue(last);
  }

  lemma LongestEnds(buf: seq<byte>, last: byte, n: nat)
    requires last < 0x80 && buf == Ones(9) + [last]
    requires n == 0 <==> 10 <= |buf| && Continued(buf[0..10])
    requires n != 0 ==> n <= |buf| && Terminated(buf[0..n])
    ensures n == 10
  {
    assert buf[0..10] == buf && buf[9] == last;
    if n != 0 {
      assert buf[0..n][n - 1] == buf[n - 1];
    }
  }

  lemma LongestValue(last: byte)
    requires last < 0x80
    ensures Groups(Ones(9) + [last]) % Pow2(64) == 0x7FFF_FFFF_FFFF_FFFF + last % 2 * 0x8000_0000_0000_0000
  {
    assert Pow2(64) == 0x1_0000_0000_0000_0000 && Pow2(63) == 0x8000_0000_0000_0000 by { Pow2Words(); }
    OnesAndByte(9, last, 63);
    TopBit(last);
  }

  /** Seven more bits above 63 ones, of which only the lowest is below the 64th. */
  lemma TopBit(last: byte)
    ensures (0x7FFF_FFFF_FFFF_FFFF + last * 0x8000_0000_0000_0000) % 0x1_0000_0000_0000_0000
            == 0x7FFF_FFFF_FFFF_FFFF + last % 2 * 0x8000_0000_0000_0000
  {
    var rest := 0x7FFF_FFFF_FFFF_FFFF + last % 2 * 0x8000_0000_0000_0000;
    ModUnique(0x7FFF_FFFF_FFFF_FFFF + last * 0x8000_0000_0000_0000, 0x1_0000_0000_0000_0000, last / 2, rest);
  }

  // ----- One key-value field ---------------------------------------------------------------------

  datatype AbortReason =
    | SpilledTag
    | IllFormedTag
    | TagWithoutValue
    | IllFormedTagType
    | IllFormedValue

  /** What one iteration of the message loop finds: the number (the payload length for byte fields), and the payload. */
  datatype Parsed =
    | Abort(reason: AbortReason)
    | KeyValue(tagnr: nat, tagtype: nat, number: nat, at: nat, rawbytes: nat)

  const MAX_BYTES := 250

  /** The values the decoder takes: byte payloads must be neither empty nor longer than 250. */
  predicate Decodable(v: Value) {
    v.Bytes? ==> 1 <= |v.data| <= 250
  }

  function Number(v: Value): nat {
    match v
    case Varint(n) => n
    case Fixed64(n) => n
    case Bytes(data) => |data|
    case Fixed32(n) => n
  }

  function RawBytes(v: Value): (n: nat)
    ensures n <= |EncValue(v)|
  {
    match v
    case Varint(n) => |EncVarint(n)|
    case Fixed64(_) => 8
    case Bytes(data) => |data|
    case Fixed32(_) => 4
  }

  /** What may follow a key: a value of the encoder, or something malformed that reaches to the end of the message.
      Truncated fixed-width values are not among them: the decoder copies those without looking at the length. */
  datatype Body =
    | Proper(value: Value)
    | WrongType(rest: seq<byte>)
    | SpilledNumber(rest: seq<byte>)
    | SpilledLength(rest: seq<byte>)
    | ShortPayload(n: nat, rest: seq<byte>)

  /** What a sender may have put where the next field is expected. */
  datatype Item =
    | Spill(rest: seq<byte>)
    | NoTag(key: nat, rest: seq<byte>)
    | KeyAlone(key: nat)
    | KeyWith(key: nat, body: Body)

  function BodyBytes(b: Body): seq<byte> {
    match b
    case Proper(v) => EncValue(v)
    case WrongType(rest) => rest
    case SpilledNumber(rest) => rest
    case SpilledLength(rest) => rest
    case ShortPayload(n, rest) => EncVarint(n) + rest
  }

  ghost predicate IsBody(tagtype: nat, b: Body) {
    match b
    case Proper(v) => tagtype == TagType(v)
    case WrongType(rest) => rest != [] && (tagtype == 3 || tagtype == 4 || tagtype >= 6)
    case SpilledNumber(rest) => rest != [] && tagtype == TAGTYPE_VARINT && Continued(rest[..Min(|rest|, 10)])
    case SpilledLength(rest) => rest != [] && tagtype == TAGTYPE_BYTES && Continued(rest[..Min(|rest|, 2)])
    case ShortPayload(n, rest) => tagtype == TAGTYPE_BYTES && |rest| < n < 0x100
  }

  function ItemBytes(i: Item): seq<byte> {
    match i
    case Spill(rest) => rest
    case NoTag(key, rest) => EncVarint(key) + rest
    case KeyAlone(key) => EncVarint(key)
    case KeyWith(key, b) => EncVarint(key) + BodyBytes(b)
  }

  ghost predicate IsItem(i: Item) {
    match i
    case Spill(rest) => |rest| >= 5 && Continued(rest[..5])
    case NoTag(key, _) => key < 8
    case KeyAlone(key) => IsKey(key)
    case KeyWith(key, b) => IsKey(key) && IsBody(key % 8, b)
  }

  ghost predicate IsKey(key: nat) {
    8 <= key < 0x1_0000_0000
  }

  /** The item that is a field as the encoder writes it. */
  function FieldItem(f: Field): Item {
    KeyWith(Key(f), Proper(f.value))
  }

  predicate IsFieldItem(i: Item) {
    i.KeyWith? && i.body.Proper?
  }

  lemma FieldItemIsItem(f: Field)
    requires IsField(f)
    ensures IsItem(FieldItem(f)) && IsFieldItem(FieldItem(f)) && ItemBytes(FieldItem(f)) == EncField(f)
    ensures Key(f) / 8 == f.id && Key(f) % 8 == TagType(f.value)
  {
  }

  /** The items the decoder takes in; the others end the message. */
  predicate Accepted(i: Item) {
    i.KeyWith? && AcceptedBody(i.body)
  }

  predicate AcceptedBody(b: Body) {
    b.Proper? && Decodable(b.value)
  }

  function Reason(i: Item): AbortReason {
    match i
    case Spill(_) => SpilledTag
    case NoTag(_, _) => IllFormedTag
    case KeyAlone(_) => TagWithoutValue
    case KeyWith(_, b) => BodyReason(b)
  }

  function BodyReason(b: Body): AbortReason {
    if b.WrongType? then IllFormedTagType else IllFormedValue
  }

  /** The message holds item `i` at `pos`; everything but a field reaches to the end of the message. */
  ghost predicate ItemAt(msg: seq<byte>, len: nat, pos: nat, i: Item) {
    && IsItem(i)
    && IsAt(msg, pos, ItemBytes(i))
    && (if IsFieldItem(i) then pos + |ItemBytes(i)| <= len else pos + |ItemBytes(i)| == len)
  }

  /** The message holds the body `b` of a field at `pos`. */
  ghost predicate BodyAt(msg: seq<byte>, len: nat, pos: nat, tagtype: nat, b: Body) {
    && IsBody(tagtype, b)
    && IsAt(msg, pos, BodyBytes(b))
    && (if b.Proper? then pos + |BodyBytes(b)| <= len else pos + |BodyBytes(b)| == len)
  }

  lemma KeyTail(key: nat)
    requires 0x80 <= key < 0x1_0000_0000
    ensures EncVarint(key) == [key % 0x80 + 0x80] + EncVarint(key / 0x80)
    ensures |EncVarint(key / 0x80)| <= 4 && key / 0x80 < Pow2(25)
  {
    Pow2Words();
    Pow2Monotone(32, 35);
    VarintLength(key, 5);
    Pow2Bytes();
    Pow2Add(8, 8);
    Pow2Add(16, 8);
    Pow2Add(24, 1);
  }

  function TagLimit(room: nat): (limit: nat)
    requires room > 0
    ensures 1 <= limit <= 64
  {
    if room < 5 then room * 7 else 25
  }

  /** The bytes of a key behind the first decode to the identifier's upper bits. */
  lemma KeyTailDecodes(msg: seq<byte>, len: nat, pos: nat, key: nat)
    requires 0x80 <= key < 0x1_0000_0000
    requires IsAt(msg, pos, EncVarint(key)) && pos + |EncVarint(key)| <= len
    ensures msg[pos] == key % 0x80 + 0x80
    ensures var limit := TagLimit(len - pos);
            && IsAt(msg, pos + 1, EncVarint(key / 0x80))
            && |EncVarint(key / 0x80)| <= Window(limit) && key / 0x80 < Pow2(limit)
  {
    KeyTail(key);
    var tail := EncVarint(key / 0x80);
    var first: byte := key % 0x80 + 0x80;
    IsAtParts(msg, pos, [first], tail);
    assert [first][0] == msg[pos + 0];
    var limit := TagLimit(len - pos);
    if limit != 25 {
      VarintLength(key / 0x80, |tail|);
      Pow2Monotone(7 * |tail|, limit);
    }
  }

  /** At `pos` there is a whole key, or a tag whose bytes all continue. */
  ghost predicate KeyOrSpill(msg: seq<byte>, len: nat, pos: nat, spill: bool, key: nat) {
    if spill then
      pos + 5 <= len <= |msg| && Continued(msg[pos..pos + 5])
    else
      key < 0x1_0000_0000 && IsAt(msg, pos, EncVarint(key)) && pos + |EncVarint(key)| <= len
  }

  /** The key of an item; a spilled tag has none. */
  function ItemKey(i: Item): nat {
    if i.Spill? then 0 else i.key
  }

  lemma SpillAt(msg: seq<byte>, len: nat, pos: nat, rest: seq<byte>)
    requires |rest| >= 5 && Continued(rest[..5]) && IsAt(msg, pos, rest) && pos + |rest| == len
    ensures KeyOrSpill(msg, len, pos, true, 0)
  {
    PrefixAt(msg, pos, rest, 5);
  }

  lemma PrefixAt(msg: seq<byte>, pos: nat, rest: seq<byte>, n: nat)
    requires IsAt(msg, pos, rest) && n <= |rest|
    ensures msg[pos..pos + n] == rest[..n]
  {
    assert msg[pos..pos + |rest|][..n] == msg[pos..pos + n];
  }

  lemma KeyWithAt(msg: seq<byte>, len: nat, pos: nat, key: nat, b: Body)
    requires IsKey(key) && IsBody(key % 8, b)
    requires IsAt(msg, pos, EncVarint(key) + BodyBytes(b))
    requires if b.Proper? then pos + |EncVarint(key) + BodyBytes(b)| <= len
                          else pos + |EncVarint(key) + BodyBytes(b)| == len
    ensures KeyOrSpill(msg, len, pos, false, key)
    ensures BodyAt(msg, len, pos + |EncVarint(key)|, key % 8, b)
  {
    IsAtParts(msg, pos, EncVarint(key), BodyBytes(b));
  }

  lemma ItemIsKeyOrSpill(msg: seq<byte>, len: nat, pos: nat, i: Item)
    requires ItemAt(msg, len, pos, i)
    ensures KeyOrSpill(msg, len, pos, i.Spill?, ItemKey(i))
  {
    match i
    case Spill(rest) => SpillAt(msg, len, pos, rest);
    case NoTag(key, rest) => IsAtParts(msg, pos, EncVarint(key), rest);
    case KeyAlone(key) =>
    case KeyWith(key, b) => KeyWithAt(msg, len, pos, key, b);
  }

  lemma BodyIsNext(msg: seq<byte>, len: nat, pos: nat, i: Item, at: nat, tagtype: nat)
    requires ItemAt(msg, len, pos, i) && i.KeyWith?
    requires at == pos + |EncVarint(i.key)| && tagtype == i.key % 8
    ensures BodyAt(msg, len, at, tagtype, i.body)
  {
    KeyWithAt(msg, len, pos, i.key, i.body);
  }

  lemma BodyNotEmpty(i: Item)
    requires IsItem(i)
    ensures i.KeyWith? ==> BodyBytes(i.body) != []
  {
  }

  lemma FirstByte(msg: seq<byte>, len: nat, pos: nat, spill: bool, key: nat)
    requires KeyOrSpill(msg, len, pos, spill, key)
    ensures pos < |msg|
    ensures spill ==> msg[pos] >= 0x80
    ensures !spill ==> (msg[pos] >= 0x80 <==> key >= 0x80) && msg[pos] % 0x80 == key % 0x80
    ensures !spill && key < 0x80 ==> |EncVarint(key)| == 1
  {
    if spill {
      assert msg[pos] == msg[pos..pos + 5][0];
    } else {
      assert EncVarint(key)[0] == msg[pos + 0];
    }
  }

  /** At `pos` there is a varint that fits in `limit` bits, or a window of bytes that all continue. */
  ghost predicate VarintOrSpill(msg: seq<byte>, pos: nat, limit: nat, spill: bool, v: nat) {
    if spill then
      pos + Window(limit) <= |msg| && Continued(msg[pos..pos + Window(limit)])
    else
      IsAt(msg, pos, EncVarint(v)) && |EncVarint(v)| <= Window(limit) && v < Pow2(limit)
  }

  method DecodeVarintOrSpill(msg: seq<byte>, pos: nat, limit: nat, ghost spill: bool, ghost v: nat)
    returns (n: nat, number: nat)
    requires 1 <= limit <= 64 && VarintOrSpill(msg, pos, limit, spill, v)
    ensures n == 0 <==> spill
    ensures !spill ==> n == |EncVarint(v)| && number == v
  {
    if !spill {
      EncodedIsReadable(msg, pos, limit, v);
    }
    n, number := PBDecodeVarint(msg, pos, limit, 0);
    if !spill {
      DecodesWhatWasEncoded(msg, pos, limit, v, n, number);
    }
  }

  lemma KeyTailAt(msg: seq<byte>, len: nat, pos: nat, spill: bool, key: nat)
    requires KeyOrSpill(msg, len, pos, spill, key) && pos < len && pos < |msg| && msg[pos] >= 0x80
    ensures VarintOrSpill(msg, pos + 1, TagLimit(len - pos), spill, key / 0x80)
    ensures !spill ==> key >= 0x80 && |EncVarint(key)| == 1 + |EncVarint(key / 0x80)|
  {
    FirstByte(msg, len, pos, spill, key);
    if spill {
      assert msg[pos + 1..pos + 5] == msg[pos..pos + 5][1..];
    } else {
      KeyTailDecodes(msg, len, pos, key);
      KeyTail(key);
    }
  }

  /** The bytes of the key behind the first one; no byte ends it when the tag is spilled. */
  method DecodeKeyTail(msg: seq<byte>, len: nat, pos: nat, ghost spill: bool, ghost key: nat)
    returns (n: nat, tagnr: nat)
    requires pos < len <= 255 && KeyOrSpill(msg, len, pos, spill, key) && pos < |msg| && msg[pos] >= 0x80
    ensures n == 0 <==> spill
    ensures !spill ==> key >= 0x80 && tagnr == key / 0x80 && 1 + n == |EncVarint(key)|
  {
    KeyTailAt(msg, len, pos, spill, key);
    var bitlimit := if len - pos < 5 then (len - pos) * 7 else 25;
    n, tagnr := DecodeVarintOrSpill(msg, pos + 1, bitlimit, spill, key / 0x80);
  }

  /** The key: its first byte carries the type and four identifier bits, up to four more bytes carry the rest. */
  method DecodeKey(msg: seq<byte>, len: nat, pos0: nat, ghost spill: bool, ghost key: nat)
    returns (spilled: bool, tagtype: nat, tagnr: nat, pos: nat)
    requires pos0 < len <= 255 && KeyOrSpill(msg, len, pos0, spill, key)
    ensures spilled <==> spill
    ensures !spill ==> tagtype == key % 8 && tagnr == key / 8 && pos == pos0 + |EncVarint(key)|
  {
    FirstByte(msg, len, pos0, spill, key);
    SplitKey(key, msg[pos0]);
    pos := pos0;
    tagtype := msg[pos] % 8;
    tagnr := 0;
    spilled := false;
    if msg[pos] >= 0x80 {
      var n;
      n, tagnr := DecodeKeyTail(msg, len, pos, spill, key);
      if n == 0 {
        spilled := true;
        return;
      }
      var low := msg[pos] % 0x80 / 8;
      TagBits(low, tagnr);
      tagnr := BitOr(Shl(tagnr, 4), low);
      pos := pos + n + 1;
    } else {
      tagnr := msg[pos] % 0x80 / 8;
      pos := pos + 1;
    }
  }

  /** A key is its type, four identifier bits, and the rest of the identifier. */
  lemma SplitKey(key: nat, b: byte)
    ensures b % 0x80 == key % 0x80 ==> b % 8 == key % 8
    ensures key / 8 == 0x10 * (key / 0x80) + key % 0x80 / 8
  {
  }

  lemma TagBits(low: nat, high: nat)
    requires low < 0x10
    ensures BitOr(Shl(high, 4), low) == 0x10 * high + low
  {
    Pow2Bytes();
    BitOrDisjoint(low, high, 4);
    ShlIsProduct(high, 4);
  }

  function NumberLimit(room: nat): (limit: nat)
    requires room > 0
    ensures 1 <= limit <= 64 && Window(limit) == Min(room, 10)
  {
    if room < 10 then room * 7 else 64
  }

  function LengthLimit(room: nat): (limit: nat)
    requires room > 0
    ensures 1 <= limit <= 64 && Window(limit) == Min(room, 2)
  {
    if room == 1 then 7 else 8
  }

  /** The room left is enough for the varint that is there, so the limit derived from it cuts nothing off. */
  lemma NumberFits(v: uint64, room: nat)
    requires |EncVarint(v)| <= room
    ensures |EncVarint(v)| <= Window(NumberLimit(room)) && v < Pow2(NumberLimit(room))
  {
    Pow2Words();
    Pow2Monotone(64, 70);
    VarintLength(v, 10);
    VarintLength(v, |EncVarint(v)|);
    if room < 10 {
      Pow2Monotone(7 * |EncVarint(v)|, 7 * room);
    }
  }

  lemma LengthFits(n: nat, room: nat)
    requires n < 0x100 && |EncVarint(n)| <= room
    ensures |EncVarint(n)| <= Window(LengthLimit(room)) && n < Pow2(LengthLimit(room))
  {
    Pow2Bytes();
    Pow2Monotone(8, 14);
    VarintLength(n, 2);
    VarintLength(n, |EncVarint(n)|);
  }

  lemma NumberAt(msg: seq<byte>, len: nat, pos: nat, b: Body)
    requires pos < len && BodyAt(msg, len, pos, TAGTYPE_VARINT, b)
    ensures if b.Proper? then b.value.Varint? else b.SpilledNumber?
    ensures VarintOrSpill(msg, pos, NumberLimit(len - pos), !b.Proper?, if b.Proper? then Number(b.value) else 0)
  {
    if b.Proper? {
      NumberFits(b.value.number, len - pos);
    } else {
      PrefixAt(msg, pos, b.rest, Min(|b.rest|, 10));
    }
  }

  /** The length prefix of the payload, when there is one. */
  function PrefixLength(b: Body): nat {
    if b.Proper? && b.value.Bytes? then |b.value.data| else if b.ShortPayload? then b.n else 0
  }

  lemma LengthAt(msg: seq<byte>, len: nat, pos: nat, b: Body)
    requires pos < len <= 255 && BodyAt(msg, len, pos, TAGTYPE_BYTES, b)
    ensures if b.Proper? then b.value.Bytes? else b.SpilledLength? || b.ShortPayload?
    ensures VarintOrSpill(msg, pos, LengthLimit(len - pos), b.SpilledLength?, PrefixLength(b))
    ensures b.Proper? ==> pos + |EncVarint(PrefixLength(b))| + PrefixLength(b) <= len
    ensures b.ShortPayload? ==> pos + |EncVarint(b.n)| <= len < pos + |EncVarint(b.n)| + b.n
  {
    match b
    case Proper(v) =>
      IsAtParts(msg, pos, EncVarint(|v.data|), v.data);
      LengthFits(|v.data|, len - pos);
    case ShortPayload(n, rest) =>
      IsAtParts(msg, pos, EncVarint(n), rest);
      LengthFits(n, len - pos);
    case SpilledLength(rest) =>
      PrefixAt(msg, pos, rest, Min(|rest|, 2));
  }

  lemma FixedBytes(v: Value, n: nat)
    requires if n == 8 then v.Fixed64? else n == 4 && v.Fixed32?
    ensures |EncValue(v)| == RawBytes(v) == n && FromLittleEndian(EncValue(v)) == Number(v)
  {
    Pow2Words();
    LittleEndianRoundTrip(Number(v), n);
  }

  lemma FixedAt(msg: seq<byte>, len: nat, pos: nat, tagtype: nat, b: Body, n: nat)
    requires BodyAt(msg, len, pos, tagtype, b) && len <= |msg|
    requires (tagtype == TAGTYPE_FIXED64 && n == 8) || (tagtype == TAGTYPE_FIXED32 && n == 4)
    ensures b.Proper? && RawBytes(b.value) == |EncValue(b.value)| == n && pos + n <= len
    ensures FromLittleEndian(msg[pos..pos + n]) == Number(b.value)
  {
    FixedBytes(b.value, n);
    IsAtSlice(msg, pos, EncValue(b.value));
  }

  /** A fixed-width number. */
  method ReadFixed(msg: seq<byte>, len: nat, pos: nat, tagtype: nat, ghost b: Body, n: nat) returns (number: nat)
    requires BodyAt(msg, len, pos, tagtype, b) && len <= |msg|
    requires (tagtype == TAGTYPE_FIXED64 && n == 8) || (tagtype == TAGTYPE_FIXED32 && n == 4)
    ensures b.Proper? && RawBytes(b.value) == |EncValue(b.value)| == n && pos + n <= len
    ensures number == Number(b.value)
  {
    FixedAt(msg, len, pos, tagtype, b, n);
    number := FromLittleEndian(msg[pos..pos + n]);
  }

  /** The value behind a key: its size in the message and what it denotes, or the reason to stop. */
  method DecodeValue(msg: seq<byte>, len: nat, valueAt: nat, tagtype: nat, tagnr: nat, ghost b: Body)
    returns (r: Parsed)
    requires valueAt < len <= 255 && len <= |msg| && BodyAt(msg, len, valueAt, tagtype, b)
    ensures AcceptedBody(b) ==>
              r == KeyValue(tagnr, tagtype, Number(b.value),
                            valueAt + |EncValue(b.value)| - RawBytes(b.value), RawBytes(b.value))
    ensures !AcceptedBody(b) ==> r == Abort(BodyReason(b))
  {
    var pos := valueAt;
    var rawbytes, number := 0, 0;
    match tagtype {
      case 0 =>
        NumberAt(msg, len, pos, b);
        var bitlimit := if len - pos < 10 then (len - pos) * 7 else 64;
        rawbytes, number :=
          DecodeVarintOrSpill(msg, pos, bitlimit, !b.Proper?, if b.Proper? then Number(b.value) else 0);
      case 1 =>
        rawbytes := 8;
        number := ReadFixed(msg, len, pos, tagtype, b, rawbytes);
      case 2 =>
        LengthAt(msg, len, pos, b);
        var bitlimit := if len - pos == 1 then 7 else 8;
        rawbytes, number := DecodeVarintOrSpill(msg, pos, bitlimit, b.SpilledLength?, PrefixLength(b));
        if rawbytes != 0 {
          pos := pos + rawbytes;
          rawbytes := if number > MAX_BYTES || number > len - pos then 0 else number;
        }
      case 5 =>
        rawbytes := 4;
        number := ReadFixed(msg, len, pos, tagtype, b, rawbytes);
      case _ =>
        return Abort(IllFormedTagType);
    }
    if rawbytes == 0 {
      return Abort(IllFormedValue);
    }
    r := KeyValue(tagnr, tagtype, number, pos, rawbytes);
  }

  /** One iteration of the message loop up to the dispatch: the next key and value, or the reason to stop. */
  method NextField(msg: seq<byte>, len: nat, pos0: nat, ghost i: Item) returns (r: Parsed)
    requires pos0 < len <= 255 && len <= |msg| && ItemAt(msg, len, pos0, i)
    ensures Accepted(i) ==>
              r == KeyValue(i.key / 8, i.key % 8, Number(i.body.value),
                            pos0 + |ItemBytes(i)| - RawBytes(i.body.value), RawBytes(i.body.value))
    ensures !Accepted(i) ==> r == Abort(Reason(i))
  {
    ItemIsKeyOrSpill(msg, len, pos0, i);
    BodyNotEmpty(i);
    var spilled, tagtype, tagnr, pos := DecodeKey(msg, len, pos0, i.Spill?, ItemKey(i));
    if spilled {
      return Abort(SpilledTag);
    }
    if tagnr == 0 {
      return Abort(IllFormedTag);
    }
    if len - pos == 0 {
      return Abort(TagWithoutValue);
    }
    BodyIsNext(msg, len, pos0, i, pos, tagtype);
    r := DecodeValue(msg, len, pos, tagtype, tagnr, i.body);
  }
}
