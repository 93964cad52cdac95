/** The wire format of the firmware's messages: the Protocol Buffers encoding, sections "Base 128 Varints",
    "Message Structure", "Non-varint Numbers" and "Length-Delimited Records".

    This is the specification the encoder and the decoder are proved against. */
module Wire {
  import opened Bits

  /** The payload of a field; the constructor fixes its wire type. */
  datatype Value =
    | Varint(number: uint64)
    | Fixed64(number: uint64)
    | Bytes(data: seq<byte>)
    | Fixed32(word: uint32)

  datatype Field = Field(id: nat, value: Value)

  const TAGTYPE_VARINT := 0
  const TAGTYPE_FIXED64 := 1
  const TAGTYPE_BYTES := 2
  const TAGTYPE_FIXED32 := 5

  /** Field identifiers have 29 bits and zero is ill-formed. */
  const ID_LIMIT := 0x2000_0000

  ghost predicate IsField(f: Field) {
    1 <= f.id < ID_LIMIT
  }

  ghost predicate AreFields(fs: seq<Field>) {
    forall f | f in fs :: IsField(f)
  }

  function TagType(v: Value): (t: nat)
    ensures t < 8
  {
    match v
    case Varint(_) => TAGTYPE_VARINT
    case Fixed64(_) => TAGTYPE_FIXED64
    case Bytes(_) => TAGTYPE_BYTES
    case Fixed32(_) => TAGTYPE_FIXED32
  }

  function Key(f: Field): nat {
    f.id * 8 + TagType(f.value)
  }

  // ----- Base 128 varints ------------------------------------------------------------------------

  function EncVarint(v: nat): (s: seq<byte>)
    ensures |s| >= 1
  {
    if v < 0x80 then [v] else [v % 0x80 + 0x80] + EncVarint(v / 0x80)
  }

  /** Little-endian sum of the 7-bit groups of `s`; continuation bits are ignored. */
  function Groups(s: seq<byte>): nat {
    if s == [] then 0 else s[0] % 0x80 + 0x80 * Groups(s[1..])
  }

  /** `s` is one varint: every byte but the last has its continuation bit set. */
  ghost predicate Terminated(s: seq<byte>) {
    && |s| >= 1
    && s[|s| - 1] < 0x80
    && forall i | 0 <= i < |s| - 1 :: s[i] >= 0x80
  }

  /** A varint decodes to the number it encodes. */
  lemma {:induction false} VarintRoundTrip(v: nat)
    ensures Terminated(EncVarint(v)) && Groups(EncVarint(v)) == v
  {
    if v < 0x80 {
      assert [v][1..] == [];
      assert Groups([v][1..]) == 0;
    } else {
      VarintRoundTrip(v / 0x80);
      var first: byte := v % 0x80 + 0x80;
      ContinuedVarint(first, EncVarint(v / 0x80));
      assert first % 0x80 == v % 0x80;
    }
  }

  lemma ContinuedVarint(first: byte, rest: seq<byte>)
    requires first >= 0x80 && Terminated(rest)
    ensures Terminated([first] + rest)
    ensures Groups([first] + rest) == first % 0x80 + 0x80 * Groups(rest)
  {
    var s := [first] + rest;
    assert s[1..] == rest;
    assert forall i | 1 <= i < |s| :: s[i] == rest[i - 1];
  }

  /** The encoder emits no padding: `k` bytes are enough exactly for the values below `128^k`. */
  lemma {:induction false} VarintLength(v: nat, k: nat)
    requires k >= 1
    ensures |EncVarint(v)| <= k <==> v < Pow2(7 * k)
    decreases k
  {
    Pow2Bytes();
    if k == 1 {
    } else {
      Pow2Add(7, 7 * (k - 1));
      var p := Pow2(7 * (k - 1));
      assert Pow2(7 * k) == 128 * p;
      if v < 0x80 {
        assert p >= 1;
      } else {
        VarintLength(v / 0x80, k - 1);
        assert v / 0x80 < p <==> v < 128 * p;
      }
    }
  }

  /** A varint ends itself: what follows it can be split off in one way only. */
  lemma {:induction false} TerminatedPrefixFree(s: seq<byte>, x: seq<byte>, t: seq<byte>, y: seq<byte>)
    requires Terminated(s) && Terminated(t) && s + x == t + y
    ensures s == t && x == y
  {
    var c := s + x;
    assert forall i | 0 <= i < |s| :: c[i] == s[i];
    assert forall i | 0 <= i < |t| :: c[i] == t[i];
    SplitEqual(s, x, t, y);
  }

  lemma ConcatAssociative(a: seq<byte>, b: seq<byte>, c: seq<byte>)
    ensures a + b + c == a + (b + c)
  {
  }

  lemma SplitEqual(a: seq<byte>, x: seq<byte>, b: seq<byte>, y: seq<byte>)
    requires |a| == |b| && a + x == b + y
    ensures a == b && x == y
  {
    assert a == (a + x)[..|a|] && b == (b + y)[..|b|];
    assert x == (a + x)[|a|..] && y == (b + y)[|b|..];
  }

  // ----- Non-varint numbers ----------------------------------------------------------------------

  function LittleEndian(v: nat, n: nat): (s: seq<byte>)
    ensures |s| == n
  {
    if n == 0 then [] else [v % 0x100] + LittleEndian(v / 0x100, n - 1)
  }

  function FromLittleEndian(s: seq<byte>): nat {
    if s == [] then 0 else s[0] + 0x100 * FromLittleEndian(s[1..])
  }

  lemma {:induction false} LittleEndianRoundTrip(v: nat, n: nat)
    requires v < Pow2(8 * n)
    ensures FromLittleEndian(LittleEndian(v, n)) == v
    decreases n
  {
    if n > 0 {
      Pow2Add(8, 8 * (n - 1));
      Pow2Bytes();
      assert Pow2(8 * n) == 256 * Pow2(8 * (n - 1));
      LittleEndianRoundTrip(v / 0x100, n - 1);
      assert LittleEndian(v, n)[1..] == LittleEndian(v / 0x100, n - 1);
    }
  }

  lemma {:induction false} FromLittleEndianRoundTrip(s: seq<byte>)
    ensures FromLittleEndian(s) < Pow2(8 * |s|)
    ensures LittleEndian(FromLittleEndian(s), |s|) == s
  {
    if s != [] {
      Pow2Add(8, 8 * (|s| - 1));
      Pow2Bytes();
      FromLittleEndianRoundTrip(s[1..]);
      assert s == [s[0]] + s[1..];
    }
  }

  // ----- Fields and messages ---------------------------------------------------------------------

  function EncValue(v: Value): seq<byte> {
    match v
    case Varint(n) => EncVarint(n)
    case Fixed64(n) => LittleEndian(n, 8)
    case Bytes(data) => EncVarint(|data|) + data
    case Fixed32(n) => LittleEndian(n, 4)
  }

  function EncField(f: Field): (s: seq<byte>)
    ensures |s| >= 1
  {
    EncVarint(Key(f)) + EncValue(f.value)
  }

  function EncAll(fs: seq<Field>): seq<byte> {
    if fs == [] then [] else EncField(fs[0]) + EncAll(fs[1..])
  }

  /** Fields byte by byte; the first two are examples of the encoding's own description. */
  lemma FieldsInBytes()
    ensures EncField(Field(1, Varint(150))) == [0x08, 0x96, 0x01]
    ensures EncField(Field(2, Bytes([0x74, 0x65, 0x73]))) == [0x12, 0x03, 0x74, 0x65, 0x73]
    ensures EncField(Field(16, Varint(0))) == [0x80, 0x01, 0x00]
    ensures EncField(Field(3, Fixed32(0x0403_0201))) == [0x1D, 0x01, 0x02, 0x03, 0x04]
  {
    assert EncVarint(150) == [0x96] + EncVarint(1) == [0x96, 0x01];
    assert EncVarint(128) == [0x80] + EncVarint(1) == [0x80, 0x01];
    assert EncVarint(Key(Field(3, Fixed32(0x0403_0201)))) == [0x1D];
    FourBytes(1, 2, 3, 4);
  }

  lemma FourBytes(a: byte, b: byte, c: byte, d: byte)
    ensures LittleEndian(a + 0x100 * b + 0x1_0000 * c + 0x100_0000 * d, 4) == [a, b, c, d]
  {
    var w := c + 0x100 * d;
    NextByte(c, d, 1);
    NextByte(b, w, 2);
    NextByte(a, b + 0x100 * w, 3);
    assert LittleEndian(d, 1) == [d] + LittleEndian(d / 0x100, 0);
  }

  lemma NextByte(low: byte, rest: nat, n: nat)
    ensures LittleEndian(low + 0x100 * rest, n + 1) == [low] + LittleEndian(rest, n)
  {
    var v := low + 0x100 * rest;
    assert v % 0x100 == low && v / 0x100 == rest;
  }

  /** A message: the version byte, then its fields. */
  function Message(fs: seq<Field>): seq<byte> {
    [0] + EncAll(fs)
  }

  lemma {:induction false} EncAllConcat(fs: seq<Field>, gs: seq<Field>)
    ensures EncAll(fs + gs) == EncAll(fs) + EncAll(gs)
  {
    if fs == [] {
      assert fs + gs == gs;
    } else {
      assert (fs + gs)[1..] == fs[1..] + gs;
      EncAllConcat(fs[1..], gs);
    }
  }

  lemma EncOne(f: Field)
    ensures EncAll([f]) == EncField(f)
  {
    assert EncAll([f][1..]) == [];
    assert EncField(f) + [] == EncField(f);
  }

  /** Field `i` sits in the message right after the fields before it. */
  lemma {:induction false} FieldOffset(fs: seq<Field>, i: nat)
    requires i < |fs|
    ensures EncAll(fs[..i + 1]) == EncAll(fs[..i]) + EncField(fs[i])
    ensures EncAll(fs) == EncAll(fs[..i + 1]) + EncAll(fs[i + 1..])
  {
    assert fs[..i + 1] == fs[..i] + [fs[i]];
    EncAllConcat(fs[..i], [fs[i]]);
    EncOne(fs[i]);
    assert fs == fs[..i + 1] + fs[i + 1..];
    EncAllConcat(fs[..i + 1], fs[i + 1..]);
  }

  lemma {:induction false} KeyDeterminesIdAndType(f: Field, g: Field)
    requires Key(f) == Key(g)
    ensures f.id == g.id && TagType(f.value) == TagType(g.value)
  {
  }

  lemma {:induction false} ValuePrefixFree(v: Value, x: seq<byte>, w: Value, y: seq<byte>)
    requires TagType(v) == TagType(w) && EncValue(v) + x == EncValue(w) + y
    ensures v == w && x == y
  {
    match v
    case Varint(n) =>
      VarintRoundTrip(n);
      VarintRoundTrip(w.number);
      TerminatedPrefixFree(EncVarint(n), x, EncVarint(w.number), y);
    case Fixed64(n) =>
      SplitEqual(LittleEndian(n, 8), x, LittleEndian(w.number, 8), y);
      Pow2Words();
      LittleEndianRoundTrip(n, 8);
      LittleEndianRoundTrip(w.number, 8);
    case Fixed32(n) =>
      SplitEqual(LittleEndian(n, 4), x, LittleEndian(w.word, 4), y);
      Pow2Words();
      LittleEndianRoundTrip(n, 4);
      LittleEndianRoundTrip(w.word, 4);
    case Bytes(data) =>
      BytesPrefixFree(data, x, w.data, y);
  }

  lemma BytesPrefixFree(d: seq<byte>, x: seq<byte>, e: seq<byte>, y: seq<byte>)
    requires EncValue(Bytes(d)) + x == EncValue(Bytes(e)) + y
    ensures d == e && x == y
  {
    VarintRoundTrip(|d|);
    VarintRoundTrip(|e|);
    ConcatAssociative(EncVarint(|d|), d, x);
    ConcatAssociative(EncVarint(|e|), e, y);
    TerminatedPrefixFree(EncVarint(|d|), d + x, EncVarint(|e|), e + y);
    SplitEqual(d, x, e, y);
  }

  lemma {:induction false} FieldPrefixFree(f: Field, x: seq<byte>, g: Field, y: seq<byte>)
    requires EncField(f) + x == EncField(g) + y
    ensures f == g && x == y
  {
    VarintRoundTrip(Key(f));
    VarintRoundTrip(Key(g));
    ConcatAssociative(EncVarint(Key(f)), EncValue(f.value), x);
    ConcatAssociative(EncVarint(Key(g)), EncValue(g.value), y);
    TerminatedPrefixFree(EncVarint(Key(f)), EncValue(f.value) + x, EncVarint(Key(g)), EncValue(g.value) + y);
    KeyDeterminesIdAndType(f, g);
    ValuePrefixFree(f.value, x, g.value, y);
  }

  /** Messages are uniquely decodable: no byte string is the encoding of two field lists. */
  lemma {:induction false} UniquelyDecodable(fs: seq<Field>, gs: seq<Field>)
    requires Message(fs) == Message(gs)
    ensures fs == gs
  {
    SplitEqual([0], EncAll(fs), [0], EncAll(gs));
    if fs == [] || gs == [] {
    } else {
      FieldPrefixFree(fs[0], EncAll(fs[1..]), gs[0], EncAll(gs[1..]));
      UniquelyDecodable(fs[1..], gs[1..]);
      assert fs == [fs[0]] + fs[1..] && gs == [gs[0]] + gs[1..];
    }
  }
}
