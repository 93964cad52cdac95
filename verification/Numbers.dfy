/** Numbers of the codec outside the varint loop: signed values folded into unsigned ones, and `u64` and `b64` that move
    64-bit identifiers between byte strings and words. */
module Numbers {
  import opened Bits
  import opened Wire

  type int64 = x: int | -0x8000_0000_0000_0000 <= x < 0x8000_0000_0000_0000

  const UINT64_MAX: uint64 := 0xFFFF_FFFF_FFFF_FFFF

  // ----- Signed numbers --------------------------------------------------------------------------

  /** `x ^ y`, bit by bit. */
  function BitXor(x: nat, y: nat): nat
    decreases x + y
  {
    if x == 0 then y
    else if y == 0 then x
    else 2 * BitXor(x / 2, y / 2) + (if x % 2 != y % 2 then 1 else 0)
  }

  /** Exclusive or with all ones is the complement. */
  lemma {:induction false} BitXorOnes(x: nat, k: nat)
    requires x < Pow2(k)
    ensures BitXor(x, Pow2(k) - 1) == Pow2(k) - 1 - x
  {
    if k > 0 && x > 0 {
      assert (Pow2(k) - 1) / 2 == Pow2(k - 1) - 1 && (Pow2(k) - 1) % 2 == 1;
      BitXorOnes(x / 2, k - 1);
    }
  }

  /** `(uint64_t)x` of a signed number, and `(int64_t)x` of an unsigned one: two's complement. */
  function Unsigned(x: int64): uint64 {
    if x < 0 then x + 0x1_0000_0000_0000_0000 else x
  }

  function Signed(x: uint64): int64 {
    if x >= 0x8000_0000_0000_0000 then x - 0x1_0000_0000_0000_0000 else x
  }

  function PBEncodeSInt(val: int64): nat {
    BitXor(Unsigned(val) * 2 % 0x1_0000_0000_0000_0000, if val < 0 then UINT64_MAX else 0)
  }

  function PBDecodeSInt(val: uint64): int64 {
    var half: uint64 := val / 2;
    if val % 2 == 1 then
      Pow2Words();
      BitXorOnes(half, 64);
      Signed(BitXor(half, UINT64_MAX))
    else Signed(half)
  }

  /** Shifting left drops the sign bit. */
  lemma Doubled(val: int64)
    ensures Unsigned(val) * 2 % 0x1_0000_0000_0000_0000
            == if val < 0 then 2 * val + 0x1_0000_0000_0000_0000 else 2 * val
  {
    var d := Unsigned(val) * 2;
    if val < 0 {
      assert d == 0x1_0000_0000_0000_0000 + (2 * val + 0x1_0000_0000_0000_0000);
    }
  }

  /** The shifts and masks fold the numbers 0, -1, 1, -2, 2, ... onto 0, 1, 2, 3, 4, ... */
  lemma ZigZag(val: int64)
    ensures PBEncodeSInt(val) == if val >= 0 then 2 * val else -2 * val - 1
  {
    Doubled(val);
    if val < 0 {
      Pow2Words();
      BitXorOnes(2 * val + 0x1_0000_0000_0000_0000, 64);
    }
  }

  lemma ZagZig(code: uint64)
    ensures PBDecodeSInt(code) == if code % 2 == 1 then -(code / 2) - 1 else code / 2
  {
    if code % 2 == 1 {
      Pow2Words();
      BitXorOnes(code / 2, 64);
    }
  }

  lemma SIntRoundTrip(val: int64)
    ensures PBEncodeSInt(val) <= UINT64_MAX && PBDecodeSInt(PBEncodeSInt(val)) == val
  {
    ZigZag(val);
    ZagZig(PBEncodeSInt(val));
  }

  /** Every unsigned number is the code of exactly one signed number. */
  lemma SIntOnto(code: uint64)
    ensures PBEncodeSInt(PBDecodeSInt(code)) == code
  {
    ZagZig(code);
    ZigZag(PBDecodeSInt(code));
  }

  /** Numbers near zero stay short on the wire: `k` groups of seven bits hold every magnitude below `2^(7k-1)`. */
  lemma SIntLength(val: int64, k: nat)
    requires 1 <= k
    ensures PBEncodeSInt(val) < Pow2(7 * k) <==> 0 - Pow2(7 * k - 1) <= val < Pow2(7 * k - 1)
  {
    ZigZag(val);
    assert Pow2(7 * k) == 2 * Pow2(7 * k - 1);
  }

  // ----- Words and bytes -------------------------------------------------------------------------

  function u64(b: seq<byte>): nat
    requires |b| == 8
  {
    OrFrom(b, 0)
  }

  /** `b[7] << 56 | ... | b[k] << 8k` */
  function OrFrom(b: seq<byte>, k: nat): nat
    requires k < |b| == 8
    decreases 8 - k
  {
    if k == 7 then Shl(b[k], 8 * k) else BitOr(OrFrom(b, k + 1), Shl(b[k], 8 * k))
  }

  /** One more byte below the bytes gathered so far. */
  lemma {:induction false} OrByte(high: nat, low: byte, k: nat)
    ensures BitOr(Shl(high, k + 8), Shl(low, k)) == Shl(low + 0x100 * high, k)
    decreases k
  {
    if k == 0 {
      Pow2Bytes();
      BitOrDisjoint(low, high, 8);
      ShlIsProduct(high, 8);
    } else {
      OrByte(high, low, k - 1);
      BitOrStep(Shl(high, k + 8), Shl(low, k));
    }
  }

  lemma {:induction false} Gather(b: seq<byte>, k: nat)
    requires k < |b| == 8
    ensures OrFrom(b, k) == Shl(FromLittleEndian(b[k..]), 8 * k)
    decreases 8 - k
  {
    assert b[k..][1..] == b[k + 1..];
    if k == 7 {
      assert FromLittleEndian(b[k..]) == b[k];
    } else {
      Gather(b, k + 1);
      OrByte(FromLittleEndian(b[k + 1..]), b[k], 8 * k);
    }
  }

  /** `u64` reads a little-endian number. */
  lemma U64IsLittleEndian(b: seq<byte>)
    requires |b| == 8
    ensures u64(b) == FromLittleEndian(b)
  {
    Gather(b, 0);
    assert b[0..] == b;
  }

  /** `x >> k` */
  function Shr(x: nat, k: nat): nat {
    if k == 0 then x else Shr(x / 2, k - 1)
  }

  lemma ShrByte(x: nat, k: nat)
    ensures Shr(x, k + 8) == Shr(x / 0x100, k)
  {
    assert Shr(x, k + 8) == Shr(x / 2, k + 7) == Shr(x / 4, k + 6) == Shr(x / 8, k + 5) == Shr(x / 16, k + 4);
    assert Shr(x / 16, k + 4) == Shr(x / 32, k + 3) == Shr(x / 64, k + 2) == Shr(x / 128, k + 1) == Shr(x / 256, k);
  }

  /** `x >> k & 0xFF` */
  function ByteOf(x: nat, k: nat): (b: byte)
    ensures b == Shr(x, k) % 0x100
  {
    Pow2Bytes();
    BitAndMask(Shr(x, k), 8);
    BitAnd(0xFF, Shr(x, k))
  }

  lemma {:induction false} LittleEndianAt(v: nat, n: nat, k: nat)
    requires k < n
    ensures LittleEndian(v, n)[k] == ByteOf(v, 8 * k)
    decreases k
  {
    if k > 0 {
      LittleEndianAt(v / 0x100, n - 1, k - 1);
      ShrByte(v, 8 * (k - 1));
    }
  }

  method b64(b: array<byte>, v: uint64)
    requires b.Length == 8
    modifies b
    ensures b[..] == LittleEndian(v, 8) && u64(b[..]) == v
  {
    b[0] := ByteOf(v, 0);
    b[1] := ByteOf(v, 8);
    b[2] := ByteOf(v, 16);
    b[3] := ByteOf(v, 24);
    b[4] := ByteOf(v, 32);
    b[5] := ByteOf(v, 40);
    b[6] := ByteOf(v, 48);
    b[7] := ByteOf(v, 56);
    forall k | 0 <= k < 8 ensures LittleEndian(v, 8)[k] == ByteOf(v, 8 * k) {
      LittleEndianAt(v, 8, k);
    }
    assert b[..] == LittleEndian(v, 8);
    U64ReadsBack(v);
  }

  lemma U64ReadsBack(v: uint64)
    ensures u64(LittleEndian(v, 8)) == v
  {
    Pow2Words();
    LittleEndianRoundTrip(v, 8);
    U64IsLittleEndian(LittleEndian(v, 8));
  }
}
