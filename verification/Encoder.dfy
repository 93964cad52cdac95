/** `PBEncodeField` and the chains built from it: serialization into a buffer that may be too short or absent.

    A C pointer into a buffer is the buffer and an offset; the null pointer is `null` with no room. */
module Encoder {
  import opened Bits
  import opened Wire

  /** The part of `enc` that fits in `len` bytes. */
  function Clip(enc: seq<byte>, len: nat): (r: seq<byte>)
    ensures |r| <= len && r <= enc
  {
    enc[..Min(len, |enc|)]
  }

  /** The output window of `len` bytes at `base` holds the part of `enc` that fits; nothing else of `before` moved. */
  ghost predicate Holds(out: array?<byte>, base: nat, len: nat, before: seq<byte>, enc: seq<byte>)
    reads out
  {
    if out == null then len == 0
    else
      && base + len <= |before| == out.Length
      && out[..] == Overwrite(before, base, Clip(enc, len))
  }

  ghost function Contents(out: array?<byte>): seq<byte>
    reads out
  {
    if out == null then [] else out[..]
  }

  lemma HoldsNothing(out: array?<byte>, base: nat, len: nat)
    requires if out == null then len == 0 else base + len <= out.Length
    ensures Holds(out, base, len, Contents(out), [])
  {
    if out != null {
      assert Overwrite(out[..], base, []) == out[..];
    }
  }

  /** Writing the part of `more` that still fits after `enc` writes the part of `enc + more` that fits. */
  lemma ClipGrows(before: seq<byte>, base: nat, len: nat, enc: seq<byte>, more: seq<byte>)
    requires base + len <= |before|
    ensures |enc| > len ==> Clip(enc + more, len) == Clip(enc, len)
    ensures |enc| <= len ==> Clip(enc, len) == enc
    ensures |enc| <= len ==> Clip(enc + more, len) == enc + Clip(more, len - |enc|)
    ensures |enc| <= len ==>
              Overwrite(Overwrite(before, base, enc), base + |enc|, Clip(more, len - |enc|))
              == Overwrite(before, base, Clip(enc + more, len))
  {
    if |enc| <= len {
      OverwriteGrows(before, base, enc, Clip(more, len - |enc|));
    }
  }

  /** `memcpy(out + at, data, n)` */
  method MemCpy(out: array<byte>, at: nat, data: seq<byte>, n: nat)
    requires n <= |data| && at + n <= out.Length
    modifies out
    ensures out[..] == Overwrite(old(out[..]), at, data[..n])
  {
    forall i | 0 <= i < n {
      out[at + i] := data[i];
    }
  }

  /** A byte that fits extends the window's contents; one that does not leaves them. */
  lemma HoldsMore(before: seq<byte>, base: nat, len: nat, enc: seq<byte>, b: byte)
    requires base + len <= |before|
    ensures |enc| < len ==>
              Overwrite(before, base, Clip(enc, len))[base + |enc| := b]
              == Overwrite(before, base, Clip(enc + [b], len))
    ensures |enc| >= len ==> Clip(enc + [b], len) == Clip(enc, len)
  {
  }

  /** `if(size++ < len) out[size - 1] = b` */
  method PutByte(out: array?<byte>, base: nat, len: nat, size0: nat, b: byte, ghost before: seq<byte>,
      ghost enc: seq<byte>)
    returns (size: nat)
    requires Holds(out, base, len, before, enc) && size0 == |enc|
    modifies out
    ensures size == size0 + 1
    ensures Holds(out, base, len, before, enc + [b])
  {
    if out != null {
      HoldsMore(before, base, len, enc, b);
    }
    size := size0;
    if size < len {
      ghost var was := out[..];
      out[base + size] := b;
      assert out[..] == was[base + size := b];
    }
    size := size + 1;
  }

  /** The do-while loop that emits one varint, seven bits a byte. */
  method PutVarint(out: array?<byte>, base: nat, len: nat, size0: nat, v: nat, ghost before: seq<byte>,
      ghost enc: seq<byte>)
    returns (size: nat)
    requires Holds(out, base, len, before, enc) && size0 == |enc|
    modifies out
    ensures size == size0 + |EncVarint(v)|
    ensures Holds(out, base, len, before, enc + EncVarint(v))
  {
    var rest := v;
    ghost var done: seq<byte> := [];
    assert enc + [] == enc;
    size := size0;
    while true
      invariant done + EncVarint(rest) == EncVarint(v)
      invariant size == size0 + |done|
      invariant Holds(out, base, len, before, enc + done)
      decreases rest
    {
      var b: byte := rest % 0x80 + (if rest / 0x80 != 0 then 0x80 else 0);
      size := PutByte(out, base, len, size, b, before, enc + done);
      assert enc + done + [b] == enc + (done + [b]);
      ghost var was := rest;
      rest := rest / 0x80;
      done := done + [b];
      if rest == 0 {
        assert EncVarint(was) == [b];
        break;
      }
      assert EncVarint(was) == [b] + EncVarint(rest);
    }
  }

  /** The bounded copy of the fixed-width and byte payloads: as much as the room left allows, possibly nothing. */
  method PutBytes(out: array?<byte>, base: nat, len: nat, size0: nat, data: seq<byte>, ghost before: seq<byte>,
      ghost enc: seq<byte>)
    returns (size: nat)
    requires Holds(out, base, len, before, enc) && size0 == |enc|
    modifies out
    ensures size == size0 + |data|
    ensures Holds(out, base, len, before, enc + data)
  {
    if out != null {
      ClipGrows(before, base, len, enc, data);
    }
    size := size0;
    var cpylen := if size > len then 0 else if size + |data| > len then len - size else |data|;
    if cpylen != 0 {
      MemCpy(out, base + size, data, cpylen);
      assert data[..cpylen] == Clip(data, len - |enc|);
    } else if out != null && size <= len {
      assert Clip(data, len - |enc|) == [];
      assert Overwrite(out[..], base + size, []) == out[..];
    }
    size := size + |data|;
  }

  /** The bytes of a varint still to come; none once the loop variable is zero. */
  ghost function Rest(v: nat): seq<byte> {
    if v == 0 then [] else EncVarint(v)
  }

  lemma RestStep(v: nat, b: byte)
    requires v != 0
    requires b == v % 0x80 + (if v / 0x80 != 0 then 0x80 else 0)
    ensures Rest(v) == [b] + Rest(v / 0x80)
  {
    if v < 0x80 {
      assert Rest(v) == [b];
    }
  }

  /** The key: its first byte apart from the loop, as three type bits and four identifier bits. */
  method PutKey(out: array?<byte>, base: nat, len: nat, f: Field, ghost before: seq<byte>)
    returns (size: nat)
    requires IsField(f) && Holds(out, base, len, before, [])
    modifies out
    ensures size == |EncVarint(Key(f))|
    ensures Holds(out, base, len, before, EncVarint(Key(f)))
  {
    var key := Key(f);
    var first: byte := key % 0x80 + (if key / 0x80 != 0 then 0x80 else 0);
    size := PutByte(out, base, len, 0, first, before, []);
    ghost var done: seq<byte> := [first];
    assert [] + [first] == done;

    var rest: nat := f.id / 0x10;
    assert rest == key / 0x80;
    RestStep(key, first);
    while rest != 0
      invariant done + Rest(rest) == Rest(key)
      invariant size == |done|
      invariant Holds(out, base, len, before, done)
      decreases rest
    {
      var b: byte := rest % 0x80 + (if rest / 0x80 != 0 then 0x80 else 0);
      RestStep(rest, b);
      ConcatAssociative(done, [b], Rest(rest / 0x80));
      size := PutByte(out, base, len, size, b, before, done);
      done := done + [b];
      rest := rest / 0x80;
    }
  }

  /** Encode one key-value field. The size does not depend on the room, and exactly the part that fits is written. */
  method PBEncodeField(out: array?<byte>, base: nat, len: nat, f: Field) returns (size: nat)
    requires IsField(f)
    requires if out == null then len == 0 else base + len <= out.Length
    modifies out
    ensures size == |EncField(f)|
    ensures Holds(out, base, len, old(Contents(out)), EncField(f))
  {
    ghost var before := Contents(out);
    HoldsNothing(out, base, len);
    size := PutKey(out, base, len, f, before);
    ghost var key := EncVarint(Key(f));
    match f.value {
      case Varint(n) =>
        size := PutVarint(out, base, len, size, n, before, key);
      case Fixed64(n) =>
        size := PutBytes(out, base, len, size, LittleEndian(n, 8), before, key);
      case Fixed32(n) =>
        size := PutBytes(out, base, len, size, LittleEndian(n, 4), before, key);
      case Bytes(data) =>
        size := PutVarint(out, base, len, size, |data|, before, key);
        size := PutBytes(out, base, len, size, data, before, key + EncVarint(|data|));
        ConcatAssociative(key, EncVarint(|data|), data);
    }
  }

  /** `PBEncodeMsgField(msg, len, pos, ...)`: the field goes behind the first `pos` bytes, or nowhere once they
      overflow. */
  method PBEncodeMsgField(msg: array?<byte>, len: nat, pos: nat, f: Field, ghost before: seq<byte>,
      ghost enc: seq<byte>)
    returns (size: nat)
    requires IsField(f) && Holds(msg, 0, len, before, enc) && pos == |enc|
    modifies msg
    ensures size == |EncField(f)|
    ensures Holds(msg, 0, len, before, enc + EncField(f))
  {
    if msg != null {
      ClipGrows(before, 0, len, enc, EncField(f));
    }
    if pos < len {
      size := PBEncodeField(msg, pos, len - pos, f);
    } else {
      size := PBEncodeField(null, 0, 0, f);
      if pos == len && msg != null {
        assert Clip(EncField(f), 0) == [];
        assert Overwrite(msg[..], len, []) == msg[..];
      }
    }
  }

  lemma NextPrefix(fs: seq<Field>, i: nat)
    requires i < |fs|
    ensures EncAll(fs[..i + 1]) == EncAll(fs[..i]) + EncField(fs[i])
  {
    FieldOffset(fs, i);
  }

  /** A chain of `PBEncodeMsgField` calls that accumulate their sizes. */
  method PBEncodeMsgFields(msg: array?<byte>, len: nat, pos: nat, fs: seq<Field>, ghost before: seq<byte>,
      ghost enc: seq<byte>)
    returns (size: nat)
    requires AreFields(fs) && Holds(msg, 0, len, before, enc) && pos == |enc|
    modifies msg
    ensures size == pos + |EncAll(fs)|
    ensures Holds(msg, 0, len, before, enc + EncAll(fs))
  {
    size := pos;
    assert enc + [] == enc && fs[..0] == [];
    for i := 0 to |fs|
      invariant size == pos + |EncAll(fs[..i])|
      invariant Holds(msg, 0, len, before, enc + EncAll(fs[..i]))
    {
      ghost var soFar := EncAll(fs[..i]);
      NextPrefix(fs, i);
      ConcatAssociative(enc, soFar, EncField(fs[i]));
      var n := PBEncodeMsgField(msg, len, size, fs[i], before, enc + soFar);
      size := size + n;
    }
    assert fs[..|fs|] == fs;
  }
}
