/** The data EEPROM and the word-wise routines that program it.

    Addresses are offsets into the memory, whose base is word aligned. The HAL can refuse any operation of a memory that
    is not healthy; then the addressed word keeps its value. */
module EepromWords {
  import opened Bits

  class DataEeprom {
    const mem: array<byte>
    const healthy: bool

    constructor (size: nat, healthy: bool)
      requires size % 4 == 0
      ensures fresh(mem) && mem.Length == size && this.healthy == healthy
    {
      mem := new byte[size];
      this.healthy := healthy;
    }

    /** `HAL_FLASHEx_DATAEEPROM_Unlock` and `_Lock`, whose status is all that matters here. */
    method HalReady() returns (ok: bool)
      ensures healthy ==> ok
    {
      ok := *;
      ok := ok || healthy;
    }

    /** `HAL_FLASHEx_DATAEEPROM_Program` of one word, given by its bytes in memory order. */
    method HalProgram(addr: nat, word: seq<byte>) returns (ok: bool)
      requires addr % 4 == 0 && addr + 4 <= mem.Length && |word| == 4
      modifies mem
      ensures ok ==> mem[..] == Overwrite(old(mem[..]), addr, word)
      ensures !ok ==> mem[..] == old(mem[..])
      ensures healthy ==> ok
    {
      ok := *;
      ok := ok || healthy;
      if ok {
        forall i | 0 <= i < 4 {
          mem[addr + i] := word[i];
        }
      }
    }

    /** `HAL_FLASHEx_DATAEEPROM_Erase`: the word reads as zero. */
    method HalErase(addr: nat) returns (ok: bool)
      requires addr % 4 == 0 && addr + 4 <= mem.Length
      modifies mem
      ensures ok ==> mem[..] == Overwrite(old(mem[..]), addr, [0, 0, 0, 0])
      ensures !ok ==> mem[..] == old(mem[..])
      ensures healthy ==> ok
    {
      ok := HalProgram(addr, [0, 0, 0, 0]);
    }

    /** Erase the words that cover `size` bytes; an erase that fails is reported and skipped. */
    method HW_ResetEEPROM(addr: nat, size: nat) returns (ok: bool)
      requires addr % 4 == 0 && mem.Length % 4 == 0 && addr + size <= mem.Length
      modifies mem
      ensures ok ==> forall k | addr <= k < addr + (size + 3) / 4 * 4 :: mem[k] == 0
      ensures healthy ==> ok
      ensures forall k | 0 <= k < mem.Length && !(addr <= k < addr + (size + 3) / 4 * 4) :: mem[k] == old(mem[k])
    {
      ok := HalReady();
      for i := 0 to (size + 3) / 4
        invariant ok ==> forall k | addr <= k < addr + i * 4 :: mem[k] == 0
        invariant healthy ==> ok
        invariant forall k | 0 <= k < mem.Length && !(addr <= k < addr + i * 4) :: mem[k] == old(mem[k])
      {
        ghost var was := mem[..];
        var erased := HalErase(addr + i * 4);
        assert forall k | 0 <= k < mem.Length && !(addr + i * 4 <= k < addr + i * 4 + 4) :: mem[..][k] == was[k];
        assert erased ==> forall k | addr + i * 4 <= k < addr + i * 4 + 4 :: mem[..][k] == 0;
        ok := ok && erased;
      }
      var locked := HalReady();
    }

    /** One word of a write: the word at `at` with `data` copied into it from its byte `off` on. */
    method ProgramMerged(at: nat, off: nat, data: seq<byte>) returns (ok: bool)
      requires at % 4 == 0 && at + 4 <= mem.Length && off + |data| <= 4
      modifies mem
      ensures ok ==> mem[..] == Overwrite(old(mem[..]), at + off, data)
      ensures !ok ==> mem[..] == old(mem[..])
      ensures healthy ==> ok
    {
      var word := Overwrite(mem[at..at + 4], off, data);
      MergedWord(mem[..], at, off, data);
      assert mem[..][at..at + 4] == mem[at..at + 4];
      ok := HalProgram(at, word);
    }

    /** The loop over word aligned addresses; the last word may be partial. */
    method WriteAligned(addr: nat, buf: seq<byte>) returns (ok: bool, ghost written: nat)
      requires mem.Length % 4 == 0 && addr + |buf| <= mem.Length && (buf != [] ==> addr % 4 == 0)
      modifies mem
      ensures written <= |buf| && (ok ==> written == |buf|) && (healthy ==> ok)
      ensures mem[..] == Overwrite(old(mem[..]), addr, buf[..written])
    {
      ghost var before := mem[..];
      assert Overwrite(before, addr, buf[..0]) == before;
      written := 0;
      var i := 0;
      ok := true;
      while i * 4 < |buf|
        invariant written == Min(i * 4, |buf|)
        invariant mem[..] == Overwrite(before, addr, buf[..written])
        decreases |buf| - i * 4
      {
        WordFits(mem.Length, addr + i * 4);
        var n := if i * 4 + 4 > |buf| then |buf| % 4 else 4;
        RestOfWord(|buf|, i);
        ok := ProgramMerged(addr + i * 4, 0, buf[i * 4..i * 4 + n]);
        if !ok {
          return;
        }
        PrefixGrows(before, addr, buf, written, n);
        written := written + n;
        i := i + 1;
      }
      assert buf[..written] == buf;
    }

    /** Store `buf` at any byte address: the head of an unaligned word, whole words, and the head of the last word,
        each merged with the bytes around it.

        On success, which a healthy memory grants, memory is exactly overwritten by `buf`; on a failure it is
        overwritten by a prefix of it. */
    method HW_WriteEEPROM(addr: nat, buf: seq<byte>) returns (ok: bool, ghost written: nat)
      requires mem.Length % 4 == 0 && addr + |buf| <= mem.Length
      modifies mem
      ensures written <= |buf| && (ok ==> written == |buf|) && (healthy ==> ok)
      ensures mem[..] == Overwrite(old(mem[..]), addr, buf[..written])
    {
      ghost var before := mem[..];
      assert Overwrite(before, addr, buf[..0]) == before;
      written := 0;
      ok := HalReady();
      if !ok {
        return;
      }
      // store to an initial address inside a word
      ok, written := WriteHead(addr, buf);
      if !ok {
        return;
      }
      var head := HeadLength(addr, |buf|);
      ghost var rest;
      ok, rest := WriteAligned(addr + head, buf[head..]);
      HeadAndRest(before, addr, buf, head, rest);
      written := head + rest;
      if ok {
        ok := HalReady();
      }
    }

    /** The part of `buf` that shares a word with the bytes before `addr`. */
    method WriteHead(addr: nat, buf: seq<byte>) returns (ok: bool, ghost written: nat)
      requires mem.Length % 4 == 0 && addr + |buf| <= mem.Length
      modifies mem
      ensures written == (if ok then HeadLength(addr, |buf|) else 0) && (healthy ==> ok)
      ensures mem[..] == Overwrite(old(mem[..]), addr, buf[..written])
    {
      ghost var before := mem[..];
      assert Overwrite(before, addr, buf[..0]) == before;
      ok, written := true, 0;
      var off := addr % 4;
      if off != 0 {
        var len := if 4 - off > |buf| then |buf| else 4 - off;
        WordFits(mem.Length, addr - off);
        ok := ProgramMerged(addr - off, off, buf[..len]);
        written := if ok then len else 0;
      }
    }
  }

  function HeadLength(addr: nat, size: nat): (n: nat)
    ensures n <= size && (n < size ==> (addr + n) % 4 == 0)
  {
    if addr % 4 == 0 then 0 else Min(4 - addr % 4, size)
  }

  lemma WordFits(size: nat, at: nat)
    requires size % 4 == 0 && at % 4 == 0 && at < size
    ensures at + 4 <= size
  {
  }

  lemma RestOfWord(size: nat, i: nat)
    requires i * 4 < size
    ensures i * 4 + 4 > size ==> i * 4 + size % 4 == size
  {
  }

  lemma HeadAndRest(before: seq<byte>, addr: nat, buf: seq<byte>, head: nat, rest: nat)
    requires addr + |buf| <= |before| && head + rest <= |buf|
    ensures Overwrite(Overwrite(before, addr, buf[..head]), addr + head, buf[head..][..rest])
            == Overwrite(before, addr, buf[..head + rest])
  {
    PrefixGrows(before, addr, buf, head, rest);
    assert buf[head..][..rest] == buf[head..head + rest];
  }

  lemma PrefixGrows(before: seq<byte>, at: nat, buf: seq<byte>, m: nat, n: nat)
    requires m + n <= |buf| && at + |buf| <= |before|
    ensures Overwrite(Overwrite(before, at, buf[..m]), at + m, buf[m..m + n]) == Overwrite(before, at, buf[..m + n])
  {
    OverwriteGrows(before, at, buf[..m], buf[m..m + n]);
    assert buf[..m] + buf[m..m + n] == buf[..m + n];
  }

  /** Programming a word merged from memory and new bytes is writing just the new bytes. */
  lemma MergedWord(m: seq<byte>, at: nat, off: nat, data: seq<byte>)
    requires at + 4 <= |m| && off + |data| <= 4
    ensures Overwrite(m, at, Overwrite(m[at..at + 4], off, data)) == Overwrite(m, at + off, data)
  {
  }
}
