/** Register access of the BME680 driver: a chip with two pages of 128 registers behind a 7-bit SPI address, or all 256
    behind I2C, made to look like one flat register file by a cached page number. */
module Bme680 {
  import opened Bits

  datatype Option<T> = None | Some(value: T)

  datatype Rslt = OK | E_COM_FAIL | E_INVALID_LENGTH

  const MEM_PAGE0: byte := 0x10
  const MEM_PAGE1: byte := 0x00
  const MEM_PAGE_ADDR: byte := 0xF3
  const SOFT_RESET_ADDR: byte := 0xE0
  const SOFT_RESET_CMD: byte := 0xB6
  const TMP_BUFFER_LENGTH: nat := 40

  // ----- The chip --------------------------------------------------------------------------------

  type Registers = s: seq<byte> | |s| == 0x100 witness seq(0x100, _ => 0)

  /** The status register answers in both pages and holds the page bit. `powerOn` is what a reset loads. */
  datatype Chip = Chip(mem: Registers, status: byte, powerOn: Registers)

  /** `v & 0x10` */
  function PageBit(v: byte): byte {
    if (v / 0x10) % 2 == 1 then 0x10 else 0
  }

  predicate IsStatus(a: byte) {
    a % 0x80 == 0x73
  }

  /** The first register of the page that the chip shows. */
  function Base(c: Chip): byte {
    if PageBit(c.status) == MEM_PAGE0 then 0 else 0x80
  }

  function PowerOn(c: Chip): Chip {
    Chip(c.powerOn, 0, c.powerOn)
  }

  /** The register file by full address. */
  function FlatRead(c: Chip, a: byte): byte {
    if IsStatus(a) then c.status else c.mem[a]
  }

  function FlatWrite(c: Chip, a: byte, v: byte): Chip {
    if a == SOFT_RESET_ADDR && v == SOFT_RESET_CMD then PowerOn(c)
    else if IsStatus(a) then c.(status := v)
    else c.(mem := c.mem[a := v])
  }

  function FlatWrites(c: Chip, regs: seq<byte>, vals: seq<byte>): Chip
    requires |regs| == |vals|
    decreases |regs|
  {
    if regs == [] then c else FlatWrites(FlatWrite(c, regs[0], vals[0]), regs[1..], vals[1..])
  }

  /** Where the chip takes an address from the bus. */
  function Located(c: Chip, spi: bool, wire: byte): byte {
    if spi then Base(c) + wire % 0x80 else wire
  }

  /** A written burst is pairs of address and value. */
  function Burst(c: Chip, spi: bool, bytes: seq<byte>): Chip
    decreases |bytes|
  {
    if |bytes| < 2 then c else Burst(FlatWrite(c, Located(c, spi, bytes[0]), bytes[1]), spi, bytes[2..])
  }

  /** The register that byte `i` of a read burst comes from: the address counts up within what the bus can name. */
  function Counted(c: Chip, spi: bool, wire: byte, i: nat): byte {
    if spi then Base(c) + (wire % 0x80 + i) % 0x80 else (wire + i) % 0x100
  }

  // ----- The bus and the driver's state ----------------------------------------------------------

  /** `faults` says which of the coming transfers fail, none after its end; `idle` is what the host shifts out while
      it reads. A failed transfer does not reach the chip. */
  datatype State = State(chip: Chip, memPage: byte, spi: bool, idle: byte, faults: seq<bool>)

  predicate Fails(s: State) {
    s.faults != [] && s.faults[0]
  }

  function Spent(s: State): State {
    s.(faults := if s.faults == [] then [] else s.faults[1..])
  }

  function Idle(s: State, n: nat): seq<byte> {
    seq(n, _ => s.idle)
  }

  /** A read. On SPI an address byte without bit 7 makes it a write of the idle bytes. */
  function ReadTransfer(s: State, wire: byte, n: nat): (State, Option<seq<byte>>) {
    if Fails(s) then (Spent(s), None)
    else if s.spi && wire < 0x80 then (Spent(s).(chip := Burst(s.chip, true, [wire] + Idle(s, n))), Some(Idle(s, n)))
    else (Spent(s), Some(seq(n, i requires 0 <= i < n => FlatRead(s.chip, Counted(s.chip, s.spi, wire, i)))))
  }

  function WriteTransfer(s: State, bytes: seq<byte>): (State, bool) {
    if Fails(s) then (Spent(s), false)
    else (Spent(s).(chip := Burst(s.chip, s.spi, bytes)), true)
  }

  // ----- What the driver's functions do ----------------------------------------------------------

  function PageOf(reg: byte): byte {
    if reg > 0x7F then MEM_PAGE1 else MEM_PAGE0
  }

  /** `set_mem_page` */
  function Switch(s: State, reg: byte): (State, bool) {
    if PageOf(reg) == s.memPage then (s, true)
    else
      var (t, data) := ReadTransfer(s.(memPage := PageOf(reg)), MEM_PAGE_ADDR, 1);
      if data.None? then (t, false)
      else WriteTransfer(t, [MEM_PAGE_ADDR % 0x80, data.value[0] - PageBit(data.value[0]) + PageOf(reg)])
  }

  /** `get_mem_page` */
  function Learn(s: State): (State, bool) {
    var (t, data) := ReadTransfer(s, MEM_PAGE_ADDR, 1);
    if data.None? then (t, false) else (t.(memPage := PageBit(data.value[0])), true)
  }

  /** `bme680_get_regs` */
  function Get(s: State, reg: byte, n: nat): (State, Option<seq<byte>>) {
    if !s.spi then ReadTransfer(s, reg, n)
    else
      var (t, ok) := Switch(s, reg);
      var (u, data) := ReadTransfer(t, if ok then reg % 0x80 + 0x80 else reg, n);
      (u, if ok then data else None)
  }

  /** The page switches before a written burst, and how the last of them went. */
  function SwitchAll(s: State, regs: seq<byte>): (State, bool)
    decreases |regs|
  {
    if regs == [] then (s, true)
    else Switch(SwitchAll(s, regs[..|regs| - 1]).0, regs[|regs| - 1])
  }

  function Wire(spi: bool, reg: byte): byte {
    if spi then reg % 0x80 else reg
  }

  function Interleaved(spi: bool, regs: seq<byte>, vals: seq<byte>): seq<byte>
    requires |regs| == |vals|
  {
    seq(2 * |regs|, k requires 0 <= k < 2 * |regs| => if k % 2 == 0 then Wire(spi, regs[k / 2]) else vals[k / 2])
  }

  /** `bme680_set_regs` */
  function Set(s: State, regs: seq<byte>, vals: seq<byte>): (State, Rslt)
    requires |regs| == |vals|
  {
    if !(0 < |regs| < TMP_BUFFER_LENGTH / 2) then (s, E_INVALID_LENGTH)
    else
      var (t, ok) := if s.spi then SwitchAll(s, regs) else (s, true);
      if !ok then (t, E_COM_FAIL)
      else
        var (u, sent) := WriteTransfer(t, Interleaved(s.spi, regs, vals));
        (u, if sent then OK else E_COM_FAIL)
  }

  /** `bme680_soft_reset` */
  function Reset(s: State): (State, Rslt) {
    var (t, known) := if s.spi then Learn(s) else (s, true);
    if !known then (t, E_COM_FAIL)
    else
      var (u, rslt) := Set(t, [SOFT_RESET_ADDR], [SOFT_RESET_CMD]);
      if rslt != OK || !s.spi then (u, rslt)
      else
        var (v, again) := Learn(u);
        (v, if again then OK else E_COM_FAIL)
  }

  class Device {
    const spi: bool
    var memPage: byte
    var chip: Chip
    var faults: seq<bool>
    const idle: byte

    constructor (spi: bool, chip: Chip, idle: byte, faults: seq<bool>)
      ensures Now() == State(chip, 0, spi, idle, faults)
    {
      this.spi, this.memPage, this.chip, this.faults, this.idle := spi, 0, chip, faults, idle;
    }

    function Now(): State
      reads this
    {
      State(chip, memPage, spi, idle, faults)
    }

    /** `dev->read`: no data is a failure. */
    method BusRead(wire: byte, n: nat) returns (data: Option<seq<byte>>)
      modifies this`chip, this`faults
      ensures (Now(), data) == ReadTransfer(old(Now()), wire, n)
    {
      var (s, d) := ReadTransfer(Now(), wire, n);
      chip, faults, data := s.chip, s.faults, d;
    }

    /** `dev->write` */
    method BusWrite(bytes: seq<byte>) returns (ok: bool)
      modifies this`chip, this`faults
      ensures (Now(), ok) == WriteTransfer(old(Now()), bytes)
    {
      var (s, sent) := WriteTransfer(Now(), bytes);
      chip, faults, ok := s.chip, s.faults, sent;
    }

    method set_mem_page(reg_addr: byte) returns (rslt: Rslt)
      modifies this
      ensures Now() == Switch(old(Now()), reg_addr).0
      ensures rslt == if Switch(old(Now()), reg_addr).1 then OK else E_COM_FAIL
    {
      rslt := OK;
      var mem_page: byte;
      if reg_addr > 0x7F {
        mem_page := MEM_PAGE1;
      } else {
        mem_page := MEM_PAGE0;
      }
      if mem_page != memPage {
        memPage := mem_page;
        var data := BusRead(MEM_PAGE_ADDR, 1);
        if data.None? {
          rslt := E_COM_FAIL;
        }
        if rslt == OK {
          var reg := data.value[0];
          reg := reg - PageBit(reg);
          reg := reg + PageBit(memPage);
          var sent := BusWrite([MEM_PAGE_ADDR % 0x80, reg]);
          if !sent {
            rslt := E_COM_FAIL;
          }
        }
      }
    }

    method get_mem_page() returns (rslt: Rslt)
      modifies this
      ensures Now() == Learn(old(Now())).0
      ensures rslt == if Learn(old(Now())).1 then OK else E_COM_FAIL
    {
      rslt := OK;
      var data := BusRead(MEM_PAGE_ADDR, 1);
      if data.None? {
        rslt := E_COM_FAIL;
      } else {
        memPage := PageBit(data.value[0]);
      }
    }

    method bme680_get_regs(reg_addr: byte, len: nat) returns (rslt: Rslt, reg_data: Option<seq<byte>>)
      modifies this
      ensures Now() == Get(old(Now()), reg_addr, len).0
      ensures rslt == OK <==> Get(old(Now()), reg_addr, len).1.Some?
      ensures rslt == OK ==> reg_data == Get(old(Now()), reg_addr, len).1
      ensures rslt != E_INVALID_LENGTH
    {
      rslt := OK;
      var wire := reg_addr;
      if spi {
        rslt := set_mem_page(reg_addr);
        if rslt == OK {
          wire := reg_addr % 0x80 + 0x80;
        }
      }
      reg_data := BusRead(wire, len);
      if reg_data.None? {
        rslt := E_COM_FAIL;
      }
    }

    method bme680_set_regs(reg_addr: seq<byte>, reg_data: seq<byte>) returns (rslt: Rslt)
      requires |reg_addr| == |reg_data|
      modifies this
      ensures (Now(), rslt) == Set(old(Now()), reg_addr, reg_data)
      ensures rslt == E_INVALID_LENGTH <==> reg_addr == [] || |reg_addr| >= 20
      ensures rslt == E_INVALID_LENGTH ==> Now() == old(Now())
    {
      var len := |reg_addr|;
      if 0 < len < TMP_BUFFER_LENGTH / 2 {
        var tmp_buff := new byte[TMP_BUFFER_LENGTH](_ => 0);
        rslt := Interleave(reg_addr, reg_data, tmp_buff);
        if rslt == OK {
          var sent := BusWrite(tmp_buff[..2 * len]);
          if !sent {
            rslt := E_COM_FAIL;
          }
        }
      } else {
        rslt := E_INVALID_LENGTH;
      }
    }

    /** Address and value `index` of a burst. */
    method PutPair(tmp_buff: array<byte>, index: nat, reg: byte, value: byte)
      requires 2 * index + 1 < tmp_buff.Length
      modifies tmp_buff
      ensures tmp_buff[..] == old(tmp_buff[..])[2 * index := Wire(spi, reg)][2 * index + 1 := value]
    {
      if spi {
        tmp_buff[2 * index] := reg % 0x80;
      } else {
        tmp_buff[2 * index] := reg;
      }
      tmp_buff[2 * index + 1] := value;
    }

    /** The loop of `bme680_set_regs`: fill the buffer and switch pages. The result is the last switch's. */
    method Interleave(reg_addr: seq<byte>, reg_data: seq<byte>, tmp_buff: array<byte>) returns (rslt: Rslt)
      requires |reg_addr| == |reg_data| && 2 * |reg_addr| <= tmp_buff.Length
      modifies this, tmp_buff
      ensures (Now(), rslt == OK) == if spi then SwitchAll(old(Now()), reg_addr) else (old(Now()), true)
      ensures rslt != E_INVALID_LENGTH
      ensures tmp_buff[..2 * |reg_addr|] == Interleaved(spi, reg_addr, reg_data)
    {
      var index := 0;
      rslt := OK;
      while index < |reg_addr|
        invariant 0 <= index <= |reg_addr| && rslt != E_INVALID_LENGTH
        invariant (Now(), rslt == OK) == if spi then SwitchAll(old(Now()), reg_addr[..index]) else (old(Now()), true)
        invariant forall k :: 0 <= k < 2 * index ==>
          tmp_buff[k] == if k % 2 == 0 then Wire(spi, reg_addr[k / 2]) else reg_data[k / 2]
      {
        assert reg_addr[..index + 1][..index] == reg_addr[..index];
        if spi {
          rslt := set_mem_page(reg_addr[index]);
        }
        PutPair(tmp_buff, index, reg_addr[index], reg_data[index]);
        index := index + 1;
      }
      assert reg_addr[..index] == reg_addr;
    }

    method bme680_soft_reset() returns (rslt: Rslt)
      modifies this
      ensures (Now(), rslt) == Reset(old(Now()))
    {
      rslt := OK;
      if spi {
        rslt := get_mem_page();
      }
      if rslt == OK {
        rslt := bme680_set_regs([SOFT_RESET_ADDR], [SOFT_RESET_CMD]);
        if rslt == OK {
          if spi {
            rslt := get_mem_page();
          }
        }
      }
    }
  }
}
