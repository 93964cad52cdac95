/** Register accesses through the cached page number act on one flat register file. */
module Bme680Runs {
  import opened Bits
  import opened Bme680

  /** The cached page number is the chip's. I2C has no pages. */
  predicate Synced(s: State) {
    s.spi ==> s.memPage == PageBit(s.chip.status)
  }

  /** The registers, without the page bit that only paging looks at. */
  function View(c: Chip): Chip {
    c.(status := c.status - PageBit(c.status))
  }

  lemma PageBitApart(v: byte)
    ensures v - PageBit(v) >= 0 && PageBit(v - PageBit(v)) == 0
    ensures PageBit(v - PageBit(v) + MEM_PAGE0) == MEM_PAGE0
    ensures v - PageBit(v) + MEM_PAGE0 < 0x100
  {
  }

  // ----- The page switch -------------------------------------------------------------------------

  lemma BurstOfOne(c: Chip, spi: bool, a: byte, v: byte)
    ensures Burst(c, spi, [a, v]) == FlatWrite(c, Located(c, spi, a), v)
  {
    assert [a, v][2..] == [];
  }

  /** A page switch that succeeds shows the page of the register and changes nothing else. One that fails leaves the
      chip alone, but the cached number moves all the same. */
  lemma SwitchShowsPage(s: State, reg: byte)
    requires s.spi
    ensures var (t, ok) := Switch(s, reg);
            && t.spi && t.memPage == PageOf(reg)
            && (ok && (Synced(s) || PageOf(reg) != s.memPage) ==> Synced(t) && View(t.chip) == View(s.chip))
            && (!ok ==> t.chip == s.chip && PageOf(reg) != s.memPage)
  {
    if PageOf(reg) != s.memPage {
      PageBitApart(s.chip.status);
      var (t, data) := ReadTransfer(s.(memPage := PageOf(reg)), MEM_PAGE_ADDR, 1);
      if data.Some? {
        assert data.value[0] == s.chip.status;
        BurstOfOne(t.chip, true, 0x73, s.chip.status - PageBit(s.chip.status) + PageOf(reg));
      }
    }
  }

  /** A failed switch from a synchronised state leaves the cached number wrong. */
  lemma FailedSwitchDesyncs(s: State, reg: byte)
    requires s.spi && Synced(s)
    ensures Switch(s, reg).1 <==> Synced(Switch(s, reg).0)
  {
    SwitchShowsPage(s, reg);
  }

  // ----- Reading ---------------------------------------------------------------------------------

  /** The bytes read with the page bit of the status register masked out. */
  predicate Reads(data: seq<byte>, c: Chip, reg: byte, n: nat) {
    && |data| == n && reg + n <= 0x100
    && forall i :: 0 <= i < n ==>
         FlatRead(View(c), reg + i) == if IsStatus(reg + i) then data[i] - PageBit(data[i]) else data[i]
  }

  /** What a bus can read in one burst without its address wrapping around. */
  predicate InOnePage(spi: bool, reg: byte, n: nat) {
    if spi then reg % 0x80 + n <= 0x80 else reg + n <= 0x100
  }

  /** A read burst on the page that shows. */
  lemma BurstReads(s: State, wire: byte, reg: byte, n: nat)
    requires !Fails(s) && InOnePage(s.spi, reg, n)
    requires if s.spi then wire == reg % 0x80 + 0x80 && Base(s.chip) == reg - reg % 0x80 else wire == reg
    ensures var (t, data) := ReadTransfer(s, wire, n);
            data.Some? && t == Spent(s) && Reads(data.value, s.chip, reg, n)
  {
    var data := ReadTransfer(s, wire, n).1.value;
    PageBitApart(s.chip.status);
    forall i | 0 <= i < n
      ensures FlatRead(View(s.chip), reg + i) == if IsStatus(reg + i) then data[i] - PageBit(data[i]) else data[i]
    {
      assert Counted(s.chip, s.spi, wire, i) == reg + i;
    }
  }

  lemma GetReads(s: State, reg: byte, n: nat)
    requires Synced(s) && InOnePage(s.spi, reg, n) && Get(s, reg, n).1.Some?
    ensures var (t, data) := Get(s, reg, n);
            Synced(t) && t.spi == s.spi && View(t.chip) == View(s.chip) && Reads(data.value, s.chip, reg, n)
  {
    if s.spi {
      SwitchShowsPage(s, reg);
      BurstReads(Switch(s, reg).0, reg % 0x80 + 0x80, reg, n);
    } else {
      BurstReads(s, reg, reg, n);
    }
  }

  function OtherHalf(reg: byte): byte {
    if reg > 0x7F then reg - 0x80 else reg + 0x80
  }

  /** Once out of step the driver does not notice: a read that succeeds returns the registers of the other page. */
  lemma DesyncedReadsOtherPage(s: State, reg: byte, n: nat)
    requires s.spi && !Synced(s) && s.memPage == PageOf(reg) && InOnePage(true, reg, n)
    ensures var (t, data) := Get(s, reg, n);
            && !Synced(t) && t.chip == s.chip && (data.Some? <==> !Fails(s))
            && (data.Some? ==> Reads(data.value, s.chip, OtherHalf(reg), n))
  {
    if !Fails(s) {
      BurstReads(s, reg % 0x80 + 0x80, OtherHalf(reg), n);
    }
  }

  // ----- Writing ---------------------------------------------------------------------------------

  /** The registers of a burst as the chip takes them while it shows the page of register `last`. */
  function Landing(spi: bool, regs: seq<byte>, last: byte): seq<byte> {
    if spi then seq(|regs|, i requires 0 <= i < |regs| => last - last % 0x80 + regs[i] % 0x80) else regs
  }

  predicate OneHalf(regs: seq<byte>) {
    forall i, j :: 0 <= i < j < |regs| ==> PageOf(regs[i]) == PageOf(regs[j])
  }

  /** No write of the burst to the status register turns the page. */
  predicate KeepsPage(regs: seq<byte>, vals: seq<byte>)
    requires |regs| == |vals|
  {
    forall i :: 0 <= i < |regs| ==> IsStatus(regs[i]) ==> PageBit(vals[i]) == PageOf(regs[i])
  }

  lemma InterleavedTail(spi: bool, regs: seq<byte>, vals: seq<byte>)
    requires |regs| == |vals| && regs != []
    ensures Interleaved(spi, regs, vals)[2..] == Interleaved(spi, regs[1..], vals[1..])
  {
  }

  /** A burst writes the registers of the page that shows, one after the other. */
  lemma {:induction false} BurstWrites(c: Chip, spi: bool, regs: seq<byte>, vals: seq<byte>, last: byte)
    requires |regs| == |vals|
    requires spi ==> PageBit(c.status) == PageOf(last) && KeepsPage(Landing(spi, regs, last), vals)
    ensures var d := Burst(c, spi, Interleaved(spi, regs, vals));
            && d == FlatWrites(c, Landing(spi, regs, last), vals)
            && (spi ==> PageBit(d.status) == PageOf(last))
    decreases |regs|
  {
    if regs != [] {
      var landing := Landing(spi, regs, last);
      InterleavedTail(spi, regs, vals);
      assert landing[1..] == Landing(spi, regs[1..], last);
      var c' := FlatWrite(c, landing[0], vals[0]);
      assert Located(c, spi, Wire(spi, regs[0])) == landing[0];
      assert spi ==> PageOf(landing[0]) == PageOf(last);
      BurstWrites(c', spi, regs[1..], vals[1..], last);
    }
  }

  lemma {:induction false} ViewOfWrites(c: Chip, regs: seq<byte>, vals: seq<byte>)
    requires |regs| == |vals|
    ensures View(FlatWrites(View(c), regs, vals)) == View(FlatWrites(c, regs, vals))
    decreases |regs|
  {
    PageBitApart(c.status);
    if regs != [] {
      var a, b := FlatWrite(View(c), regs[0], vals[0]), FlatWrite(c, regs[0], vals[0]);
      PageBitApart(b.status);
      assert View(a) == View(b);
      ViewOfWrites(a, regs[1..], vals[1..]);
      ViewOfWrites(b, regs[1..], vals[1..]);
    }
  }

  /** The switches before a burst end on the page of its last register. */
  lemma {:induction false} SwitchesEndOnLast(s: State, regs: seq<byte>)
    requires s.spi && Synced(s) && regs != [] && AllSwitch(s, regs)
    ensures var (t, ok) := SwitchAll(s, regs);
            ok && t.spi && Synced(t) && t.memPage == PageOf(regs[|regs| - 1]) && View(t.chip) == View(s.chip)
    decreases |regs|
  {
    var front := regs[..|regs| - 1];
    if front != [] {
      SwitchesEndOnLast(s, front);
    }
    SwitchShowsPage(SwitchAll(s, front).0, regs[|regs| - 1]);
  }

  /** No switch of the burst fails. */
  predicate AllSwitch(s: State, regs: seq<byte>)
    decreases |regs|
  {
    regs == [] || (AllSwitch(s, regs[..|regs| - 1]) && SwitchAll(s, regs).1)
  }

  /** A burst whose switches all work writes its values, in order, into the page of its last register. */
  lemma SetLands(s: State, regs: seq<byte>, vals: seq<byte>)
    requires Synced(s) && |regs| == |vals| && Set(s, regs, vals).1 == OK
    requires s.spi ==> AllSwitch(s, regs) && KeepsPage(Landing(true, regs, regs[|regs| - 1]), vals)
    ensures var t := Set(s, regs, vals).0;
            && Synced(t) && t.spi == s.spi
            && View(t.chip) == View(FlatWrites(View(s.chip), Landing(s.spi, regs, regs[|regs| - 1]), vals))
  {
    var last := regs[|regs| - 1];
    var t := if s.spi then SwitchAll(s, regs).0 else s;
    if s.spi {
      SwitchesEndOnLast(s, regs);
    }
    BurstWrites(t.chip, s.spi, regs, vals, last);
    ViewOfWrites(t.chip, Landing(s.spi, regs, last), vals);
    ViewOfWrites(s.chip, Landing(s.spi, regs, last), vals);
  }

  /** That is where the values belong exactly when the burst stays in one half of the address space. */
  lemma LandsWhereMeantIff(regs: seq<byte>)
    requires regs != []
    ensures Landing(true, regs, regs[|regs| - 1]) == regs <==> OneHalf(regs)
  {
    var last := regs[|regs| - 1];
    var landing := Landing(true, regs, last);
    if OneHalf(regs) {
      assert forall i :: 0 <= i < |regs| ==> PageOf(regs[i]) == PageOf(last);
      assert forall i :: 0 <= i < |regs| ==> landing[i] == regs[i];
    }
    if landing == regs {
      forall i | 0 <= i < |regs| ensures PageOf(regs[i]) == PageOf(last) {
        assert landing[i] == regs[i];
      }
    }
  }

  /** Every register is in the page of the last, or is the status register, which answers in both. */
  predicate Meant(regs: seq<byte>, last: byte) {
    forall i :: 0 <= i < |regs| ==> PageOf(regs[i]) == PageOf(last) || IsStatus(regs[i])
  }

  lemma {:induction false} LandsAsMeant(c: Chip, regs: seq<byte>, vals: seq<byte>, last: byte)
    requires |regs| == |vals| && Meant(regs, last)
    ensures FlatWrites(c, Landing(true, regs, last), vals) == FlatWrites(c, regs, vals)
    decreases |regs|
  {
    if regs != [] {
      var landing := Landing(true, regs, last);
      assert landing[1..] == Landing(true, regs[1..], last);
      assert PageOf(regs[0]) == PageOf(last) || IsStatus(regs[0]);
      assert FlatWrite(c, landing[0], vals[0]) == FlatWrite(c, regs[0], vals[0]);
      LandsAsMeant(FlatWrite(c, regs[0], vals[0]), regs[1..], vals[1..], last);
    }
  }

  predicate AllZero(vals: seq<byte>) {
    forall i :: 0 <= i < |vals| ==> vals[i] == 0
  }

  lemma {:induction false} ZerosLeave(c: Chip, regs: seq<byte>, vals: seq<byte>, a: byte)
    requires |regs| == |vals| && AllZero(vals) && a !in regs
    ensures FlatWrites(c, regs, vals).mem[a] == c.mem[a]
    decreases |regs|
  {
    if regs != [] {
      ZerosLeave(FlatWrite(c, regs[0], vals[0]), regs[1..], vals[1..], a);
    }
  }

  lemma {:induction false} ZerosReach(c: Chip, regs: seq<byte>, vals: seq<byte>, a: byte)
    requires |regs| == |vals| && AllZero(vals) && a in regs && !IsStatus(a)
    ensures FlatWrites(c, regs, vals).mem[a] == 0
    decreases |regs|
  {
    var d := FlatWrite(c, regs[0], vals[0]);
    if a in regs[1..] {
      ZerosReach(d, regs[1..], vals[1..], a);
    } else {
      assert regs[0] == a;
      ZerosLeave(d, regs[1..], vals[1..], a);
    }
  }

  /** A register of the other page keeps its ones when the burst writes zeros. */
  lemma OtherPageMissed(regs: seq<byte>, last: byte, i: nat, c: Chip, vals: seq<byte>)
    requires i < |regs| && PageOf(regs[i]) != PageOf(last) && !IsStatus(regs[i])
    requires |vals| == |regs| && AllZero(vals) && c.mem[regs[i]] == 1
    ensures FlatWrites(c, Landing(true, regs, last), vals) != FlatWrites(c, regs, vals)
  {
    var landing := Landing(true, regs, last);
    forall j | 0 <= j < |landing| ensures landing[j] != regs[i] {
      assert PageOf(landing[j]) == PageOf(last);
    }
    ZerosReach(c, regs, vals, regs[i]);
    ZerosLeave(c, landing, vals, regs[i]);
  }

  /** A burst has the effect that is meant, on every chip and with all values, exactly when each of its registers is in
      the page of the last or is the status register. */
  lemma MeantEffectIff(regs: seq<byte>, last: byte)
    ensures (forall c, vals: seq<byte> :: |vals| == |regs| ==>
               FlatWrites(c, Landing(true, regs, last), vals) == FlatWrites(c, regs, vals))
            <==> Meant(regs, last)
  {
    if Meant(regs, last) {
      forall c, vals: seq<byte> | |vals| == |regs|
        ensures FlatWrites(c, Landing(true, regs, last), vals) == FlatWrites(c, regs, vals)
      {
        LandsAsMeant(c, regs, vals, last);
      }
    } else {
      var i :| 0 <= i < |regs| && PageOf(regs[i]) != PageOf(last) && !IsStatus(regs[i]);
      var ones: Registers := seq(0x100, _ => 1);
      OtherPageMissed(regs, last, i, Chip(ones, 0, ones), seq(|regs|, _ => 0));
    }
  }

  /** In a burst within one half only the first register can need a switch, so only its result can be a failure. */
  lemma {:induction false} OnlyFirstSwitches(s: State, regs: seq<byte>)
    requires s.spi && regs != [] && OneHalf(regs)
    ensures SwitchAll(s, regs).0 == Switch(s, regs[0]).0
    ensures |regs| > 1 ==> SwitchAll(s, regs).1
    ensures AllSwitch(s, regs) <==> Switch(s, regs[0]).1
    decreases |regs|
  {
    var front := regs[..|regs| - 1];
    if front != [] {
      OnlyFirstSwitches(s, front);
      assert front[0] == regs[0];
      SwitchShowsPage(s, regs[0]);
      assert PageOf(regs[|regs| - 1]) == PageOf(regs[0]);
    } else {
      assert SwitchAll(s, front) == (s, true);
    }
  }

  predicate NoStatus(regs: seq<byte>) {
    forall i :: 0 <= i < |regs| ==> !IsStatus(regs[i])
  }

  /** A burst written out of step stays out of step. */
  lemma DesyncedBurstStaysDesynced(s: State, regs: seq<byte>, vals: seq<byte>)
    requires s.spi && !Synced(s) && |regs| == |vals| && regs != [] && OneHalf(regs) && NoStatus(regs)
    requires s.memPage == PageOf(regs[0]) && !Fails(s)
    ensures !Synced(WriteTransfer(s, Interleaved(true, regs, vals)).0)
  {
    var other := OtherHalf(regs[0]);
    assert PageBit(s.chip.status) == PageOf(other);
    BurstWrites(s.chip, true, regs, vals, other);
  }

  /** The result of a burst of two or more registers does not tell a failed page switch, only a failed write. With one
      register it tells. */
  lemma BurstResult(s: State, regs: seq<byte>, vals: seq<byte>)
    requires s.spi && |regs| == |vals| && 0 < |regs| < TMP_BUFFER_LENGTH / 2 && OneHalf(regs)
    ensures Set(s, regs, vals).1 == OK <==> !Fails(Switch(s, regs[0]).0) && (|regs| > 1 || Switch(s, regs[0]).1)
  {
    OnlyFirstSwitches(s, regs);
  }

  /** A burst that reports success ends synchronised exactly when its page switch worked. */
  lemma FailedSwitchIsForgotten(s: State, regs: seq<byte>, vals: seq<byte>)
    requires s.spi && Synced(s) && |regs| == |vals| && Set(s, regs, vals).1 == OK
    requires OneHalf(regs) && NoStatus(regs)
    ensures Synced(Set(s, regs, vals).0) <==> Switch(s, regs[0]).1
  {
    OnlyFirstSwitches(s, regs);
    if Switch(s, regs[0]).1 {
      LandsWhereMeantIff(regs);
      SetLands(s, regs, vals);
    } else {
      SwitchShowsPage(s, regs[0]);
      DesyncedBurstStaysDesynced(Switch(s, regs[0]).0, regs, vals);
    }
  }

  // ----- Soft reset ------------------------------------------------------------------------------

  /** From any state, synchronised or not, a soft reset that succeeds leaves the chip as at power-on and the cached
      page number right. */
  lemma ResetResyncs(s: State)
    requires Reset(s).1 == OK
    ensures var t := Reset(s).0;
            && Synced(t) && t.spi == s.spi && t.chip == PowerOn(s.chip)
            && (s.spi ==> t.memPage == MEM_PAGE1)
  {
    var t := if s.spi then Learn(s).0 else s;
    var regs: seq<byte>, vals: seq<byte> := [SOFT_RESET_ADDR], [SOFT_RESET_CMD];
    var u := Set(t, regs, vals).0;
    var v := if s.spi then SwitchAll(t, regs).0 else t;
    if s.spi {
      LearnSyncs(s);
      OnlyFirstSwitches(t, regs);
      SwitchShowsPage(t, SOFT_RESET_ADDR);
      LearnSyncs(u);
    }
    assert Interleaved(s.spi, regs, vals) == [Wire(s.spi, SOFT_RESET_ADDR), SOFT_RESET_CMD];
    BurstOfOne(v.chip, s.spi, Wire(s.spi, SOFT_RESET_ADDR), SOFT_RESET_CMD);
    assert u.chip == PowerOn(v.chip);
  }

  lemma LearnSyncs(s: State)
    requires s.spi && Learn(s).1
    ensures Synced(Learn(s).0) && Learn(s).0.chip == s.chip && Learn(s).0.spi
  {
    assert ReadTransfer(s, MEM_PAGE_ADDR, 1).1.value[0] == s.chip.status;
  }

  // ----- Runs ------------------------------------------------------------------------------------

  datatype Access =
    | GetRegs(reg: byte, n: nat)
    | SetRegs(regs: seq<byte>, vals: seq<byte>)
    | SoftReset

  /** The access reaches the registers that are meant and does not write the page bit to something else. */
  predicate Fits(spi: bool, a: Access) {
    match a
    case GetRegs(reg, n) => InOnePage(spi, reg, n)
    case SetRegs(regs, vals) =>
      && |regs| == |vals|
      && (spi && regs != [] ==>
            var last := regs[|regs| - 1]; Meant(regs, last) && KeepsPage(Landing(true, regs, last), vals))
    case SoftReset => true
  }

  predicate Succeeds(s: State, a: Access) {
    match a
    case GetRegs(reg, n) => Get(s, reg, n).1.Some?
    case SetRegs(regs, vals) =>
      |regs| == |vals| && Set(s, regs, vals).1 == OK && (s.spi ==> AllSwitch(s, regs))
    case SoftReset => Reset(s).1 == OK
  }

  /** The state after an access, and the bytes it returns. */
  function Perform(s: State, a: Access): (State, seq<byte>)
    requires Succeeds(s, a)
  {
    match a
    case GetRegs(reg, n) => var (t, data) := Get(s, reg, n); (t, data.value)
    case SetRegs(regs, vals) => (Set(s, regs, vals).0, [])
    case SoftReset => (Reset(s).0, [])
  }

  /** The same access on a flat register file. */
  function FlatPerform(c: Chip, a: Access): Chip
    requires a.SetRegs? ==> |a.regs| == |a.vals|
  {
    match a
    case GetRegs(_, _) => c
    case SetRegs(regs, vals) => View(FlatWrites(c, regs, vals))
    case SoftReset => PowerOn(c)
  }

  lemma AccessRefines(s: State, a: Access)
    requires Synced(s) && Fits(s.spi, a) && Succeeds(s, a)
    ensures var (t, data) := Perform(s, a);
            && Synced(t) && t.spi == s.spi && View(t.chip) == FlatPerform(View(s.chip), a)
            && (a.GetRegs? ==> Reads(data, View(s.chip), a.reg, a.n))
  {
    PageBitApart(s.chip.status);
    match a {
      case GetRegs(reg, n) =>
        GetReads(s, reg, n);
      case SetRegs(regs, vals) =>
        SetLands(s, regs, vals);
        if s.spi {
          LandsAsMeant(View(s.chip), regs, vals, regs[|regs| - 1]);
        }
      case SoftReset =>
        ResetResyncs(s);
    }
  }

  ghost predicate AllSucceed(s: State, accesses: seq<Access>)
    decreases |accesses|
  {
    accesses != [] ==>
      && Fits(s.spi, accesses[0]) && Succeeds(s, accesses[0])
      && AllSucceed(Perform(s, accesses[0]).0, accesses[1..])
  }

  function PerformAll(s: State, accesses: seq<Access>): (State, seq<seq<byte>>)
    requires AllSucceed(s, accesses)
    decreases |accesses|
  {
    if accesses == [] then (s, [])
    else
      var (t, data) := Perform(s, accesses[0]);
      var (u, rest) := PerformAll(t, accesses[1..]);
      (u, [data] + rest)
  }

  function FlatRun(c: Chip, accesses: seq<Access>): Chip
    requires forall a <- accesses :: a.SetRegs? ==> |a.regs| == |a.vals|
    decreases |accesses|
  {
    if accesses == [] then c else FlatRun(FlatPerform(c, accesses[0]), accesses[1..])
  }

  /** Every read of the run returns what the flat register file holds at that point. */
  ghost predicate Answers(accesses: seq<Access>, replies: seq<seq<byte>>, c: Chip)
    requires forall a <- accesses :: a.SetRegs? ==> |a.regs| == |a.vals|
    decreases |accesses|
  {
    if accesses == [] then replies == []
    else
      && replies != []
      && (accesses[0].GetRegs? ==> Reads(replies[0], c, accesses[0].reg, accesses[0].n))
      && Answers(accesses[1..], replies[1..], FlatPerform(c, accesses[0]))
  }

  lemma {:induction false} AllPaired(s: State, accesses: seq<Access>)
    requires AllSucceed(s, accesses)
    ensures forall a <- accesses :: a.SetRegs? ==> |a.regs| == |a.vals|
    decreases |accesses|
  {
    if accesses != [] {
      AllPaired(Perform(s, accesses[0]).0, accesses[1..]);
      assert accesses == [accesses[0]] + accesses[1..];
    }
  }

  /** Over every run of accesses that succeed, each to registers of one page, the cached page number stays the chip's,
      the chip holds what a flat register file would, and every read returns what that file holds. */
  lemma {:induction false} RunRefines(s: State, accesses: seq<Access>)
    requires Synced(s) && AllSucceed(s, accesses)
    ensures forall a <- accesses :: a.SetRegs? ==> |a.regs| == |a.vals|
    ensures var (t, replies) := PerformAll(s, accesses);
            && Synced(t) && View(t.chip) == FlatRun(View(s.chip), accesses)
            && Answers(accesses, replies, View(s.chip))
    decreases |accesses|
  {
    AllPaired(s, accesses);
    if accesses != [] {
      var t := Perform(s, accesses[0]).0;
      AccessRefines(s, accesses[0]);
      AllPaired(t, accesses[1..]);
      RunRefines(t, accesses[1..]);
    }
  }

  // ----- When accesses succeed -------------------------------------------------------------------

  /** The next `n` transfers work. */
  predicate Work(s: State, n: nat) {
    forall i :: 0 <= i < n && i < |s.faults| ==> !s.faults[i]
  }

  /** A read succeeds exactly when its own transfer works and, on SPI when the page has to be switched, the two before
      it as well. */
  lemma GetSucceedsIff(s: State, reg: byte, n: nat)
    ensures Get(s, reg, n).1.Some? <==>
            Work(s, if s.spi && s.memPage != (if reg > 0x7F then 0x00 else 0x10) then 3 else 1)
  {
    assert Work(s, 1) <==> !Fails(s);
    assert Work(s, 3) <==> !Fails(s) && !Fails(Spent(s)) && !Fails(Spent(Spent(s)));
  }

  predicate AllWork(s: State) {
    forall i :: 0 <= i < |s.faults| ==> !s.faults[i]
  }

  lemma SwitchWorks(s: State, reg: byte)
    requires AllWork(s)
    ensures Switch(s, reg).1 && AllWork(Switch(s, reg).0) && Switch(s, reg).0.spi == s.spi
  {
  }

  lemma {:induction false} SwitchesWork(s: State, regs: seq<byte>)
    requires AllWork(s) && s.spi
    ensures AllSwitch(s, regs) && SwitchAll(s, regs).1 && AllWork(SwitchAll(s, regs).0) && SwitchAll(s, regs).0.spi
    decreases |regs|
  {
    if regs != [] {
      SwitchesWork(s, regs[..|regs| - 1]);
      SwitchWorks(SwitchAll(s, regs[..|regs| - 1]).0, regs[|regs| - 1]);
    }
  }

  lemma SetWorks(s: State, regs: seq<byte>, vals: seq<byte>)
    requires AllWork(s) && |regs| == |vals| && 0 < |regs| < 20
    ensures Set(s, regs, vals).1 == OK && AllWork(Set(s, regs, vals).0) && Set(s, regs, vals).0.spi == s.spi
  {
    if s.spi {
      SwitchesWork(s, regs);
    }
  }

  /** The access reaches the registers meant, and a burst has 1 to 19 of them. */
  predicate WellFormed(spi: bool, a: Access) {
    Fits(spi, a) && (a.SetRegs? ==> 0 < |a.regs| < 20)
  }

  /** When no transfer fails, every well-formed access succeeds. */
  lemma AccessWorks(s: State, a: Access)
    requires AllWork(s) && WellFormed(s.spi, a)
    ensures Succeeds(s, a) && AllWork(Perform(s, a).0) && Perform(s, a).0.spi == s.spi
  {
    match a
    case GetRegs(reg, n) =>
      GetSucceedsIff(s, reg, n);
      if s.spi {
        SwitchWorks(s, reg);
      }
    case SetRegs(regs, vals) =>
      SetWorks(s, regs, vals);
      if s.spi {
        SwitchesWork(s, regs);
      }
    case SoftReset =>
      var t := if s.spi then Learn(s).0 else s;
      SetWorks(t, [SOFT_RESET_ADDR], [SOFT_RESET_CMD]);
  }

  lemma {:induction false} RunWorks(s: State, accesses: seq<Access>)
    requires AllWork(s) && forall a <- accesses :: WellFormed(s.spi, a)
    ensures AllSucceed(s, accesses)
    decreases |accesses|
  {
    if accesses != [] {
      assert accesses[0] in accesses && forall a <- accesses[1..] :: a in accesses;
      AccessWorks(s, accesses[0]);
      RunWorks(Perform(s, accesses[0]).0, accesses[1..]);
    }
  }

  /** So on a bus without faults every run of such accesses, from a synchronised state, acts on the flat file. */
  lemma FaultlessRunRefines(s: State, accesses: seq<Access>)
    requires Synced(s) && AllWork(s) && forall a <- accesses :: WellFormed(s.spi, a)
    ensures AllSucceed(s, accesses)
    ensures forall a <- accesses :: a.SetRegs? ==> |a.regs| == |a.vals|
    ensures var (t, replies) := PerformAll(s, accesses);
            && Synced(t) && View(t.chip) == FlatRun(View(s.chip), accesses)
            && Answers(accesses, replies, View(s.chip))
  {
    RunWorks(s, accesses);
    RunRefines(s, accesses);
  }
}
