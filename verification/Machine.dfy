/**
 The processor as the firmware drives it: the registers the SCB_*, ARM_MPU_* and BOARD_ConfigMPU code writes, and that
 code itself, loop by loop. Each method is tied to the step or walk function the other modules reason about.
 */
module Machine {
  import opened Arith
  import opened Cache
  import opened Mpu
  import opened BoardMap
  import T = Transparency
  import D = Dma
  import W = Walks

  const WORD: nat := 0x1_0000_0000

  /** A 32-bit value read back as signed. */
  function Signed32(x: int): (r: W.Int32) {
    var u := x % WORD;
    if u >= 0x8000_0000 then u - WORD else u
  }

  /** A value one below an unsigned 32-bit counter, wrapping at zero. */
  function PreviousWord(x: nat): nat { if x == 0 then WORD - 1 else x - 1 }

  function CcsidrSets(x: nat): nat { x / 0x2000 % 0x8000 }
  function CcsidrWays(x: nat): nat { x / 8 % 0x400 }

  /** The CCSIDR macros read the two fields: associativity from bit 3, number of sets from bit 13. */
  lemma CcsidrFields(high: nat, sets: nat, ways: nat, low: nat)
    requires sets < 0x8000 && ways < 0x400 && low < 8
    ensures var x := high * 0x1000_0000 + sets * 0x2000 + ways * 8 + low; CcsidrSets(x) == sets && CcsidrWays(x) == ways
  {
    var x := high * 0x1000_0000 + sets * 0x2000 + ways * 8 + low;
    Field(x, high, sets, ways * 8 + low, 0x2000, 0x8000);
    Field(x, high * 0x8000 + sets, ways, low, 8, 0x400);
  }

  class CortexM7 {
    var mem: seq<LineData>
    var lines: seq<seq<Line>>
    var ccrDc: bool
    var ccrIc: bool
    var mpu: Regs
    const ccsidr: nat

    ghost function Core(): State
      reads this
    {
      State(mem, lines, ccrDc, LinePolicy(mpu))
    }

    /** CCSIDR reports the geometry, and the geometry fits the set/way operand fields of a Cortex-M7. */
    ghost predicate Valid()
      reads this
    {
      && Wf(Core())
      && |lines| == CcsidrSets(ccsidr) + 1 <= W.SET_FIELD
      && |lines[0]| == CcsidrWays(ccsidr) + 1 <= W.WAY_FIELD
      && |mpu.regions| == 16
    }

    /** Every state an earlier run can leave: enabled and coherent, or disabled with any lines at all. */
    ghost predicate Reachable()
      reads this
    {
      Valid() && (ccrDc ==> T.InPhase(T.On, Core(), {}))
    }

    /** Reset: both caches off, whatever the memory, the cache lines and the region file happen to hold. */
    constructor (mem: seq<LineData>, lines: seq<seq<Line>>, mpu: Regs, ccsidr: nat)
      requires Wf(State(mem, lines, false, LinePolicy(mpu))) && |mpu.regions| == 16
      requires |lines| == CcsidrSets(ccsidr) + 1 <= W.SET_FIELD && |lines[0]| == CcsidrWays(ccsidr) + 1 <= W.WAY_FIELD
      ensures Reachable() && !ccrIc && Core() == State(mem, lines, false, LinePolicy(mpu)) && this.mpu == mpu
    {
      this.mem, this.lines, this.mpu, this.ccsidr := mem, lines, mpu, ccsidr;
      ccrDc, ccrIc := false, false;
    }

    // ---------- Cache maintenance registers ----------

    /** The operation itself, on one line of the array. */
    method OperateOn(op: Op, s: nat, w: nat)
      requires Valid() && s < |lines| && w < |lines[s]|
      modifies this`mem, this`lines
      ensures Valid() && |lines| == old(|lines|) && |lines[0]| == old(|lines[0]|)
      ensures Core() == OpLine(op, old(Core()), s, w)
    {
      OpLineFrame(op, Core(), s, w);
      var ln := lines[s][w];
      if op != Inv && IsDirty(ln) {
        mem := mem[ln.line := ln.data];
        lines := lines[s := lines[s][w := ln.(dirty := false)]];
      }
      if op != Clean {
        lines := lines[s := lines[s][w := Invalid]];
      }
      assert Core() == OpLine(op, old(Core()), s, w);
    }

    /** A write to DCISW, DCCSW or DCCISW. */
    method WriteSetWay(op: Op, operand: nat)
      requires Valid()
      requires W.OperandSet(operand) < |lines| && W.OperandWay(operand) < |lines[0]|
      modifies this`mem, this`lines
      ensures Valid() && |lines| == old(|lines|) && |lines[0]| == old(|lines[0]|)
      ensures Core() == OpLine(op, old(Core()), W.OperandSet(operand), W.OperandWay(operand))
    {
      OperateOn(op, W.OperandSet(operand), W.OperandWay(operand));
    }

    /** The operand packed for `s` and `w`, written to a set/way register. */
    method IssueSetWay(op: Op, s: nat, w: nat)
      requires Valid() && s < |lines| && w < |lines[0]|
      modifies this`mem, this`lines
      ensures Valid() && |lines| == old(|lines|) && |lines[0]| == old(|lines[0]|)
      ensures Core() == OpLine(op, old(Core()), s, w)
    {
      W.OperandRoundTrip(s, w);
      WriteSetWay(op, W.Operand(s, w));
    }

    /** A write to DCIMVAC, DCCMVAC or DCCIMVAC; the register ignores the low five address bits. */
    method WriteMva(op: Op, address: Addr)
      requires Valid()
      modifies this`mem, this`lines
      ensures Valid()
      ensures Core() == OpAddr(op, old(Core()), LineOf(address))
    {
      var l := LineOf(address);
      var s := l % |lines|;
      var w := Find(lines[s], l);
      if w < |lines[s]| {
        OperateOn(op, s, w);
      }
    }

    /** The same write, as progress through the lines of a walk. */
    method VisitLine(op: Op, address: Addr, ghost st0: State, ghost ls: seq<LineNo>, ghost k: nat)
      requires Valid() && Wf(st0) && k < |ls| && LineOf(address) == ls[k]
      requires Core() == W.WalkAddr(op, st0, ls[..k])
      modifies this`mem, this`lines
      ensures Valid() && Core() == W.WalkAddr(op, st0, ls[..k + 1])
    {
      W.WalkAddrSnoc(op, st0, ls, k);
      WriteMva(op, address);
    }

    // ---------- SCB routines ----------

    /** The nested do-while of the whole-cache routines, counting sets and ways down by post-decrement. */
    method WalkSetsAndWays(op: Op)
      requires Valid()
      modifies this`mem, this`lines
      ensures Valid()
      ensures Core() == W.Walk(op, old(Core()), W.Everything(old(Core())))
    {
      ghost var st0 := Core();
      ghost var ns, nw := |lines|, |lines[0]|;
      var sets: nat := CcsidrSets(ccsidr);
      var moreSets := true;
      assert W.SetsDownTo(ns, nw, ns) == [];
      assert Core() == W.Walk(op, st0, []);
      while moreSets
        invariant Valid() && |lines| == ns && |lines[0]| == nw
        invariant moreSets ==> sets < ns
        invariant Core() == W.Walk(op, st0, W.SetsDownTo(ns, nw, if moreSets then sets + 1 else 0))
        decreases if moreSets then sets + 1 else 0
      {
        WalkWays(op, sets, st0);
        moreSets := sets != 0;
        sets := PreviousWord(sets);
      }
    }

    /** One register write, as progress through the ways of a set. */
    method VisitWay(op: Op, s: nat, w: nat, ghost st0: State, ghost done: seq<W.Pair>)
      requires Valid() && s < |lines| && w < |lines[0]|
      requires Wf(st0) && |st0.lines| == |lines| && |st0.lines[0]| == |lines[0]|
      requires Core() == W.Walk(op, st0, done + W.WaysDownTo(s, |lines[0]|, w + 1))
      modifies this`mem, this`lines
      ensures Valid() && |lines| == old(|lines|) && |lines[0]| == old(|lines[0]|)
      ensures Core() == W.Walk(op, st0, done + W.WaysDownTo(s, |lines[0]|, w))
    {
      W.WalkOneMoreWay(op, st0, done, s, |lines[0]|, w);
      IssueSetWay(op, s, w);
    }

    /** The inner do-while, for one set. */
    method WalkWays(op: Op, sets: nat, ghost st0: State)
      requires Valid() && sets < |lines|
      requires Wf(st0) && Core() == W.Walk(op, st0, W.SetsDownTo(|lines|, |lines[0]|, sets + 1))
      modifies this`mem, this`lines
      ensures Valid() && |lines| == old(|lines|) && |lines[0]| == old(|lines[0]|)
      ensures Core() == W.Walk(op, st0, W.SetsDownTo(|lines|, |lines[0]|, sets))
    {
      ghost var nw := |lines[0]|;
      ghost var done := W.SetsDownTo(|lines|, nw, sets + 1);
      var ways: nat := CcsidrWays(ccsidr);
      var moreWays := true;
      assert W.WaysDownTo(sets, nw, nw) == [];
      assert done + [] == done;
      while moreWays
        invariant Valid() && |lines| == old(|lines|) && |lines[0]| == nw
        invariant moreWays ==> ways < nw
        invariant Core() == W.Walk(op, st0, done + W.WaysDownTo(sets, nw, if moreWays then ways + 1 else 0))
        decreases if moreWays then ways + 1 else 0
      {
        VisitWay(op, sets, ways, st0, done);
        moreWays := ways != 0;
        ways := PreviousWord(ways);
      }
      assert W.SetsDownTo(|lines|, nw, sets) == done + W.WaysDownTo(sets, nw, 0);
    }

    /** SCB_EnableDCache. */
    method EnableDCache()
      requires Valid()
      modifies this`mem, this`lines, this`ccrDc
      ensures Valid() && Core() == T.EnableDCache(old(Core()))
    {
      if ccrDc { return; }
      T.EnableKeepsWf(Core());
      WalkSetsAndWays(Inv);
      ccrDc := true;
    }

    /** SCB_DisableDCache: the enable bit is cleared before the lines are written back. */
    method DisableDCache()
      requires Valid()
      modifies this`mem, this`lines, this`ccrDc
      ensures Valid() && Core() == T.DisableDCache(old(Core()))
    {
      ghost var off := T.Off(Core());
      ccrDc := false;
      assert Core() == off;
      WalkSetsAndWays(CleanInv);
    }

    /** SCB_InvalidateDCache. */
    method InvalidateDCache()
      requires Valid()
      modifies this`mem, this`lines
      ensures Valid() && Core() == T.Step(old(Core()), T.InvalidateAll)
    {
      WalkSetsAndWays(Inv);
    }

    /** SCB_CleanDCache. */
    method CleanDCache()
      requires Valid()
      modifies this`mem, this`lines
      ensures Valid() && Core() == T.Step(old(Core()), T.CleanAll)
    {
      WalkSetsAndWays(Clean);
    }

    /** SCB_CleanInvalidateDCache. */
    method CleanInvalidateDCache()
      requires Valid()
      modifies this`mem, this`lines
      ensures Valid() && Core() == T.Step(old(Core()), T.CleanInvalidateAll)
    {
      WalkSetsAndWays(CleanInv);
    }

    /**
     SCB_InvalidateDCache_by_Addr, SCB_CleanDCache_by_Addr and SCB_CleanInvalidateDCache_by_Addr, which differ in the
     register they write. `op_size` and `op_addr` are 32-bit and wrap.
     */
    method ByAddress(op: Op, addr: Addr, dsize: W.Int32)
      requires Valid()
      modifies this`mem, this`lines
      ensures Valid() && Core() == W.WalkAddr(op, old(Core()), W.Lines(addr, dsize))
    {
      ghost var st0 := Core();
      ghost var ls := W.Lines(addr, dsize);
      if dsize > 0 {
        var opSize := Signed32(dsize + addr % LINE_BYTES);
        var opAddr := addr;
        var more := true;
        ghost var k: nat := 0;
        BeforeFirstPass(addr, dsize);
        while more
          invariant Valid() && k <= |ls|
          invariant more <==> k < |ls|
          invariant opSize == SizeAfter(addr, dsize, k)
          invariant opAddr == AddrAfter(addr, k)
          invariant Core() == W.WalkAddr(op, st0, ls[..k])
          decreases |ls| - k
        {
          OnePass(addr, dsize, k);
          VisitLine(op, opAddr, st0, ls, k);
          opAddr := NextLine(opAddr);
          opSize := Signed32(opSize - LINE_BYTES);
          assert opSize == SizeAfter(addr, dsize, k + 1);
          more := opSize > 0;
          k := k + 1;
        }
        assert ls[..k] == ls;
      }
    }

    /** SCB_InvalidateDCache_by_Addr. */
    method InvalidateDCacheByAddr(addr: Addr, dsize: W.Int32)
      requires Valid()
      modifies this`mem, this`lines
      ensures Valid() && Core() == T.Step(old(Core()), T.InvalidateRange(addr, dsize))
    {
      ByAddress(Inv, addr, dsize);
    }

    /** SCB_CleanDCache_by_Addr. */
    method CleanDCacheByAddr(addr: Addr, dsize: W.Int32)
      requires Valid()
      modifies this`mem, this`lines
      ensures Valid() && Core() == T.Step(old(Core()), T.CleanRange(addr, dsize))
    {
      ByAddress(Clean, addr, dsize);
    }

    /** SCB_CleanInvalidateDCache_by_Addr. */
    method CleanInvalidateDCacheByAddr(addr: Addr, dsize: W.Int32)
      requires Valid()
      modifies this`mem, this`lines
      ensures Valid() && Core() == T.Step(old(Core()), T.CleanInvalidateRange(addr, dsize))
    {
      ByAddress(CleanInv, addr, dsize);
    }

    // ---------- MPU ----------

    /** ARM_MPU_OrderedMemcpy onto the registers from MPU->RBAR up. */
    method OrderedMemcpy(src: seq<nat>, len: nat)
      requires len <= |src| && len <= 8
      modifies this`mpu
      ensures mpu == CopyWords(old(mpu), src[..len])
    {
      var i := 0;
      while i < len
        invariant 0 <= i <= len
        invariant mpu == CopyWords(old(mpu), src[..i])
      {
        assert src[..i + 1][..i] == src[..i];
        mpu := WriteWord(mpu, i, src[i]);
        i := i + 1;
      }
    }

    /**
     ARM_MPU_Load. Whatever the table and the count, the region file and RNR end up as if the rows had been set one by
     one, and no write leaves the eight words from RBAR to RASR_A3.
     */
    method LoadRegions(table: seq<Row>, count: nat)
      requires count <= |table|
      modifies this`mpu
      ensures mpu == SetRegions(old(mpu), table[..count])
    {
      var cnt := count;
      ghost var k := 0;
      while cnt > 4
        invariant 0 <= k <= count && cnt == count - k
        invariant mpu == SetRegions(old(mpu), table[..k])
      {
        OneChunk(old(mpu), table, k, 4);
        assert table[count - cnt..] == table[k..];
        OrderedMemcpy(Words(table[count - cnt..]), 4 * 2);
        cnt := cnt - 4;
        k := k + 4;
      }
      OneChunk(old(mpu), table, k, cnt);
      assert table[count - cnt..] == table[k..];
      OrderedMemcpy(Words(table[count - cnt..]), cnt * 2);
    }

    // ---------- Board ----------

    /** The loop at board/board.c:361-364: `i` becomes the floor of the base-two logarithm. */
    method SizeLog2(size: nat) returns (i: nat)
      requires size < WORD
      ensures i == Log2(size) && i <= 31
      ensures size >= 1 ==> Pow2(i) <= size < Pow2(i + 1)
    {
      i := 0;
      while size / Pow2(i) > 1
        invariant size >= 1 ==> Pow2(i) <= size
        invariant size <= 1 ==> i == 0
        invariant i <= 31
        decreases 32 - i
      {
        Doubling(size, i);
        i := i + 1;
      }
      Doubling(size, i);
      if size >= 1 { Log2Unique(size, i); }
    }

    /** One `MPU->RBAR = ...; MPU->RASR = ...;` pair of the table. */
    method ProgramRow(n: nat, base: nat, attr: Attr, size: nat)
      requires n < 16 && |mpu.regions| == 16
      modifies this`mpu
      ensures mpu == old(mpu).(rnr := n, regions := old(mpu).regions[n := Region(base / 32 * 32, Rasr(attr, 0, size))])
    {
      SetOwnRegion(mpu, n, base, Rasr(attr, 0, size));
      mpu := WriteRbar(mpu, Rbar(n, base));
      mpu := WriteRasr(mpu, Rasr(attr, 0, size));
    }

    /** The same for a row of the board table, as progress through the table. */
    method ProgramTableRow(n: nat, base: nat, attr: Attr, size: nat,
                           ghost rs: seq<Region>, ghost xip: bool, ghost nc: NcSection)
      requires n < 13 && |rs| == 16 && InTable(xip, nc, n)
      requires mpu.regions == TableUpTo(rs, xip, nc, n)
      requires Spec(base, attr, size) == if n == 10 then Spec(nc.start, NON_CACHED, nc.log2 - 1) else Fixed(n)
      modifies this`mpu
      ensures mpu.regions == TableUpTo(rs, xip, nc, n + 1)
      ensures mpu.enabled == old(mpu.enabled) && mpu.background == old(mpu.background)
    {
      WriteTableRow(rs, xip, nc, n);
      RowIsRegion(nc, n);
      ProgramRow(n, base, attr, size);
    }

    /** Rows 0 to 9, board/board.c:320-359. */
    method ProgramFixedRows(xip: bool)
      requires |mpu.regions| == 16
      modifies this`mpu
      ensures mpu.regions == TableUpTo(old(mpu.regions), xip, NoSection, 10)
      ensures mpu.enabled == old(mpu.enabled) && mpu.background == old(mpu.background)
    {
      ghost var rs := mpu.regions;
      SectionComesLate(rs, xip, NoSection);
      ProgramTableRow(0, 0x0000_0000, DENY, 0x1F, rs, xip, NoSection);
      ProgramTableRow(1, 0x8000_0000, DEVICE, 0x1C, rs, xip, NoSection);
      ProgramTableRow(2, 0x6000_0000, DEVICE, 0x1C, rs, xip, NoSection);
      if xip {
        ProgramTableRow(3, 0x6000_0000, FLASH, 0x15, rs, xip, NoSection);
      }
      WriteTableRow(rs, xip, NoSection, 3);
      ProgramTableRow(4, 0x0000_0000, DEVICE, 0x1D, rs, xip, NoSection);
      ProgramTableRow(5, 0x0000_0000, WRITE_BACK, 0x10, rs, xip, NoSection);
      ProgramTableRow(6, 0x2000_0000, WRITE_BACK, 0x10, rs, xip, NoSection);
      ProgramTableRow(7, 0x2020_0000, WRITE_BACK, 0x12, rs, xip, NoSection);
      ProgramTableRow(8, 0x2028_0000, WRITE_BACK, 0x11, rs, xip, NoSection);
      ProgramTableRow(9, 0x8000_0000, WRITE_BACK, 0x18, rs, xip, NoSection);
    }

    /** Rows 10 to 12 and the asserts before them, board/board.c:361-384; a failing assert stops the program. */
    method ProgramSection(xip: bool, start: Addr, size: nat, ghost rs: seq<Region>) returns (ok: bool)
      requires size < WORD && |rs| == 16
      requires mpu.regions == TableUpTo(rs, xip, NoSection, 10)
      modifies this`mpu
      ensures ok <==> Expressible(start, size)
      ensures ok ==> mpu.regions == BoardRegions(rs, xip, SectionFor(start, size))
      ensures mpu.enabled == old(mpu.enabled) && mpu.background == old(mpu.background) && |mpu.regions| == 16
    {
      ghost var nc := SectionFor(start, size);
      SectionComesLate(rs, xip, nc);
      var i := SizeLog2(size);
      if i != 0 {
        if start % size != 0 { return false; }
        if size != Pow2(i) { return false; }
        if i < 5 { return false; }
        ProgramTableRow(10, start, NON_CACHED, i - 1, rs, xip, nc);
      }
      WriteTableRow(rs, xip, nc, 10);
      ProgramTableRow(11, 0x4000_0000, DEVICE, 0x15, rs, xip, nc);
      ProgramTableRow(12, 0x4200_0000, DEVICE, 0x13, rs, xip, nc);
      return true;
    }

    /**
     BOARD_ConfigMPU. From every reachable state, dirty lines or reset junk included, the CPU sees the same bytes
     afterwards; the run is the step `Reconfigure` with the new map; and every address resolves as the closed form says.
     When an assert stops it, cache and MPU are off and the bytes are still the same.
     */
    method BoardConfigMpu(xip: bool, start: Addr, size: nat) returns (ok: bool)
      requires Reachable() && size < WORD
      modifies this
      ensures Reachable() && (ok <==> Expressible(start, size))
      ensures forall a: Addr :: ReadByte(Core(), a) == old(ReadByte(Core(), a))
      ensures ok ==> Core() == T.Reconfigure(old(Core()), LinePolicy(mpu)) && ccrDc && ccrIc && AllInvalid(Core())
      ensures ok ==> mpu.enabled && mpu.background
      ensures ok ==> mpu.regions == BoardRegions(old(mpu.regions), xip, SectionFor(start, size))
      ensures !ok ==> !ccrDc && !ccrIc && !mpu.enabled
    {
      ghost var st0 := Core();
      ghost var rs := mpu.regions;
      if ccrIc { ccrIc := false; }
      if ccrDc {
        T.DisableFromOn(st0, {});
        DisableDCache();
      }
      ghost var st1 := Core();
      assert forall l: LineNo :: st1.mem[l] == View(st0, l);
      mpu := mpu.(enabled := false);
      ProgramFixedRows(xip);
      ok := ProgramSection(xip, start, size, rs);
      if !ok {
        assert Core() == T.Remap(st1, LinePolicy(mpu));
        return;
      }
      mpu := mpu.(enabled := true, background := true);
      ghost var st2 := T.Remap(st1, LinePolicy(mpu));
      assert Core() == st2;
      T.EnableFromOff(st2, {});
      EnableDCache();
      ccrIc := true;
      assert Core() == T.EnableDCache(st2);
    }
  }

  /** After a completed configuration every 32-bit address resolves to what the closed form states. */
  lemma ConfiguredMap(rs: seq<Region>, xip: bool, start: Addr, size: nat, m: Regs)
    requires |rs| == 16 && size < WORD && Expressible(start, size)
    requires m.enabled && m.regions == BoardRegions(rs, xip, SectionFor(start, size))
    requires SkippedRowsOff(rs, xip, SectionFor(start, size)) && forall k :: 13 <= k < 16 ==> !IsOn(rs[k].rasr)
    ensures forall a: Addr ::
      Resolve(m, a) == if OnPrivateBus(a) then ByDefault else ByRegion(Expected(xip, SectionFor(start, size), a))
    ensures forall a: Addr :: !OnPrivateBus(a) ==> MapMeans(xip, SectionFor(start, size), Resolve(m, a), a)
    ensures forall a: Addr :: InSection(SectionFor(start, size), a) <==> size > 1 && start <= a < start + size
  {
    var nc := SectionFor(start, size);
    ExpressibleIsLegal(start, size);
    forall a: Addr
      ensures Resolve(m, a) == if OnPrivateBus(a) then ByDefault else ByRegion(Expected(xip, nc, a))
      ensures !OnPrivateBus(a) ==> MapMeans(xip, nc, Resolve(m, a), a)
    {
      MapInClosedForm(rs, xip, nc, m, a);
      if !OnPrivateBus(a) { MapMeaning(rs, xip, nc, m, a); }
    }
  }

  /** Everything in the section bypasses the cache, also where a peripheral window or the private bus overlaps it. */
  lemma SectionBypasses(rs: seq<Region>, xip: bool, nc: NcSection, m: Regs, a: nat)
    requires |rs| == 16 && LegalSection(nc) && SkippedRowsOff(rs, xip, nc) && a < 0x1_0000_0000 && Winner(rs, a) < 13
    requires m.enabled && m.regions == BoardRegions(rs, xip, nc) && InSection(nc, a)
    ensures AddressPolicy(m, a) == Bypass
  {
    MapInClosedForm(rs, xip, nc, m, a);
  }

  /**
   What the section is for: a device buffer anywhere inside it may be received into without regard to alignment. No line
   it touches is written back, so `Dma.ReceiveSafeIff` applies.
   */
  lemma SectionBuffersAreShareable(rs: seq<Region>, xip: bool, nc: NcSection, m: Regs, addr: Addr, size: W.Int32)
    requires |rs| == 16 && nc.Section? && LegalSection(nc) && SkippedRowsOff(rs, xip, nc)
    requires forall k :: 13 <= k < 16 ==> !IsOn(rs[k].rasr)
    requires m.enabled && m.regions == BoardRegions(rs, xip, nc)
    requires nc.start <= addr && addr + size <= nc.start + Pow2(nc.log2)
    ensures D.Shareable(LinePolicy(m), addr, size)
  {
    forall l: LineNo | l in D.LineSet(addr, size) ensures LinePolicy(m)(l) == Bypass {
      LinesStayInSection(nc, addr, size, l);
      SectionBypasses(rs, xip, nc, m, l * LINE_BYTES);
    }
  }

  lemma LinesStayInSection(nc: NcSection, addr: Addr, size: W.Int32, l: LineNo)
    requires nc.Section? && LegalSection(nc) && nc.start <= addr && addr + size <= nc.start + Pow2(nc.log2)
    requires l in D.LineSet(addr, size)
    ensures InSection(nc, l * LINE_BYTES)
  {
    W.LinesExact(addr, size);
    SectionFits(nc);
    SectionStartKept(nc);
    var i: nat :| i < size && LineOf(W.ByteAt(addr, i)) == l;
    var b := addr + i;
    SmallMod(b, WORD);
    assert l == b / 32 && nc.start == nc.start / 32 * 32;
    FloorMono(nc.start, b, 32);
  }

  /** The shifted size exceeds one exactly when the next power of two still fits. */
  lemma Doubling(size: nat, i: nat)
    requires size < WORD
    ensures size / Pow2(i) > 1 <==> Pow2(i + 1) <= size
    ensures Pow2(i + 1) <= size ==> i + 1 <= 31
  {
    var d := Pow2(i);
    FloorBounds(size, d);
    assert Pow2(i + 1) == 2 * d;
    if size / d > 1 { MulMono(2, size / d, d); } else { MulMono(size / d + 1, 2, d); }
    assert (size / d + 1) * d == size / d * d + d;
    if i + 1 >= 32 {
      Pow2Add(i + 1 - 32, 32);
      Pow2Values();
      MulMono(1, Pow2(i + 1 - 32), WORD);
    }
  }

  /** `op_addr += 32` on an unsigned 32-bit value. */
  function NextLine(a: Addr): Addr { (a + LINE_BYTES) % WORD }

  function AddrAfter(addr: Addr, k: nat): Addr { (addr + 32 * k) % WORD }

  function SizeAfter(addr: Addr, dsize: W.Int32, k: nat): W.Int32 { Signed32(dsize + addr % LINE_BYTES - 32 * k) }

  lemma BeforeFirstPass(addr: Addr, dsize: W.Int32)
    requires dsize > 0
    ensures AddrAfter(addr, 0) == addr && SizeAfter(addr, dsize, 0) == Signed32(dsize + addr % LINE_BYTES)
    ensures |W.Lines(addr, dsize)| > 0
  {
  }

  /** Pass `k` names line `k` of the walk, and another pass follows exactly while lines are left, although `op_size` may
      start out negative. */
  lemma OnePass(addr: Addr, dsize: W.Int32, k: nat)
    requires dsize > 0 && k < |W.Lines(addr, dsize)|
    ensures LineOf(AddrAfter(addr, k)) == W.Lines(addr, dsize)[k]
    ensures NextLine(AddrAfter(addr, k)) == AddrAfter(addr, k + 1)
    ensures Signed32(SizeAfter(addr, dsize, k) - LINE_BYTES) == SizeAfter(addr, dsize, k + 1)
    ensures SizeAfter(addr, dsize, k + 1) > 0 <==> k + 1 < |W.Lines(addr, dsize)|
  {
    OneLineFurther(addr, k);
    OneLineLess(addr, dsize, k);
  }

  lemma OneLineFurther(addr: Addr, k: nat)
    ensures LineOf(AddrAfter(addr, k)) == (LineOf(addr) + k) % MEM_LINES
    ensures NextLine(AddrAfter(addr, k)) == AddrAfter(addr, k + 1)
  {
    var x := addr + 32 * k;
    var n, r := x / 0x1_0000_0000, x % 0x1_0000_0000;
    assert x == n * 0x1_0000_0000 + r;
    assert x / 32 == addr / 32 + k;
    assert x / 32 == n * 0x800_0000 + r / 32;
    if r + 32 < 0x1_0000_0000 {
      assert x + 32 == n * 0x1_0000_0000 + (r + 32);
    } else {
      assert x + 32 == (n + 1) * 0x1_0000_0000 + (r + 32 - 0x1_0000_0000);
    }
  }

  /** Taking a line off a remaining size, which need not fit a signed 32-bit value before. */
  lemma LessOne(left: int)
    requires 0 < left <= 0x8000_0000 + 30
    ensures Signed32(Signed32(left) - 32) == Signed32(left - 32) == left - 32
  {
  }

  lemma OneLineLess(addr: Addr, dsize: W.Int32, k: nat)
    requires dsize > 0 && k < W.Passes(addr, dsize)
    ensures Signed32(SizeAfter(addr, dsize, k) - LINE_BYTES) == SizeAfter(addr, dsize, k + 1)
    ensures SizeAfter(addr, dsize, k + 1) > 0 <==> k + 1 < W.Passes(addr, dsize)
  {
    var total := dsize + addr % LINE_BYTES;
    var left := total - 32 * k;
    assert W.Passes(addr, dsize) == (total + 31) / 32;
    assert 32 * k < total <= 0x8000_0000 + 30;
    LessOne(left);
    assert total - 32 * (k + 1) == left - 32;
  }

  /** The effect of an ordered copy of words onto the registers from RBAR up. */
  function CopyWords(m: Regs, ws: seq<nat>): Regs
    requires |ws| <= 8
  {
    if |ws| == 0 then m else WriteWord(CopyWords(m, ws[..|ws| - 1]), |ws| - 1, ws[|ws| - 1])
  }

  lemma CopySnoc(m: Regs, ws: seq<nat>, v: nat)
    requires |ws| < 8
    ensures CopyWords(m, ws + [v]) == WriteWord(CopyWords(m, ws), |ws|, v)
  {
  }

  /** Two words after an even number of words set one row. */
  lemma CopyRow(m: Regs, ws: seq<nat>, row: Row)
    requires |ws| <= 6 && |ws| % 2 == 0
    ensures CopyWords(m, ws + [row.rbar, row.rasr]) == SetRegion(CopyWords(m, ws), row)
  {
    CopySnoc(m, ws, row.rbar);
    CopySnoc(m, ws + [row.rbar], row.rasr);
    assert ws + [row.rbar] + [row.rasr] == ws + [row.rbar, row.rasr];
  }

  lemma WordsLast(rows: seq<Row>)
    requires |rows| > 0
    ensures var row := rows[|rows| - 1]; Words(rows) == Words(rows[..|rows| - 1]) + [row.rbar, row.rasr]
  {
  }

  /** Copying the words of up to four rows sets those rows. */
  lemma {:induction false} ChunkIsRows(m: Regs, rows: seq<Row>)
    requires |rows| <= 4
    ensures CopyWords(m, Words(rows)) == SetRegions(m, rows)
  {
    if |rows| > 0 {
      var init, row := rows[..|rows| - 1], rows[|rows| - 1];
      ChunkIsRows(m, init);
      CopyRow(m, Words(init), row);
      WordsLast(rows);
    }
  }

  lemma {:induction false} WordsPrefix(rows: seq<Row>, n: nat)
    requires n <= |rows|
    ensures Words(rows)[..n * 2] == Words(rows[..n])
    decreases |rows|
  {
    if n == |rows| {
      assert rows[..n] == rows;
    } else {
      var init := rows[..|rows| - 1];
      WordsPrefix(init, n);
      assert init[..n] == rows[..n];
      assert Words(rows)[..n * 2] == Words(init)[..n * 2];
    }
  }

  /** A chunk of `n` rows copied after the first `k` sets the first `k + n` rows. */
  lemma OneChunk(m: Regs, table: seq<Row>, k: nat, n: nat)
    requires n <= 4 && k + n <= |table|
    ensures CopyWords(SetRegions(m, table[..k]), Words(table[k..])[..n * 2]) == SetRegions(m, table[..k + n])
  {
    var done, rows := table[..k], table[k..][..n];
    WordsPrefix(table[k..], n);
    assert done + rows == table[..k + n];
    SetRegionsConcat(m, done, rows);
    ChunkIsRows(SetRegions(m, done), rows);
  }
}
