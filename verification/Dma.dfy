/**
 Handing a buffer to another bus master and taking it back: what SCB_CleanDCache_by_Addr guarantees before a device
 reads memory, and what SCB_InvalidateDCache_by_Addr guarantees after a device has written it.
 */
module Dma {
  import opened Arith
  import opened Cache
  import opened Walks
  import opened Transparency

  function LineSet(addr: Addr, size: Int32): set<LineNo> { Elements(Lines(addr, size)) }

  /** Byte `a` lies in the buffer, in 32-bit address arithmetic. */
  ghost predicate InBuffer(addr: Addr, size: Int32, a: Addr) {
    exists i: nat :: i < size && ByteAt(addr, i) == a
  }

  predicate LineAligned(addr: Addr, size: Int32) { addr % LINE_BYTES == 0 && size % LINE_BYTES == 0 }

  lemma BufferLines(addr: Addr, size: Int32, a: Addr)
    requires InBuffer(addr, size, a)
    ensures LineOf(a) in LineSet(addr, size)
  {
    LinesExact(addr, size);
    var i: nat :| i < size && ByteAt(addr, i) == a;
    assert Touches(addr, size, LineOf(a));
  }

  /** An aligned buffer owns its lines: every byte of a line it touches is a byte of the buffer. */
  lemma AlignedBufferOwnsLines(addr: Addr, size: Int32, a: Addr)
    requires LineAligned(addr, size)
    ensures LineOf(a) in LineSet(addr, size) <==> InBuffer(addr, size, a)
  {
    if LineOf(a) in LineSet(addr, size) {
      var ls := Lines(addr, size);
      var k :| 0 <= k < |ls| && ls[k] == LineOf(a);
      var i: nat := 32 * k + a % 32;
      assert |ls| * 32 == size;
      assert i < size;
      assert ls[k] == (LineOf(addr) + k) % MEM_LINES;
      ByteOfLine(addr, k, a);
    }
    if InBuffer(addr, size, a) { BufferLines(addr, size, a); }
  }

  lemma ByteOfLine(addr: Addr, k: nat, a: Addr)
    requires addr % 32 == 0 && (LineOf(addr) + k) % MEM_LINES == LineOf(a)
    ensures ByteAt(addr, 32 * k + a % 32) == a
  {
    var q := (addr / 32 + k) / MEM_LINES;
    assert addr / 32 + k == q * MEM_LINES + a / 32;
    assert addr + (32 * k + a % 32) == q * 0x1_0000_0000 + a;
    DivUnique(addr + (32 * k + a % 32), q, a, 0x1_0000_0000);
  }

  // ---------- Memory to device ----------

  /** Cleaning a range makes memory show what the CPU sees there, and leaves the range fit to be lent. */
  lemma CleanPreparesRange(st: State, addr: Addr, size: Int32)
    requires InPhase(On, st, {})
    ensures var st1 := Step(st, CleanRange(addr, size));
      && InPhase(On, st1, {}) && NotDirtyIn(st1, LineSet(addr, size))
      && (forall l: LineNo :: View(st1, l) == View(st, l))
  {
    var st1 := Step(st, CleanRange(addr, size));
    OnStep(st, {}, CleanRange(addr, size));
    WalkAddrCleans(Clean, st, {}, Lines(addr, size));
    WalkAddrLeavesClean(Clean, st, {}, Lines(addr, size));
    SeenIsSettled(st, {});
    SeenIsSettled(st1, {});
    assert forall l: LineNo :: View(st1, l) == Settled(st1, {}, l) && View(st, l) == Settled(st, {}, l);
  }

  /**
   After cleaning a range the CPU sees what it saw, and memory holds that on the whole range: for the device now, and
   through any later run in which the CPU leaves those lines alone.
   */
  lemma CleanThenDeviceReads(st: State, addr: Addr, size: Int32, es: seq<Event>)
    requires InPhase(On, st, {}) && NeverDiscards(On, es)
    requires forall e :: e in es ==> Admissible(e, {})
    requires forall e :: e in es && e.Write? ==> LineOf(e.addr) !in LineSet(addr, size)
    ensures var r := Run(Step(st, CleanRange(addr, size)), es);
      && (forall a: Addr :: ReadByte(r, a) == LastWritten(es, a, ReadByte(st, a)))
      && (forall a: Addr :: InBuffer(addr, size, a) ==> MemByte(r, a) == ReadByte(st, a))
  {
    var st1, b := Step(st, CleanRange(addr, size)), LineSet(addr, size);
    CleanPreparesRange(st, addr, size);
    RunSeesLastWritten(st1, es);
    RunLeavesLentMemory(st1, b, es);
    var r := Run(st1, es);
    forall a: Addr ensures ReadByte(r, a) == LastWritten(es, a, ReadByte(st, a)) {
      assert View(st1, LineOf(a)) == View(st, LineOf(a));
    }
    forall a: Addr | InBuffer(addr, size, a) ensures MemByte(r, a) == ReadByte(st, a) {
      BufferLines(addr, size, a);
      assert View(st1, LineOf(a)) == View(st, LineOf(a));
    }
  }

  lemma RunSeesLastWritten(st: State, es: seq<Event>)
    requires InPhase(On, st, {}) && NeverDiscards(On, es) && forall e :: e in es ==> Admissible(e, {})
    ensures forall a: Addr :: ReadByte(Run(st, es), a) == LastWritten(es, a, ReadByte(st, a))
  {
    LoansStay({}, es);
    NeverFreshAgain(On, es);
    SeenOverRun(On, st, {}, es);
    forall a: Addr ensures ReadByte(Run(st, es), a) == LastWritten(es, a, ReadByte(st, a)) {
      assert SeenByte(Run(st, es), {}, a) == ReadByte(Run(st, es), a) && SeenByte(st, {}, a) == ReadByte(st, a);
    }
  }

  /** Memory of clean lines nobody writes keeps what the CPU saw there. */
  lemma RunLeavesLentMemory(st: State, b: set<LineNo>, es: seq<Event>)
    requires InPhase(On, st, {}) && NotDirtyIn(st, b) && NeverDiscards(On, es)
    requires forall e :: e in es ==> Admissible(e, {}) && (e.Write? ==> LineOf(e.addr) !in b)
    ensures forall a: Addr :: LineOf(a) in b ==> MemByte(Run(st, es), a) == ReadByte(st, a)
  {
    LoansStay(b, es);
    LendCleanLines(st, b);
    NeverFreshAgain(On, es);
    SeenOverRun(On, st, b, es);
    forall a: Addr | LineOf(a) in b ensures MemByte(Run(st, es), a) == ReadByte(st, a) {
      NotWritten(es, a, b, ReadByte(st, a));
      assert SeenByte(Run(st, es), b, a) == MemByte(Run(st, es), a) && SeenByte(st, b, a) == ReadByte(st, a);
    }
  }

  /** Lines whose memory already shows what the cache shows and that are not dirty can be lent. */
  lemma LendCleanLines(st: State, b: set<LineNo>)
    requires InPhase(On, st, {}) && NotDirtyIn(st, b)
    ensures InPhase(On, st, b)
    ensures forall l: LineNo :: Seen(st, b, l) == View(st, l)
  {
  }

  ghost predicate NotDirtyIn(st: State, b: set<LineNo>) {
    forall s, w :: 0 <= s < |st.lines| && 0 <= w < |st.lines[s]| && IsDirty(st.lines[s][w]) ==>
      st.lines[s][w].line !in b
  }

  lemma {:induction false} NotWritten(es: seq<Event>, a: Addr, b: set<LineNo>, v: Byte)
    requires LineOf(a) in b && forall e :: e in es ==> !e.DeviceWrite? && (e.Write? ==> LineOf(e.addr) !in b)
    ensures LastWritten(es, a, v) == v
  {
    if |es| > 0 { NotWritten(es[..|es| - 1], a, b, v); }
  }

  // ---------- Device to memory ----------

  /**
   Receiving from a device. Lend the buffer's lines while none of them is dirty. Then over any run in which the device
   writes only lent lines, the CPU writes only other lines, and every lent line is invalidated at some point after which
   the device leaves it alone, the CPU ends up seeing the device's bytes in the buffer and its own bytes elsewhere.
   Fills, evictions and accesses may fall anywhere, also between the writes of the invalidate loop.
   */
  lemma ReceiveAndReturn(st: State, b: set<LineNo>, es: seq<Event>)
    requires InPhase(On, st, {}) && NotDirtyIn(st, b)
    requires AdmissibleRun(b, es) && NeverDiscards(On, es) && LentAfter(b, es) == {}
    ensures InPhase(PhaseAfter(On, es), Run(st, es), {})
    ensures forall a: Addr :: ReadByte(Run(st, es), a) == LastWritten(es, a, ReadByte(st, a))
  {
    LendCleanLines(st, b);
    NeverFreshAgain(On, es);
    SeenOverRun(On, st, b, es);
    forall a: Addr ensures ReadByte(Run(st, es), a) == LastWritten(es, a, ReadByte(st, a)) {
      assert SeenByte(st, b, a) == ReadByte(st, a) && SeenByte(Run(st, es), {}, a) == ReadByte(Run(st, es), a);
    }
  }

  /** The event invalidates line `l` by address. */
  ghost predicate Returns(e: Event, l: LineNo) {
    e == MvaOp(Inv, l) || (e.InvalidateRange? && l in Lines(e.base, e.size))
  }

  /** A line is still lent exactly when it was lent and no event, single write or whole range, has invalidated it. */
  lemma {:induction false} StillLentIff(b: set<LineNo>, es: seq<Event>, l: LineNo)
    ensures l in LentAfter(b, es) <==> l in b && forall e :: e in es ==> !Returns(e, l)
  {
    if |es| > 0 {
      var init, e := es[..|es| - 1], es[|es| - 1];
      assert es == init + [e];
      StillLentIff(b, init, l);
      assert l in NextLent(LentAfter(b, init), e) <==> l in LentAfter(b, init) && !Returns(e, l);
      assert (forall f :: f in es ==> !Returns(f, l)) <==> (forall f :: f in init ==> !Returns(f, l)) && !Returns(e, l);
    }
  }

  /** What happens during a transfer into the buffer: the device writes it, and nothing is invalidated yet. */
  ghost predicate Transfer(addr: Addr, size: Int32, es: seq<Event>) {
    && NeverDiscards(On, es)
    && forall e :: e in es ==>
         && (e.DeviceWrite? ==> InBuffer(addr, size, e.addr))
         && !e.InvalidateRange? && !((e.MvaOp? || e.WayOp?) && e.op == Inv)
  }

  /** After the transfer and the final invalidate every byte reads as last written, by whichever side. */
  ghost predicate NothingLost(st: State, addr: Addr, size: Int32, es: seq<Event>)
    requires Wf(st)
  {
    var r := Step(Run(st, es), InvalidateRange(addr, size));
    forall a: Addr :: ReadByte(r, a) == LastWritten(es, a, ReadByte(st, a))
  }

  /** The memory map in force after `es`. */
  function MapAfter(policy: int -> Policy, es: seq<Event>): int -> Policy {
    if |es| == 0 then policy
    else if es[|es| - 1].ConfigMpu? then es[|es| - 1].map_
    else MapAfter(policy, es[..|es| - 1])
  }

  /** No CPU store meets a line of `b` while the map writes it back. */
  ghost predicate SparesWriteBack(policy: int -> Policy, b: set<LineNo>, es: seq<Event>) {
    forall k :: 0 <= k < |es| && es[k].Write? && LineOf(es[k].addr) in b ==>
      MapAfter(policy, es[..k])(LineOf(es[k].addr)) != WriteBack
  }

  /** One event of a transfer, while the lines of `b` are lent. */
  lemma TransferStep(ph: Phase, st: State, b: set<LineNo>, e: Event)
    requires ph != Fresh && InPhase(ph, st, b) && !(e.InvalidateAll? && ph == On)
    requires !e.InvalidateRange? && !((e.MvaOp? || e.WayOp?) && e.op == Inv)
    requires e.DeviceWrite? ==> LineOf(e.addr) in b
    requires e.Write? && LineOf(e.addr) in b ==> st.policy(LineOf(e.addr)) != WriteBack
    ensures InPhase(NextPhase(ph, e), Step(st, e), b) && NextLent(b, e) == b && StepTransparent(st, b, e)
  {
    if ph == Quiet {
      if e.Write? { OffStore(st, b, e); } else { QuietStep(st, b, e); }
    } else if e.Write? && LineOf(e.addr) in b {
      WriteLent(st, b, e.addr, e.value);
    } else {
      OnStep(st, b, e);
    }
  }

  lemma StepSetsMap(st: State, e: Event)
    requires Wf(st)
    ensures Step(st, e).policy == if e.ConfigMpu? then e.map_ else st.policy
  {
    if e.Write? { WriteKeepsWf(st, e.addr, e.value); }
    if e.Fill? { FillKeepsWf(st, e.line, e.way); }
  }

  /** Through a whole transfer the loan stands, and every byte seen is the last one written by either side. */
  lemma {:induction false} TransferSeen(st: State, b: set<LineNo>, addr: Addr, size: Int32, es: seq<Event>)
    requires InPhase(On, st, b) && b == LineSet(addr, size) && Transfer(addr, size, es)
    requires SparesWriteBack(st.policy, b, es)
    ensures PhaseAfter(On, es) != Fresh && InPhase(PhaseAfter(On, es), Run(st, es), b)
    ensures Run(st, es).policy == MapAfter(st.policy, es)
    ensures forall a: Addr :: SeenByte(Run(st, es), b, a) == LastWritten(es, a, SeenByte(st, b, a))
  {
    if |es| > 0 {
      var init, e := es[..|es| - 1], es[|es| - 1];
      TransferPrefix(st.policy, b, addr, size, es);
      TransferSeen(st, b, addr, size, init);
      assert e in es;
      if e.DeviceWrite? { BufferLines(addr, size, e.addr); }
      var mid := Run(st, init);
      TransferStep(PhaseAfter(On, init), mid, b, e);
      StepSetsMap(mid, e);
    }
  }

  lemma TransferPrefix(policy: int -> Policy, b: set<LineNo>, addr: Addr, size: Int32, es: seq<Event>)
    requires |es| > 0 && Transfer(addr, size, es) && SparesWriteBack(policy, b, es)
    ensures Transfer(addr, size, es[..|es| - 1]) && SparesWriteBack(policy, b, es[..|es| - 1])
  {
    var init := es[..|es| - 1];
    assert forall k :: 0 <= k < |init| ==> init[k] == es[k] && init[..k] == es[..k];
  }

  /**
   The usual order: the device finishes, then SCB_InvalidateDCache_by_Addr runs over the buffer. Nothing is lost, as
   long as no CPU store meets a line of the buffer that is written back.
   */
  lemma ReceiveThenInvalidate(st: State, addr: Addr, size: Int32, es: seq<Event>)
    requires InPhase(On, st, {}) && NotDirtyIn(st, LineSet(addr, size)) && Transfer(addr, size, es)
    requires SparesWriteBack(st.policy, LineSet(addr, size), es)
    ensures NothingLost(st, addr, size, es)
  {
    var b, e := LineSet(addr, size), InvalidateRange(addr, size);
    LendCleanLines(st, b);
    TransferSeen(st, b, addr, size, es);
    var r := Run(st, es);
    if PhaseAfter(On, es) == On { OnStep(r, b, e); } else { QuietStep(r, b, e); }
    assert NextLent(b, e) == {};
    forall a: Addr ensures ReadByte(Step(r, e), a) == LastWritten(es, a, ReadByte(st, a)) {
      assert SeenByte(Step(r, e), {}, a) == SeenByte(r, b, a) && SeenByte(st, b, a) == ReadByte(st, a);
    }
  }

  /** With a 32-byte aligned buffer it is enough that the CPU stays out of the buffer, whatever maps come into force. */
  lemma ReceiveAligned(st: State, addr: Addr, size: Int32, es: seq<Event>)
    requires InPhase(On, st, {}) && LineAligned(addr, size) && NotDirtyIn(st, LineSet(addr, size))
    requires Transfer(addr, size, es) && StaysOut(addr, size, es)
    ensures NothingLost(st, addr, size, es)
  {
    forall k | 0 <= k < |es| && es[k].Write? ensures LineOf(es[k].addr) !in LineSet(addr, size) {
      assert es[k] in es;
      AlignedBufferOwnsLines(addr, size, es[k].addr);
    }
    ReceiveThenInvalidate(st, addr, size, es);
  }

  /** The CPU does not store into the buffer itself. */
  ghost predicate StaysOut(addr: Addr, size: Int32, es: seq<Event>) {
    forall e :: e in es && e.Write? ==> !InBuffer(addr, size, e.addr)
  }

  /** Invalidating a range shows memory there, and loses exactly the dirty lines in it that memory does not hold. */
  lemma InvalidateKeepsViewIff(st: State, addr: Addr, size: Int32)
    requires InPhase(On, st, {})
    ensures var r := Step(st, InvalidateRange(addr, size));
      && r.mem == st.mem
      && (forall l: LineNo :: View(r, l) == if l in LineSet(addr, size) then st.mem[l] else View(st, l))
      && ((forall l: LineNo :: View(r, l) == View(st, l)) <==>
          (forall l: LineNo :: l in LineSet(addr, size) ==> Synced(st, l)))
  {
    var b, ls := LineSet(addr, size), Lines(addr, size);
    var r := Step(st, InvalidateRange(addr, size));
    WalkAddrInvalidates(st, ls);
    WalkAddrNoNewLines(Inv, st, ls);
    forall l: LineNo
      ensures View(r, l) == if l in b then st.mem[l] else View(st, l)
      ensures View(r, l) == View(st, l) <==> (l in b ==> Synced(st, l))
    {
      ViewIsCached(st, l);
      ViewIsCached(r, l);
      SyncedIff(st, l);
      if l in b { CachedMiss(r, l); } else { SameLookup(st, r, l); }
    }
  }

  // ---------- Exactly which buffers are safe ----------

  /** The map writes back no line the buffer shares with other bytes. */
  ghost predicate Shareable(policy: int -> Policy, addr: Addr, size: Int32) {
    forall a: Addr :: LineOf(a) in LineSet(addr, size) && !InBuffer(addr, size, a) ==> policy(LineOf(a)) != WriteBack
  }

  /** The transfer brings no map into force but those of `maps`. */
  ghost predicate MapsWithin(maps: iset<int -> Policy>, es: seq<Event>) {
    forall e :: e in es && e.ConfigMpu? ==> e.map_ in maps
  }

  lemma {:induction false} MapAfterWithin(policy: int -> Policy, maps: iset<int -> Policy>, es: seq<Event>)
    requires MapsWithin(maps, es)
    ensures MapAfter(policy, es) == policy || MapAfter(policy, es) in maps
  {
    if |es| > 0 {
      assert es[|es| - 1] in es;
      MapAfterWithin(policy, maps, es[..|es| - 1]);
    }
  }

  /** A transfer in which the CPU stays out of the buffer and only maps of `maps` come into force. */
  ghost predicate Fair(addr: Addr, size: Int32, maps: iset<int -> Policy>, es: seq<Event>) {
    Transfer(addr, size, es) && StaysOut(addr, size, es) && MapsWithin(maps, es)
  }

  lemma ShareableIsSafe(st: State, addr: Addr, size: Int32, maps: iset<int -> Policy>, es: seq<Event>)
    requires InPhase(On, st, {}) && NotDirtyIn(st, LineSet(addr, size))
    requires Shareable(st.policy, addr, size) && forall p :: p in maps ==> Shareable(p, addr, size)
    requires Fair(addr, size, maps, es)
    ensures NothingLost(st, addr, size, es)
  {
    forall k | 0 <= k < |es| && es[k].Write? && LineOf(es[k].addr) in LineSet(addr, size)
      ensures MapAfter(st.policy, es[..k])(LineOf(es[k].addr)) != WriteBack
    {
      assert es[k] in es;
      MapAfterWithin(st.policy, maps, es[..k]);
    }
    ReceiveThenInvalidate(st, addr, size, es);
  }

  /** A store that hits a write-back line does not reach memory. */
  lemma StoreStaysInCache(st: State, a: Addr, v: Byte)
    requires InPhase(On, st, {}) && Hit(st, LineOf(a)) && st.policy(LineOf(a)) == WriteBack
    ensures InPhase(On, Step(st, Write(a, v)), {}) && Step(st, Write(a, v)).mem == st.mem
  {
    WriteHit(st, {}, a, v);
  }

  /** A fill makes its line present and leaves the memory of that line alone. */
  lemma FillMakesHit(st: State, l: LineNo)
    requires InPhase(On, st, {}) && st.policy(l) == WriteBack
    ensures var r := Step(st, Fill(l, 0));
      InPhase(On, r, {}) && Hit(r, l) && r.mem[l] == st.mem[l] && r.policy == st.policy
  {
    FillOn(st, {}, l, 0);
    FillKeepsWf(st, l, 0);
    var s := l % |st.lines|;
    if Find(st.lines[s], l) == |st.lines[s]| {
      OpLineFrame(CleanInv, st, s, 0);
      assert !Holds(st.lines[s][0], l);
      assert Holds(Step(st, Fill(l, 0)).lines[s][0], l);
    }
  }

  /** A store to a write-back line of the buffer, once the line is filled, is reverted by the invalidate. */
  lemma StoreBesideIsReverted(st: State, addr: Addr, size: Int32, a: Addr, v: Byte)
    requires InPhase(On, st, {}) && LineOf(a) in LineSet(addr, size)
    requires st.policy(LineOf(a)) == WriteBack && MemByte(st, a) != v
    ensures ReadByte(Step(Step(Step(st, Fill(LineOf(a), 0)), Write(a, v)), InvalidateRange(addr, size)), a) != v
  {
    FillMakesHit(st, LineOf(a));
    var st1 := Step(st, Fill(LineOf(a), 0));
    StoreStaysInCache(st1, a, v);
    InvalidateKeepsViewIff(Step(st1, Write(a, v)), addr, size);
  }

  lemma RunLast(st: State, es: seq<Event>, n: nat)
    requires Wf(st) && |es| == n + 1
    ensures Run(st, es) == Step(Run(st, es[..n]), es[n])
  {
  }

  lemma RunOfTwo(st: State, es: seq<Event>)
    requires Wf(st) && |es| == 2
    ensures Run(st, es) == Step(Step(st, es[0]), es[1])
  {
    RunLast(st, es, 1);
    RunLast(st, es[..1], 0);
    assert es[..1][0] == es[0];
  }

  lemma RunOfThree(st: State, es: seq<Event>)
    requires Wf(st) && |es| == 3
    ensures Run(st, es) == Step(Step(Step(st, es[0]), es[1]), es[2])
  {
    RunLast(st, es, 2);
    RunOfTwo(st, es[..2]);
    assert es[..2][0] == es[0] && es[..2][1] == es[1];
  }

  /** A byte that memory does not hold at `a`. */
  ghost function OtherThan(st: State, a: Addr): (v: Byte)
    requires Wf(st)
    ensures v != MemByte(st, a)
  {
    if MemByte(st, a) == 0 then 1 else 0
  }

  function FillAndStore(a: Addr, v: Byte): seq<Event> { [Fill(LineOf(a), 0), Write(a, v)] }

  function RemapFillAndStore(policy: int -> Policy, a: Addr, v: Byte): seq<Event> {
    [ConfigMpu(policy), Fill(LineOf(a), 0), Write(a, v)]
  }

  lemma ShortRunsAreFair(addr: Addr, size: Int32, maps: iset<int -> Policy>, policy: int -> Policy, a: Addr, v: Byte)
    requires !InBuffer(addr, size, a)
    ensures Fair(addr, size, maps, FillAndStore(a, v))
    ensures policy in maps ==> Fair(addr, size, maps, RemapFillAndStore(policy, a, v))
  {
  }

  /** Under a map that writes the line back, a fill and a store beside the buffer lose the store. */
  lemma FillAndStoreLoses(st: State, addr: Addr, size: Int32, a: Addr)
    requires InPhase(On, st, {}) && LineOf(a) in LineSet(addr, size) && st.policy(LineOf(a)) == WriteBack
    ensures !NothingLost(st, addr, size, FillAndStore(a, OtherThan(st, a)))
  {
    var v := OtherThan(st, a);
    var es := FillAndStore(a, v);
    StoreBesideIsReverted(st, addr, size, a, v);
    RunOfTwo(st, es);
    assert LastWritten(es, a, ReadByte(st, a)) == v;
  }

  /** The same after a change to such a map. */
  lemma RemapFillAndStoreLoses(st: State, addr: Addr, size: Int32, policy: int -> Policy, a: Addr)
    requires InPhase(On, st, {}) && LineOf(a) in LineSet(addr, size) && policy(LineOf(a)) == WriteBack
    ensures !NothingLost(st, addr, size, RemapFillAndStore(policy, a, OtherThan(Step(st, ConfigMpu(policy)), a)))
  {
    var e := ConfigMpu(policy);
    OnStep(st, {}, e);
    StepSetsMap(st, e);
    var v := OtherThan(Step(st, e), a);
    var es := RemapFillAndStore(policy, a, v);
    StoreBesideIsReverted(Step(st, e), addr, size, a, v);
    RunOfThree(st, es);
    assert LastWritten(es, a, ReadByte(st, a)) == v;
  }

  /**
   Exactly which buffers are safe. From every coherent state with no dirty line in the buffer, every transfer during
   which the CPU stays out of the buffer, and which brings only maps of `maps` into force, ends with nothing lost if and
   only if neither the present map nor any of `maps` writes back a line the buffer shares with other bytes. With no map
   changes the condition is on the present map alone.
   */
  lemma ReceiveSafeIff(st: State, addr: Addr, size: Int32, maps: iset<int -> Policy>)
    requires InPhase(On, st, {}) && NotDirtyIn(st, LineSet(addr, size))
    ensures (forall es: seq<Event> :: Fair(addr, size, maps, es) ==> NothingLost(st, addr, size, es))
            <==> Shareable(st.policy, addr, size) && forall p :: p in maps ==> Shareable(p, addr, size)
  {
    if !Shareable(st.policy, addr, size) {
      var a: Addr :|
        LineOf(a) in LineSet(addr, size) && !InBuffer(addr, size, a) && st.policy(LineOf(a)) == WriteBack;
      ShortRunsAreFair(addr, size, maps, st.policy, a, OtherThan(st, a));
      FillAndStoreLoses(st, addr, size, a);
    } else if p :| p in maps && !Shareable(p, addr, size) {
      var a: Addr :| LineOf(a) in LineSet(addr, size) && !InBuffer(addr, size, a) && p(LineOf(a)) == WriteBack;
      ShortRunsAreFair(addr, size, maps, p, a, OtherThan(Step(st, ConfigMpu(p)), a));
      RemapFillAndStoreLoses(st, addr, size, p, a);
    } else {
      forall es: seq<Event> | Fair(addr, size, maps, es) ensures NothingLost(st, addr, size, es) {
        ShareableIsSafe(st, addr, size, maps, es);
      }
    }
  }

  // ---------- Alignment ----------

  /** The byte before an unaligned start, or else the byte behind an unaligned end. */
  function Neighbour(addr: Addr, size: Int32): Addr
    requires size > 0
  {
    if addr % LINE_BYTES != 0 then addr - 1 else ByteAt(addr, size)
  }

  /** It lies outside the buffer, but in one of its lines. */
  lemma NeighbourSharesLine(addr: Addr, size: Int32)
    requires size > 0 && !LineAligned(addr, size)
    ensures !InBuffer(addr, size, Neighbour(addr, size)) && LineOf(Neighbour(addr, size)) in LineSet(addr, size)
  {
    var b := Neighbour(addr, size);
    LinesExact(addr, size);
    if addr % 32 != 0 {
      assert ByteAt(addr, 0) == addr && LineOf(b) == LineOf(addr);
      assert Touches(addr, size, LineOf(b));
      NotWithin(addr, size, 0xFFFF_FFFF);
    } else {
      LineOfByteAt(addr, size);
      LineOfByteAt(addr, size - 1);
      assert size / 32 == (size - 1) / 32;
      assert Touches(addr, size, LineOf(b));
      NotWithin(addr, size, size);
    }
  }

  lemma NotWithin(addr: Addr, size: Int32, i: nat)
    requires size <= i < 0x1_0000_0000
    ensures !InBuffer(addr, size, ByteAt(addr, i))
  {
    forall j: nat | j < size ensures ByteAt(addr, j) != ByteAt(addr, i) {
      ResiduesDiffer(addr + j, addr + i, 0x1_0000_0000);
    }
  }

  /** Where the map writes all of the buffer's lines back, the condition is alignment. */
  lemma ShareableIffAligned(policy: int -> Policy, addr: Addr, size: Int32)
    requires size > 0 && forall l: LineNo :: l in LineSet(addr, size) ==> policy(l) == WriteBack
    ensures Shareable(policy, addr, size) <==> LineAligned(addr, size)
  {
    if LineAligned(addr, size) {
      forall a: Addr | LineOf(a) in LineSet(addr, size) ensures InBuffer(addr, size, a) {
        AlignedBufferOwnsLines(addr, size, a);
      }
    } else {
      NeighbourSharesLine(addr, size);
    }
  }
}
