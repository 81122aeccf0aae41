/**
 Whole runs of the cached machine: CPU accesses, line fills and evictions in any interleaving with the
 SCB_* routines and the board's MPU reconfiguration. The question is whether a CPU read always
 returns what the CPU last wrote, as it would on plain memory.

 A routine is one step: no data access falls inside it. Fills and evictions happen only while the cache is
 enabled; a disabled cache neither looks up, nor allocates, nor evicts.
 */
module Transparency {
  import opened Arith
  import opened Cache
  import opened Walks

  // ---------- Accesses ----------

  function PokeMem(st: State, a: Addr, v: Byte): State
    requires Wf(st)
  {
    st.(mem := st.mem[LineOf(a) := st.mem[LineOf(a)][a % LINE_BYTES := v]])
  }

  /** A CPU store: into the line on a hit (and to memory too when writing through), else to memory. */
  function CpuWrite(st: State, a: Addr, v: Byte): State
    requires Wf(st)
  {
    var l := LineOf(a);
    var s := l % |st.lines|;
    var w := Find(st.lines[s], l);
    if Looked(st, l) && w < |st.lines[s]| then
      var ln := st.lines[s][w];
      var hit := ln.(data := ln.data[a % LINE_BYTES := v], dirty := ln.dirty || st.policy(l) == WriteBack);
      var st1 := SetLine(st, s, w, hit);
      if st.policy(l) == WriteThrough then PokeMem(st, a, v).(lines := st1.lines) else st1
    else
      PokeMem(st, a, v)
  }

  /** A line fill into way `w` of the line's set, after the victim has been written back. */
  function FillLine(st: State, l: LineNo, w: nat): State
    requires Wf(st)
  {
    var s := l % |st.lines|;
    if Looked(st, l) && w < |st.lines[s]| && Find(st.lines[s], l) == |st.lines[s]| then
      var st1 := OpLine(CleanInv, st, s, w);
      SetLine(st1, s, w, Valid(l, st1.mem[l], false))
    else st
  }

  function EvictLine(st: State, s: nat, w: nat): State
    requires Wf(st)
  {
    if st.enabled && s < |st.lines| && w < |st.lines[s]| then OpLine(CleanInv, st, s, w) else st
  }

  // ---------- The SCB_* routines ----------

  /** CMSIS/core_cm7.h:2325-2358. */
  function EnableDCache(st: State): State
    requires Wf(st)
  {
    if st.enabled then st else Walk(Inv, st, Everything(st)).(enabled := true)
  }

  /** CMSIS/core_cm7.h:2365-2396: the enable bit goes first, then the lines. */
  function DisableDCache(st: State): State
    requires Wf(st)
  {
    Walk(CleanInv, Off(st), Everything(Off(st)))
  }

  function Off(st: State): (r: State)
    requires Wf(st)
    ensures Wf(r)
  {
    var r := st.(enabled := false);
    assert forall s, w :: 0 <= s < |r.lines| && 0 <= w < |r.lines[s]| ==> InItsSet(st, s, w) && InItsSet(r, s, w);
    r
  }

  /** board/board.c:262-273 and 386-391: guarded disable, new memory map, enable. */
  function Reconfigure(st: State, policy: int -> Policy): State
    requires Wf(st)
  {
    var st1 := if st.enabled then DisableDCache(st) else st;
    EnableDCache(Remap(st1, policy))
  }

  function Remap(st: State, policy: int -> Policy): (r: State)
    requires Wf(st)
    ensures Wf(r)
  {
    var r := st.(policy := policy);
    assert forall s, w :: 0 <= s < |r.lines| && 0 <= w < |r.lines[s]| ==> InItsSet(st, s, w) && InItsSet(r, s, w);
    r
  }

  // ---------- Runs ----------

  datatype Event =
    | Read(addr: Addr)
    | Write(addr: Addr, value: Byte)
    | Fill(line: LineNo, way: nat)
    | Evict(set_: nat, way: nat)
    | Enable
    | Disable
    | CleanAll
    | CleanInvalidateAll
    | CleanRange(base: Addr, size: Int32)
    | CleanInvalidateRange(base: Addr, size: Int32)
    | ConfigMpu(map_: int -> Policy)
    | DeviceWrite(addr: Addr, value: Byte)
    | InvalidateRange(base: Addr, size: Int32)
    | InvalidateAll
    // single writes to the maintenance registers, for what happens between the writes of a routine's loop
    | WayOp(op: Op, set_: nat, way: nat)
    | MvaOp(op: Op, line: LineNo)

  function RawStep(st: State, e: Event): State
    requires Wf(st)
  {
    match e
    case Read(_) => st
    case Write(a, v) => CpuWrite(st, a, v)
    case Fill(l, w) => FillLine(st, l, w)
    case Evict(s, w) => EvictLine(st, s, w)
    case Enable => EnableDCache(st)
    case Disable => DisableDCache(st)
    case CleanAll => Walk(Clean, st, Everything(st))
    case CleanInvalidateAll => Walk(CleanInv, st, Everything(st))
    case CleanRange(a, n) => WalkAddr(Clean, st, Lines(a, n))
    case CleanInvalidateRange(a, n) => WalkAddr(CleanInv, st, Lines(a, n))
    case ConfigMpu(p) => Reconfigure(st, p)
    case DeviceWrite(a, v) => PokeMem(st, a, v)
    case InvalidateRange(a, n) => WalkAddr(Inv, st, Lines(a, n))
    case InvalidateAll => Walk(Inv, st, Everything(st))
    case WayOp(op, s, w) => Walk(op, st, [(s, w)])
    case MvaOp(op, l) => WalkAddr(op, st, [l])
  }

  lemma StepKeepsWf(st: State, e: Event)
    requires Wf(st)
    ensures Wf(RawStep(st, e)) && |RawStep(st, e).lines| == |st.lines|
    ensures |RawStep(st, e).lines[0]| == |st.lines[0]|
  {
    match e
    case Write(a, v) => WriteKeepsWf(st, a, v);
    case DeviceWrite(a, v) => PokeKeepsWf(st, a, v);
    case Fill(l, w) => FillKeepsWf(st, l, w);
    case Evict(s, w) =>
      if st.enabled && s < |st.lines| && w < |st.lines[s]| { OpLineFrame(CleanInv, st, s, w); }
    case Enable => EnableKeepsWf(st);
    case ConfigMpu(p) =>
      EnableKeepsWf(Remap(if st.enabled then DisableDCache(st) else st, p));
    case _ =>
  }

  lemma EnableKeepsWf(st: State)
    requires Wf(st)
    ensures Wf(EnableDCache(st)) && |EnableDCache(st).lines| == |st.lines|
    ensures |EnableDCache(st).lines[0]| == |st.lines[0]|
  {
    var r := Walk(Inv, st, Everything(st));
    var r' := r.(enabled := true);
    assert forall s, w :: 0 <= s < |r.lines| && 0 <= w < |r.lines[s]| ==> InItsSet(r, s, w) && InItsSet(r', s, w);
  }

  lemma PokeKeepsWf(st: State, a: Addr, v: Byte)
    requires Wf(st)
    ensures Wf(PokeMem(st, a, v))
  {
    var r := PokeMem(st, a, v);
    assert forall s, w :: 0 <= s < |r.lines| && 0 <= w < |r.lines[s]| ==> InItsSet(st, s, w) && InItsSet(r, s, w);
  }

  lemma WriteKeepsWf(st: State, a: Addr, v: Byte)
    requires Wf(st)
    ensures Wf(CpuWrite(st, a, v)) && SameShape(st, CpuWrite(st, a, v))
  {
    PokeKeepsWf(st, a, v);
    var r := CpuWrite(st, a, v);
    forall s, w | 0 <= s < |r.lines| && 0 <= w < |r.lines[s]| ensures InItsSet(r, s, w) {
      assert InItsSet(st, s, w);
    }
  }

  lemma FillKeepsWf(st: State, l: LineNo, w: nat)
    requires Wf(st)
    ensures Wf(FillLine(st, l, w)) && SameShape(st, FillLine(st, l, w))
  {
    var s := l % |st.lines|;
    if Looked(st, l) && w < |st.lines[s]| && Find(st.lines[s], l) == |st.lines[s]| {
      OpLineFrame(CleanInv, st, s, w);
      var st1, r := OpLine(CleanInv, st, s, w), FillLine(st, l, w);
      forall s', w' | 0 <= s' < |r.lines| && 0 <= w' < |r.lines[s']| ensures InItsSet(r, s', w') {
        assert InItsSet(st1, s', w');
      }
    }
  }

  function Step(st: State, e: Event): (r: State)
    requires Wf(st)
    ensures Wf(r) && |r.lines| == |st.lines| && |r.lines[0]| == |st.lines[0]|
  {
    StepKeepsWf(st, e);
    RawStep(st, e)
  }

  function Run(st: State, es: seq<Event>): (r: State)
    requires Wf(st)
    ensures Wf(r) && |r.lines| == |st.lines| && |r.lines[0]| == |st.lines[0]|
  {
    if |es| == 0 then st else Step(Run(st, es[..|es| - 1]), es[|es| - 1])
  }

  /** The plain-memory reference: the value most recently stored to `a`, or the initial one. */
  function LastWritten(es: seq<Event>, a: Addr, initial: Byte): Byte {
    if |es| == 0 then initial
    else
      var e := es[|es| - 1];
      if (e.Write? || e.DeviceWrite?) && e.addr == a then e.value
      else LastWritten(es[..|es| - 1], a, initial)
  }

  /** At every point of the run every CPU read would return the last value the CPU wrote. */
  ghost predicate Transparent(st: State, es: seq<Event>)
    requires Wf(st)
  {
    forall k, a: Addr :: 0 <= k <= |es| ==> TransparentAt(st, es, k, a)
  }

  ghost predicate TransparentAt(st: State, es: seq<Event>, k: nat, a: Addr)
    requires Wf(st) && k <= |es|
  {
    ReadByte(Run(st, es[..k]), a) == LastWritten(es[..k], a, ReadByte(st, a))
  }

  // ---------- Which runs are transparent ----------

  /** `Fresh`: disabled, lines never initialised; `On`: enabled; `Quiet`: disabled after use, all lines invalid. */
  datatype Phase = Fresh | On | Quiet

  ghost predicate InPhase(ph: Phase, st: State, dma: set<LineNo>) {
    && Wf(st)
    && match ph
       case Fresh => !st.enabled
       case On => st.enabled && Coherent(st, dma) && RespectsPolicy(st)
       case Quiet => !st.enabled && AllInvalid(st)
  }

  /**
   Who may do what while the lines in `dma` are lent to another bus master: the CPU does not write them, the device
   writes only them, and only they may be invalidated without cleaning. With nothing lent this leaves exactly the
   CPU-side events that discard nothing.
   */
  ghost predicate Admissible(e: Event, dma: set<LineNo>) {
    match e
    case Write(a, _) => LineOf(a) !in dma
    case DeviceWrite(a, _) => LineOf(a) in dma
    case InvalidateRange(a, n) => forall l :: l in Lines(a, n) ==> l in dma
    case MvaOp(op, l) => op == Inv ==> l in dma
    case WayOp(op, _, _) => op != Inv
    case _ => true
  }

  /** Invalidating a lent line ends its loan. */
  ghost function NextLent(dma: set<LineNo>, e: Event): set<LineNo> {
    match e
    case InvalidateRange(a, n) => dma - Elements(Lines(a, n))
    case MvaOp(op, l) => if op == Inv then dma - {l} else dma
    case _ => dma
  }

  function Elements(ls: seq<LineNo>): set<LineNo> { set l | l in ls }

  ghost function LentAfter(dma: set<LineNo>, es: seq<Event>): set<LineNo> {
    if |es| == 0 then dma else NextLent(LentAfter(dma, es[..|es| - 1]), es[|es| - 1])
  }

  /** Every event is admissible for the lines still lent when it happens. */
  ghost predicate AdmissibleRun(dma: set<LineNo>, es: seq<Event>) {
    |es| > 0 ==> AdmissibleRun(dma, es[..|es| - 1]) && Admissible(es[|es| - 1], LentAfter(dma, es[..|es| - 1]))
  }

  /** The event writes cache lines back to memory. */
  predicate Cleans(e: Event) {
    e.Disable? || e.CleanAll? || e.CleanInvalidateAll? ||
    ((e.CleanRange? || e.CleanInvalidateRange?) && e.size > 0) ||
    ((e.WayOp? || e.MvaOp?) && e.op != Inv)
  }

  function NextPhase(ph: Phase, e: Event): Phase {
    if e.Enable? || e.ConfigMpu? then On
    else if e.Disable? || (e.InvalidateAll? && ph == Fresh) then Quiet
    else ph
  }

  function PhaseAfter(ph: Phase, es: seq<Event>): Phase {
    if |es| == 0 then ph else NextPhase(PhaseAfter(ph, es[..|es| - 1]), es[|es| - 1])
  }

  /** Nothing is cleaned while the lines may still be junk from reset. */
  ghost predicate Disciplined(ph: Phase, es: seq<Event>) {
    forall k :: 0 <= k < |es| ==> !(Cleans(es[k]) && PhaseAfter(ph, es[..k]) == Fresh)
  }

  /** The whole cache is invalidated only while it is off: in use, that discards what has not been written back. */
  ghost predicate NeverDiscards(ph: Phase, es: seq<Event>) {
    forall k :: 0 <= k < |es| ==> !(es[k].InvalidateAll? && PhaseAfter(ph, es[..k]) == On)
  }

  // ---------- One step, phase by phase ----------

  ghost function SeenByte(st: State, dma: set<LineNo>, a: Addr): Byte
    requires Wf(st)
  {
    Seen(st, dma, LineOf(a))[a % LINE_BYTES]
  }

  /** What a step must do to be invisible: stores land at their address, nothing else moves. */
  ghost predicate StepTransparent(st: State, dma: set<LineNo>, e: Event)
    requires Wf(st)
  {
    forall a: Addr :: SeenByte(Step(st, e), NextLent(dma, e), a) ==
      if (e.Write? || e.DeviceWrite?) && e.addr == a then e.value else SeenByte(st, dma, a)
  }

  /** The same, line by line, for an event that stores nothing. */
  ghost predicate SameSeen(st: State, st': State, dma: set<LineNo>)
    requires Wf(st) && Wf(st')
  {
    forall l: LineNo :: Seen(st', dma, l) == Seen(st, dma, l)
  }

  /** While the cache is off, the CPU sees memory and nothing else. */
  lemma OffSeesMemory(st: State, dma: set<LineNo>)
    requires Wf(st) && !st.enabled
    ensures forall a: Addr :: SeenByte(st, dma, a) == MemByte(st, a)
  {
  }

  lemma PokeIsOneByte(st: State, a: Addr, v: Byte)
    requires Wf(st)
    ensures Wf(PokeMem(st, a, v))
    ensures forall b: Addr :: MemByte(PokeMem(st, a, v), b) == if b == a then v else MemByte(st, b)
  {
    PokeKeepsWf(st, a, v);
  }

  /** A store with the cache off goes to memory, whoever makes it. */
  lemma OffStore(st: State, dma: set<LineNo>, e: Event)
    requires Wf(st) && !st.enabled && (e.Write? || e.DeviceWrite?)
    ensures !Step(st, e).enabled && Step(st, e).lines == st.lines && StepTransparent(st, dma, e)
  {
    PokeIsOneByte(st, e.addr, e.value);
    OffSeesMemory(st, dma);
    OffSeesMemory(Step(st, e), dma);
  }

  /** So does nothing, when memory does not change. */
  lemma OffNoStore(st: State, dma: set<LineNo>, e: Event)
    requires Wf(st) && !st.enabled && !e.Write? && !e.DeviceWrite?
    requires !Step(st, e).enabled && Step(st, e).mem == st.mem
    ensures StepTransparent(st, dma, e)
  {
    OffSeesMemory(st, dma);
    OffSeesMemory(Step(st, e), NextLent(dma, e));
  }

  lemma OffEnable(st: State, dma: set<LineNo>, e: Event)
    requires Wf(st) && !st.enabled && (e.Enable? || e.ConfigMpu?)
    ensures InPhase(On, Step(st, e), dma) && StepTransparent(st, dma, e)
  {
    EnableFromOff(if e.ConfigMpu? then Remap(st, e.map_) else st, dma);
  }

  /** A disabled cache is invisible until something is cleaned. */
  lemma FreshStep(st: State, dma: set<LineNo>, e: Event)
    requires InPhase(Fresh, st, dma) && Admissible(e, dma) && !Cleans(e)
    ensures InPhase(NextPhase(Fresh, e), Step(st, e), NextLent(dma, e)) && StepTransparent(st, dma, e)
    ensures NextPhase(Fresh, e) == Fresh && dma == {} ==> Step(st, e).lines == st.lines
  {
    if e.Write? || e.DeviceWrite? {
      OffStore(st, dma, e);
    } else if e.Enable? || e.ConfigMpu? {
      OffEnable(st, dma, e);
    } else {
      if e.InvalidateRange? { assert |Lines(e.base, e.size)| > 0 ==> Lines(e.base, e.size)[0] in dma; }
      if e.InvalidateAll? { InvalidateAllEmpties(st); }
      OffNoStore(st, dma, e);
    }
  }

  lemma EnableFromOff(st: State, dma: set<LineNo>)
    requires Wf(st) && !st.enabled
    ensures InPhase(On, EnableDCache(st), dma) && AllInvalid(EnableDCache(st))
    ensures forall l: LineNo :: View(EnableDCache(st), l) == EnableDCache(st).mem[l] == st.mem[l]
  {
    EnableKeepsWf(st);
    InvalidateAllEmpties(st);
    var r := EnableDCache(st);
    forall l: LineNo ensures View(r, l) == st.mem[l] {
      CachedMiss(r, l);
    }
  }

  /** An empty disabled cache is invisible under everything. */
  lemma QuietStep(st: State, dma: set<LineNo>, e: Event)
    requires InPhase(Quiet, st, dma) && Admissible(e, dma)
    ensures InPhase(NextPhase(Quiet, e), Step(st, e), NextLent(dma, e)) && StepTransparent(st, dma, e)
  {
    if e.Write? || e.DeviceWrite? {
      OffStore(st, dma, e);
    } else if e.Enable? || e.ConfigMpu? {
      OffEnable(st, dma, e);
    } else {
      if IsMaintenance(e) { QuietMaintenance(st, e); }
      OffNoStore(st, dma, e);
    }
  }

  predicate IsMaintenance(e: Event) {
    e.Disable? || e.CleanAll? || e.CleanInvalidateAll? || e.CleanRange? || e.CleanInvalidateRange? ||
    e.InvalidateRange? || e.InvalidateAll? || e.WayOp? || e.MvaOp?
  }

  /** A step that leaves an empty disabled cache empty and disabled, and memory alone. */
  ghost predicate LeavesQuiet(st: State, r: State) { r.mem == st.mem && AllInvalid(r) && !r.enabled }

  lemma QuietWalk(op: Op, st: State, ps: seq<Pair>)
    requires InPhase(Quiet, st, {})
    ensures LeavesQuiet(st, Walk(op, st, ps))
  {
    WalkOnEmpty(op, st, ps);
  }

  lemma QuietWalkAddr(op: Op, st: State, ls: seq<LineNo>)
    requires InPhase(Quiet, st, {})
    ensures LeavesQuiet(st, WalkAddr(op, st, ls))
  {
    WalkAddrOnEmpty(op, st, ls);
  }

  lemma QuietDisable(st: State)
    requires InPhase(Quiet, st, {})
    ensures LeavesQuiet(st, DisableDCache(st))
  {
    QuietWalk(CleanInv, Off(st), Everything(Off(st)));
  }

  lemma QuietByAddress(st: State, e: Event)
    requires InPhase(Quiet, st, {})
    requires e.CleanRange? || e.CleanInvalidateRange? || e.InvalidateRange? || e.MvaOp?
    ensures LeavesQuiet(st, Step(st, e))
  {
    if e.MvaOp? {
      QuietWalkAddr(e.op, st, [e.line]);
    } else {
      var op := if e.CleanRange? then Clean else if e.CleanInvalidateRange? then CleanInv else Inv;
      QuietWalkAddr(op, st, Lines(e.base, e.size));
    }
  }

  lemma QuietBySetWay(st: State, e: Event)
    requires InPhase(Quiet, st, {}) && (e.CleanAll? || e.CleanInvalidateAll? || e.InvalidateAll? || e.WayOp?)
    ensures LeavesQuiet(st, Step(st, e))
  {
    if e.WayOp? {
      QuietWalk(e.op, st, [(e.set_, e.way)]);
    } else {
      var op := if e.CleanAll? then Clean else if e.CleanInvalidateAll? then CleanInv else Inv;
      QuietWalk(op, st, Everything(st));
    }
  }

  /** Maintenance finds nothing to do in an empty cache. */
  lemma QuietMaintenance(st: State, e: Event)
    requires InPhase(Quiet, st, {}) && IsMaintenance(e)
    ensures LeavesQuiet(st, Step(st, e))
  {
    if e.Disable? {
      QuietDisable(st);
    } else if e.CleanAll? || e.CleanInvalidateAll? || e.InvalidateAll? || e.WayOp? {
      QuietBySetWay(st, e);
    } else {
      QuietByAddress(st, e);
    }
  }

  /** In an enabled machine that respects the map, what is seen is what is settled. */
  lemma SeenIsSettled(st: State, dma: set<LineNo>)
    requires Wf(st) && RespectsPolicy(st) && st.enabled
    ensures forall l: LineNo :: Seen(st, dma, l) == Settled(st, dma, l)
  {
  }

  /** Disabling an enabled, coherent cache leaves memory holding everything that was seen. */
  lemma DisableFromOn(st: State, dma: set<LineNo>)
    requires InPhase(On, st, dma)
    ensures InPhase(Quiet, DisableDCache(st), dma)
    ensures forall l: LineNo :: DisableDCache(st).mem[l] == Seen(st, dma, l)
  {
    var off := Off(st);
    CleanAllWritesBack(CleanInv, off, dma);
    SeenIsSettled(st, dma);
    assert forall l: LineNo :: Settled(off, dma, l) == Settled(st, dma, l);
  }

  /** `st'` holds no line, and no dirty line, that `st` does not. */
  ghost predicate NoNewLines(st: State, st': State) {
    && SameShape(st, st')
    && forall s, w :: 0 <= s < |st.lines| && 0 <= w < |st.lines[s]| && st'.lines[s][w].Valid? ==>
         && st.lines[s][w].Valid? && st.lines[s][w].line == st'.lines[s][w].line
         && (st'.lines[s][w].dirty ==> st.lines[s][w].dirty)
  }

  /** Any step of a coherent enabled cache that adds no line and keeps the settled views is transparent. */
  lemma CleaningStep(st: State, st': State, dma: set<LineNo>)
    requires InPhase(On, st, dma) && Coherent(st', dma) && NoNewLines(st, st')
    requires forall l: LineNo :: Settled(st', dma, l) == Settled(st, dma, l)
    ensures InPhase(On, st', dma) && SameSeen(st, st', dma)
  {
    SeenIsSettled(st, dma);
    SeenIsSettled(st', dma);
  }

  lemma {:induction false} WalkNoNewLines(op: Op, st: State, ps: seq<Pair>)
    requires Wf(st)
    ensures NoNewLines(st, Walk(op, st, ps))
  {
    if |ps| > 0 {
      var init, last := Walk(op, st, ps[..|ps| - 1]), ps[|ps| - 1];
      WalkNoNewLines(op, st, ps[..|ps| - 1]);
      if last.0 < |init.lines| && last.1 < |init.lines[last.0]| { OpLineFrame(op, init, last.0, last.1); }
    }
  }

  lemma {:induction false} WalkAddrNoNewLines(op: Op, st: State, ls: seq<LineNo>)
    requires Wf(st)
    ensures NoNewLines(st, WalkAddr(op, st, ls))
  {
    if |ls| > 0 {
      var init, l := WalkAddr(op, st, ls[..|ls| - 1]), ls[|ls| - 1];
      WalkAddrNoNewLines(op, st, ls[..|ls| - 1]);
      var s := l % |init.lines|;
      var w := Find(init.lines[s], l);
      if w < |init.lines[s]| { OpLineFrame(op, init, s, w); }
    }
  }

  /** A set/way or by-address walk that cleans is invisible, at any length. */
  lemma CleanWalkOn(op: Op, st: State, dma: set<LineNo>, ps: seq<Pair>)
    requires InPhase(On, st, dma) && op != Inv
    ensures InPhase(On, Walk(op, st, ps), dma) && SameSeen(st, Walk(op, st, ps), dma)
  {
    WalkKeepsView(op, st, dma, ps);
    WalkNoNewLines(op, st, ps);
    CleaningStep(st, Walk(op, st, ps), dma);
  }

  lemma CleanWalkAddrOn(op: Op, st: State, dma: set<LineNo>, ls: seq<LineNo>)
    requires InPhase(On, st, dma) && op != Inv
    ensures InPhase(On, WalkAddr(op, st, ls), dma) && SameSeen(st, WalkAddr(op, st, ls), dma)
  {
    WalkAddrCleans(op, st, dma, ls);
    WalkAddrNoNewLines(op, st, ls);
    CleaningStep(st, WalkAddr(op, st, ls), dma);
  }

  /** Invalidating lent lines loses nothing, as they are not dirty, and ends their loan. */
  lemma InvalidateOn(st: State, dma: set<LineNo>, ls: seq<LineNo>)
    requires InPhase(On, st, dma) && forall l :: l in ls ==> l in dma
    ensures var r, rest := WalkAddr(Inv, st, ls), dma - Elements(ls);
      InPhase(On, r, rest) && forall l: LineNo :: Seen(r, rest, l) == Seen(st, dma, l)
  {
    var r, rest := WalkAddr(Inv, st, ls), dma - Elements(ls);
    WalkAddrInvalidates(st, ls);
    WalkAddrNoNewLines(Inv, st, ls);
    forall s, w | 0 <= s < |r.lines| && 0 <= w < |r.lines[s]| ensures LineMatches(r.lines[s][w], r.mem, rest) {
      assert LineMatches(st.lines[s][w], st.mem, dma);
    }
    forall l: LineNo ensures Settled(r, rest, l) == Settled(st, dma, l) {
      if l in ls { CachedMiss(r, l); } else if l !in dma { SameLookup(st, r, l); }
    }
    SeenIsSettled(st, dma);
    SeenIsSettled(r, rest);
  }

  /** Lookups of `l` agree when the ways holding `l` and memory at `l` agree. */
  lemma SameLookup(st: State, st': State, l: LineNo)
    requires Wf(st) && Wf(st') && NoAlias(st) && NoAlias(st') && SameShape(st, st') && st'.mem[l] == st.mem[l]
    requires forall s, w ::
      (0 <= s < |st.lines| && 0 <= w < |st.lines[s]| && (Holds(st.lines[s][w], l) || Holds(st'.lines[s][w], l)))
      ==> st'.lines[s][w] == st.lines[s][w]
    ensures Cached(st', l) == Cached(st, l)
  {
  }

  predicate Holds(ln: Line, l: LineNo) { ln.Valid? && ln.line == l }

  lemma WriteHitOn(st: State, dma: set<LineNo>, a: Addr, v: Byte)
    requires InPhase(On, st, dma) && LineOf(a) !in dma && Hit(st, LineOf(a)) && st.policy(LineOf(a)) != Bypass
    ensures InPhase(On, CpuWrite(st, a, v), dma)
  {
    WriteKeepsWf(st, a, v);
    var r := CpuWrite(st, a, v);
    forall s, w | 0 <= s < |r.lines| && 0 <= w < |r.lines[s]| ensures LineMatches(r.lines[s][w], r.mem, dma) {
      assert InItsSet(st, s, w) && LineMatches(st.lines[s][w], st.mem, dma);
    }
    assert NoAlias(r);
  }

  lemma WriteHit(st: State, dma: set<LineNo>, a: Addr, v: Byte)
    requires InPhase(On, st, dma) && LineOf(a) !in dma && Hit(st, LineOf(a)) && st.policy(LineOf(a)) != Bypass
    ensures InPhase(On, CpuWrite(st, a, v), dma) && StepTransparent(st, dma, Write(a, v))
  {
    WriteHitOn(st, dma, a, v);
    WriteKeepsWf(st, a, v);
    var r := CpuWrite(st, a, v);
    var l := LineOf(a);
    var s := l % |st.lines|;
    var w := Find(st.lines[s], l);
    SeenIsSettled(st, dma);
    SeenIsSettled(r, dma);
    CachedAt(st, s, w);
    CachedAt(r, s, w);
    forall k: LineNo | k != l && k !in dma ensures Settled(r, dma, k) == Settled(st, dma, k) {
      LookupElsewhere(st, r, s, w, k);
    }
  }

  lemma WriteMiss(st: State, dma: set<LineNo>, a: Addr, v: Byte)
    requires InPhase(On, st, dma) && LineOf(a) !in dma && (!Hit(st, LineOf(a)) || st.policy(LineOf(a)) == Bypass)
    ensures InPhase(On, CpuWrite(st, a, v), dma) && StepTransparent(st, dma, Write(a, v))
  {
    WriteKeepsWf(st, a, v);
    var r := CpuWrite(st, a, v);
    var l := LineOf(a);
    forall s, w | 0 <= s < |r.lines| && 0 <= w < |r.lines[s]|
      ensures LineMatches(r.lines[s][w], r.mem, dma) && !Holds(r.lines[s][w], l)
    {
      assert InItsSet(st, s, w) && LineMatches(st.lines[s][w], st.mem, dma);
    }
    SeenIsSettled(st, dma);
    SeenIsSettled(r, dma);
    CachedMiss(st, l);
    CachedMiss(r, l);
  }

  lemma DeviceWriteOn(st: State, dma: set<LineNo>, a: Addr, v: Byte)
    requires InPhase(On, st, dma) && LineOf(a) in dma
    ensures InPhase(On, PokeMem(st, a, v), dma) && StepTransparent(st, dma, DeviceWrite(a, v))
  {
    PokeKeepsWf(st, a, v);
    var r := PokeMem(st, a, v);
    forall s, w | 0 <= s < |r.lines| && 0 <= w < |r.lines[s]| ensures LineMatches(r.lines[s][w], r.mem, dma) {
      assert LineMatches(st.lines[s][w], st.mem, dma);
    }
  }

  lemma WriteLentOn(st: State, dma: set<LineNo>, a: Addr, v: Byte)
    requires InPhase(On, st, dma) && LineOf(a) in dma && st.policy(LineOf(a)) != WriteBack
    ensures InPhase(On, CpuWrite(st, a, v), dma)
  {
    WriteKeepsWf(st, a, v);
    var r := CpuWrite(st, a, v);
    forall s, w | 0 <= s < |r.lines| && 0 <= w < |r.lines[s]|
      ensures LineMatches(r.lines[s][w], r.mem, dma) && IsDirty(r.lines[s][w]) == IsDirty(st.lines[s][w])
    {
      assert LineMatches(st.lines[s][w], st.mem, dma);
    }
    assert NoAlias(r);
  }

  /** A CPU store to a lent line that is not written back reaches memory at once, like one of the device. */
  lemma WriteLent(st: State, dma: set<LineNo>, a: Addr, v: Byte)
    requires InPhase(On, st, dma) && LineOf(a) in dma && st.policy(LineOf(a)) != WriteBack
    ensures InPhase(On, CpuWrite(st, a, v), dma) && StepTransparent(st, dma, Write(a, v))
  {
    WriteLentOn(st, dma, a, v);
    WriteKeepsWf(st, a, v);
    var r, l := CpuWrite(st, a, v), LineOf(a);
    assert r.mem == PokeMem(st, a, v).mem;
    forall s, w | 0 <= s < |r.lines| && 0 <= w < |r.lines[s]|
      ensures !Holds(st.lines[s][w], l) ==> r.lines[s][w] == st.lines[s][w]
    {
    }
    SeenIsSettled(st, dma);
    SeenIsSettled(r, dma);
    forall k: LineNo | k !in dma ensures Settled(r, dma, k) == Settled(st, dma, k) {
      assert r.mem[k] == st.mem[k];
      SameLookup(st, r, k);
    }
  }

  lemma FillOn(st: State, dma: set<LineNo>, l: LineNo, w: nat)
    requires InPhase(On, st, dma)
    ensures InPhase(On, FillLine(st, l, w), dma) && (FillKeepsWf(st, l, w); SameSeen(st, FillLine(st, l, w), dma))
  {
    var s := l % |st.lines|;
    FillKeepsWf(st, l, w);
    if Looked(st, l) && w < |st.lines[s]| && Find(st.lines[s], l) == |st.lines[s]| {
      OpLineFrame(CleanInv, st, s, w);
      CleanKeepsView(CleanInv, st, dma, s, w);
      var mid, r := OpLine(CleanInv, st, s, w), FillLine(st, l, w);
      InstallClean(mid, dma, l, w);
      SeenIsSettled(st, dma);
      SeenIsSettled(r, dma);
    }
  }

  /** Installing memory's copy of an absent line in a free way changes no lookup. */
  lemma InstallClean(st: State, dma: set<LineNo>, l: LineNo, w: nat)
    requires Coherent(st, dma) && !Hit(st, l) && w < |st.lines[0]| && st.lines[l % |st.lines|][w].Invalid?
    requires Wf(SetLine(st, l % |st.lines|, w, Valid(l, st.mem[l], false)))
    ensures var r := SetLine(st, l % |st.lines|, w, Valid(l, st.mem[l], false));
      Coherent(r, dma) && forall k: LineNo :: Settled(r, dma, k) == Settled(st, dma, k)
  {
    var s := l % |st.lines|;
    var r := SetLine(st, s, w, Valid(l, st.mem[l], false));
    assert NoAlias(r);
    forall s', w' | 0 <= s' < |r.lines| && 0 <= w' < |r.lines[s']| ensures LineMatches(r.lines[s'][w'], r.mem, dma) {
      assert LineMatches(st.lines[s'][w'], st.mem, dma);
    }
    CachedMiss(st, l);
    CachedAt(r, s, w);
    forall k: LineNo | k != l ensures Cached(r, k) == Cached(st, k) { LookupElsewhere(st, r, s, w, k); }
  }

  /** An enabled coherent cache is invisible under every admissible event, and stays coherent. */
  lemma OnStep(st: State, dma: set<LineNo>, e: Event)
    requires InPhase(On, st, dma) && Admissible(e, dma) && !e.InvalidateAll?
    ensures InPhase(NextPhase(On, e), Step(st, e), NextLent(dma, e)) && StepTransparent(st, dma, e)
  {
    match e
    case Read(_) =>
    case Write(a, v) =>
      if Hit(st, LineOf(a)) && st.policy(LineOf(a)) != Bypass {
        WriteHit(st, dma, a, v);
      } else {
        WriteMiss(st, dma, a, v);
      }
    case DeviceWrite(a, v) => DeviceWriteOn(st, dma, a, v);
    case Fill(l, w) => FillOn(st, dma, l, w);
    case Evict(s, w) => EvictOn(st, dma, s, w);
    case Enable =>
    case Disable => DisableFromOn(st, dma);
    case ConfigMpu(p) =>
      DisableFromOn(st, dma);
      EnableFromOff(Remap(DisableDCache(st), p), dma);
    case _ => MaintenanceOn(st, dma, e);
  }

  lemma EvictOn(st: State, dma: set<LineNo>, s: nat, w: nat)
    requires InPhase(On, st, dma)
    ensures InPhase(On, EvictLine(st, s, w), dma)
    ensures (StepKeepsWf(st, Evict(s, w)); SameSeen(st, EvictLine(st, s, w), dma))
  {
    if s < |st.lines| && w < |st.lines[s]| {
      OpLineFrame(CleanInv, st, s, w);
      CleanKeepsView(CleanInv, st, dma, s, w);
      CleaningStep(st, OpLine(CleanInv, st, s, w), dma);
    }
  }

  lemma MaintenanceOn(st: State, dma: set<LineNo>, e: Event)
    requires InPhase(On, st, dma) && Admissible(e, dma) && IsMaintenance(e) && !e.Disable? && !e.InvalidateAll?
    ensures InPhase(On, Step(st, e), NextLent(dma, e))
    ensures forall l: LineNo :: Seen(Step(st, e), NextLent(dma, e), l) == Seen(st, dma, l)
  {
    match e
    case CleanAll => CleanWalkOn(Clean, st, dma, Everything(st));
    case CleanInvalidateAll => CleanWalkOn(CleanInv, st, dma, Everything(st));
    case CleanRange(a, n) => CleanWalkAddrOn(Clean, st, dma, Lines(a, n));
    case CleanInvalidateRange(a, n) => CleanWalkAddrOn(CleanInv, st, dma, Lines(a, n));
    case InvalidateRange(a, n) => InvalidateOn(st, dma, Lines(a, n));
    case WayOp(op, s, w) => CleanWalkOn(op, st, dma, [(s, w)]);
    case MvaOp(op, l) =>
      if op == Inv {
        InvalidateOn(st, dma, [l]);
        assert Elements([l]) == {l};
      } else {
        CleanWalkAddrOn(op, st, dma, [l]);
      }
  }

  // ---------- What each step leaves behind ----------

  /** SCB_CleanDCache: memory holds what was seen, and every valid line stays, without the dirty mark. */
  lemma CleanAllLeaves(st: State, dma: set<LineNo>)
    requires InPhase(On, st, dma)
    ensures var r := Step(st, CleanAll);
      && OperatedOn(Clean, st, r, _ => true) && r.enabled
      && forall l: LineNo :: r.mem[l] == Seen(st, dma, l)
  {
    SeenIsSettled(st, dma);
    CleanAllWritesBack(Clean, st, dma);
    WholeWalkLines(Clean, st);
  }

  /** SCB_CleanInvalidateDCache: memory holds what was seen, and no line is valid. */
  lemma CleanInvalidateAllLeaves(st: State, dma: set<LineNo>)
    requires InPhase(On, st, dma)
    ensures var r := Step(st, CleanInvalidateAll);
      AllInvalid(r) && r.enabled && forall l: LineNo :: r.mem[l] == Seen(st, dma, l)
  {
    SeenIsSettled(st, dma);
    CleanAllWritesBack(CleanInv, st, dma);
  }

  /** SCB_InvalidateDCache: no line is valid and memory is untouched, whatever the lines held. */
  lemma InvalidateAllLeaves(st: State)
    requires Wf(st)
    ensures var r := Step(st, InvalidateAll); AllInvalid(r) && r.mem == st.mem && r.enabled == st.enabled
  {
    InvalidateAllEmpties(st);
  }

  /** SCB_CleanDCache_by_Addr: the named lines are written back and stay; the rest is untouched. */
  lemma CleanRangeLeaves(st: State, dma: set<LineNo>, a: Addr, n: Int32)
    requires InPhase(On, st, dma)
    ensures var r := Step(st, CleanRange(a, n));
      && OperatedOn(Clean, st, r, l => l in Lines(a, n))
      && forall l: LineNo :: r.mem[l] == if l in Lines(a, n) then Seen(st, dma, l) else st.mem[l]
  {
    SeenIsSettled(st, dma);
    WalkAddrCleans(Clean, st, dma, Lines(a, n));
    WalkAddrLines(Clean, st, Lines(a, n));
  }

  /** SCB_CleanInvalidateDCache_by_Addr: the named lines are written back and dropped; the rest is untouched. */
  lemma CleanInvalidateRangeLeaves(st: State, dma: set<LineNo>, a: Addr, n: Int32)
    requires InPhase(On, st, dma)
    ensures var r := Step(st, CleanInvalidateRange(a, n));
      && OperatedOn(CleanInv, st, r, l => l in Lines(a, n))
      && (forall l: LineNo :: l in Lines(a, n) ==> !Hit(r, l))
      && forall l: LineNo :: r.mem[l] == if l in Lines(a, n) then Seen(st, dma, l) else st.mem[l]
  {
    SeenIsSettled(st, dma);
    WalkAddrCleans(CleanInv, st, dma, Lines(a, n));
    WalkAddrLines(CleanInv, st, Lines(a, n));
  }

  /** SCB_InvalidateDCache_by_Addr: the named lines are dropped as they are; the rest is untouched. */
  lemma InvalidateRangeLeaves(st: State, a: Addr, n: Int32)
    requires Wf(st) && NoAlias(st)
    ensures var r := Step(st, InvalidateRange(a, n));
      && OperatedOn(Inv, st, r, l => l in Lines(a, n)) && r.mem == st.mem
      && (forall l: LineNo :: l in Lines(a, n) ==> !Hit(r, l))
  {
    WalkAddrLines(Inv, st, Lines(a, n));
  }

  /** A single register write does its operation on the line it names. */
  lemma SingleWriteLeaves(st: State, op: Op, s: nat, w: nat, l: LineNo)
    requires Wf(st)
    ensures Step(st, WayOp(op, s, w)) == if s < |st.lines| && w < |st.lines[s]| then OpLine(op, st, s, w) else st
    ensures Step(st, MvaOp(op, l)) == OpAddr(op, st, l)
  {
    assert [(s, w)][..0] == [] && [l][..0] == [];
    assert Walk(op, st, []) == st && WalkAddr(op, st, []) == st;
  }

  /** An eviction writes a dirty line back and drops it. */
  lemma EvictLeaves(st: State, s: nat, w: nat)
    requires Wf(st) && st.enabled && s < |st.lines| && w < |st.lines[s]|
    ensures var r, ln := Step(st, Evict(s, w)), st.lines[s][w];
      && r.lines == st.lines[s := st.lines[s][w := Invalid]]
      && r.mem == if IsDirty(ln) then st.mem[ln.line := ln.data] else st.mem
  {
    var r := Step(st, Evict(s, w));
    OpLineFrame(CleanInv, st, s, w);
    assert r.lines[s] == st.lines[s][w := Invalid];
    assert r.lines == st.lines[s := st.lines[s][w := Invalid]];
  }

  /** A fill puts memory's copy of an absent line into its way, once the victim there has been evicted. */
  lemma FillLeaves(st: State, l: LineNo, w: nat)
    requires Wf(st) && Looked(st, l) && w < |st.lines[0]| && !Hit(st, l)
    ensures var r, s := Step(st, Fill(l, w)), l % |st.lines|;
      && r.mem == Step(st, Evict(s, w)).mem && r.mem[l] == st.mem[l]
      && r.lines == st.lines[s := st.lines[s][w := Valid(l, st.mem[l], false)]]
  {
    var r, s := Step(st, Fill(l, w)), l % |st.lines|;
    EvictLeaves(st, s, w);
    assert !Holds(st.lines[s][w], l);
    assert r.lines[s] == st.lines[s][w := Valid(l, st.mem[l], false)];
    assert r.lines == st.lines[s := st.lines[s][w := Valid(l, st.mem[l], false)]];
  }

  // ---------- Whole runs ----------

  /** Over a disciplined, admissible run the phase is tracked and every byte seen is the last one written. */
  lemma {:induction false} SeenOverRun(ph: Phase, st: State, dma: set<LineNo>, es: seq<Event>)
    requires InPhase(ph, st, dma) && Disciplined(ph, es) && NeverDiscards(ph, es) && AdmissibleRun(dma, es)
    ensures InPhase(PhaseAfter(ph, es), Run(st, es), LentAfter(dma, es))
    ensures forall a: Addr :: SeenByte(Run(st, es), LentAfter(dma, es), a) == LastWritten(es, a, SeenByte(st, dma, a))
  {
    if |es| > 0 {
      var init, e := es[..|es| - 1], es[|es| - 1];
      assert forall k :: 0 <= k < |init| ==> init[..k] == es[..k];
      SeenOverRun(ph, st, dma, init);
      var mid, lent := Run(st, init), LentAfter(dma, init);
      match PhaseAfter(ph, init)
      case Fresh => FreshStep(mid, lent, e);
      case On => OnStep(mid, lent, e);
      case Quiet => QuietStep(mid, lent, e);
    }
  }

  /** Events that are admissible with nothing lent neither lend nor return anything. */
  lemma {:induction false} LoansStay(b: set<LineNo>, es: seq<Event>)
    requires forall e :: e in es ==> Admissible(e, {}) && (e.Write? ==> LineOf(e.addr) !in b)
    ensures AdmissibleRun(b, es) && LentAfter(b, es) == b
  {
    if |es| > 0 {
      var e := es[|es| - 1];
      LoansStay(b, es[..|es| - 1]);
      if e.InvalidateRange? {
        assert e in es;
        assert Elements(Lines(e.base, e.size)) == {};
      }
    }
  }

  /**
   Cache transparency over whole runs. From reset junk, from an enabled coherent cache or from a quiet one, every
   disciplined interleaving of CPU accesses, fills, evictions, maintenance and reconfiguration is invisible to the CPU.
   */
  lemma RunsAreTransparent(ph: Phase, st: State, es: seq<Event>)
    requires InPhase(ph, st, {}) && Disciplined(ph, es) && NeverDiscards(ph, es)
    requires forall e :: e in es ==> Admissible(e, {})
    ensures Transparent(st, es)
  {
    forall k, a: Addr | 0 <= k <= |es| ensures TransparentAt(st, es, k, a) {
      var pre := es[..k];
      assert forall j :: 0 <= j < |pre| ==> pre[..j] == es[..j];
      LoansStay({}, pre);
      SeenOverRun(ph, st, {}, pre);
      assert SeenByte(Run(st, pre), {}, a) == ReadByte(Run(st, pre), a) && SeenByte(st, {}, a) == ReadByte(st, a);
    }
  }

  /** Once the cache has been enabled no discipline is needed any more. */
  lemma NeverFreshAgain(ph: Phase, es: seq<Event>)
    requires ph != Fresh
    ensures PhaseAfter(ph, es) != Fresh && Disciplined(ph, es)
  {
  }

  // ---------- The discipline is exact ----------

  ghost predicate OnlyDirty(st: State) {
    forall s, w :: 0 <= s < |st.lines| && 0 <= w < |st.lines[s]| && st.lines[s][w].Valid? ==> st.lines[s][w].dirty
  }

  /** A disabled cache whose only valid line is dirty junk for line `l`, in way `v`. */
  ghost function JunkAt(sets: nat, ways: nat, policy: int -> Policy, l: LineNo, v: nat, junk: LineData): State
    requires sets > 0 && v < ways
  {
    var empty: seq<Line> := seq(ways, _ => Invalid);
    State(seq(MEM_LINES, _ => ZeroLine()),
          seq(sets, t => if t == l % sets then empty[v := Valid(l, junk, true)] else empty),
          false, policy)
  }

  function ZeroLine(): LineData { seq(LINE_BYTES, _ => 0) }

  lemma JunkAtIsFresh(sets: nat, ways: nat, policy: int -> Policy, l: LineNo, v: nat, junk: LineData)
    requires sets > 0 && v < ways
    ensures var st := JunkAt(sets, ways, policy, l, v, junk);
      && InPhase(Fresh, st, {}) && |st.lines| == sets && |st.lines[0]| == ways && st.policy == policy
      && NoAlias(st) && OnlyDirty(st) && Cached(st, l) == junk && st.lines[l % sets][v] == Valid(l, junk, true)
      && forall a: Addr :: ReadByte(st, a) == 0
  {
    var st := JunkAt(sets, ways, policy, l, v, junk);
    var s := l % sets;
    assert forall t, w :: 0 <= t < sets && 0 <= w < ways ==>
      st.lines[t][w] == if t == s && w == v then Valid(l, junk, true) else Invalid;
    assert forall t, w :: 0 <= t < |st.lines| && 0 <= w < |st.lines[t]| ==> InItsSet(st, t, w);
    CachedAt(st, s, v);
  }

  // ---------- Changing the map, or dropping lines, under an enabled cache ----------

  /** No dirty copy of line `l` differs from memory. */
  ghost predicate Synced(st: State, l: LineNo)
    requires |st.mem| == MEM_LINES
  {
    forall s, w :: 0 <= s < |st.lines| && 0 <= w < |st.lines[s]| && IsDirty(st.lines[s][w]) && st.lines[s][w].line == l
      ==> st.lines[s][w].data == st.mem[l]
  }

  lemma SyncedIff(st: State, l: LineNo)
    requires InPhase(On, st, {})
    ensures View(st, l) == st.mem[l] <==> Synced(st, l)
  {
    ViewIsCached(st, l);
    var s := l % |st.lines|;
    var w := Find(st.lines[s], l);
    forall s', w' | 0 <= s' < |st.lines| && 0 <= w' < |st.lines[s']| && Holds(st.lines[s'][w'], l)
      ensures s' == s && w' == w
    {
      assert InItsSet(st, s', w');
    }
    if w < |st.lines[s]| { assert LineMatches(st.lines[s][w], st.mem, {}); }
  }

  /** Changing the map shows exactly the dirty lines it makes bypass the cache. */
  lemma LiveRemapInvisibleIff(st: State, policy: int -> Policy)
    requires InPhase(On, st, {})
    ensures (forall l: LineNo :: View(Remap(st, policy), l) == View(st, l)) <==>
            (forall l: LineNo :: policy(l) == Bypass ==> Synced(st, l))
  {
    forall l: LineNo
      ensures View(Remap(st, policy), l) == View(st, l) <==> (policy(l) == Bypass ==> Synced(st, l))
    {
      SyncedIff(st, l);
      ViewIsCached(st, l);
      assert Remap(st, policy).lines == st.lines && Remap(st, policy).mem == st.mem;
    }
  }

  /** The map `new` lets no line bypass the cache that `old` lets be dirty. */
  ghost predicate KeepsWriteBack(old_: int -> Policy, new_: int -> Policy) {
    forall l: LineNo :: old_(l) == WriteBack ==> new_(l) != Bypass
  }

  /** An enabled machine whose only cached line is dirty: `data` for line `l`, in way `v`, over memory full of zeros. */
  ghost function DirtyAt(sets: nat, ways: nat, policy: int -> Policy, l: LineNo, v: nat, data: LineData): State
    requires sets > 0 && v < ways
  {
    JunkAt(sets, ways, policy, l, v, data).(enabled := true)
  }

  lemma DirtyAtIsOn(sets: nat, ways: nat, policy: int -> Policy, l: LineNo, v: nat, data: LineData)
    requires sets > 0 && v < ways && policy(l) == WriteBack
    ensures var st := DirtyAt(sets, ways, policy, l, v, data);
      && InPhase(On, st, {}) && |st.lines| == sets && |st.lines[0]| == ways && st.policy == policy
      && st.lines[l % sets][v] == Valid(l, data, true) && st.mem[l] == ZeroLine() && View(st, l) == data
      && forall s, w :: 0 <= s < sets && 0 <= w < ways && (s != l % sets || w != v) ==> !IsDirty(st.lines[s][w])
  {
    var off := JunkAt(sets, ways, policy, l, v, data);
    JunkAtIsFresh(sets, ways, policy, l, v, data);
    var st := DirtyAt(sets, ways, policy, l, v, data);
    assert forall s, w :: 0 <= s < |st.lines| && 0 <= w < |st.lines[s]| ==> InItsSet(off, s, w) && InItsSet(st, s, w);
    CachedAt(st, l % sets, v);
  }

  /**
   Why the board turns the cache off first: changing the map under an enabled cache is invisible from every coherent
   state if and only if the new map lets no line bypass the cache that the old one had as write-back.
   */
  lemma LiveRemapSafeIff(sets: nat, ways: nat, old_: int -> Policy, new_: int -> Policy)
    requires sets > 0 && ways > 0
    ensures (forall st: State, l: LineNo ::
               (InPhase(On, st, {}) && |st.lines| == sets && |st.lines[0]| == ways && st.policy == old_)
               ==> View(Remap(st, new_), l) == View(st, l))
            <==> KeepsWriteBack(old_, new_)
  {
    if KeepsWriteBack(old_, new_) {
      forall st: State, l: LineNo | InPhase(On, st, {}) && st.policy == old_
        ensures View(Remap(st, new_), l) == View(st, l)
      {
        forall k: LineNo | new_(k) == Bypass ensures Synced(st, k) { assert old_(k) != WriteBack; }
        LiveRemapInvisibleIff(st, new_);
      }
    } else {
      var l: LineNo :| old_(l) == WriteBack && new_(l) == Bypass;
      var data: LineData := seq(LINE_BYTES, _ => 1);
      var st := DirtyAt(sets, ways, old_, l, 0, data);
      DirtyAtIsOn(sets, ways, old_, l, 0, data);
      assert data[0] != ZeroLine()[0];
      assert !Synced(st, l);
      LiveRemapInvisibleIff(st, new_);
    }
  }

  /** Invalidating the whole cache in use is invisible exactly when no dirty line differs from memory. */
  lemma InvalidateAllInvisibleIff(st: State)
    requires InPhase(On, st, {})
    ensures (forall l: LineNo :: View(Step(st, InvalidateAll), l) == View(st, l)) <==>
            (forall l: LineNo :: Synced(st, l))
  {
    InvalidateAllEmpties(st);
    var r := Step(st, InvalidateAll);
    forall l: LineNo ensures View(r, l) == View(st, l) <==> Synced(st, l) {
      CachedMiss(r, l);
      SyncedIff(st, l);
    }
  }

  /** Doing so is invisible from every coherent state if and only if the map has no write-back line at all. */
  lemma InvalidateAllSafeIff(sets: nat, ways: nat, policy: int -> Policy)
    requires sets > 0 && ways > 0
    ensures (forall st: State, l: LineNo ::
               (InPhase(On, st, {}) && |st.lines| == sets && |st.lines[0]| == ways && st.policy == policy)
               ==> View(Step(st, InvalidateAll), l) == View(st, l))
            <==> (forall l: LineNo :: policy(l) != WriteBack)
  {
    if forall l: LineNo :: policy(l) != WriteBack {
      forall st: State, l: LineNo | InPhase(On, st, {}) && st.policy == policy
        ensures View(Step(st, InvalidateAll), l) == View(st, l)
      {
        assert forall k: LineNo :: Synced(st, k);
        InvalidateAllInvisibleIff(st);
      }
    } else {
      var l: LineNo :| policy(l) == WriteBack;
      var data: LineData := seq(LINE_BYTES, _ => 1);
      var st := DirtyAt(sets, ways, policy, l, 0, data);
      DirtyAtIsOn(sets, ways, policy, l, 0, data);
      assert data[0] != ZeroLine()[0];
      assert !Synced(st, l);
      InvalidateAllInvisibleIff(st);
    }
  }

  // ---------- Programs that are not disciplined ----------

  /** A line the event is bound to write back, and the way to hide junk in. */
  ghost function Victim(e: Event): LineNo
    requires Cleans(e) && (e.WayOp? ==> e.set_ < MEM_LINES)
  {
    if e.CleanRange? || e.CleanInvalidateRange? then Lines(e.base, e.size)[0]
    else if e.MvaOp? then e.line
    else if e.WayOp? then e.set_
    else 0
  }

  ghost function VictimWay(e: Event): nat { if e.WayOp? then e.way else 0 }

  /** A set/way event names a line of the geometry. */
  predicate InGeometry(e: Event, sets: nat, ways: nat) { e.WayOp? ==> e.set_ < sets && e.way < ways }

  /** The cache holds dirty junk where the event will find it. */
  ghost predicate Trapped(st: State, e: Event) {
    && InPhase(Fresh, st, {}) && NoAlias(st) && OnlyDirty(st) && Cleans(e)
    && |st.lines| <= MEM_LINES && InGeometry(e, |st.lines|, |st.lines[0]|)
    && VictimWay(e) < |st.lines[0]|
    && Holds(st.lines[Victim(e) % |st.lines|][VictimWay(e)], Victim(e))
    && (e.WayOp? ==> Victim(e) % |st.lines| == e.set_)
  }

  lemma CleaningExposesJunk(st: State, e: Event)
    requires Trapped(st, e)
    ensures View(Step(st, e), Victim(e)) == Cached(st, Victim(e))
  {
    if e.Disable? {
      ExposedByDisable(st);
    } else if e.CleanAll? || e.CleanInvalidateAll? {
      ExposedByWalk(if e.CleanAll? then Clean else CleanInv, st, 0);
    } else if e.WayOp? {
      ExposedByWay(e.op, st, e.set_, e.way);
    } else {
      RangeExposesJunk(st, e);
    }
  }

  lemma RangeExposesJunk(st: State, e: Event)
    requires Trapped(st, e) && (e.CleanRange? || e.CleanInvalidateRange? || e.MvaOp?)
    ensures View(Step(st, e), Victim(e)) == Cached(st, Victim(e))
  {
    if e.MvaOp? {
      ExposedByAddr(e.op, st, [e.line]);
    } else {
      var op, ls := if e.CleanRange? then Clean else CleanInv, Lines(e.base, e.size);
      assert Step(st, e) == WalkAddr(op, st, ls) && Victim(e) == ls[0];
      ExposedByAddr(op, st, ls);
    }
  }

  lemma ExposedByDisable(st: State)
    requires Coherent(st, {})
    ensures View(DisableDCache(st), 0) == Cached(st, 0)
  {
    ExposedByWalk(CleanInv, Off(st), 0);
  }

  lemma ExposedByWalk(op: Op, st: State, l: LineNo)
    requires op != Inv && Coherent(st, {}) && !st.enabled
    ensures View(Walk(op, st, Everything(st)), l) == Cached(st, l)
  {
    CleanAllWritesBack(op, st, {});
    assert Settled(st, {}, l) == Cached(st, l);
  }

  lemma ExposedByAddr(op: Op, st: State, ls: seq<LineNo>)
    requires op != Inv && Coherent(st, {}) && !st.enabled && |ls| > 0
    ensures View(WalkAddr(op, st, ls), ls[0]) == Cached(st, ls[0])
  {
    WalkAddrCleans(op, st, {}, ls);
    assert Settled(st, {}, ls[0]) == Cached(st, ls[0]);
  }

  lemma ExposedByWay(op: Op, st: State, s: nat, w: nat)
    requires op != Inv && Wf(st) && NoAlias(st) && !st.enabled
    requires s < |st.lines| <= MEM_LINES && w < |st.lines[s]| && IsDirty(st.lines[s][w]) && st.lines[s][w].line == s
    ensures View(Walk(op, st, [(s, w)]), s) == Cached(st, s)
  {
    WalkSnoc(op, st, [], s, w);
    var none: seq<Pair> := [];
    assert none + [(s, w)] == [(s, w)];
    OpLineFrame(op, st, s, w);
    CachedAt(st, s, w);
  }

  /** The lines of a fresh cache survive a fresh run. */
  lemma {:induction false} FreshRunKeepsLines(st: State, es: seq<Event>)
    requires InPhase(Fresh, st, {}) && PhaseAfter(Fresh, es) == Fresh
    requires Disciplined(Fresh, es) && forall e :: e in es ==> Admissible(e, {})
    ensures Run(st, es).lines == st.lines && InPhase(Fresh, Run(st, es), {})
  {
    if |es| > 0 {
      var init, e := es[..|es| - 1], es[|es| - 1];
      assert forall k :: 0 <= k < |init| ==> init[..k] == es[..k];
      FreshRunKeepsLines(st, init);
      FreshStep(Run(st, init), {}, e);
    }
  }

  /** An undisciplined run has a first offending event, in a fresh prefix. */
  lemma {:induction false} FirstOffence(es: seq<Event>) returns (k: nat)
    requires !Disciplined(Fresh, es)
    ensures k < |es| && Cleans(es[k]) && PhaseAfter(Fresh, es[..k]) == Fresh && Disciplined(Fresh, es[..k])
    decreases |es|
  {
    var j :| 0 <= j < |es| && Cleans(es[j]) && PhaseAfter(Fresh, es[..j]) == Fresh;
    var pre := es[..j];
    if Disciplined(Fresh, pre) {
      k := j;
    } else {
      k := FirstOffence(pre);
      assert pre[..k] == es[..k];
    }
  }

  /**
   The discipline is exactly what transparency needs: a program of CPU-side events is invisible from every reset
   state of the cache if and only if it cleans nothing before it first enables or invalidates the whole cache.
   */
  lemma TransparentIffDisciplined(sets: nat, ways: nat, policy: int -> Policy, es: seq<Event>)
    requires 0 < sets <= MEM_LINES && ways > 0 && NeverDiscards(Fresh, es)
    requires forall e :: e in es ==> Admissible(e, {}) && InGeometry(e, sets, ways)
    ensures Disciplined(Fresh, es) <==>
            forall st: State ::
              (InPhase(Fresh, st, {}) && |st.lines| == sets && |st.lines[0]| == ways && st.policy == policy)
              ==> Transparent(st, es)
  {
    if Disciplined(Fresh, es) {
      forall st: State | InPhase(Fresh, st, {}) ensures Transparent(st, es) { RunsAreTransparent(Fresh, st, es); }
    } else {
      var st := UndisciplinedCounterexample(sets, ways, policy, es);
    }
  }

  /** Cleaning a fresh cache makes its dirty junk what the CPU reads. */
  lemma JunkSurfaces(st: State, pre: seq<Event>, e: Event)
    requires Trapped(st, e)
    requires PhaseAfter(Fresh, pre) == Fresh && Disciplined(Fresh, pre) && forall e' :: e' in pre ==> Admissible(e', {})
    ensures View(Step(Run(st, pre), e), Victim(e)) == Cached(st, Victim(e))
  {
    FreshRunKeepsLines(st, pre);
    var mid := Run(st, pre);
    var s := Victim(e) % |st.lines|;
    assert Trapped(mid, e);
    CachedAt(st, s, VictimWay(e));
    CachedAt(mid, s, VictimWay(e));
    CleaningExposesJunk(mid, e);
  }

  /** The junk shows as a wrong byte when it differs from what plain memory would hold. */
  lemma WrongByte(st: State, pre: seq<Event>, e: Event, other: Byte)
    requires Trapped(st, e)
    requires PhaseAfter(Fresh, pre) == Fresh && Disciplined(Fresh, pre) && forall e' :: e' in pre ==> Admissible(e', {})
    requires Cached(st, Victim(e))[0] == other
    ensures ReadByte(Run(st, pre + [e]), Victim(e) * LINE_BYTES) == other
  {
    JunkSurfaces(st, pre, e);
    assert (pre + [e])[..|pre|] == pre;
    var a: Addr := Victim(e) * LINE_BYTES;
    assert LineOf(a) == Victim(e) && a % LINE_BYTES == 0;
  }

  lemma UndisciplinedCounterexample(sets: nat, ways: nat, policy: int -> Policy, es: seq<Event>) returns (st: State)
    requires 0 < sets <= MEM_LINES && ways > 0 && !Disciplined(Fresh, es)
    requires forall e :: e in es ==> Admissible(e, {}) && InGeometry(e, sets, ways)
    ensures InPhase(Fresh, st, {}) && |st.lines| == sets && |st.lines[0]| == ways && st.policy == policy
    ensures !Transparent(st, es)
  {
    var k := FirstOffence(es);
    assert es[k] in es;
    var l := Victim(es[k]);
    var a: Addr := l * LINE_BYTES;
    var other: Byte := if LastWritten(es[..k], a, 0) == 0 then 1 else 0;
    var junk: LineData := seq(LINE_BYTES, _ => other);
    st := JunkAt(sets, ways, policy, l, VictimWay(es[k]), junk);
    JunkAtIsFresh(sets, ways, policy, l, VictimWay(es[k]), junk);
    if es[k].WayOp? { SmallMod(l, sets); }
    WrongByte(st, es[..k], es[k], other);
    assert es[..k + 1] == es[..k] + [es[k]];
    NoStore(es[..k], es[k], a);
    assert !TransparentAt(st, es, k + 1, a);
  }

  /** The register writes of a set/way loop, as events. */
  function Writes(op: Op, ps: seq<Pair>): seq<Event> {
    if |ps| == 0 then [] else Writes(op, ps[..|ps| - 1]) + [WayOp(op, ps[|ps| - 1].0, ps[|ps| - 1].1)]
  }

  lemma RunSnoc(st: State, es: seq<Event>, e: Event)
    requires Wf(st)
    ensures Run(st, es + [e]) == Step(Run(st, es), e)
  {
    assert (es + [e])[..|es|] == es;
  }

  /** A routine's loop is the run of its register writes. */
  lemma {:induction false} WalkIsRun(op: Op, st: State, ps: seq<Pair>)
    requires Wf(st)
    ensures Walk(op, st, ps) == Run(st, Writes(op, ps))
  {
    if |ps| > 0 {
      var init, last := ps[..|ps| - 1], ps[|ps| - 1];
      WalkIsRun(op, st, init);
      WalkLast(op, st, init, last);
      assert ps == init + [last];
      RunSnoc(st, Writes(op, init), WayOp(op, last.0, last.1));
    }
  }

  lemma NoStore(pre: seq<Event>, e: Event, a: Addr)
    requires Cleans(e)
    ensures LastWritten(pre + [e], a, 0) == LastWritten(pre, a, 0)
  {
  }
}
