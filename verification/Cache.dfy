/**
 The Cortex-M7 L1 data cache as the maintenance code in CMSIS/core_cm7.h sees it: memory behind a
 set-associative write-back array, and the effect of one maintenance operation on one line.

 Addresses are bytes, `0 <= a < 2^32`; a cache line is 32 bytes, so line number `l` holds the bytes
 `32*l .. 32*l+31`. A stored line records the whole line number (the tag together with the set index).
 */
module Cache {

  const LINE_BYTES: nat := 32
  const MEM_LINES: nat := 0x800_0000

  type Byte = b: int | 0 <= b < 256
  type Addr = a: int | 0 <= a < 0x1_0000_0000
  type LineNo = l: int | 0 <= l < MEM_LINES
  type LineData = d: seq<Byte> | |d| == LINE_BYTES witness seq(LINE_BYTES, _ => 0)

  datatype Line = Invalid | Valid(line: LineNo, data: LineData, dirty: bool)

  /** What the memory map says about a line: bypass the cache, write through it, or write back. */
  datatype Policy = Bypass | WriteThrough | WriteBack

  /** The three maintenance operations a register write can request for one line. */
  datatype Op = Inv | Clean | CleanInv

  datatype State = State(
    mem: seq<LineData>,
    lines: seq<seq<Line>>,
    enabled: bool,
    policy: int -> Policy)

  function LineOf(a: Addr): LineNo { a / LINE_BYTES }

  // ---------- Well-formedness and coherence ----------

  /** `sets` sets of `ways` ways, and every valid line sits in the set its address selects. */
  ghost predicate Wf(st: State) {
    && |st.mem| == MEM_LINES
    && |st.lines| > 0
    && (forall s :: 0 <= s < |st.lines| ==> |st.lines[s]| == |st.lines[0]|)
    && |st.lines[0]| > 0
    && (forall s, w :: 0 <= s < |st.lines| && 0 <= w < |st.lines[s]| ==> InItsSet(st, s, w))
  }

  ghost predicate InItsSet(st: State, s: nat, w: nat)
    requires s < |st.lines| && w < |st.lines[s]|
  {
    st.lines[s][w].Valid? ==> st.lines[s][w].line % |st.lines| == s
  }

  /** No line is held by two ways of its set. */
  ghost predicate NoAlias(st: State) {
    forall s, w, v ::
      (&& 0 <= s < |st.lines| && 0 <= w < |st.lines[s]| && 0 <= v < |st.lines[s]|
       && st.lines[s][w].Valid? && st.lines[s][v].Valid? && st.lines[s][w].line == st.lines[s][v].line)
      ==> w == v
  }

  /**
   A valid line that is not dirty agrees with memory. Lines in `dma` are lent to another bus master that writes memory
   behind the cache: they may be stale, but must not be dirty.
   */
  ghost predicate CleanMatches(st: State, dma: set<LineNo>)
    requires |st.mem| == MEM_LINES
  {
    forall s, w :: 0 <= s < |st.lines| && 0 <= w < |st.lines[s]| ==> LineMatches(st.lines[s][w], st.mem, dma)
  }

  ghost predicate LineMatches(ln: Line, mem: seq<LineData>, dma: set<LineNo>)
    requires |mem| == MEM_LINES
  {
    ln.Valid? ==> if ln.line in dma then !ln.dirty else !ln.dirty ==> ln.data == mem[ln.line]
  }

  ghost predicate Coherent(st: State, dma: set<LineNo>) {
    Wf(st) && NoAlias(st) && CleanMatches(st, dma)
  }

  ghost predicate AllInvalid(st: State) {
    forall s, w :: 0 <= s < |st.lines| && 0 <= w < |st.lines[s]| ==> st.lines[s][w].Invalid?
  }

  ghost predicate NoneDirty(st: State) {
    forall s, w :: 0 <= s < |st.lines| && 0 <= w < |st.lines[s]| ==> !IsDirty(st.lines[s][w])
  }

  predicate IsDirty(ln: Line) { ln.Valid? && ln.dirty }

  /** Every cached line is cacheable under the memory map, and dirty only where it may be written back. */
  ghost predicate RespectsPolicy(st: State) {
    forall s, w :: 0 <= s < |st.lines| && 0 <= w < |st.lines[s]| && st.lines[s][w].Valid? ==>
      && st.policy(st.lines[s][w].line) != Bypass
      && (st.lines[s][w].dirty ==> st.policy(st.lines[s][w].line) == WriteBack)
  }

  // ---------- Lookup and views ----------

  /** The first way holding line `l`, or the number of ways when none does. */
  function Find(ways: seq<Line>, l: int): (w: nat)
    ensures w <= |ways|
    ensures w < |ways| ==> ways[w].Valid? && ways[w].line == l
    ensures forall v :: 0 <= v < w ==> !(ways[v].Valid? && ways[v].line == l)
  {
    if |ways| == 0 then 0
    else if ways[0].Valid? && ways[0].line == l then 0
    else 1 + Find(ways[1..], l)
  }

  ghost predicate Hit(st: State, l: LineNo)
    requires Wf(st)
  {
    Find(st.lines[l % |st.lines|], l) < |st.lines[0]|
  }

  /** What a lookup through the cache array yields for line `l`. */
  function Cached(st: State, l: LineNo): LineData
    requires Wf(st)
  {
    var ws := st.lines[l % |st.lines|];
    var w := Find(ws, l);
    if w < |ws| then ws[w].data else st.mem[l]
  }

  predicate Looked(st: State, l: LineNo) {
    st.enabled && st.policy(l) != Bypass
  }

  /** What the CPU sees of line `l`: the cache is consulted only when enabled and for cacheable lines. */
  function View(st: State, l: LineNo): LineData
    requires Wf(st)
  {
    if Looked(st, l) then Cached(st, l) else st.mem[l]
  }

  /** The cached view, except that memory speaks for the lines lent to another bus master. */
  ghost function Settled(st: State, dma: set<LineNo>, l: LineNo): LineData
    requires Wf(st)
  {
    if l in dma then st.mem[l] else Cached(st, l)
  }

  /** The CPU view, except that memory speaks for the lines lent to another bus master. */
  ghost function Seen(st: State, dma: set<LineNo>, l: LineNo): LineData
    requires Wf(st)
  {
    if l in dma then st.mem[l] else View(st, l)
  }

  function ReadByte(st: State, a: Addr): Byte
    requires Wf(st)
  {
    View(st, LineOf(a))[a % LINE_BYTES]
  }

  function MemByte(st: State, a: Addr): Byte
    requires Wf(st)
  {
    st.mem[LineOf(a)][a % LINE_BYTES]
  }

  /** The lookup result is characterised by any way that holds the line, once there is no alias. */
  lemma CachedAt(st: State, s: nat, w: nat)
    requires Wf(st) && NoAlias(st)
    requires s < |st.lines| && w < |st.lines[s]| && st.lines[s][w].Valid?
    ensures Cached(st, st.lines[s][w].line) == st.lines[s][w].data
  {
    var l := st.lines[s][w].line;
    assert InItsSet(st, s, w);
    var v := Find(st.lines[s], l);
    assert v < |st.lines[s]|;
  }

  /** A line no way holds is read from memory. */
  lemma CachedMiss(st: State, l: LineNo)
    requires Wf(st)
    requires forall w :: 0 <= w < |st.lines[l % |st.lines|]| ==>
               !(st.lines[l % |st.lines|][w].Valid? && st.lines[l % |st.lines|][w].line == l)
    ensures Cached(st, l) == st.mem[l]
  {
  }

  /** With the map respected, the CPU view is the cached view on every line. */
  lemma ViewIsCached(st: State, l: LineNo)
    requires Wf(st) && RespectsPolicy(st) && st.enabled
    ensures View(st, l) == Cached(st, l)
  {
  }

  /** In a coherent state without dirty lines the cache adds nothing to memory. */
  lemma CleanSettledIsMem(st: State, dma: set<LineNo>, l: LineNo)
    requires Coherent(st, dma) && NoneDirty(st)
    ensures Settled(st, dma, l) == st.mem[l]
  {
  }

  // ---------- One maintenance operation on one line ----------

  function SetLine(st: State, s: nat, w: nat, ln: Line): State
    requires s < |st.lines| && w < |st.lines[s]|
  {
    st.(lines := st.lines[s := st.lines[s][w := ln]])
  }

  function CleanLine(st: State, s: nat, w: nat): State
    requires Wf(st) && s < |st.lines| && w < |st.lines[s]|
  {
    var ln := st.lines[s][w];
    if IsDirty(ln) then SetLine(st, s, w, ln.(dirty := false)).(mem := st.mem[ln.line := ln.data]) else st
  }

  function OpLine(op: Op, st: State, s: nat, w: nat): State
    requires Wf(st) && s < |st.lines| && w < |st.lines[s]|
  {
    match op
    case Inv => SetLine(st, s, w, Invalid)
    case Clean => CleanLine(st, s, w)
    case CleanInv => SetLine(CleanLine(st, s, w), s, w, Invalid)
  }

  /** The same operation requested by address: it acts on the way that holds the line, if any. */
  function OpAddr(op: Op, st: State, l: LineNo): State
    requires Wf(st)
  {
    var s := l % |st.lines|;
    var w := Find(st.lines[s], l);
    if w < |st.lines[s]| then OpLine(op, st, s, w) else st
  }

  /** `st'` has the dimensions, enable bit and memory map of `st`. */
  ghost predicate SameShape(st: State, st': State) {
    && st'.enabled == st.enabled && st'.policy == st.policy
    && |st'.lines| == |st.lines|
    && (forall s :: 0 <= s < |st.lines| ==> |st'.lines[s]| == |st.lines[s]|)
  }

  lemma OpLineFrame(op: Op, st: State, s: nat, w: nat)
    requires Wf(st) && s < |st.lines| && w < |st.lines[s]|
    ensures var st' := OpLine(op, st, s, w);
      && Wf(st') && SameShape(st, st')
      && (forall s', w' :: 0 <= s' < |st.lines| && 0 <= w' < |st.lines[s']| && (s' != s || w' != w) ==>
            st'.lines[s'][w'] == st.lines[s'][w'])
      && !IsDirty(st'.lines[s][w])
      && (op != Clean ==> st'.lines[s][w] == Invalid)
      && (op == Clean && st.lines[s][w].Valid? ==> st'.lines[s][w] == st.lines[s][w].(dirty := false))
      && (op == Clean && st.lines[s][w].Invalid? ==> st'.lines[s][w] == Invalid)
      && (op == Inv ==> st'.mem == st.mem)
      && (op != Inv && IsDirty(st.lines[s][w]) ==>
            st'.mem == st.mem[st.lines[s][w].line := st.lines[s][w].data])
      && (!IsDirty(st.lines[s][w]) ==> st'.mem == st.mem)
  {
    var st' := OpLine(op, st, s, w);
    forall s', w' | 0 <= s' < |st'.lines| && 0 <= w' < |st'.lines[s']|
      ensures InItsSet(st', s', w')
    {
      assert InItsSet(st, s', w');
    }
  }

  /** Cleaning, with or without invalidating, keeps coherence and every line's settled view. */
  lemma CleanKeepsView(op: Op, st: State, dma: set<LineNo>, s: nat, w: nat)
    requires op != Inv
    requires Coherent(st, dma) && s < |st.lines| && w < |st.lines[s]|
    ensures var st' := OpLine(op, st, s, w);
      Coherent(st', dma) && forall l: LineNo :: Settled(st', dma, l) == Settled(st, dma, l)
  {
    OpLineFrame(op, st, s, w);
    var st' := OpLine(op, st, s, w);
    var ln := st.lines[s][w];
    assert InItsSet(st, s, w) && LineMatches(ln, st.mem, dma);
    assert NoAlias(st');
    forall s', w' | 0 <= s' < |st'.lines| && 0 <= w' < |st'.lines[s']|
      ensures LineMatches(st'.lines[s'][w'], st'.mem, dma)
    {
      assert InItsSet(st, s', w') && LineMatches(st.lines[s'][w'], st.mem, dma);
    }
    forall l: LineNo ensures Settled(st', dma, l) == Settled(st, dma, l) {
      if l in dma {
      } else if ln.Valid? && ln.line == l {
        CachedAt(st, s, w);
        if op == Clean { CachedAt(st', s, w); } else { CachedMiss(st', l); }
      } else {
        LookupElsewhere(st, st', s, w, l);
      }
    }
  }

  /** Changing one way does not affect the lookup of a line that way does not hold before or after. */
  lemma LookupElsewhere(st: State, st': State, s: nat, w: nat, l: LineNo)
    requires Wf(st) && Wf(st') && NoAlias(st) && NoAlias(st') && SameShape(st, st')
    requires s < |st.lines| && w < |st.lines[s]|
    requires forall s', w' :: 0 <= s' < |st.lines| && 0 <= w' < |st.lines[s']| && (s' != s || w' != w) ==>
               st'.lines[s'][w'] == st.lines[s'][w']
    requires !(st.lines[s][w].Valid? && st.lines[s][w].line == l)
    requires !(st'.lines[s][w].Valid? && st'.lines[s][w].line == l)
    requires st'.mem[l] == st.mem[l]
    ensures Cached(st', l) == Cached(st, l)
  {
  }

  /** Operating by address is operating on the way that holds the line. */
  lemma OpAddrFrame(op: Op, st: State, l: LineNo)
    requires Wf(st)
    ensures Wf(OpAddr(op, st, l)) && SameShape(st, OpAddr(op, st, l))
  {
    var s := l % |st.lines|;
    var w := Find(st.lines[s], l);
    if w < |st.lines[s]| { OpLineFrame(op, st, s, w); }
  }
}
