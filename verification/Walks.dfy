/**
 The loops of the SCB_* cache routines as functions: which lines a set/way walk or a by-address walk
 operates on, in which order, and what a whole walk does to the machine.
 */
module Walks {
  import opened Arith
  import opened Cache

  type Pair = (nat, nat)

  // ---------- Set/way walks (CMSIS/core_cm7.h:2340-2350) ----------

  /** Ways `ways-1` down to `w` of set `s`. */
  function WaysDownTo(s: nat, ways: nat, w: nat): seq<Pair>
    decreases ways - w
  {
    if w >= ways then [] else WaysDownTo(s, ways, w + 1) + [(s, w)]
  }

  /** All ways of the sets `sets-1` down to `s`. */
  function SetsDownTo(sets: nat, ways: nat, s: nat): seq<Pair>
    decreases sets - s
  {
    if s >= sets then [] else SetsDownTo(sets, ways, s + 1) + WaysDownTo(s, ways, 0)
  }

  /** The pairs one nested do-while issues for a geometry of `sets` sets and `ways` ways. */
  function AllPairs(sets: nat, ways: nat): seq<Pair> { SetsDownTo(sets, ways, 0) }

  ghost predicate NoDuplicates<T>(q: seq<T>) {
    forall i, j :: 0 <= i < j < |q| ==> q[i] != q[j]
  }

  lemma {:induction false} WaysMembers(s: nat, ways: nat, w: nat)
    requires w <= ways
    ensures |WaysDownTo(s, ways, w)| == ways - w
    ensures forall i :: 0 <= i < ways - w ==> WaysDownTo(s, ways, w)[i] == (s, (ways - 1 - i) as nat)
    decreases ways - w
  {
    if w < ways { WaysMembers(s, ways, w + 1); }
  }

  lemma {:induction false} SetsMembers(sets: nat, ways: nat, s: nat)
    requires s <= sets
    ensures forall p: Pair :: p in SetsDownTo(sets, ways, s) <==> s <= p.0 < sets && p.1 < ways
    decreases sets - s
  {
    if s < sets {
      SetsMembers(sets, ways, s + 1);
      WaysMembers(s, ways, 0);
      var hi, row := SetsDownTo(sets, ways, s + 1), WaysDownTo(s, ways, 0);
      forall p: Pair ensures p in SetsDownTo(sets, ways, s) <==> s <= p.0 < sets && p.1 < ways {
        if p.0 == s && p.1 < ways { assert row[ways - 1 - p.1] == p; }
        assert p in SetsDownTo(sets, ways, s) <==> p in hi || p in row;
      }
    }
  }

  lemma {:induction false} SetsDistinct(sets: nat, ways: nat, s: nat)
    requires s <= sets
    ensures NoDuplicates(SetsDownTo(sets, ways, s))
    decreases sets - s
  {
    if s < sets {
      SetsDistinct(sets, ways, s + 1);
      SetsMembers(sets, ways, s + 1);
      WaysMembers(s, ways, 0);
      var hi, row := SetsDownTo(sets, ways, s + 1), WaysDownTo(s, ways, 0);
      assert forall p :: p in row ==> p.0 == s;
      ConcatDistinct(hi, row);
    }
  }

  lemma {:induction false} SetsLength(sets: nat, ways: nat, s: nat)
    requires s <= sets
    ensures |SetsDownTo(sets, ways, s)| == (sets - s) * ways
    decreases sets - s
  {
    if s < sets {
      SetsLength(sets, ways, s + 1);
      WaysMembers(s, ways, 0);
      assert (sets - s) * ways == (sets - (s + 1)) * ways + ways;
    }
  }

  lemma ConcatDistinct<T>(a: seq<T>, b: seq<T>)
    requires NoDuplicates(a) && NoDuplicates(b)
    requires forall x :: x in a ==> x !in b
    ensures NoDuplicates(a + b)
  {
    var q := a + b;
    forall i, j | 0 <= i < j < |q| ensures q[i] != q[j] {
      if i < |a| <= j { assert a[i] in a && b[j - |a|] in b; }
    }
  }

  /** Every (set, way) of the geometry is issued, nothing else is, and nothing is issued twice. */
  lemma AllPairsExactlyOnce(sets: nat, ways: nat)
    ensures forall p: Pair :: p in AllPairs(sets, ways) <==> p.0 < sets && p.1 < ways
    ensures NoDuplicates(AllPairs(sets, ways))
    ensures |AllPairs(sets, ways)| == sets * ways
  {
    SetsMembers(sets, ways, 0);
    SetsDistinct(sets, ways, 0);
    SetsLength(sets, ways, 0);
  }

  // ---------- Operand of a set/way register (CMSIS/core_cm7.h:816-834, 2344-2345) ----------

  const SET_FIELD: nat := 512
  const WAY_FIELD: nat := 4

  /** `((sets << 5) & (0x1FF << 5)) | ((ways << 30) & (3 << 30))`: two disjoint fields. */
  function Operand(s: nat, w: nat): (r: nat)
    ensures r < 0x1_0000_0000
  {
    (s % SET_FIELD) * 32 + (w % WAY_FIELD) * 0x4000_0000
  }

  function OperandSet(op: nat): nat { op / 32 % SET_FIELD }
  function OperandWay(op: nat): nat { op / 0x4000_0000 % WAY_FIELD }

  /** The hardware reads back the fields the code packed, truncated to their widths. */
  lemma OperandRoundTrip(s: nat, w: nat)
    ensures OperandSet(Operand(s, w)) == s % SET_FIELD
    ensures OperandWay(Operand(s, w)) == w % WAY_FIELD
  {
    var a, b := s % SET_FIELD, w % WAY_FIELD;
    assert Operand(s, w) == (a + b * 0x200_0000) * 32;
    assert Operand(s, w) / 32 == a + b * 0x200_0000;
    assert (a + b * 0x200_0000) == a + (b * 0x1_0000) * SET_FIELD;
    assert Operand(s, w) == a * 32 + b * 0x4000_0000 && 0 <= a * 32 < 0x4000_0000;
  }

  /** Distinct pairs get distinct operands exactly when the geometry fits the 9-bit and 2-bit fields. */
  lemma OperandsDistinctIff(sets: nat, ways: nat)
    requires sets > 0 && ways > 0
    ensures (forall s: nat, w: nat, s': nat, w': nat ::
               (s < sets && s' < sets && w < ways && w' < ways && Operand(s, w) == Operand(s', w'))
               ==> s == s' && w == w')
            <==> sets - 1 <= 511 && ways - 1 <= 3
  {
    if sets - 1 <= 511 && ways - 1 <= 3 {
      forall s: nat, w: nat, s': nat, w': nat |
        s < sets && s' < sets && w < ways && w' < ways && Operand(s, w) == Operand(s', w')
        ensures s == s' && w == w'
      {
        OperandRoundTrip(s, w);
        OperandRoundTrip(s', w');
      }
    } else if sets - 1 > 511 {
      assert Operand(0, 0) == Operand(512, 0);
    } else {
      assert Operand(0, 0) == Operand(0, 4);
    }
  }

  // ---------- What a walk does ----------

  /** One operation per pair, first pair first; a pair outside the geometry names no line. */
  function Walk(op: Op, st: State, ps: seq<Pair>): (r: State)
    requires Wf(st)
    ensures Wf(r) && SameShape(st, r)
    ensures op == Inv ==> r.mem == st.mem
  {
    if |ps| == 0 then st
    else
      var last := ps[|ps| - 1];
      var before := Walk(op, st, ps[..|ps| - 1]);
      if last.0 < |before.lines| && last.1 < |before.lines[last.0]| then
        OpLineFrame(op, before, last.0, last.1);
        OpLine(op, before, last.0, last.1)
      else before
  }

  lemma WalkSnoc(op: Op, st: State, ps: seq<Pair>, s: nat, w: nat)
    requires Wf(st) && s < |st.lines| && w < |st.lines[s]|
    ensures Walk(op, st, ps + [(s, w)]) == OpLine(op, Walk(op, st, ps), s, w)
  {
  }

  lemma WalkLast(op: Op, st: State, ps: seq<Pair>, p: Pair)
    requires Wf(st)
    ensures Walk(op, st, ps + [p]) == Walk(op, Walk(op, st, ps), [p])
  {
    assert (ps + [p])[..|ps|] == ps;
    var one: seq<Pair> := [p];
    assert one[..0] == [];
    assert Walk(op, Walk(op, st, ps), []) == Walk(op, st, ps);
  }

  lemma WalkOneMoreWay(op: Op, st: State, done: seq<Pair>, s: nat, ways: nat, w: nat)
    requires Wf(st) && s < |st.lines| && w < ways == |st.lines[0]|
    ensures Walk(op, st, done + WaysDownTo(s, ways, w)) ==
            OpLine(op, Walk(op, st, done + WaysDownTo(s, ways, w + 1)), s, w)
  {
    var before := done + WaysDownTo(s, ways, w + 1);
    WalkSnoc(op, st, before, s, w);
    assert done + WaysDownTo(s, ways, w) == before + [(s, w)];
  }

  lemma WalkAddrSnoc(op: Op, st: State, ls: seq<LineNo>, k: nat)
    requires Wf(st) && k < |ls|
    ensures WalkAddr(op, st, ls[..k + 1]) == OpAddr(op, WalkAddr(op, st, ls[..k]), ls[k])
  {
    assert ls[..k + 1][..k] == ls[..k];
  }

  /** One operation per line number, first first. */
  function WalkAddr(op: Op, st: State, ls: seq<LineNo>): (r: State)
    requires Wf(st)
    ensures Wf(r) && SameShape(st, r)
    ensures op == Inv ==> r.mem == st.mem
  {
    if |ls| == 0 then st
    else
      var before := WalkAddr(op, st, ls[..|ls| - 1]);
      OpAddrFrame(op, before, ls[|ls| - 1]);
      OpAddr(op, before, ls[|ls| - 1])
  }

  /** What an operation makes of a line: cleaning keeps it, without the dirty mark; the others drop it. */
  function Operated(op: Op, ln: Line): Line {
    if op == Clean && ln.Valid? then ln.(dirty := false) else Invalid
  }

  /** Every valid line of `b` has been operated on, and every other way is as it was. */
  ghost predicate OperatedOn(op: Op, st: State, r: State, b: LineNo -> bool) {
    && SameShape(st, r)
    && forall s, w :: 0 <= s < |st.lines| && 0 <= w < |st.lines[s]| ==>
         r.lines[s][w] ==
         if st.lines[s][w].Valid? && b(st.lines[s][w].line) then Operated(op, st.lines[s][w]) else st.lines[s][w]
  }

  /** A set/way walk operates on the visited ways and on no other, exactly. */
  lemma {:induction false} WalkLines(op: Op, st: State, ps: seq<Pair>)
    requires Wf(st)
    ensures forall s: nat, w: nat :: s < |st.lines| && w < |st.lines[0]| ==>
      Walk(op, st, ps).lines[s][w] == if (s, w) in ps then Operated(op, st.lines[s][w]) else st.lines[s][w]
  {
    if |ps| > 0 {
      var init, last := ps[..|ps| - 1], ps[|ps| - 1];
      assert ps == init + [last];
      WalkLines(op, st, init);
      var mid := Walk(op, st, init);
      if last.0 < |mid.lines| && last.1 < |mid.lines[last.0]| { OpLineFrame(op, mid, last.0, last.1); }
    }
  }

  /** A by-address walk operates on the lines it names and on no other, exactly. */
  lemma {:induction false} WalkAddrLines(op: Op, st: State, ls: seq<LineNo>)
    requires Wf(st) && NoAlias(st)
    ensures NoAlias(WalkAddr(op, st, ls)) && OperatedOn(op, st, WalkAddr(op, st, ls), l => l in ls)
  {
    if |ls| > 0 {
      var init, l := ls[..|ls| - 1], ls[|ls| - 1];
      assert ls == init + [l];
      WalkAddrLines(op, st, init);
      var mid, r := WalkAddr(op, st, init), WalkAddr(op, st, ls);
      OpAddrLines(op, mid, l);
      forall s, w | 0 <= s < |st.lines| && 0 <= w < |st.lines[s]|
        ensures r.lines[s][w] ==
          if st.lines[s][w].Valid? && st.lines[s][w].line in ls then Operated(op, st.lines[s][w]) else st.lines[s][w]
      {
      }
    }
  }

  /** One operation by address. */
  lemma OpAddrLines(op: Op, st: State, l: LineNo)
    requires Wf(st) && NoAlias(st)
    ensures var r := OpAddr(op, st, l); Wf(r) && NoAlias(r) && OperatedOn(op, st, r, k => k == l)
  {
    OpAddrFrame(op, st, l);
    var r, t := OpAddr(op, st, l), l % |st.lines|;
    var v := Find(st.lines[t], l);
    if v < |st.lines[t]| { OpLineFrame(op, st, t, v); }
    forall s, w | 0 <= s < |st.lines| && 0 <= w < |st.lines[s]|
      ensures r.lines[s][w] ==
        if st.lines[s][w].Valid? && st.lines[s][w].line == l then Operated(op, st.lines[s][w]) else st.lines[s][w]
    {
      assert InItsSet(st, s, w);
    }
  }

  /** A cleaning set/way walk keeps coherence and every line's settled view. */
  lemma {:induction false} WalkKeepsView(op: Op, st: State, dma: set<LineNo>, ps: seq<Pair>)
    requires op != Inv && Coherent(st, dma)
    ensures Coherent(Walk(op, st, ps), dma)
    ensures forall l: LineNo :: Settled(Walk(op, st, ps), dma, l) == Settled(st, dma, l)
  {
    if |ps| > 0 {
      var mid, last := Walk(op, st, ps[..|ps| - 1]), ps[|ps| - 1];
      WalkKeepsView(op, st, dma, ps[..|ps| - 1]);
      if last.0 < |mid.lines| && last.1 < |mid.lines[last.0]| { CleanKeepsView(op, mid, dma, last.0, last.1); }
    }
  }

  /** The pairs a whole walk of `st` visits are exactly the pairs of its geometry. */
  function Everything(st: State): (ps: seq<Pair>)
    requires Wf(st)
    ensures forall p: Pair :: p in ps <==> p.0 < |st.lines| && p.1 < |st.lines[0]|
  {
    AllPairsExactlyOnce(|st.lines|, |st.lines[0]|);
    AllPairs(|st.lines|, |st.lines[0]|)
  }

  /** A whole walk operates on every line. */
  lemma WholeWalkLines(op: Op, st: State)
    requires Wf(st)
    ensures OperatedOn(op, st, Walk(op, st, Everything(st)), _ => true)
  {
    var ps := Everything(st);
    WalkLines(op, st, ps);
    forall s, w | 0 <= s < |st.lines| && 0 <= w < |st.lines[s]|
      ensures Walk(op, st, ps).lines[s][w] == if st.lines[s][w].Valid? then Operated(op, st.lines[s][w]) else Invalid
    {
      assert (s, w) in ps;
    }
  }

  lemma WholeWalkVisits(op: Op, st: State)
    requires Wf(st)
    ensures NoneDirty(Walk(op, st, Everything(st)))
    ensures op != Clean ==> AllInvalid(Walk(op, st, Everything(st)))
  {
    WholeWalkLines(op, st);
  }

  /** A whole cleaning walk moves the settled view into memory, line by line, and leaves nothing dirty. */
  lemma CleanAllWritesBack(op: Op, st: State, dma: set<LineNo>)
    requires op != Inv && Coherent(st, dma)
    ensures var r := Walk(op, st, Everything(st));
      && Coherent(r, dma) && NoneDirty(r) && (op == CleanInv ==> AllInvalid(r))
      && (forall l: LineNo :: Settled(r, dma, l) == Settled(st, dma, l) && r.mem[l] == Settled(st, dma, l))
  {
    var r := Walk(op, st, Everything(st));
    WholeWalkVisits(op, st);
    WalkKeepsView(op, st, dma, Everything(st));
    forall l: LineNo ensures r.mem[l] == Settled(st, dma, l) { CleanSettledIsMem(r, dma, l); }
  }

  /** A whole invalidating walk empties the cache and leaves memory alone, whatever the lines held. */
  lemma InvalidateAllEmpties(st: State)
    requires Wf(st)
    ensures AllInvalid(Walk(Inv, st, Everything(st)))
    ensures Walk(Inv, st, Everything(st)).mem == st.mem
  {
    WholeWalkVisits(Inv, st);
  }

  /** An empty cache stays empty and memory stays put under any walk. */
  lemma {:induction false} WalkOnEmpty(op: Op, st: State, ps: seq<Pair>)
    requires Wf(st) && AllInvalid(st)
    ensures AllInvalid(Walk(op, st, ps)) && Walk(op, st, ps).mem == st.mem
  {
    if |ps| > 0 {
      var mid, last := Walk(op, st, ps[..|ps| - 1]), ps[|ps| - 1];
      WalkOnEmpty(op, st, ps[..|ps| - 1]);
      if last.0 < |mid.lines| && last.1 < |mid.lines[last.0]| { OpLineFrame(op, mid, last.0, last.1); }
    }
  }

  lemma {:induction false} WalkAddrOnEmpty(op: Op, st: State, ls: seq<LineNo>)
    requires Wf(st) && AllInvalid(st)
    ensures WalkAddr(op, st, ls) == st
  {
    if |ls| > 0 { WalkAddrOnEmpty(op, st, ls[..|ls| - 1]); }
  }

  /** A cleaning walk by address keeps coherence and views, and writes every visited line back. */
  lemma {:induction false} WalkAddrCleans(op: Op, st: State, dma: set<LineNo>, ls: seq<LineNo>)
    requires op != Inv && Coherent(st, dma)
    ensures var r := WalkAddr(op, st, ls);
      && Coherent(r, dma)
      && (forall l: LineNo :: Settled(r, dma, l) == Settled(st, dma, l))
      && (forall l: LineNo :: r.mem[l] == if l in ls then Settled(st, dma, l) else st.mem[l])
  {
    if |ls| > 0 {
      var init, last := ls[..|ls| - 1], ls[|ls| - 1];
      assert ls == init + [last];
      WalkAddrCleans(op, st, dma, init);
      OneCleanByAddr(op, WalkAddr(op, st, init), dma, last);
    }
  }

  lemma OneCleanByAddr(op: Op, st: State, dma: set<LineNo>, l: LineNo)
    requires op != Inv && Coherent(st, dma)
    ensures var r := OpAddr(op, st, l);
      && Coherent(r, dma)
      && (forall k: LineNo :: Settled(r, dma, k) == Settled(st, dma, k))
      && r.mem[l] == Settled(st, dma, l)
      && (forall k: LineNo :: k != l ==> r.mem[k] == st.mem[k])
  {
    var s := l % |st.lines|;
    var w := Find(st.lines[s], l);
    if w < |st.lines[s]| {
      CleanKeepsView(op, st, dma, s, w);
      OpLineFrame(op, st, s, w);
      CachedAt(st, s, w);
      assert LineMatches(st.lines[s][w], st.mem, dma);
    } else {
      CachedMiss(st, l);
    }
  }

  /** No line a cleaning walk by address has visited is left dirty. */
  lemma {:induction false} WalkAddrLeavesClean(op: Op, st: State, dma: set<LineNo>, ls: seq<LineNo>)
    requires op != Inv && Coherent(st, dma)
    ensures var r := WalkAddr(op, st, ls);
      forall s, w :: 0 <= s < |r.lines| && 0 <= w < |r.lines[s]| && IsDirty(r.lines[s][w]) ==> r.lines[s][w].line !in ls
  {
    if |ls| > 0 {
      var init, l := ls[..|ls| - 1], ls[|ls| - 1];
      assert ls == init + [l];
      WalkAddrLeavesClean(op, st, dma, init);
      WalkAddrCleans(op, st, dma, init);
      var mid, r := WalkAddr(op, st, init), WalkAddr(op, st, ls);
      var t := l % |mid.lines|;
      var v := Find(mid.lines[t], l);
      if v < |mid.lines[t]| { OpLineFrame(op, mid, t, v); }
      forall s, w | 0 <= s < |r.lines| && 0 <= w < |r.lines[s]| && IsDirty(r.lines[s][w])
        ensures r.lines[s][w].line !in ls
      {
        assert InItsSet(mid, s, w);
      }
    }
  }

  /** Invalidating by address drops the visited lines from the cache and touches nothing else. */
  lemma WalkAddrInvalidates(st: State, ls: seq<LineNo>)
    requires Wf(st) && NoAlias(st)
    ensures var r := WalkAddr(Inv, st, ls);
      && NoAlias(r) && r.mem == st.mem
      && (forall s, w :: 0 <= s < |st.lines| && 0 <= w < |st.lines[s]| ==>
            r.lines[s][w] == if st.lines[s][w].Valid? && st.lines[s][w].line in ls then Invalid else st.lines[s][w])
  {
    WalkAddrLines(Inv, st, ls);
  }

  // ---------- By-address walks (CMSIS/core_cm7.h:2512-2531) ----------

  type Int32 = n: int | -0x8000_0000 <= n <= 0x7FFF_FFFF

  /** How many times the do-while body runs: the lines it takes to cover `dsize` bytes plus the bytes before `addr`
      in its line. `op_size` may overflow a signed 32-bit value, but the unconditional first pass brings it back. */
  function Passes(addr: Addr, dsize: Int32): nat {
    if dsize <= 0 then 0 else (dsize + addr % LINE_BYTES + LINE_BYTES - 1) / LINE_BYTES
  }

  /** The line numbers the walk names, in order; `op_addr` wraps at 2^32. */
  function Lines(addr: Addr, dsize: Int32): seq<LineNo> {
    seq(Passes(addr, dsize), k requires 0 <= k => (LineOf(addr) + k) % MEM_LINES)
  }

  /** Byte `addr + i` of a buffer, in 32-bit address arithmetic. */
  function ByteAt(addr: Addr, i: nat): Addr { (addr + i) % 0x1_0000_0000 }

  /** Line `l` shares a byte with the buffer of `dsize` bytes at `addr`. */
  ghost predicate Touches(addr: Addr, dsize: Int32, l: LineNo) {
    exists i: nat :: i < dsize && LineOf(ByteAt(addr, i)) == l
  }

  lemma LineOfByteAt(addr: Addr, i: nat)
    ensures LineOf(ByteAt(addr, i)) == (LineOf(addr) + (addr % LINE_BYTES + i) / LINE_BYTES) % MEM_LINES
  {
    var q := (addr + i) / 32;
    assert q == addr / 32 + (addr % 32 + i) / 32;
    var n := (addr + i) / 0x1_0000_0000;
    assert addr + i == n * 0x1_0000_0000 + ByteAt(addr, i);
    assert q == n * 0x800_0000 + ByteAt(addr, i) / 32;
  }

  /** The walk names exactly the lines that meet the buffer, each once, for every address and every size. */
  lemma LinesExact(addr: Addr, dsize: Int32)
    ensures forall l: LineNo :: l in Lines(addr, dsize) <==> Touches(addr, dsize, l)
    ensures NoDuplicates(Lines(addr, dsize))
  {
    var ls, off := Lines(addr, dsize), addr % LINE_BYTES;
    forall l: LineNo | l in ls ensures Touches(addr, dsize, l) {
      var k :| 0 <= k < |ls| && ls[k] == l;
      var i: nat := if k == 0 then 0 else 32 * k - off;
      LineOfByteAt(addr, i);
      assert (off + i) / 32 == k;
      assert i < dsize;
    }
    forall l: LineNo | Touches(addr, dsize, l) ensures l in ls {
      var i: nat :| i < dsize && LineOf(ByteAt(addr, i)) == l;
      LineOfByteAt(addr, i);
      var k := (off + i) / 32;
      assert k < |ls| && ls[k] == l;
    }
    forall j, k | 0 <= j < k < |ls| ensures ls[j] != ls[k] {
      ResiduesDiffer(LineOf(addr) + j, LineOf(addr) + k, MEM_LINES);
    }
  }
}
