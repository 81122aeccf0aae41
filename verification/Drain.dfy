/**
 Inside SCB_DisableDCache (CMSIS/core_cm7.h:2365-2396): the enable bit is already clear, so loads and stores go to
 memory, while lines are still being written back one DCCISW write at a time. Which accesses may fall between those
 writes?
 */
module Drain {
  import opened Arith
  import opened Cache
  import opened Walks
  import opened Transparency

  /** What happens meanwhile: a load, a store, or one DCCISW write of the loop. */
  predicate IsAct(e: Event) { e.Read? || e.Write? || (e.WayOp? && e.op == CleanInv) }

  predicate IsAccess(e: Event) { e.Read? || e.Write? }

  ghost predicate Acts(es: seq<Event>) { forall e :: e in es ==> IsAct(e) }

  ghost predicate Issued(es: seq<Event>, s: nat, w: nat) { WayOp(CleanInv, s, w) in es }

  /** All ways of set `s` have been written out. */
  ghost predicate SetIssued(es: seq<Event>, s: nat, ways: nat) { forall w: nat :: w < ways ==> Issued(es, s, w) }

  /** Line `l` cannot be dirty any more: its map is not write-back, or all ways of its set have been written out. */
  ghost predicate Drained(policy: int -> Policy, sets: nat, ways: nat, es: seq<Event>, l: LineNo)
    requires sets > 0
  {
    policy(l) == WriteBack ==> SetIssued(es, l % sets, ways)
  }

  /** Every access meets a line that is already drained. */
  ghost predicate AvoidsUndrained(policy: int -> Policy, sets: nat, ways: nat, es: seq<Event>)
    requires sets > 0
  {
    forall k :: 0 <= k < |es| && IsAccess(es[k]) ==> Drained(policy, sets, ways, es[..k], LineOf(es[k].addr))
  }

  /** The loop runs to its end: every line of the geometry is written out at some point. */
  ghost predicate Complete(sets: nat, ways: nat, es: seq<Event>) {
    forall s: nat :: s < sets ==> SetIssued(es, s, ways)
  }

  /** The machine after the enable bit has been cleared and `es` has happened. */
  ghost function After(st: State, es: seq<Event>): (r: State)
    requires Wf(st)
    ensures Wf(r) && |r.lines| == |st.lines| && |r.lines[0]| == |st.lines[0]|
  {
    Run(Off(st), es)
  }

  /** Each load returns the last byte written, and so would a load from any line that is drained. */
  ghost predicate DrainSafe(st: State, es: seq<Event>)
    requires Wf(st)
  {
    forall k, a: Addr :: 0 <= k <= |es| ==> ShowsAt(st, es, k, a)
  }

  ghost predicate ShowsAt(st: State, es: seq<Event>, k: nat, a: Addr)
    requires Wf(st) && k <= |es|
  {
    (Drained(st.policy, |st.lines|, |st.lines[0]|, es[..k], LineOf(a)) || (k < |es| && es[k] == Read(a)))
    ==> ReadByte(After(st, es[..k]), a) == LastWritten(es[..k], a, ReadByte(st, a))
  }

  // ---------- The array while draining ----------

  /** What one act does to the array: a written-out line is gone, every other line stays. */
  lemma ActOnArray(st: State, e: Event)
    requires Wf(st) && !st.enabled && IsAct(e)
    ensures SameShape(st, Step(st, e))
    ensures forall s: nat, w: nat :: s < |st.lines| && w < |st.lines[0]| ==>
      Step(st, e).lines[s][w] == if e == WayOp(CleanInv, s, w) then Invalid else st.lines[s][w]
  {
    if e.WayOp? {
      SingleWriteLeaves(st, CleanInv, e.set_, e.way, 0);
      if e.set_ < |st.lines| && e.way < |st.lines[e.set_]| { OpLineFrame(CleanInv, st, e.set_, e.way); }
    }
  }

  /** Lines only ever leave the array: the written-out ones are gone and the others untouched. */
  lemma {:induction false} DrainingArray(st: State, es: seq<Event>)
    requires Wf(st) && Acts(es)
    ensures SameShape(Off(st), After(st, es))
    ensures forall s: nat, w: nat :: s < |st.lines| && w < |st.lines[0]| ==>
      After(st, es).lines[s][w] == if Issued(es, s, w) then Invalid else st.lines[s][w]
  {
    if |es| > 0 {
      var init, e := es[..|es| - 1], es[|es| - 1];
      assert es == init + [e] && e in es;
      DrainingArray(st, init);
      ActOnArray(After(st, init), e);
      assert After(st, es) == Step(After(st, init), e);
      forall s: nat, w: nat | s < |st.lines| && w < |st.lines[0]|
        ensures After(st, es).lines[s][w] == if Issued(es, s, w) then Invalid else st.lines[s][w]
      {
        assert Issued(es, s, w) <==> Issued(init, s, w) || e == WayOp(CleanInv, s, w);
      }
    }
  }

  // ---------- Accesses to drained lines are safe ----------

  /** The lines stored to so far; memory speaks for them. */
  function Stored(es: seq<Event>): set<LineNo> {
    if |es| == 0 then {} else Stored(es[..|es| - 1]) + StoredBy(es[|es| - 1])
  }

  ghost predicate NoDirtyCopy(st: State, l: LineNo) {
    forall s, w :: 0 <= s < |st.lines| && 0 <= w < |st.lines[s]| && IsDirty(st.lines[s][w]) ==> st.lines[s][w].line != l
  }

  lemma DrainedIsClean(st: State, es: seq<Event>, l: LineNo)
    requires InPhase(On, st, {}) && Acts(es) && Drained(st.policy, |st.lines|, |st.lines[0]|, es, l)
    ensures NoDirtyCopy(After(st, es), l)
  {
    DrainingArray(st, es);
    var r := After(st, es);
    forall s, w | 0 <= s < |r.lines| && 0 <= w < |r.lines[s]| && IsDirty(r.lines[s][w])
      ensures r.lines[s][w].line != l
    {
      assert r.lines[s][w] == st.lines[s][w] && !Issued(es, s, w);
      assert InItsSet(st, s, w);
    }
  }

  /** What a byte will read as once everything is written out. */
  ghost function SettledByte(st: State, stored: set<LineNo>, a: Addr): Byte
    requires Wf(st)
  {
    Settled(st, stored, LineOf(a))[a % LINE_BYTES]
  }

  /** A line with no dirty copy already reads from memory as it will in the end. */
  lemma CleanCopyIsMem(st: State, stored: set<LineNo>, l: LineNo)
    requires Coherent(st, stored) && NoDirtyCopy(st, l)
    ensures Settled(st, stored, l) == st.mem[l]
  {
    var s := l % |st.lines|;
    var w := Find(st.lines[s], l);
    if w < |st.lines[s]| { assert LineMatches(st.lines[s][w], st.mem, stored); }
  }

  lemma StoreToCleanLine(st: State, stored: set<LineNo>, a: Addr, v: Byte)
    requires Coherent(st, stored) && !st.enabled && NoDirtyCopy(st, LineOf(a))
    ensures var r, d := Step(st, Write(a, v)), stored + {LineOf(a)};
      Coherent(r, d) && forall b: Addr :: SettledByte(r, d, b) == if b == a then v else SettledByte(st, stored, b)
  {
    var l, r, d := LineOf(a), Step(st, Write(a, v)), stored + {LineOf(a)};
    CleanCopyIsMem(st, stored, l);
    forall s, w | 0 <= s < |r.lines| && 0 <= w < |r.lines[s]| ensures LineMatches(r.lines[s][w], r.mem, d) {
      assert LineMatches(st.lines[s][w], st.mem, stored);
    }
  }

  lemma WriteOutKeepsSettled(st: State, stored: set<LineNo>, s: nat, w: nat)
    requires Coherent(st, stored)
    ensures var r := Step(st, WayOp(CleanInv, s, w));
      Coherent(r, stored) && forall l: LineNo :: Settled(r, stored, l) == Settled(st, stored, l)
  {
    SingleWriteLeaves(st, CleanInv, s, w, 0);
    if s < |st.lines| && w < |st.lines[s]| { CleanKeepsView(CleanInv, st, stored, s, w); }
  }

  function StoredBy(e: Event): set<LineNo> { if e.Write? then {LineOf(e.addr)} else {} }

  /** One act on a machine that is being drained. */
  lemma ActKeepsSettled(st: State, stored: set<LineNo>, e: Event)
    requires Coherent(st, stored) && !st.enabled && IsAct(e) && (e.Write? ==> NoDirtyCopy(st, LineOf(e.addr)))
    ensures Coherent(Step(st, e), stored + StoredBy(e))
    ensures forall a: Addr ::
      SettledByte(Step(st, e), stored + StoredBy(e), a) ==
      (if e.Write? && e.addr == a then e.value else SettledByte(st, stored, a))
  {
    if e.Write? {
      StoreToCleanLine(st, stored, e.addr, e.value);
    } else {
      assert stored + StoredBy(e) == stored;
      if e.WayOp? { WriteOutKeepsSettled(st, stored, e.set_, e.way); }
    }
  }

  /** Clearing the enable bit changes nothing that will be read in the end. */
  lemma OffKeepsSettled(st: State)
    requires InPhase(On, st, {})
    ensures Coherent(Off(st), {}) && forall a: Addr :: SettledByte(Off(st), {}, a) == ReadByte(st, a)
  {
    forall a: Addr ensures SettledByte(Off(st), {}, a) == ReadByte(st, a) { ViewIsCached(st, LineOf(a)); }
  }

  lemma AvoidsPrefix(policy: int -> Policy, sets: nat, ways: nat, es: seq<Event>, n: nat)
    requires sets > 0 && n <= |es| && AvoidsUndrained(policy, sets, ways, es)
    ensures AvoidsUndrained(policy, sets, ways, es[..n])
  {
    assert forall k :: 0 <= k < n ==> es[..n][..k] == es[..k] && es[..n][k] == es[k];
  }

  /** A machine `r` that `es` may have led to: coherent but for the stores, and settling to the last bytes written. */
  ghost predicate OnTrack(st: State, es: seq<Event>, r: State)
    requires Wf(st)
  {
    && Coherent(r, Stored(es))
    && forall a: Addr :: SettledByte(r, Stored(es), a) == LastWritten(es, a, ReadByte(st, a))
  }

  /** One more act keeps it on track, going by what the act does to the settled bytes. */
  lemma OneMoreOnTrack(st: State, init: seq<Event>, e: Event, mid: State, r: State)
    requires Wf(st) && OnTrack(st, init, mid) && !e.DeviceWrite? && Coherent(r, Stored(init) + StoredBy(e))
    requires forall a: Addr ::
      SettledByte(r, Stored(init) + StoredBy(e), a) ==
      (if e.Write? && e.addr == a then e.value else SettledByte(mid, Stored(init), a))
    ensures OnTrack(st, init + [e], r)
  {
    var es := init + [e];
    assert es[..|init|] == init;
    forall a: Addr ensures SettledByte(r, Stored(es), a) == LastWritten(es, a, ReadByte(st, a)) {
      assert SettledByte(mid, Stored(init), a) == LastWritten(init, a, ReadByte(st, a));
    }
  }

  lemma ActStaysOnTrack(st: State, init: seq<Event>, e: Event, mid: State)
    requires Wf(st) && OnTrack(st, init, mid) && !mid.enabled && IsAct(e)
    requires e.Write? ==> NoDirtyCopy(mid, LineOf(e.addr))
    ensures OnTrack(st, init + [e], Step(mid, e))
  {
    ActKeepsSettled(mid, Stored(init), e);
    OneMoreOnTrack(st, init, e, mid, Step(mid, e));
  }

  lemma {:induction false} DrainInvariant(st: State, es: seq<Event>)
    requires InPhase(On, st, {}) && Acts(es) && AvoidsUndrained(st.policy, |st.lines|, |st.lines[0]|, es)
    ensures OnTrack(st, es, After(st, es))
  {
    if |es| == 0 {
      OffKeepsSettled(st);
    } else {
      var init, e := es[..|es| - 1], es[|es| - 1];
      assert es == init + [e] && e in es;
      AvoidsPrefix(st.policy, |st.lines|, |st.lines[0]|, es, |init|);
      DrainInvariant(st, init);
      DrainingArray(st, init);
      if e.Write? { DrainedIsClean(st, init, LineOf(e.addr)); }
      ActStaysOnTrack(st, init, e, After(st, init));
      RunSnoc(Off(st), init, e);
    }
  }

  /** Whatever the enabled state: if every access meets a drained line, nothing goes wrong. */
  lemma AvoidingIsSafe(st: State, es: seq<Event>)
    requires InPhase(On, st, {}) && Acts(es) && AvoidsUndrained(st.policy, |st.lines|, |st.lines[0]|, es)
    ensures DrainSafe(st, es)
  {
    forall k, a: Addr | 0 <= k <= |es| ensures ShowsAt(st, es, k, a) {
      var pre := es[..k];
      AvoidsPrefix(st.policy, |st.lines|, |st.lines[0]|, es, k);
      DrainInvariant(st, pre);
      DrainingArray(st, pre);
      if Drained(st.policy, |st.lines|, |st.lines[0]|, pre, LineOf(a)) {
        DrainedIsClean(st, pre, LineOf(a));
        CleanCopyIsMem(After(st, pre), Stored(pre), LineOf(a));
      }
    }
  }

  // ---------- Accesses to other lines are not ----------

  /** The write-out that completes set `s`: the last way to be written out for the first time. */
  lemma {:induction false} Completion(ways: nat, es: seq<Event>, s: nat) returns (k: nat, w: nat)
    requires ways > 0 && SetIssued(es, s, ways)
    ensures k < |es| && w < ways && es[k] == WayOp(CleanInv, s, w) && !Issued(es[..k], s, w)
    ensures SetIssued(es[..k + 1], s, ways)
  {
    assert Issued(es, s, 0);
    var init, e := es[..|es| - 1], es[|es| - 1];
    assert es == init + [e];
    if SetIssued(init, s, ways) {
      k, w := Completion(ways, init, s);
      assert init[..k] == es[..k] && init[..k + 1] == es[..k + 1];
    } else {
      k := |es| - 1;
      w :| w < ways && !Issued(init, s, w);
      assert Issued(es, s, w);
      assert es[..k + 1] == es;
    }
  }

  /** While the only dirty line has not been written out, only stores change memory. */
  lemma {:induction false} MemoryUntilWriteOut(st: State, es: seq<Event>, l: LineNo, s: nat, w: nat)
    requires Wf(st) && Acts(es) && s < |st.lines| && w < |st.lines[0]| && !Issued(es, s, w)
    requires forall t, v ::
      0 <= t < |st.lines| && 0 <= v < |st.lines[t]| && (t != s || v != w) ==> !IsDirty(st.lines[t][v])
    requires forall e :: e in es && e.Write? ==> LineOf(e.addr) != l
    ensures After(st, es).mem[l] == st.mem[l]
  {
    if |es| > 0 {
      var init, e := es[..|es| - 1], es[|es| - 1];
      assert es == init + [e] && e in es;
      MemoryUntilWriteOut(st, init, l, s, w);
      DrainingArray(st, init);
      RunSnoc(Off(st), init, e);
      var mid := After(st, init);
      if e.WayOp? {
        SingleWriteLeaves(mid, CleanInv, e.set_, e.way, 0);
        if e.set_ < |mid.lines| && e.way < |mid.lines[e.set_]| { OpLineFrame(CleanInv, mid, e.set_, e.way); }
      }
    }
  }

  ghost predicate StoresTo(es: seq<Event>, a: Addr) { exists e :: e in es && e.Write? && e.addr == a }

  /** Once a byte has been stored to, its last value does not depend on the initial one. */
  lemma {:induction false} StoredByteForgets(es: seq<Event>, a: Addr, u: Byte, v: Byte)
    requires StoresTo(es, a)
    ensures LastWritten(es, a, u) == LastWritten(es, a, v)
  {
    var init, e := es[..|es| - 1], es[|es| - 1];
    assert es == init + [e];
    if !((e.Write? || e.DeviceWrite?) && e.addr == a) { StoredByteForgets(init, a, u, v); }
  }

  /** Writing out the way that holds a dirty line puts the line's bytes into memory, over any store made meanwhile. */
  lemma WriteOutOverwrites(st: State, pre: seq<Event>, l: LineNo, s: nat, w: nat, data: LineData)
    requires Wf(st) && Acts(pre) && !Issued(pre, s, w) && s < |st.lines| && w < |st.lines[0]|
    requires st.lines[s][w] == Valid(l, data, true)
    ensures var r := After(st, pre + [WayOp(CleanInv, s, w)]); !r.enabled && r.mem[l] == data
  {
    DrainingArray(st, pre);
    RunSnoc(Off(st), pre, WayOp(CleanInv, s, w));
    SingleWriteLeaves(After(st, pre), CleanInv, s, w, 0);
    OpLineFrame(CleanInv, After(st, pre), s, w);
  }

  /** A byte no past store left at `a`. */
  function OtherByte(es: seq<Event>, a: Addr): Byte { if LastWritten(es, a, 0) == 0 then 1 else 0 }

  /** A store to a line that is still dirty is overwritten when the line is written out. */
  lemma StoreIsLost(policy: int -> Policy, sets: nat, ways: nat, es: seq<Event>, a: Addr, k: nat, w: nat)
    requires sets > 0 && w < ways && Acts(es) && policy(LineOf(a)) == WriteBack && k < |es|
    requires es[k] == WayOp(CleanInv, LineOf(a) % sets, w) && !Issued(es[..k], LineOf(a) % sets, w)
    requires SetIssued(es[..k + 1], LineOf(a) % sets, ways) && StoresTo(es[..k], a)
    ensures var st := DirtyAt(sets, ways, policy, LineOf(a), w, seq(LINE_BYTES, _ => OtherByte(es[..k], a)));
      InPhase(On, st, {}) && !ShowsAt(st, es, k + 1, a)
  {
    var l, pre, u := LineOf(a), es[..k], OtherByte(es[..k], a);
    var data: LineData := seq(LINE_BYTES, _ => u);
    var st := DirtyAt(sets, ways, policy, l, w, data);
    DirtyAtIsOn(sets, ways, policy, l, w, data);
    assert es[..k + 1] == pre + [es[k]];
    WriteOutOverwrites(st, pre, l, l % sets, w, data);
    assert ReadByte(After(st, es[..k + 1]), a) == u;
    StoredByteForgets(pre, a, 0, ReadByte(st, a));
    assert LastWritten(es[..k + 1], a, ReadByte(st, a)) == LastWritten(pre, a, ReadByte(st, a));
  }

  /** A load from a line that is still dirty misses the dirty bytes. */
  lemma LoadIsStale(policy: int -> Policy, sets: nat, ways: nat, es: seq<Event>, k: nat, w: nat)
    requires sets > 0 && w < ways && Acts(es) && k < |es| && es[k].Read? && policy(LineOf(es[k].addr)) == WriteBack
    requires !Issued(es[..k], LineOf(es[k].addr) % sets, w)
    requires forall e :: e in es[..k] && e.Write? ==> LineOf(e.addr) != LineOf(es[k].addr)
    ensures var st := DirtyAt(sets, ways, policy, LineOf(es[k].addr), w, seq(LINE_BYTES, _ => 1));
      InPhase(On, st, {}) && !ShowsAt(st, es, k, es[k].addr)
  {
    var a, pre := es[k].addr, es[..k];
    var l := LineOf(a);
    var data: LineData := seq(LINE_BYTES, _ => 1);
    var st := DirtyAt(sets, ways, policy, l, w, data);
    DirtyAtIsOn(sets, ways, policy, l, w, data);
    DrainingArray(st, pre);
    MemoryUntilWriteOut(st, pre, l, l % sets, w);
    NeverStored(pre, a, ReadByte(st, a));
  }

  lemma {:induction false} NeverStored(es: seq<Event>, a: Addr, v: Byte)
    requires Acts(es) && forall e :: e in es && e.Write? ==> LineOf(e.addr) != LineOf(a)
    ensures LastWritten(es, a, v) == v
  {
    if |es| > 0 {
      assert es[|es| - 1] in es;
      NeverStored(es[..|es| - 1], a, v);
    }
  }

  /** Two prefixes: what was issued before stays issued. */
  lemma IssuedMono(es: seq<Event>, j: nat, k: nat, s: nat, ways: nat)
    requires j <= k <= |es| && SetIssued(es[..j], s, ways)
    ensures SetIssued(es[..k], s, ways)
  {
    forall w: nat | w < ways ensures Issued(es[..k], s, w) {
      assert Issued(es[..j], s, w);
      assert es[..j] == es[..k][..j];
    }
  }

  /** For an access to a line that may still be dirty, a state in which something goes wrong. */
  lemma UndrainedCounterexample(policy: int -> Policy, sets: nat, ways: nat, es: seq<Event>, k: nat) returns (st: State)
    requires sets > 0 && ways > 0 && Acts(es) && Complete(sets, ways, es) && k < |es| && IsAccess(es[k])
    requires !Drained(policy, sets, ways, es[..k], LineOf(es[k].addr))
    ensures InPhase(On, st, {}) && |st.lines| == sets && |st.lines[0]| == ways && st.policy == policy
    ensures !DrainSafe(st, es)
  {
    var l := LineOf(es[k].addr);
    var end, w := Completion(ways, es, l % sets);
    if end < k { IssuedMono(es, end + 1, k, l % sets, ways); }
    assert k < end;
    if j :| 0 <= j < end && es[j].Write? && LineOf(es[j].addr) == l {
      var a := es[j].addr;
      assert es[..end][j] == es[j];
      assert es[j] in es[..end];
      StoreIsLost(policy, sets, ways, es, a, end, w);
      st := DirtyAt(sets, ways, policy, l, w, seq(LINE_BYTES, _ => OtherByte(es[..end], a)));
      DirtyAtIsOn(sets, ways, policy, l, w, seq(LINE_BYTES, _ => OtherByte(es[..end], a)));
    } else {
      assert es[..k] == es[..end][..k];
      LoadIsStale(policy, sets, ways, es, k, w);
      st := DirtyAt(sets, ways, policy, l, w, seq(LINE_BYTES, _ => 1));
      DirtyAtIsOn(sets, ways, policy, l, w, seq(LINE_BYTES, _ => 1));
    }
  }

  /**
   Exactly which accesses may fall inside SCB_DisableDCache: from every coherent enabled state every load returns the
   last byte written, and so does every drained line, if and only if each access meets a line that its map does not
   write back or whose set has been written out already.
   */
  lemma DrainSafeIff(policy: int -> Policy, sets: nat, ways: nat, es: seq<Event>)
    requires sets > 0 && ways > 0 && Acts(es) && Complete(sets, ways, es)
    ensures AvoidsUndrained(policy, sets, ways, es) <==>
            forall st: State ::
              (InPhase(On, st, {}) && |st.lines| == sets && |st.lines[0]| == ways && st.policy == policy)
              ==> DrainSafe(st, es)
  {
    if AvoidsUndrained(policy, sets, ways, es) {
      forall st: State |
        InPhase(On, st, {}) && |st.lines| == sets && |st.lines[0]| == ways && st.policy == policy
        ensures DrainSafe(st, es)
      {
        AvoidingIsSafe(st, es);
      }
    } else {
      var k :| 0 <= k < |es| && IsAccess(es[k]) && !Drained(policy, sets, ways, es[..k], LineOf(es[k].addr));
      var st := UndrainedCounterexample(policy, sets, ways, es, k);
    }
  }

  /** When the loop is through, the cache is off and empty, and every byte reads as last written. */
  lemma DrainEndsQuiet(st: State, es: seq<Event>)
    requires InPhase(On, st, {}) && Acts(es) && Complete(|st.lines|, |st.lines[0]|, es)
    requires AvoidsUndrained(st.policy, |st.lines|, |st.lines[0]|, es)
    ensures InPhase(Quiet, After(st, es), {})
    ensures forall a: Addr :: ReadByte(After(st, es), a) == LastWritten(es, a, ReadByte(st, a))
  {
    DrainingArray(st, es);
    var r := After(st, es);
    forall s, w | 0 <= s < |r.lines| && 0 <= w < |r.lines[s]| ensures r.lines[s][w].Invalid? {
      assert SetIssued(es, s, |st.lines[0]|);
      assert Issued(es, s, w);
    }
    AvoidingIsSafe(st, es);
    assert es[..|es|] == es;
    forall a: Addr ensures ReadByte(r, a) == LastWritten(es, a, ReadByte(st, a)) {
      assert SetIssued(es, LineOf(a) % |st.lines|, |st.lines[0]|);
      assert ShowsAt(st, es, |es|, a);
    }
  }

  lemma {:induction false} WritesIssue(ps: seq<Pair>, p: Pair)
    requires p in ps
    ensures Issued(Writes(CleanInv, ps), p.0, p.1)
  {
    var init, last := ps[..|ps| - 1], ps[|ps| - 1];
    assert ps == init + [last];
    if p in init { WritesIssue(init, p); }
  }

  lemma {:induction false} WritesAreActs(ps: seq<Pair>)
    ensures Acts(Writes(CleanInv, ps))
  {
    if |ps| > 0 { WritesAreActs(ps[..|ps| - 1]); }
  }

  /** The routine itself is such a run, without accesses. */
  lemma RoutineIsDrain(st: State)
    requires Wf(st)
    ensures var es := Writes(CleanInv, Everything(Off(st)));
      DisableDCache(st) == After(st, es) && Acts(es) && Complete(|st.lines|, |st.lines[0]|, es)
  {
    var ps := Everything(Off(st));
    WalkIsRun(CleanInv, Off(st), ps);
    WritesAreActs(ps);
    forall s: nat, w: nat | s < |st.lines| && w < |st.lines[0]| ensures Issued(Writes(CleanInv, ps), s, w) {
      assert (s, w) in ps;
      WritesIssue(ps, (s, w));
    }
  }
}
