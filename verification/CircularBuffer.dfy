/**
 arm_circularWrite and arm_circularRead (CMSIS/arm_math.h:5939-6238; the three element types share one body each): a
 circular buffer addressed by an offset that advances by a stride, and the delay line it implements.
 */
module CircularBuffer {
  import opened Arith

  // ---------- Where a walk goes ----------

  /** One step of an offset: a single correction, and only downwards. */
  function Advance(len: int, w: int, inc: int): int { if w + inc >= len then w + inc - len else w + inc }

  function OffsetAt(len: int, off: int, inc: int, k: nat): int {
    if k == 0 then off else Advance(len, OffsetAt(len, off, inc, k - 1), inc)
  }

  function Offsets(len: int, off: int, inc: int, n: nat): (at: seq<int>)
    ensures |at| == n && forall k :: 0 <= k < n ==> at[k] == OffsetAt(len, off, inc, k)
  {
    seq(n, k requires 0 <= k => OffsetAt(len, off, inc, k))
  }

  /** One step of the destination pointer: back to the base when it meets the end exactly. */
  function Bounce(len: int, p: int, inc: int): int { if p + inc == len then 0 else p + inc }

  function PlaceAt(len: int, p: int, inc: int, k: nat): int {
    if k == 0 then p else Bounce(len, PlaceAt(len, p, inc, k - 1), inc)
  }

  function Places(len: int, p: int, inc: int, n: nat): (at: seq<int>)
    ensures |at| == n && forall k :: 0 <= k < n ==> at[k] == PlaceAt(len, p, inc, k)
  {
    seq(n, k requires 0 <= k => PlaceAt(len, p, inc, k))
  }

  /** Element positions of a plain strided pointer. */
  function Strided(p: int, inc: int, n: nat): (at: seq<int>)
    ensures |at| == n && forall k :: 0 <= k < n ==> at[k] == p + k * inc
  {
    seq(n, k requires 0 <= k => p + k * inc)
  }

  /** All positions lie inside an array of `size` elements. */
  ghost predicate Within(at: seq<int>, size: int) { forall k :: 0 <= k < |at| ==> 0 <= at[k] < size }

  // ---------- What a walk does ----------

  /** `xs[k]` stored at position `at[k]`, in order. */
  function Store<T>(buf: seq<T>, at: seq<int>, xs: seq<T>): (r: seq<T>)
    requires |at| == |xs| && Within(at, |buf|)
    ensures |r| == |buf|
  {
    if |xs| == 0 then buf
    else
      var k := |xs| - 1;
      Store(buf, at[..k], xs[..k])[at[k] := xs[k]]
  }

  function Load<T>(buf: seq<T>, at: seq<int>): (r: seq<T>)
    requires Within(at, |buf|)
    ensures |r| == |at| && forall k :: 0 <= k < |at| ==> r[k] == buf[at[k]]
  {
    seq(|at|, k requires 0 <= k < |at| => buf[at[k]])
  }

  lemma StoreOneMore<T>(buf: seq<T>, at: seq<int>, xs: seq<T>, k: nat)
    requires |at| == |xs| && Within(at, |buf|) && k < |xs|
    ensures Within(at[..k], |buf|) && Within(at[..k + 1], |buf|)
    ensures Store(buf, at[..k + 1], xs[..k + 1]) == Store(buf, at[..k], xs[..k])[at[k] := xs[k]]
  {
    var a, x := at[..k + 1], xs[..k + 1];
    assert |x| == k + 1 && a[k] == at[k] && x[k] == xs[k];
    assert a[..k] == at[..k] && x[..k] == xs[..k];
  }

  /**
   arm_circularWrite, for every length, stride, source stride and block whose accesses stay inside the two arrays:
   sample `k` is stored at offset `k`, and the last offset leaves as a 16-bit value.
   */
  method CircularWrite<T>(buffer: array<T>, len: int, offset: nat, inc: int,
                          src: seq<T>, srcPos: int, srcInc: int, blockSize: nat)
    returns (newOffset: nat)
    requires Within(Offsets(len, offset, inc, blockSize), buffer.Length)
    requires Within(Strided(srcPos, srcInc, blockSize), |src|)
    modifies buffer
    ensures buffer[..] ==
            Store(old(buffer[..]), Offsets(len, offset, inc, blockSize), Load(src, Strided(srcPos, srcInc, blockSize)))
    ensures newOffset == OffsetAt(len, offset, inc, blockSize) % 0x1_0000
  {
    ghost var b0, at := buffer[..], Offsets(len, offset, inc, blockSize);
    ghost var xs := Load(src, Strided(srcPos, srcInc, blockSize));
    var w: int := offset;
    var i := blockSize;
    ghost var k: nat := 0;
    var p := srcPos;
    while i > 0
      invariant 0 <= k <= blockSize && k + i == blockSize && p == srcPos + k * srcInc
      invariant w == OffsetAt(len, offset, inc, k)
      invariant Within(at[..k], |b0|) && buffer[..] == Store(b0, at[..k], xs[..k])
    {
      StoreOneMore(b0, at, xs, k);
      NextMultiple(k, srcInc);
      assert at[k] == w && Strided(srcPos, srcInc, blockSize)[k] == p;
      buffer[w] := src[p];
      p := p + srcInc;
      w := w + inc;
      if w >= len {
        w := w - len;
      }
      i := i - 1;
      k := k + 1;
    }
    assert xs[..k] == xs && at[..k] == at;
    newOffset := w % 0x1_0000;
  }

  lemma NextMultiple(k: int, stride: int)
    ensures (k + 1) * stride == k * stride + stride
  {
  }

  /** Positions counted from the start of a buffer, as positions in memory. */
  function Shifted(at: seq<int>, base: int): (r: seq<int>)
    ensures |r| == |at| && forall k :: 0 <= k < |at| ==> r[k] == base + at[k]
  {
    seq(|at|, k requires 0 <= k < |at| => base + at[k])
  }

  /** Element `from[k]` copied to `at[k]`, one after the other: a later copy sees what an earlier one has stored. */
  function CopyEach<T>(mem: seq<T>, from: seq<int>, at: seq<int>): (r: seq<T>)
    requires |from| == |at| && Within(from, |mem|) && Within(at, |mem|)
    ensures |r| == |mem|
  {
    if |at| == 0 then mem
    else
      var k := |at| - 1;
      var before := CopyEach(mem, from[..k], at[..k]);
      before[at[k] := before[from[k]]]
  }

  lemma CopyOneMore<T>(mem: seq<T>, from: seq<int>, at: seq<int>, k: nat)
    requires |from| == |at| && Within(from, |mem|) && Within(at, |mem|) && k < |at|
    ensures Within(from[..k], |mem|) && Within(at[..k], |mem|)
    ensures Within(from[..k + 1], |mem|) && Within(at[..k + 1], |mem|)
    ensures var before := CopyEach(mem, from[..k], at[..k]);
      CopyEach(mem, from[..k + 1], at[..k + 1]) == before[at[k] := before[from[k]]]
  {
    var f, a := from[..k + 1], at[..k + 1];
    assert |a| == k + 1 && f[k] == from[k] && a[k] == at[k];
    assert f[..k] == from[..k] && a[..k] == at[..k];
  }

  /**
   arm_circularRead on one memory that holds both buffers, wherever they lie, overlapping or not: the same walk over the
   buffer at `buf`, storing from `base + dstPos` on into a destination that wraps when its pointer meets the end
   exactly. For every stride whose accesses stay inside memory.
   */
  method CircularRead<T>(mem: array<T>, buf: int, len: int, offset: int, inc: int,
                         base: int, dstPos: int, dstLen: int, dstInc: int, blockSize: nat)
    returns (newOffset: int)
    requires Within(Shifted(Offsets(len, offset, inc, blockSize), buf), mem.Length)
    requires Within(Shifted(Places(dstLen, dstPos, dstInc, blockSize), base), mem.Length)
    modifies mem
    ensures mem[..] == CopyEach(old(mem[..]), Shifted(Offsets(len, offset, inc, blockSize), buf),
                                Shifted(Places(dstLen, dstPos, dstInc, blockSize), base))
    ensures newOffset == OffsetAt(len, offset, inc, blockSize)
  {
    ghost var m0 := mem[..];
    ghost var from := Shifted(Offsets(len, offset, inc, blockSize), buf);
    ghost var at := Shifted(Places(dstLen, dstPos, dstInc, blockSize), base);
    var r, p := offset, dstPos;
    var i := blockSize;
    ghost var k: nat := 0;
    while i > 0
      invariant 0 <= k <= blockSize && k + i == blockSize
      invariant r == OffsetAt(len, offset, inc, k)
      invariant p == PlaceAt(dstLen, dstPos, dstInc, k)
      invariant Within(from[..k], |m0|) && Within(at[..k], |m0|) && mem[..] == CopyEach(m0, from[..k], at[..k])
    {
      CopyOneMore(m0, from, at, k);
      assert from[k] == buf + r && at[k] == base + p;
      mem[base + p] := mem[buf + r];
      p := p + dstInc;
      if p == dstLen {
        p := 0;
      }
      r := r + inc;
      if r >= len {
        r := r - len;
      }
      i := i - 1;
      k := k + 1;
    }
    assert from[..k] == from && at[..k] == at;
    newOffset := r;
  }

  /** When no element is read after it has been stored to, copying one by one is loading all and storing all. */
  lemma {:induction false} CopyIsLoadStore<T>(mem: seq<T>, from: seq<int>, at: seq<int>)
    requires |from| == |at| && Within(from, |mem|) && Within(at, |mem|)
    requires forall j, k :: 0 <= j < k < |at| ==> at[j] != from[k]
    ensures CopyEach(mem, from, at) == Store(mem, at, Load(mem, from))
    ensures forall i :: 0 <= i < |mem| && i !in at ==> CopyEach(mem, from, at)[i] == mem[i]
  {
    if |at| > 0 {
      var k := |at| - 1;
      CopyIsLoadStore(mem, from[..k], at[..k]);
      assert at == at[..k] + [at[k]];
      assert Load(mem, from)[..k] == Load(mem, from[..k]);
      assert from[k] !in at[..k];
    }
  }

  // ---------- Which strides stay in range ----------

  /** `(start + k*stride) mod len`. */
  function Slot(len: int, off: int, inc: int, k: nat): (w: int)
    requires len > 0
    ensures 0 <= w < len
  {
    (off + k * inc) % len
  }

  /** For strides from 0 to the length the offset counts modulo the length. */
  lemma {:induction false} OffsetIsSlot(len: int, off: int, inc: int, k: nat)
    requires 0 <= off < len && 0 <= inc <= len
    ensures OffsetAt(len, off, inc, k) == Slot(len, off, inc, k)
  {
    if k == 0 {
      SmallMod(off, len);
    } else {
      OffsetIsSlot(len, off, inc, k - 1);
      SlotAdvances(len, off, inc, k - 1);
    }
  }

  lemma SlotAdvances(len: int, off: int, inc: int, k: nat)
    requires len > 0 && 0 <= inc <= len
    ensures Slot(len, off, inc, k + 1) == Advance(len, Slot(len, off, inc, k), inc)
  {
    var a := off + k * inc;
    NextMultiple(k, inc);
    StepModulo(a, inc, len);
    assert Slot(len, off, inc, k + 1) == (a + inc) % len;
  }

  lemma {:induction false} DriftsDown(len: int, off: int, inc: int, k: nat)
    requires 0 <= off < len && inc < 0
    ensures OffsetAt(len, off, inc, k) <= off - k
  {
    if k > 0 { DriftsDown(len, off, inc, k - 1); }
  }

  lemma {:induction false} DriftsUp(len: int, off: int, inc: int, k: nat)
    requires 0 <= off < len && inc > len
    ensures OffsetAt(len, off, inc, k) >= off + k
  {
    if k > 0 { DriftsUp(len, off, inc, k - 1); }
  }

  /**
   Exactly which strides are safe: from any offset inside the buffer the walk stays inside it for ever if and only if
   the stride lies between 0 and the length. The comment in the source speaks of negative strides; the code does not
   handle them.
   */
  lemma StaysInRangeIff(len: int, off: int, inc: int)
    requires 0 <= off < len
    ensures (forall k: nat :: 0 <= OffsetAt(len, off, inc, k) < len) <==> 0 <= inc <= len
  {
    if 0 <= inc <= len {
      forall k: nat ensures 0 <= OffsetAt(len, off, inc, k) < len { OffsetIsSlot(len, off, inc, k); }
    } else if inc < 0 {
      DriftsDown(len, off, inc, off + 1);
    } else {
      DriftsUp(len, off, inc, len);
    }
  }

  /** A place below the end leaves room for a whole stride, so the pointer meets the end exactly. */
  lemma NextPlace(p: int, inc: int, len: int)
    requires 0 <= p < len && 0 < inc && p % inc == 0 && len % inc == 0
    ensures inc <= len && p + inc <= len && (p + inc) % inc == 0
  {
    var e := len / inc;
    assert len == e * inc;
    MultipleBelow(p, inc, e);
    StepModulo(p, inc, inc);
  }

  /** The strides that divide both the destination length and its start, or do not move at all. */
  predicate Divides(len: int, p: int, inc: int) { inc == 0 || (inc > 0 && len % inc == 0 && p % inc == 0) }

  lemma DividesStep(len: int, p: int, inc: int)
    requires 0 <= p < len && Divides(len, p, inc)
    ensures 0 <= inc <= len
    ensures var p' := Bounce(len, p, inc); 0 <= p' < len && Divides(len, p', inc) && p' == Advance(len, p, inc)
  {
    if inc > 0 { NextPlace(p, inc, len); }
  }

  lemma {:induction false} PlaceIsOffset(len: int, p: int, inc: int, k: nat)
    requires 0 <= p < len && Divides(len, p, inc)
    ensures var w := PlaceAt(len, p, inc, k); w == OffsetAt(len, p, inc, k) && 0 <= w < len && Divides(len, w, inc)
  {
    if k > 0 {
      PlaceIsOffset(len, p, inc, k - 1);
      DividesStep(len, PlaceAt(len, p, inc, k - 1), inc);
    }
  }

  lemma PlaceIsSlot(len: int, p: int, inc: int, k: nat)
    requires 0 <= p < len && Divides(len, p, inc)
    ensures PlaceAt(len, p, inc, k) == Slot(len, p, inc, k)
  {
    DividesStep(len, p, inc);
    PlaceIsOffset(len, p, inc, k);
    OffsetIsSlot(len, p, inc, k);
  }

  ghost predicate PlacesStay(len: int, p: int, inc: int) { forall k: nat :: 0 <= PlaceAt(len, p, inc, k) < len }

  lemma {:induction false} PlaceShift(len: int, p: int, inc: int, a: nat, b: nat)
    ensures PlaceAt(len, p, inc, a + b) == PlaceAt(len, PlaceAt(len, p, inc, a), inc, b)
  {
    if b > 0 { PlaceShift(len, p, inc, a, b - 1); }
  }

  /** A walk that stays in range climbs from its start until it meets the end exactly, and then is at the base. */
  lemma {:induction false} Climbs(len: int, p: int, inc: int, k: nat)
    requires 0 <= p < len && inc > 0 && PlacesStay(len, p, inc) && p + k * inc <= len
    ensures PlaceAt(len, p, inc, k) == if p + k * inc == len then 0 else p + k * inc
  {
    if k > 0 {
      NextMultiple(k - 1, inc);
      Climbs(len, p, inc, k - 1);
    }
  }

  lemma MeetsTheEnd(len: int, p: int, inc: int) returns (k: nat)
    requires 0 <= p < len && inc > 0 && PlacesStay(len, p, inc)
    ensures p + k * inc == len && PlaceAt(len, p, inc, k) == 0
  {
    k := (len - p) / inc;
    FloorBounds(len - p, inc);
    Climbs(len, p, inc, k);
    assert 0 <= PlaceAt(len, p, inc, k + 1) < len;
  }

  lemma StayersDivide(len: int, p: int, inc: int)
    requires 0 <= p < len && inc > 0 && PlacesStay(len, p, inc)
    ensures len % inc == 0 && p % inc == 0
  {
    var a := MeetsTheEnd(len, p, inc);
    forall k: nat ensures 0 <= PlaceAt(len, 0, inc, k) < len { PlaceShift(len, p, inc, a, k); }
    var b := MeetsTheEnd(len, 0, inc);
    DivUnique(len, b, 0, inc);
    assert p == (b - a) * inc;
    DivUnique(p, b - a, 0, inc);
  }

  lemma {:induction false} SinksDown(len: int, p: int, inc: int, k: nat)
    requires 0 <= p < len && inc < 0 && PlacesStay(len, p, inc)
    ensures PlaceAt(len, p, inc, k) <= p - k
  {
    if k > 0 { SinksDown(len, p, inc, k - 1); }
  }

  /** The destination pointer stays inside its buffer for ever if and only if its stride divides length and start. */
  lemma DestinationStaysIff(len: int, p: int, inc: int)
    requires 0 <= p < len
    ensures PlacesStay(len, p, inc) <==> Divides(len, p, inc)
  {
    if Divides(len, p, inc) {
      forall k: nat ensures 0 <= PlaceAt(len, p, inc, k) < len { PlaceIsSlot(len, p, inc, k); }
    }
    if PlacesStay(len, p, inc) {
      if inc < 0 { SinksDown(len, p, inc, p + 1); } else if inc > 0 { StayersDivide(len, p, inc); }
    }
  }

  // ---------- Delay line ----------

  /** A unit-stride write from an offset inside the buffer. */
  function WriteBlock<T>(buf: seq<T>, len: int, off: int, xs: seq<T>): (r: seq<T>)
    requires 0 <= off < len <= |buf|
    ensures |r| == |buf|
  {
    UnitOffsets(len, off, |xs|);
    Store(buf, Offsets(len, off, 1, |xs|), xs)
  }

  lemma UnitOffsets(len: int, off: int, n: nat)
    requires 0 <= off < len
    ensures Within(Offsets(len, off, 1, n), len)
    ensures forall k :: 0 <= k < n ==> Offsets(len, off, 1, n)[k] == (off + k) % len
  {
    forall k | 0 <= k < n ensures Offsets(len, off, 1, n)[k] == (off + k) % len { OffsetIsSlot(len, off, 1, k); }
  }

  /** The buffer holds the last `len` samples of the stream, sample `j` at `j mod len`. */
  ghost predicate HoldsLast<T>(buf: seq<T>, len: int, stream: seq<T>) {
    0 < len <= |buf| && forall j :: 0 <= j < |stream| && |stream| - len <= j ==> buf[j % len] == stream[j]
  }

  /** And the offset is the number of samples modulo `len`. */
  ghost predicate DelayLine<T>(buf: seq<T>, len: int, off: int, stream: seq<T>) {
    HoldsLast(buf, len, stream) && off == |stream| % len
  }

  lemma PushSample<T>(buf: seq<T>, len: int, off: int, stream: seq<T>, x: T)
    requires DelayLine(buf, len, off, stream)
    ensures DelayLine(buf[off := x], len, (off + 1) % len, stream + [x])
  {
    var n, buf', s' := |stream|, buf[off := x], stream + [x];
    ModAdd(n, 1, len);
    forall j | 0 <= j < |s'| && |s'| - len <= j ensures buf'[j % len] == s'[j] {
      if j < n { ResiduesDiffer(j, n, len); }
    }
  }

  lemma BlockSnoc<T>(buf: seq<T>, len: int, off: int, xs: seq<T>, x: T)
    requires 0 <= off < len <= |buf|
    ensures WriteBlock(buf, len, off, xs + [x]) == WriteBlock(buf, len, off, xs)[(off + |xs|) % len := x]
  {
    var n := |xs|;
    UnitOffsets(len, off, n);
    UnitOffsets(len, off, n + 1);
    assert Offsets(len, off, 1, n + 1)[..n] == Offsets(len, off, 1, n) && (xs + [x])[..n] == xs;
  }

  /** A unit-stride block write appends its samples to the stream. */
  lemma {:induction false} PushBlock<T>(buf: seq<T>, len: int, off: int, stream: seq<T>, xs: seq<T>)
    requires DelayLine(buf, len, off, stream)
    ensures DelayLine(WriteBlock(buf, len, off, xs), len, (off + |xs|) % len, stream + xs)
  {
    if |xs| == 0 {
      assert stream + xs == stream;
      SmallMod(off, len);
    } else {
      var init, x := xs[..|xs| - 1], xs[|xs| - 1];
      assert xs == init + [x] && stream + init + [x] == stream + xs;
      PushBlock(buf, len, off, stream, init);
      BlockSnoc(buf, len, off, init, x);
      PushSample(WriteBlock(buf, len, off, init), len, (off + |init|) % len, stream + init, x);
      ModAdd(off + |init|, 1, len);
    }
  }

  datatype Line<T> = Line(buf: seq<T>, off: int)

  /** A sequence of unit-stride arm_circularWrite calls, each starting from the 16-bit offset the last one left. */
  function WriteBlocks<T>(line: Line<T>, len: int, blocks: seq<seq<T>>): (r: Line<T>)
    requires 0 <= line.off < len <= |line.buf|
    ensures |r.buf| == |line.buf| && 0 <= r.off < len
  {
    if |blocks| == 0 then line
    else
      var before := WriteBlocks(line, len, blocks[..|blocks| - 1]);
      var xs := blocks[|blocks| - 1];
      OffsetIsSlot(len, before.off, 1, |xs|);
      Line(WriteBlock(before.buf, len, before.off, xs), OffsetAt(len, before.off, 1, |xs|) % 0x1_0000)
  }

  /** One such call: arm_circularWrite with unit strides makes exactly one step of `WriteBlocks`. */
  method CircularWriteUnit<T>(buffer: array<T>, len: int, offset: nat, xs: seq<T>) returns (newOffset: nat)
    requires offset < len <= buffer.Length
    modifies buffer
    ensures Line(buffer[..], newOffset) == WriteBlocks(Line(old(buffer[..]), offset), len, [xs])
  {
    ghost var start := Line(buffer[..], offset);
    UnitOffsets(len, offset, |xs|);
    assert Load(xs, Strided(0, 1, |xs|)) == xs;
    newOffset := CircularWrite(buffer, len, offset, 1, xs, 0, 1, |xs|);
    assert [xs][..0] == [] && WriteBlocks(start, len, []) == start;
  }

  function Concat<T>(blocks: seq<seq<T>>): seq<T> {
    if |blocks| == 0 then [] else Concat(blocks[..|blocks| - 1]) + blocks[|blocks| - 1]
  }

  /**
   A circular buffer is a delay line: after any sequence of blocks, of any sizes, the buffer holds the last `L` samples
   of the whole stream and the offset is the number of samples written modulo `L`. The 16-bit offset needs `L <= 65536`.
   */
  lemma {:induction false} WritesMakeDelayLine<T>(buf: seq<T>, len: int, blocks: seq<seq<T>>)
    requires 0 < len <= |buf| && len <= 0x1_0000
    ensures var r := WriteBlocks(Line(buf, 0), len, blocks); DelayLine(r.buf, len, r.off, Concat(blocks))
  {
    if |blocks| == 0 {
      SmallMod(0, len);
    } else {
      var init, xs := blocks[..|blocks| - 1], blocks[|blocks| - 1];
      WritesMakeDelayLine(buf, len, init);
      var before := WriteBlocks(Line(buf, 0), len, init);
      PushBlock(before.buf, len, before.off, Concat(init), xs);
      OffsetIsSlot(len, before.off, 1, |xs|);
      SmallMod((before.off + |xs|) % len, 0x1_0000);
    }
  }

  /** Two blocks a longer buffer loses: after 65536 samples the offset is back at zero, and the next one overwrites. */
  function Overrun<T>(x: T, y: T): seq<seq<T>> { [seq(0x1_0000, _ => x), [y]] }

  lemma LongBufferOverruns<T>(buf: seq<T>, len: int, x: T, y: T)
    requires 0x1_0000 < len <= |buf| && x != y
    ensures !HoldsLast(WriteBlocks(Line(buf, 0), len, Overrun(x, y)).buf, len, Concat(Overrun(x, y)))
  {
    var blocks := Overrun(x, y);
    var b0, b1, start := blocks[0], blocks[1], Line(buf, 0);
    assert blocks[..1] == [b0] && [b0][..0] == [];
    SmallMod(0x1_0000, len);
    OffsetIsSlot(len, 0, 1, 0x1_0000);
    assert WriteBlocks(start, len, []) == start && WriteBlocks(start, len, [b0]).off == 0;
    var mid := WriteBlocks(start, len, blocks[..1]).buf;
    BlockSnoc(mid, len, 0, [], y);
    assert [] + [y] == b1;
    assert WriteBlocks(start, len, blocks).buf == WriteBlock(mid, len, 0, b1);
    SmallMod(0, len);
    assert WriteBlocks(start, len, blocks).buf[0 % len] == y;
    assert Concat(blocks[..1]) == Concat(blocks[..1][..0]) + b0;
    assert Concat(blocks) == b0 + b1 && Concat(blocks)[0] == x;
  }

  /**
   Exactly which lengths make a delay line: on every sequence of blocks the buffer holds the last `L` samples, and the
   offset counts them, if and only if `L <= 65536`.
   */
  lemma DelayLineIff<T(!new)>(buf: seq<T>, len: int, x: T, y: T)
    requires 0 < len <= |buf| && x != y
    ensures (forall blocks: seq<seq<T>> :: HoldsLast(WriteBlocks(Line(buf, 0), len, blocks).buf, len, Concat(blocks)))
            <==> len <= 0x1_0000
    ensures (forall blocks: seq<seq<T>> ::
               DelayLine(WriteBlocks(Line(buf, 0), len, blocks).buf, len, WriteBlocks(Line(buf, 0), len, blocks).off,
                         Concat(blocks)))
            <==> len <= 0x1_0000
  {
    if len <= 0x1_0000 {
      forall blocks: seq<seq<T>>
        ensures DelayLine(WriteBlocks(Line(buf, 0), len, blocks).buf, len, WriteBlocks(Line(buf, 0), len, blocks).off,
                          Concat(blocks))
      {
        WritesMakeDelayLine(buf, len, blocks);
      }
    } else {
      LongBufferOverruns(buf, len, x, y);
    }
  }

  /** Reading `n <= d` samples from `d` behind the write offset yields exactly that slice of the stream. */
  lemma ReadIsDelayedSlice<T>(buf: seq<T>, len: int, off: int, stream: seq<T>, d: nat, n: nat)
    requires DelayLine(buf, len, off, stream)
    requires n <= d <= len && d <= |stream|
    ensures var from := Offsets(len, (off + (len - d)) % len, 1, n);
      Within(from, |buf|) && Load(buf, from) == stream[|stream| - d..|stream| - d + n]
  {
    StartBehind(|stream|, len, d);
    SliceFrom(buf, len, stream, |stream| - d, n, (off + (len - d)) % len);
  }

  /** The places from that of sample `s` on hold the stream from there on. */
  lemma SliceFrom<T>(buf: seq<T>, len: int, stream: seq<T>, s: int, n: nat, start: int)
    requires HoldsLast(buf, len, stream) && 0 <= s && |stream| - len <= s && s + n <= |stream| && start == s % len
    ensures Within(Offsets(len, start, 1, n), |buf|) && Load(buf, Offsets(len, start, 1, n)) == stream[s..s + n]
  {
    UnitOffsets(len, start, n);
    forall k: nat | k < n ensures Load(buf, Offsets(len, start, 1, n))[k] == stream[s + k] {
      SampleFrom(buf, len, stream, s, k, start, Offsets(len, start, 1, n)[k]);
    }
  }

  lemma SampleFrom<T>(buf: seq<T>, len: int, stream: seq<T>, s: int, k: nat, start: int, i: int)
    requires HoldsLast(buf, len, stream) && 0 <= s && |stream| - len <= s && s + k < |stream|
    requires start == s % len && i == (start + k) % len
    ensures 0 <= i < |buf| && buf[i] == stream[s + k]
  {
    ModAdd(s, k, len);
    SampleAt(buf, len, stream, s + k, i);
  }

  lemma SampleAt<T>(buf: seq<T>, len: int, stream: seq<T>, j: int, i: int)
    requires HoldsLast(buf, len, stream) && 0 <= j < |stream| && |stream| - len <= j && i == j % len
    ensures 0 <= i < |buf| && buf[i] == stream[j]
  {
  }

  /** The start `d` behind the offset is the place of the sample written `d` samples ago. */
  lemma StartBehind(n: int, len: int, d: int)
    requires 0 < len
    ensures (n % len + (len - d)) % len == (n - d) % len
  {
    var z := n + (len - d);
    ModAdd(n, len - d, len);
    OneTurn(n - d, len, z);
  }

  lemma OneTurn(y: int, m: int, z: int)
    requires m > 0 && z == y + m
    ensures z % m == y % m
  {
    ModShift(y, m);
  }

  /** The positions a unit-stride read from `d` behind loads from and stores to. */
  function ReadFrom(len: int, off: int, d: nat, n: nat, buf: int): seq<int>
    requires len > 0
  {
    Shifted(Offsets(len, (off + (len - d)) % len, 1, n), buf)
  }

  function ReadInto(dstLen: int, n: nat, base: int): seq<int> { Shifted(Places(dstLen, 0, 1, n), base) }

  lemma ReadPositions(len: int, off: int, d: nat, n: nat, buf: int, dstLen: int, base: int)
    requires 0 <= off < len && d <= len && 0 < dstLen && n <= dstLen
    ensures forall k :: 0 <= k < n ==> buf <= ReadFrom(len, off, d, n, buf)[k] < buf + len
    ensures forall k :: 0 <= k < n ==> ReadInto(dstLen, n, base)[k] == base + k
  {
    UnitOffsets(len, (off + (len - d)) % len, n);
    forall k | 0 <= k < n ensures Places(dstLen, 0, 1, n)[k] == k {
      PlaceIsSlot(dstLen, 0, 1, k);
      SmallMod(k, dstLen);
    }
  }

  /** Stores to consecutive positions lay the samples out in order. */
  lemma {:induction false} StoreRun<T>(mem: seq<T>, at: seq<int>, xs: seq<T>, base: int)
    requires |at| == |xs| && 0 <= base && base + |xs| <= |mem| && forall k :: 0 <= k < |at| ==> at[k] == base + k
    ensures Store(mem, at, xs) == mem[..base] + xs + mem[base + |xs|..]
  {
    if |xs| > 0 {
      var k := |xs| - 1;
      StoreRun(mem, at[..k], xs[..k], base);
      var before := mem[..base] + xs[..k] + mem[base + k..];
      assert before[base + k := xs[k]] == mem[..base] + xs + mem[base + |xs|..];
    }
  }

  /**
   What arm_circularRead delivers. With a delay line at `buf` and a destination that does not overlap it, a unit-stride
   read of `n <= d` samples from `d` behind the write offset leaves exactly that slice of the stream at the destination,
   and the rest of memory as it was.
   */
  lemma ReadDelivers<T>(mem: seq<T>, buf: int, len: int, off: int, stream: seq<T>, d: nat, n: nat,
                        base: int, dstLen: int)
    requires 0 <= buf && 0 < len && buf + len <= |mem| && DelayLine(mem[buf..buf + len], len, off, stream)
    requires n <= d <= len && d <= |stream| && n <= dstLen && 0 < dstLen && 0 <= base && base + dstLen <= |mem|
    requires buf + len <= base || base + dstLen <= buf
    ensures var from, at := ReadFrom(len, off, d, n, buf), ReadInto(dstLen, n, base);
      && Within(from, |mem|) && Within(at, |mem|)
      && CopyEach(mem, from, at) == mem[..base] + stream[|stream| - d..|stream| - d + n] + mem[base + n..]
  {
    var from, at := ReadFrom(len, off, d, n, buf), ReadInto(dstLen, n, base);
    ReadPositions(len, off, d, n, buf, dstLen, base);
    LoadsSlice(mem, buf, len, off, stream, d, n);
    CopyRun(mem, from, at, base);
  }

  /** Copying to consecutive positions that are not read lays the loaded elements out in order. */
  lemma CopyRun<T>(mem: seq<T>, from: seq<int>, at: seq<int>, base: int)
    requires |from| == |at| && Within(from, |mem|) && 0 <= base && base + |at| <= |mem|
    requires forall k :: 0 <= k < |at| ==> at[k] == base + k && !(base <= from[k] < base + |at|)
    ensures Within(at, |mem|)
    ensures CopyEach(mem, from, at) == mem[..base] + Load(mem, from) + mem[base + |at|..]
  {
    CopyIsLoadStore(mem, from, at);
    StoreRun(mem, at, Load(mem, from), base);
  }

  lemma LoadsSlice<T>(mem: seq<T>, buf: int, len: int, off: int, stream: seq<T>, d: nat, n: nat)
    requires 0 <= buf && 0 < len && buf + len <= |mem| && DelayLine(mem[buf..buf + len], len, off, stream)
    requires n <= d <= len && d <= |stream|
    ensures Within(ReadFrom(len, off, d, n, buf), |mem|)
    ensures Load(mem, ReadFrom(len, off, d, n, buf)) == stream[|stream| - d..|stream| - d + n]
  {
    ReadIsDelayedSlice(mem[buf..buf + len], len, off, stream, d, n);
    var start := (off + (len - d)) % len;
    UnitOffsets(len, start, n);
    LoadShifted(mem, buf, len, Offsets(len, start, 1, n));
  }

  /** Loading from a part of memory is loading from memory at shifted positions. */
  lemma LoadShifted<T>(mem: seq<T>, buf: int, len: int, at: seq<int>)
    requires 0 <= buf && 0 <= len && buf + len <= |mem| && Within(at, len)
    ensures Within(Shifted(at, buf), |mem|) && Load(mem, Shifted(at, buf)) == Load(mem[buf..buf + len], at)
  {
  }
}
