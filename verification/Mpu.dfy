/**
 The PMSAv7 memory protection unit: register writes, the region encoders of CMSIS/mpu_armv7.h, and which memory
 attributes an address gets (section B3.5 of the Armv7-M Architecture Reference Manual).

 Register values are unsigned 32-bit numbers. A field extraction `(v >> p) & (2^w - 1)` is written `v / 2^p % 2^w`, and
 the bitwise or of disjoint fields as their sum.
 */
module Mpu {
  import opened Arith
  import opened Cache

  datatype Region = Region(base: nat, rasr: nat)

  /** `ctrl` holds MPU_CTRL.ENABLE and PRIVDEFENA. */
  datatype Regs = Regs(enabled: bool, background: bool, rnr: nat, regions: seq<Region>)

  // ---------- Register writes ----------

  /** RBAR: with VALID set the region number comes along; either way the base of the current region changes. */
  function WriteRbar(m: Regs, v: nat): Regs {
    var n := if v / 16 % 2 == 1 then v % 16 else m.rnr;
    if n < |m.regions| then m.(rnr := n, regions := m.regions[n := m.regions[n].(base := v / 32 * 32)])
    else m.(rnr := n)
  }

  function WriteRasr(m: Regs, v: nat): Regs {
    if m.rnr < |m.regions| then m.(regions := m.regions[m.rnr := m.regions[m.rnr].(rasr := v)]) else m
  }

  /** ARM_MPU_SetRegion, CMSIS/mpu_armv7.h:225-229. */
  function SetRegion(m: Regs, row: Row): Regs {
    WriteRasr(WriteRbar(m, row.rbar), row.rasr)
  }

  /** One entry of a region table. */
  datatype Row = Row(rbar: nat, rasr: nat)

  /** The row-by-row reference: one ARM_MPU_SetRegion per row, in order. */
  function SetRegions(m: Regs, rows: seq<Row>): Regs {
    if |rows| == 0 then m else SetRegion(SetRegions(m, rows[..|rows| - 1]), rows[|rows| - 1])
  }

  lemma {:induction false} SetRegionsConcat(m: Regs, a: seq<Row>, b: seq<Row>)
    ensures SetRegions(m, a + b) == SetRegions(SetRegions(m, a), b)
  {
    if |b| == 0 {
      assert a + b == a;
    } else {
      SetRegionsConcat(m, a, b[..|b| - 1]);
      assert (a + b)[..|a + b| - 1] == a + b[..|b| - 1];
    }
  }

  /** The table as the words a pointer to its first RBAR walks over. */
  function Words(rows: seq<Row>): (ws: seq<nat>)
    ensures |ws| == 2 * |rows|
    ensures forall i :: 0 <= i < |rows| ==> ws[2 * i] == rows[i].rbar && ws[2 * i + 1] == rows[i].rasr
  {
    if |rows| == 0 then [] else Words(rows[..|rows| - 1]) + [rows[|rows| - 1].rbar, rows[|rows| - 1].rasr]
  }

  /** Word `i` counted from MPU->RBAR: RBAR, RASR and their three aliases (CMSIS/core_cm7.h:1431-1446). */
  function WriteWord(m: Regs, i: nat, v: nat): Regs
    requires i < 8
  {
    if i % 2 == 0 then WriteRbar(m, v) else WriteRasr(m, v)
  }

  // ---------- Encoders ----------

  /** ARM_MPU_RBAR. */
  function Rbar(region: nat, base: nat): nat {
    base / 32 * 32 + 16 + region % 16
  }

  datatype Attr = Attr(xn: nat, ap: nat, tex: nat, s: nat, c: nat, b: nat)

  /** ARM_MPU_RASR with ARM_MPU_ACCESS_ folded in: every field truncated to its width and shifted to its position. */
  function Rasr(at: Attr, srd: nat, size: nat): nat {
    at.xn % 2 * 0x1000_0000 + at.ap % 8 * 0x100_0000 + at.tex % 8 * 0x8_0000 + at.s % 2 * 0x4_0000
    + at.c % 2 * 0x2_0000 + at.b % 2 * 0x1_0000 + srd % 256 * 0x100 + size % 32 * 2 + 1
  }

  function AttrOf(rasr: nat): Attr {
    Attr(rasr / 0x1000_0000 % 2, rasr / 0x100_0000 % 8, rasr / 0x8_0000 % 8, rasr / 0x4_0000 % 2,
         rasr / 0x2_0000 % 2, rasr / 0x1_0000 % 2)
  }

  function SrdOf(rasr: nat): nat { rasr / 0x100 % 256 }
  function SizeOf(rasr: nat): nat { rasr / 2 % 32 }
  predicate IsOn(rasr: nat) { rasr % 2 == 1 }

  ghost predicate FieldsFit(at: Attr) {
    at.xn < 2 && at.ap < 8 && at.tex < 8 && at.s < 2 && at.c < 2 && at.b < 2
  }

  /** Fields that fit are packed as they are. */
  lemma RasrPlain(at: Attr, srd: nat, size: nat)
    requires FieldsFit(at) && srd < 256 && size < 32
    ensures Rasr(at, srd, size) == at.xn * 0x1000_0000 + at.ap * 0x100_0000 + at.tex * 0x8_0000 + at.s * 0x4_0000
                                   + at.c * 0x2_0000 + at.b * 0x1_0000 + srd * 0x100 + size * 2 + 1
  {
    assert at.xn % 2 == at.xn && at.ap % 8 == at.ap && at.tex % 8 == at.tex;
    assert at.s % 2 == at.s && at.c % 2 == at.c && at.b % 2 == at.b;
    assert srd % 256 == srd && size % 32 == size;
  }

  lemma RasrHigh(at: Attr, v: nat, lo: nat)
    requires FieldsFit(at) && lo < 0x8_0000
    requires v == at.xn * 0x1000_0000 + at.ap * 0x100_0000 + at.tex * 0x8_0000 + lo
    ensures v / 0x1000_0000 % 2 == at.xn && v / 0x100_0000 % 8 == at.ap && v / 0x8_0000 % 8 == at.tex
  {
    Field(v, 0, at.xn, at.ap * 0x100_0000 + at.tex * 0x8_0000 + lo, 0x1000_0000, 2);
    Field(v, at.xn * 2, at.ap, at.tex * 0x8_0000 + lo, 0x100_0000, 8);
    Field(v, at.xn * 0x40 + at.ap * 4, at.tex, lo, 0x8_0000, 8);
  }

  lemma RasrMid(at: Attr, v: nat, hi: nat, lo: nat)
    requires FieldsFit(at) && lo < 0x1_0000
    requires v == hi * 0x8_0000 + at.s * 0x4_0000 + at.c * 0x2_0000 + at.b * 0x1_0000 + lo
    ensures v / 0x4_0000 % 2 == at.s && v / 0x2_0000 % 2 == at.c && v / 0x1_0000 % 2 == at.b
  {
    Field(v, hi, at.s, at.c * 0x2_0000 + at.b * 0x1_0000 + lo, 0x4_0000, 2);
    Field(v, hi * 2 + at.s, at.c, at.b * 0x1_0000 + lo, 0x2_0000, 2);
    Field(v, hi * 4 + at.s * 2 + at.c, at.b, lo, 0x1_0000, 2);
  }

  lemma RasrLow(v: nat, hi: nat, srd: nat, size: nat)
    requires srd < 256 && size < 32 && v == hi * 0x1_0000 + srd * 0x100 + size * 2 + 1
    ensures SrdOf(v) == srd && SizeOf(v) == size && IsOn(v)
  {
    Field(v, hi, srd, size * 2 + 1, 0x100, 256);
    Field(v, hi * 0x400 + srd * 4, size, 1, 2, 32);
    DivUnique(v, hi * 0x8000 + srd * 0x80 + size, 1, 2);
  }

  /** Every field packed by ARM_MPU_RASR is read back by the hardware. */
  lemma RasrRoundTrip(at: Attr, srd: nat, size: nat)
    requires FieldsFit(at) && srd < 256 && size < 32
    ensures var v := Rasr(at, srd, size);
      AttrOf(v) == at && SrdOf(v) == srd && SizeOf(v) == size && IsOn(v)
  {
    RasrPlain(at, srd, size);
    var v := Rasr(at, srd, size);
    var low := srd * 0x100 + size * 2 + 1;
    var mid := at.s * 4 + at.c * 2 + at.b;
    var top := at.xn * 0x200 + at.ap * 0x20 + at.tex;
    RasrHigh(at, v, mid * 0x1_0000 + low);
    RasrMid(at, v, top, low);
    RasrLow(v, top * 8 + mid, srd, size);
  }

  /** A row with VALID set selects and programs its own region, whatever was selected before. */
  lemma SetOwnRegion(m: Regs, n: nat, base: nat, rasr: nat)
    requires n < 16 && n < |m.regions|
    ensures SetRegion(m, Row(Rbar(n, base), rasr)) ==
            m.(rnr := n, regions := m.regions[n := Region(base / 32 * 32, rasr)])
  {
    var v, q := Rbar(n, base), base / 32;
    assert v == q * 32 + (16 + n);
    DivUnique(v, q, 16 + n, 32);
    DivUnique(v, q * 2 + 1, n, 16);
    DivUnique(q * 2 + 1, q, 1, 2);
  }

  /** A row without VALID programs the region RNR selects, and leaves the selection. */
  lemma SetSelectedRegion(m: Regs, v: nat, rasr: nat)
    requires v / 16 % 2 == 0 && m.rnr < |m.regions|
    ensures SetRegion(m, Row(v, rasr)) == m.(regions := m.regions[m.rnr := Region(v - v % 32, rasr)])
  {
    assert v - v % 32 == v / 32 * 32;
  }

  /**
   ARM_MPU_ACCESS_NORMAL passes `InnerCp & 2`, not its truth value, into the one-bit C field. The inner policy is
   encoded as documented exactly for the two policies whose cacheable bit is clear.
   */
  function AccessNormal(outerCp: nat, innerCp: nat, shareable: nat): Attr {
    Attr(0, 0, (4 + outerCp % 4) % 8, shareable % 2, (innerCp / 2 % 2 * 2) % 2, innerCp % 2)
  }

  lemma AccessNormalKeepsInnerPolicyIff(outerCp: nat, innerCp: nat, shareable: nat)
    requires outerCp < 4 && innerCp < 4
    ensures (AccessNormal(outerCp, innerCp, shareable).c == innerCp / 2 &&
             AccessNormal(outerCp, innerCp, shareable).b == innerCp % 2) <==> innerCp < 2
  {
  }

  // ---------- Matching ----------

  function RegionBytes(r: Region): nat { Pow2(SizeOf(r.rasr) + 1) }

  /** Bit `k` of the sub-region disable field. */
  predicate SubDisabled(srd: nat, k: nat) { srd / Pow2(k) % 2 == 1 }

  /** The address falls in the region, and not in one of its disabled eighths (regions of 256 bytes and more). */
  predicate Matches(r: Region, a: nat) {
    && IsOn(r.rasr)
    && a / RegionBytes(r) == r.base / RegionBytes(r)
    && !(SizeOf(r.rasr) >= 7 && SubDisabled(SrdOf(r.rasr), a / Pow2(SizeOf(r.rasr) - 2) % 8))
  }

  /** The highest-numbered matching region wins; -1 when none matches. */
  function Winner(rs: seq<Region>, a: nat): (n: int)
    ensures -1 <= n < |rs|
    ensures n >= 0 ==> Matches(rs[n], a)
    ensures forall k :: n < k < |rs| ==> !Matches(rs[k], a)
  {
    if |rs| == 0 then -1
    else if Matches(rs[|rs| - 1], a) then |rs| - 1
    else Winner(rs[..|rs| - 1], a)
  }

  /** `Winner` is the only number with its two properties. */
  lemma WinnerIs(rs: seq<Region>, a: nat, n: nat)
    requires n < |rs| && Matches(rs[n], a)
    requires forall k :: n < k < |rs| ==> !Matches(rs[k], a)
    ensures Winner(rs, a) == n
  {
  }

  datatype MemType = StronglyOrdered | DeviceMem | NonCacheable | Through | Back | Reserved

  /**
   The memory type a Cortex-M7 uses: with CACR.SIWT clear, as after reset, shareable normal memory is not cached.
   */
  function TypeOf(at: Attr): MemType {
    var t := EncodedType(at);
    if at.s == 1 && (t == Through || t == Back) then NonCacheable else t
  }

  /** Tables 4-55 and 4-56 of the Cortex-M7 generic user guide, inner policy. */
  function EncodedType(at: Attr): MemType {
    if at.tex == 0 then
      if at.c == 0 then (if at.b == 0 then StronglyOrdered else DeviceMem)
      else (if at.b == 0 then Through else Back)
    else if at.tex == 1 then
      if at.c == 0 && at.b == 0 then NonCacheable else if at.c == 1 && at.b == 1 then Back else Reserved
    else if at.tex == 2 then
      if at.c == 0 && at.b == 0 then DeviceMem else Reserved
    else if at.tex == 3 then Reserved
    else
      if at.c == 0 then (if at.b == 0 then NonCacheable else Back)
      else (if at.b == 0 then Through else Back)
  }

  /** The combinations listed at board/board.c:287-305, for memory that is not shareable. */
  lemma TypesAsListed(at: Attr)
    requires at.s == 0
    ensures (at.tex, at.c, at.b) == (0, 0, 0) ==> TypeOf(at) == StronglyOrdered
    ensures (at.tex, at.c, at.b) in {(0, 0, 1), (2, 0, 0)} ==> TypeOf(at) == DeviceMem
    ensures (at.tex, at.c, at.b) == (0, 1, 0) ==> TypeOf(at) == Through
    ensures (at.tex, at.c, at.b) in {(0, 1, 1), (1, 1, 1)} ==> TypeOf(at) == Back
    ensures (at.tex, at.c, at.b) == (1, 0, 0) ==> TypeOf(at) == NonCacheable
  {
  }

  /** What the MPU says about an address: a region's attributes, the default map, or a fault. */
  datatype Verdict = ByRegion(attr: Attr) | ByDefault | Fault

  /** The private peripheral bus: no region ever applies there (section B3.5 of the Armv7-M manual). */
  predicate OnPrivateBus(a: nat) { 0xE000_0000 <= a < 0xE010_0000 }

  function Resolve(m: Regs, a: nat): Verdict {
    if !m.enabled || OnPrivateBus(a) then ByDefault
    else
      var n := Winner(m.regions, a);
      if n >= 0 then ByRegion(AttrOf(m.regions[n].rasr)) else if m.background then ByDefault else Fault
  }

  /** Shareable memory is never cached, and shareability changes nothing else. */
  lemma ShareableIsNotCached(at: Attr)
    requires at.s == 1
    ensures TypeOf(at) != Through && TypeOf(at) != Back
    ensures TypeOf(at.(s := 0)) != Through && TypeOf(at.(s := 0)) != Back ==> TypeOf(at) == TypeOf(at.(s := 0))
  {
  }

  /** Where no region matches, PRIVDEFENA decides between the default map and a fault. */
  lemma UnmatchedIsBackground(m: Regs, a: nat)
    requires m.enabled && !OnPrivateBus(a) && forall k :: 0 <= k < |m.regions| ==> !Matches(m.regions[k], a)
    ensures Resolve(m, a) == if m.background then ByDefault else Fault
  {
  }

  /** The default memory map, section B3.1 of the Armv7-M Architecture Reference Manual, as far as caching goes. */
  function DefaultPolicy(a: nat): Policy {
    if a < 0x2000_0000 then WriteThrough
    else if a < 0x4000_0000 then WriteBack
    else if 0x6000_0000 <= a < 0x8000_0000 then WriteBack
    else if 0x8000_0000 <= a < 0xA000_0000 then WriteThrough
    else Bypass
  }

  /** The default map has one policy per eighth of the address space. */
  lemma DefaultPolicyByEighth(a: nat)
    requires a < 0x1_0000_0000
    ensures DefaultPolicy(a) ==
      [WriteThrough, WriteBack, Bypass, WriteBack, WriteThrough, Bypass, Bypass, Bypass][a / 0x2000_0000]
  {
  }

  function AddressPolicy(m: Regs, a: nat): Policy {
    match Resolve(m, a)
    case ByRegion(at) =>
      (match TypeOf(at) case Through => WriteThrough case Back => WriteBack case _ => Bypass)
    case ByDefault => DefaultPolicy(a)
    case Fault => Bypass
  }

  /** The cache policy per line, as the cache model takes it: that of the line's first byte. */
  function LinePolicy(m: Regs): int -> Policy {
    (l: int) => AddressPolicy(m, if l < 0 then 0 else l * LINE_BYTES)
  }

  // ---------- Attributes never split a cache line ----------

  /** An enabled region has a legal size: 32 bytes or more. */
  ghost predicate LegalSizes(m: Regs) {
    forall k :: 0 <= k < |m.regions| && IsOn(m.regions[k].rasr) ==> SizeOf(m.regions[k].rasr) >= 4
  }

  lemma {:induction false} Pow2Multiple(n: nat)
    requires n >= 5
    ensures Pow2(n) == Pow2(n - 5) * 32
  {
    assert Pow2(n) == 2 * Pow2(n - 1) && Pow2(n - 1) == 2 * Pow2(n - 2) && Pow2(n - 2) == 2 * Pow2(n - 3);
    assert Pow2(n - 3) == 2 * Pow2(n - 4) && Pow2(n - 4) == 2 * Pow2(n - 5);
  }

  /** Dividing by a multiple of 32 forgets the low five bits first. */
  lemma DivByMultiple(a: nat, k: nat)
    requires k > 0
    ensures a / (k * 32) == a / 32 / k
  {
    var x, q := a / 32, a / 32 / k;
    var r, o := x % k, a % 32;
    assert x == q * k + r && a == 32 * x + o;
    assert a == q * (k * 32) + (32 * r + o);
    assert 32 * r + o < k * 32;
    DivUnique(a, q, 32 * r + o, k * 32);
  }

  lemma SameLineSameMatch(r: Region, a: nat, b: nat)
    requires a / 32 == b / 32 && SizeOf(r.rasr) >= 4
    ensures Matches(r, a) == Matches(r, b)
  {
    var n := SizeOf(r.rasr);
    Pow2Multiple(n + 1);
    DivByMultiple(a, Pow2(n - 4));
    DivByMultiple(b, Pow2(n - 4));
    if n >= 7 {
      Pow2Multiple(n - 2);
      DivByMultiple(a, Pow2(n - 7));
      DivByMultiple(b, Pow2(n - 7));
    }
  }

  lemma OffMatchesNothing(r: Region, a: nat)
    requires !IsOn(r.rasr)
    ensures !Matches(r, a)
  {
  }

  /** All bytes of a cache line get the same verdict, so a policy per line loses nothing. */
  lemma VerdictIsPerLine(m: Regs, a: nat, b: nat)
    requires LegalSizes(m) && a / 32 == b / 32
    ensures Resolve(m, a) == Resolve(m, b) && AddressPolicy(m, a) == AddressPolicy(m, b)
  {
    forall k | 0 <= k < |m.regions| ensures Matches(m.regions[k], a) == Matches(m.regions[k], b) {
      if IsOn(m.regions[k].rasr) { SameLineSameMatch(m.regions[k], a, b); }
    }
    assert Winner(m.regions, a) == Winner(m.regions, b);
    if Resolve(m, a) == ByDefault { SameLineSameDefault(a, b); }
  }

  lemma SameLineSameDefault(a: nat, b: nat)
    requires a / 32 == b / 32
    ensures DefaultPolicy(a) == DefaultPolicy(b)
  {
  }
}
