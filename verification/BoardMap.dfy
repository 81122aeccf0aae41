/**
 The memory map BOARD_ConfigMPU sets up (board/board.c:320-384): the region table it writes, and what every 32-bit
 address resolves to afterwards, in closed form.
 */
module BoardMap {
  import opened Arith
  import opened Cache
  import opened Mpu

  const DENY := Attr(1, 0, 2, 0, 0, 0)
  const DEVICE := Attr(0, 3, 2, 0, 0, 0)
  const WRITE_BACK := Attr(0, 3, 0, 0, 1, 1)
  const FLASH := Attr(0, 6, 0, 0, 1, 1)
  const NON_CACHED := Attr(0, 3, 1, 0, 0, 0)

  /** The linker's non-cacheable section: absent, or `2^log2` bytes at `start`. */
  datatype NcSection = NoSection | Section(start: nat, log2: nat)

  datatype Spec = Spec(base: nat, attr: Attr, size: nat)

  /** The constant rows of the table. */
  function Fixed(n: nat): Spec
    requires n < 13 && n != 10
  {
    match n
    case 0 => Spec(0x0000_0000, DENY, 0x1F)
    case 1 => Spec(0x8000_0000, DEVICE, 0x1C)
    case 2 => Spec(0x6000_0000, DEVICE, 0x1C)
    case 3 => Spec(0x6000_0000, FLASH, 0x15)
    case 4 => Spec(0x0000_0000, DEVICE, 0x1D)
    case 5 => Spec(0x0000_0000, WRITE_BACK, 0x10)
    case 6 => Spec(0x2000_0000, WRITE_BACK, 0x10)
    case 7 => Spec(0x2020_0000, WRITE_BACK, 0x12)
    case 8 => Spec(0x2028_0000, WRITE_BACK, 0x11)
    case 9 => Spec(0x8000_0000, WRITE_BACK, 0x18)
    case 11 => Spec(0x4000_0000, DEVICE, 0x15)
    case 12 => Spec(0x4200_0000, DEVICE, 0x13)
  }

  function Programmed(n: nat): Region
    requires n < 13 && n != 10
  {
    Region(Fixed(n).base, Rasr(Fixed(n).attr, 0, Fixed(n).size))
  }

  /** Row `n` of the table; row 10 describes the section. */
  function TableRegion(nc: NcSection, n: nat): Region
    requires n < 13 && (n == 10 ==> nc.Section? && nc.log2 > 0)
  {
    if n == 10 then Region(nc.start / 32 * 32, Rasr(NON_CACHED, 0, nc.log2 - 1)) else Programmed(n)
  }

  /** Whether the code programs region `n`: row 3 only for flash boot, row 10 only for a section. */
  predicate InTable(xip: bool, nc: NcSection, n: nat) {
    n < 13 && (n == 3 ==> xip) && (n == 10 ==> nc.Section? && nc.log2 > 0)
  }

  /** The region file after the rows below `k` have been written over `rs`. */
  function TableUpTo(rs: seq<Region>, xip: bool, nc: NcSection, k: nat): seq<Region>
    requires |rs| == 16
  {
    seq(16, n requires 0 <= n < 16 => if n < k && InTable(xip, nc, n) then TableRegion(nc, n) else rs[n])
  }

  /** The region file after the whole table has been written over `rs`. */
  function BoardRegions(rs: seq<Region>, xip: bool, nc: NcSection): seq<Region>
    requires |rs| == 16
  {
    TableUpTo(rs, xip, nc, 13)
  }

  /** The base of a constant row has no low bits to lose in RBAR. */
  lemma RowIsRegion(nc: NcSection, n: nat)
    requires n < 13 && (n == 10 ==> nc.Section? && nc.log2 > 0)
    ensures n != 10 ==> TableRegion(nc, n) == Region(Fixed(n).base / 32 * 32, Rasr(Fixed(n).attr, 0, Fixed(n).size))
  {
  }

  lemma WriteTableRow(rs: seq<Region>, xip: bool, nc: NcSection, k: nat)
    requires |rs| == 16 && k < 13
    ensures InTable(xip, nc, k) ==>
              TableUpTo(rs, xip, nc, k)[k := TableRegion(nc, k)] == TableUpTo(rs, xip, nc, k + 1)
    ensures !InTable(xip, nc, k) ==> TableUpTo(rs, xip, nc, k) == TableUpTo(rs, xip, nc, k + 1)
  {
  }

  /** The rows below 10 do not depend on the section. */
  lemma SectionComesLate(rs: seq<Region>, xip: bool, nc: NcSection)
    requires |rs| == 16
    ensures TableUpTo(rs, xip, NoSection, 10) == TableUpTo(rs, xip, nc, 10)
    ensures TableUpTo(rs, xip, nc, 0) == rs
  {
  }

  // ---------- The section from the linker's size ----------

  function Log2(n: nat): nat { if n <= 1 then 0 else 1 + Log2(n / 2) }

  lemma {:induction false} Log2Brackets(n: nat)
    requires n >= 1
    ensures Pow2(Log2(n)) <= n < Pow2(Log2(n) + 1)
  {
    if n > 1 {
      Log2Brackets(n / 2);
      assert Pow2(Log2(n)) == 2 * Pow2(Log2(n / 2)) && Pow2(Log2(n) + 1) == 2 * Pow2(Log2(n / 2) + 1);
    }
  }

  /** The bracket determines the logarithm. */
  lemma Log2Unique(n: nat, i: nat)
    requires Pow2(i) <= n < Pow2(i + 1)
    ensures Log2(n) == i
  {
    Log2Brackets(n);
    if Log2(n) < i { Pow2Mono(Log2(n) + 1, i); } else if i < Log2(n) { Pow2Mono(i + 1, Log2(n)); }
  }

  /** The section the linker symbols describe; a size of 0 or 1 means there is none. */
  function SectionFor(start: nat, size: nat): NcSection {
    if size <= 1 then NoSection else Section(start, Log2(size))
  }

  /** What the MPU can express: no section, or a power of two of at least 32 bytes that divides the start address. */
  predicate Expressible(start: nat, size: nat) {
    size <= 1 || (size == Pow2(Log2(size)) && Log2(size) >= 5 && start % size == 0)
  }

  lemma ExpressibleIsLegal(start: nat, size: nat)
    requires Expressible(start, size) && size < 0x1_0000_0000 && start < 0x1_0000_0000
    ensures LegalSection(SectionFor(start, size))
  {
    if size > 1 && Log2(size) >= 32 {
      Pow2Mono(32, Log2(size));
      Pow2Values();
    }
  }

  // ---------- The closed form ----------

  predicate InSection(nc: NcSection, a: nat) {
    nc.Section? && nc.start <= a < nc.start + Pow2(nc.log2)
  }

  predicate InPeripherals(a: nat) {
    0x4000_0000 <= a < 0x4040_0000 || 0x4200_0000 <= a < 0x4210_0000
  }

  predicate InRam(a: nat) {
    a < 0x2_0000 || 0x2000_0000 <= a < 0x2002_0000 || 0x2020_0000 <= a < 0x202C_0000 || 0x8000_0000 <= a < 0x8200_0000
  }

  predicate InFlash(a: nat) { 0x6000_0000 <= a < 0x6040_0000 }

  predicate InDeviceSpace(a: nat) { a < 0x4000_0000 || 0x6000_0000 <= a < 0xA000_0000 }

  /** Peripherals are device memory; the section is normal non-cacheable; RAM is write-back; so is flash when executing
      in place, but read-only; the rest of the external space is device memory; everything else is denied. */
  function Expected(xip: bool, nc: NcSection, a: nat): Attr {
    if InPeripherals(a) then DEVICE
    else if InSection(nc, a) then NON_CACHED
    else if InRam(a) then WRITE_BACK
    else if xip && InFlash(a) then FLASH
    else if InDeviceSpace(a) then DEVICE
    else DENY
  }

  /** What the asserts at board/board.c:369-371 establish. */
  ghost predicate LegalSection(nc: NcSection) {
    nc.Section? ==> 5 <= nc.log2 <= 31 && nc.start < 0x1_0000_0000 && nc.start % Pow2(nc.log2) == 0
  }

  // ---------- Proof ----------

  lemma SameQuotientIff(base: nat, d: nat, a: nat)
    requires d > 0 && base % d == 0
    ensures a / d == base / d <==> base <= a < base + d
  {
    var q := base / d;
    assert base == q * d;
    if base <= a < base + d { DivUnique(a, q, a - base, d); }
    FloorBounds(a, d);
  }

  /** A region whose base is a multiple of its size covers exactly its size from its base. */
  lemma CoversItsRange(at: Attr, base: nat, code: nat, a: nat)
    requires FieldsFit(at) && code < 32 && base % Pow2(code + 1) == 0
    ensures Matches(Region(base, Rasr(at, 0, code)), a) <==> base <= a < base + Pow2(code + 1)
  {
    RasrRoundTrip(at, 0, code);
    DecodedCovers(Region(base, Rasr(at, 0, code)), code, a);
  }

  lemma DecodedCovers(r: Region, code: nat, a: nat)
    requires IsOn(r.rasr) && SizeOf(r.rasr) == code && SrdOf(r.rasr) == 0 && r.base % Pow2(code + 1) == 0
    ensures Matches(r, a) <==> r.base <= a < r.base + Pow2(code + 1)
  {
    SameQuotientIff(r.base, Pow2(code + 1), a);
    if code >= 7 { NoSubRegionOff(a / Pow2(code - 2) % 8); }
  }

  /** In which eighth of its region an address lies, counted from the base; `e` is the size of an eighth. */
  function EighthOf(base: nat, a: nat, e: nat): nat
    requires e > 0 && base <= a
  {
    FloorLower(a - base, 0, e);
    (a - base) / e
  }

  /**
   Sub-regions: a region of 256 bytes or more covers an address exactly when it lies in the range and the bit of its
   eighth is clear; smaller regions ignore the field.
   */
  lemma CoversItsEighths(r: Region, code: nat, a: nat)
    requires IsOn(r.rasr) && SizeOf(r.rasr) == code && r.base % Pow2(code + 1) == 0
    ensures Matches(r, a) <==>
            && r.base <= a < r.base + Pow2(code + 1)
            && (code >= 7 ==> !SubDisabled(SrdOf(r.rasr), EighthOf(r.base, a, Pow2(code - 2))))
  {
    SameQuotientIff(r.base, Pow2(code + 1), a);
    if code >= 7 && r.base <= a < r.base + Pow2(code + 1) {
      EightEighths(code);
      EighthIndex(r.base, a, Pow2(code - 2));
    }
  }

  lemma EightEighths(code: nat)
    requires code >= 2
    ensures Pow2(code + 1) == 8 * Pow2(code - 2)
  {
    assert Pow2(code + 1) == 2 * Pow2(code) && Pow2(code) == 2 * Pow2(code - 1) && Pow2(code - 1) == 2 * Pow2(code - 2);
  }

  /** The three address bits above an eighth count eighths from the base. */
  lemma EighthIndex(base: nat, a: nat, e: nat)
    requires e > 0 && base % (8 * e) == 0 && base <= a < base + 8 * e
    ensures EighthOf(base, a, e) < 8 && a / e % 8 == EighthOf(base, a, e)
  {
    var q, k := base / (8 * e), (a - base) / e;
    assert base == q * (8 * e);
    FloorUpper(a - base, 7, e);
    FloorLower(a - base, 0, e);
    Eighths(a - base, q, e);
    DivUnique(8 * q + k, q, k, 8);
    assert a == a - base + q * (8 * e);
  }

  lemma Eighths(x: int, q: int, e: int)
    requires e > 0
    ensures (x + q * (8 * e)) / e == x / e + 8 * q
  {
    FloorShift(x, 8 * q, e);
    assert 8 * q * e == q * (8 * e);
  }

  lemma NoSubRegionOff(k: nat)
    ensures !SubDisabled(0, k)
  {
  }

  /** The addresses row `n` covers. */
  predicate RowCovers(n: nat, a: nat)
    requires n < 13 && n != 10
  {
    Fixed(n).base <= a < Fixed(n).base + Pow2(Fixed(n).size + 1)
  }

  lemma FixedRowMatches(n: nat, a: nat)
    requires n < 13 && n != 10
    ensures Matches(Programmed(n), a) <==> RowCovers(n, a)
  {
    Pow2Values();
    CoversItsRange(Fixed(n).attr, Fixed(n).base, Fixed(n).size, a);
  }

  /** A legal section starts on a multiple of 32, which RBAR keeps. */
  lemma SectionStartKept(nc: NcSection)
    requires nc.Section? && LegalSection(nc)
    ensures nc.start / 32 * 32 == nc.start
  {
    Pow2Multiple(nc.log2);
    MultipleOfMultiple(nc.start, Pow2(nc.log2 - 5), 32);
  }

  lemma MultipleOfMultiple(x: nat, j: nat, k: nat)
    requires j > 0 && k > 0 && x % (j * k) == 0
    ensures x / k * k == x
  {
    var q := x / (j * k);
    assert x == q * (j * k) == (q * j) * k;
    DivUnique(x, q * j, 0, k);
  }

  lemma SectionMatches(nc: NcSection, a: nat)
    requires nc.Section? && LegalSection(nc)
    ensures Matches(Region(nc.start / 32 * 32, Rasr(NON_CACHED, 0, nc.log2 - 1)), a) <==> InSection(nc, a)
  {
    SectionStartKept(nc);
    CoversItsRange(NON_CACHED, nc.start, nc.log2 - 1, a);
  }

  /** A legal section does not run past the end of the address space. */
  lemma SectionFits(nc: NcSection)
    requires nc.Section? && LegalSection(nc)
    ensures nc.start + Pow2(nc.log2) <= 0x1_0000_0000
  {
    Pow2Values();
    Pow2Add(32 - nc.log2, nc.log2);
    MultipleBelow(nc.start, Pow2(nc.log2), Pow2(32 - nc.log2));
  }

  /** Region numbers left over from before: regions 3 and 10 when this table does not program them. */
  ghost predicate SkippedRowsOff(rs: seq<Region>, xip: bool, nc: NcSection)
    requires |rs| == 16
  {
    (!xip ==> !IsOn(rs[3].rasr)) && (nc.NoSection? ==> !IsOn(rs[10].rasr))
  }

  /** Whether region `n < 13` of the board table covers an address. */
  predicate TableCovers(xip: bool, nc: NcSection, n: nat, a: nat)
    requires n < 13
  {
    if n == 10 then InSection(nc, a) else RowCovers(n, a) && (n == 3 ==> xip)
  }

  lemma ProgrammedMatches(xip: bool, nc: NcSection, n: nat, a: nat)
    requires LegalSection(nc) && InTable(xip, nc, n)
    ensures Matches(TableRegion(nc, n), a) <==> TableCovers(xip, nc, n, a)
  {
    if n == 10 { SectionMatches(nc, a); } else { FixedRowMatches(n, a); }
  }

  lemma TableMatches(rs: seq<Region>, xip: bool, nc: NcSection, n: nat, a: nat)
    requires |rs| == 16 && LegalSection(nc) && SkippedRowsOff(rs, xip, nc) && n < 13
    ensures Matches(BoardRegions(rs, xip, nc)[n], a) <==> TableCovers(xip, nc, n, a)
  {
    var r := BoardRegions(rs, xip, nc)[n];
    if InTable(xip, nc, n) {
      ProgrammedMatches(xip, nc, n, a);
      assert r == TableRegion(nc, n);
    } else {
      assert r == rs[n];
      OffMatchesNothing(rs[n], a);
    }
  }

  /** The table row that decides an address, found by going down from region 12. */
  lemma TableWinner(xip: bool, nc: NcSection, n: nat, a: nat)
    requires a < 0x1_0000_0000 && n < 13 && TableCovers(xip, nc, n, a)
    requires forall k :: n < k < 13 ==> !TableCovers(xip, nc, k, a)
    ensures Expected(xip, nc, a) == if n == 10 then NON_CACHED else Fixed(n).attr
  {
    Pow2Values();
    assert forall k: nat :: n < k < 13 && k != 10 && k != 3 ==> !TableCovers(xip, nc, k, a);
    assert (n < 12 ==> !TableCovers(xip, nc, 12, a)) && (n < 11 ==> !TableCovers(xip, nc, 11, a));
    assert (n < 10 ==> !TableCovers(xip, nc, 10, a)) && (n < 9 ==> !TableCovers(xip, nc, 9, a));
    assert (n < 8 ==> !TableCovers(xip, nc, 8, a)) && (n < 7 ==> !TableCovers(xip, nc, 7, a));
    assert (n < 6 ==> !TableCovers(xip, nc, 6, a)) && (n < 5 ==> !TableCovers(xip, nc, 5, a));
    assert (n < 4 ==> !TableCovers(xip, nc, 4, a)) && (n < 3 ==> !TableCovers(xip, nc, 3, a));
    assert (n < 2 ==> !TableCovers(xip, nc, 2, a)) && (n < 1 ==> !TableCovers(xip, nc, 1, a));
  }

  lemma ProgrammedFields(xip: bool, nc: NcSection, n: nat)
    requires LegalSection(nc) && InTable(xip, nc, n)
    ensures AttrOf(TableRegion(nc, n).rasr) == if n == 10 then NON_CACHED else Fixed(n).attr
    ensures SizeOf(TableRegion(nc, n).rasr) >= 4
  {
    if n == 10 {
      RasrRoundTrip(NON_CACHED, 0, nc.log2 - 1);
    } else {
      var f := Fixed(n);
      assert FieldsFit(f.attr) && 4 <= f.size < 32;
      RasrRoundTrip(f.attr, 0, f.size);
    }
  }

  /**
   The map in closed form. After the table is written over any region file whose skipped rows are off, every 32-bit
   address outside the private peripheral bus is decided by a region: by an older region 13-15 where one matches, and
   otherwise by exactly the attributes `Expected` states. The default map speaks for the private peripheral bus, which
   keeps the system control registers reachable, and nowhere else.
   */
  lemma MapInClosedForm(rs: seq<Region>, xip: bool, nc: NcSection, m: Regs, a: nat)
    requires |rs| == 16 && LegalSection(nc) && SkippedRowsOff(rs, xip, nc) && a < 0x1_0000_0000
    requires m.enabled && m.regions == BoardRegions(rs, xip, nc)
    ensures Resolve(m, a) ==
      if OnPrivateBus(a) then ByDefault
      else ByRegion(if Winner(rs, a) >= 13 then AttrOf(rs[Winner(rs, a)].rasr) else Expected(xip, nc, a))
  {
    var n := Winner(m.regions, a);
    assert forall k :: 13 <= k < 16 ==> m.regions[k] == rs[k];
    TableMatches(rs, xip, nc, 0, a);
    Pow2Values();
    if Winner(rs, a) >= 13 {
      WinnerIs(m.regions, a, Winner(rs, a));
    } else {
      forall k | 0 <= k < 13 ensures Matches(m.regions[k], a) <==> TableCovers(xip, nc, k, a) {
        TableMatches(rs, xip, nc, k, a);
      }
      assert 0 <= n < 13;
      TableWinner(xip, nc, n, a);
      assert m.regions[n] == TableRegion(nc, n);
      ProgrammedFields(xip, nc, n);
    }
  }

  /**
   The non-cacheable section is what it says: with no older region above the table, an address is normal non-cacheable
   memory exactly when it lies in the section and neither in the two peripheral windows nor on the private peripheral
   bus.
   */
  lemma NonCacheableIff(rs: seq<Region>, xip: bool, nc: NcSection, m: Regs, a: nat)
    requires |rs| == 16 && LegalSection(nc) && SkippedRowsOff(rs, xip, nc) && a < 0x1_0000_0000
    requires m.enabled && m.regions == BoardRegions(rs, xip, nc) && Winner(rs, a) < 13
    ensures (Resolve(m, a).ByRegion? && TypeOf(Resolve(m, a).attr) == NonCacheable)
            <==> InSection(nc, a) && !InPeripherals(a) && !OnPrivateBus(a)
  {
    MapInClosedForm(rs, xip, nc, m, a);
  }

  /**
   What the map means, in decoded fields. Outside the private peripheral bus, and where no older region 13-15 matches:
   everything outside the windows can neither be accessed nor executed; flash is the only read-only memory; everything
   else has full access. RAM and flash are cached write-back, the section is normal but not cached, and the rest is
   device memory. Nothing is shareable.
   */
  lemma MapMeaning(rs: seq<Region>, xip: bool, nc: NcSection, m: Regs, a: nat)
    requires |rs| == 16 && LegalSection(nc) && SkippedRowsOff(rs, xip, nc) && a < 0x1_0000_0000
    requires m.enabled && m.regions == BoardRegions(rs, xip, nc) && Winner(rs, a) < 13 && !OnPrivateBus(a)
    ensures MapMeans(xip, nc, Resolve(m, a), a)
  {
    MapInClosedForm(rs, xip, nc, m, a);
  }

  /** Access permission (0 none, 3 full, 6 read-only), execute-never bit and memory type of an address. */
  predicate MapMeans(xip: bool, nc: NcSection, v: Verdict, a: nat) {
    var section := InSection(nc, a) && !InPeripherals(a);
    var ram := InRam(a) && !section;
    var flash := xip && InFlash(a) && !section;
    var reachable := InPeripherals(a) || section || InDeviceSpace(a);
    && v.ByRegion? && v.attr.s == 0
    && v.attr.ap == (if !reachable then 0 else if flash then 6 else 3) && v.attr.xn == (if reachable then 0 else 1)
    && TypeOf(v.attr) == (if ram || flash then Back else if section then NonCacheable else DeviceMem)
  }

  /** The enabled regions of the table are all of legal size, so the map never splits a cache line. */
  lemma BoardSizesLegal(rs: seq<Region>, xip: bool, nc: NcSection, m: Regs)
    requires |rs| == 16 && LegalSection(nc) && m.regions == BoardRegions(rs, xip, nc)
    requires forall k :: 0 <= k < 16 && IsOn(rs[k].rasr) ==> SizeOf(rs[k].rasr) >= 4
    ensures LegalSizes(m)
  {
    forall k | 0 <= k < 16 && IsOn(m.regions[k].rasr) ensures SizeOf(m.regions[k].rasr) >= 4 {
      if InTable(xip, nc, k) { ProgrammedFields(xip, nc, k); } else { assert m.regions[k] == rs[k]; }
    }
  }
}
