# Verified model of the ESX firmware's Cortex-M7 support code

This Dafny project models two parts of the firmware and proves what they are relied on for.

**The memory system** (`CMSIS/core_cm7.h`, `CMSIS/mpu_armv7.h`, `board/board.c`). The processor is a class with memory, a
set-associative write-back data cache, the cache enable bits and the MPU region file. The `SCB_*` cache routines, the MPU
loader and `BOARD_ConfigMPU` are methods on it, loop by loop; each is tied to a step of a state machine in which CPU
accesses, line fills, evictions and device writes interleave freely. The main results are about whole runs: a CPU read
returns the last write, exactly when nothing is cleaned before the cache is first enabled or invalidated; a buffer handed
to a device and taken back carries the right bytes, whatever the CPU does around it, exactly when no line it shares with
other bytes is written back under the maps in force; accesses inside `SCB_DisableDCache` are harmless exactly when they meet lines already written out; reconfiguring the
memory map loses nothing; and every address resolves to a stated memory type. Interrupt priority coding is part of the
same header.

**The fixed-point kernels** of `CMSIS/arm_math.h` that have bodies: Newton reciprocals, the Q15 PID controller in its
portable and its packed form, Park and inverse Park, circular buffers, linear and bilinear interpolation.

| file | content |
|---|---|
| `Cache.dfy`, `Walks.dfy` | cache array, one maintenance operation, whole set/way and by-address walks |
| `Transparency.dfy`, `Dma.dfy`, `Drain.dfy` | runs, cache transparency and its exact condition, device hand-off, accesses while the cache is being disabled |
| `Mpu.dfy`, `BoardMap.dfy`, `Machine.dfy` | MPU registers and matching, the board's map, the firmware routines as methods |
| `Nvic.dfy` | priority grouping and priority registers |
| `FixedPoint.dfy`, `Reciprocal.dfy`, `Pid.dfy`, `Park.dfy`, `CircularBuffer.dfy`, `LinearInterp.dfy`, `BilinearInterp.dfy` | the kernels |
| `Arith.dfy` | division and multiplication facts they share |

Modelling conventions. C integers are mathematical integers with explicit wrap at casts and 32-bit counters. A mask with
`2^k - 1` is a remainder, a shift a multiplication or floor division by a power of two, and the bitwise or of disjoint
fields a sum. A routine is one step of a run with respect to data accesses; the single register writes of its loop are
also events of their own, so that fills, evictions and accesses may fall between them. A disabled cache neither looks up, allocates nor evicts. Barriers need no counterpart: steps take effect in order. Linker
symbols, the reciprocal tables and the cache geometry are parameters.

What turned out differently from what one might expect, each with its exact condition below:

- Cleaning, or disabling, a cache whose lines still hold reset junk writes that junk over memory. `BOARD_ConfigMPU` tests
  the enable bit before it disables; `SCB_DisableDCache` itself does not (`TransparentIffDisciplined`).
- Invalidating a buffer can revert a CPU store beside it exactly where the map writes back a line the buffer shares with
  other bytes (`ReceiveSafeIff`): an aligned buffer is safe under every map (`ReceiveAligned`), and inside the board's
  non-cacheable section every buffer is (`SectionBuffersAreShareable`).
- Changing the memory map under an enabled cache hides dirty lines exactly when a write-back line becomes uncached
  (`LiveRemapSafeIff`); this is why the board turns the cache off first.
- The by-address loops may overflow their signed `op_size`, and still visit the right lines: the first pass is
  unconditional and brings the value back into range (`LinesExact`, `ByAddress`).
- `arm_recip_q31` returns a positive value for negative inputs, so it has the sign of the reciprocal exactly for positive
  inputs (`RecipQ31`). In `arm_recip_q15` the clip is commented out: positive inputs do not need it, and every negative
  input wraps on its first pass when the table is a good one (`NarrowingExactIff`, `RecipQ15`).
- The weights of the interpolation routines add up to `2^20 - 1`: a positive table value comes back one unit lower, even
  at a knot (`KnotExactIff`), which also costs monotonicity at zero (`MonotoneEverywhereIff`).
- The packed PID adds 2^-15 of a unit where gain and input are both negative, because both operands are sign-extended
  (`DspTracksPortable`, `PackedIsPositional`).
- A vector survives Park and inverse Park without saturation for every angle exactly when both coordinates are below half
  of full scale; of the edge at -0.5 only the half with a non-positive other coordinate does (`FaithfulIff`).
- The circular buffers lose samples for lengths above 65536 (`DelayLineIff`), and negative strides, which their comments
  mention, leave the buffer (`StaysInRangeIff`).
- The bilinear routines accept coordinates in the last row and column and then read past a square table of
  `numRows * numCols` entries (`AllReadsInsideIff`).
- `ARM_MPU_ACCESS_NORMAL` drops the inner cacheable bit (`AccessNormalKeepsInnerPolicyIff`). The board does not use it.

## Model

| member | source | states |
|---|---|---|
| Cache.Find | CMSIS/core_cm7.h:492-498 | the lookup by address yields the first way that holds the line, and the number of ways exactly when none does |
| Cache.OpLineFrame | CMSIS/core_cm7.h:492-498 | an invalidate, clean or clean-and-invalidate of one line changes that line and, for dirty lines, its 32 bytes of memory, and nothing else |
| Cache.CleanKeepsView | CMSIS/core_cm7.h:2453-2456 | cleaning a line, with or without invalidating it, keeps coherence and what every line reads as |
| Walks.AllPairsExactlyOnce | CMSIS/core_cm7.h:2340-2350 | the nested post-decrement loops name every (set, way) of the geometry once and nothing else |
| Walks.OperandRoundTrip | CMSIS/core_cm7.h:816-834 | the hardware reads back the set and way fields the code packed |
| Walks.OperandsDistinctIff | CMSIS/core_cm7.h:2344-2345 | operands are pairwise distinct exactly when sets-1 fits 9 bits and ways-1 fits 2 bits |
| Walks.CleanAllWritesBack | CMSIS/core_cm7.h:2438-2466 | a whole cleaning walk leaves memory holding every view, nothing dirty, and nothing valid when it also invalidates |
| Walks.InvalidateAllEmpties | CMSIS/core_cm7.h:2403-2431 | a whole invalidating walk empties the cache whatever the lines held and leaves memory alone |
| Walks.WalkLines | CMSIS/core_cm7.h:2340-2350 | a set/way walk cleans or drops the ways it visits, exactly, and leaves every other way as it was |
| Walks.WalkAddrLines | CMSIS/core_cm7.h:2520-2525 | a by-address walk cleans or drops the lines it names, exactly, and leaves every other way as it was |
| Walks.WalkAddrCleans | CMSIS/core_cm7.h:2542-2561 | cleaning by address writes every visited line back, keeps the memory of every other line, and keeps every view |
| Walks.WalkAddrLeavesClean | CMSIS/core_cm7.h:2542-2561 | no line visited by a cleaning walk is left dirty |
| Walks.WalkAddrInvalidates | CMSIS/core_cm7.h:2512-2531 | invalidating by address drops exactly the visited lines and touches neither memory nor other lines |
| Walks.LinesExact | CMSIS/core_cm7.h:2512-2531 | for every address and every 32-bit size the walk names exactly the lines that share a byte with the buffer, each once, also across the end of the address space |
| Transparency.FreshStep | CMSIS/core_cm7.h:2325-2358 | with the cache off and junk in its lines, every step that cleans nothing is invisible; enabling leads to a coherent cache and invalidating everything to an empty one |
| Transparency.OnStep | CMSIS/core_cm7.h:2365-2591 | with the cache on, every access, fill, eviction, routine or single maintenance write that discards nothing keeps coherence and is invisible apart from stores |
| Transparency.QuietStep | CMSIS/core_cm7.h:2365-2431 | with the cache off and empty, every step is invisible |
| Transparency.EnableFromOff | CMSIS/core_cm7.h:2325-2358 | enabling yields an empty coherent cache that shows memory, from any lines |
| Transparency.DisableFromOn | CMSIS/core_cm7.h:2365-2396 | disabling leaves memory holding everything the CPU saw and no valid line |
| Transparency.CleanAllLeaves | CMSIS/core_cm7.h:2438-2466 | after SCB_CleanDCache memory holds what was seen and every valid line is still there, not dirty |
| Transparency.CleanInvalidateAllLeaves | CMSIS/core_cm7.h:2473-2501 | after SCB_CleanInvalidateDCache memory holds what was seen and no line is valid |
| Transparency.InvalidateAllLeaves | CMSIS/core_cm7.h:2403-2431 | after SCB_InvalidateDCache no line is valid and memory is untouched, from any lines |
| Transparency.CleanRangeLeaves | CMSIS/core_cm7.h:2542-2561 | after SCB_CleanDCache_by_Addr the named lines are in memory and still valid, not dirty, and everything else is untouched |
| Transparency.CleanInvalidateRangeLeaves | CMSIS/core_cm7.h:2572-2591 | after SCB_CleanInvalidateDCache_by_Addr the named lines are in memory, no way holds one, and everything else is untouched |
| Transparency.InvalidateRangeLeaves | CMSIS/core_cm7.h:2512-2531 | after SCB_InvalidateDCache_by_Addr no way holds a named line, and memory and every other line are untouched |
| Transparency.SingleWriteLeaves | CMSIS/core_cm7.h:2490-2490 | a single register write does its operation on the line it names |
| Transparency.EvictLeaves | CMSIS/core_cm7.h:2325-2358 | an eviction by the enabled cache writes a dirty line back and drops it |
| Transparency.FillLeaves | CMSIS/core_cm7.h:2325-2358 | a fill by the enabled cache puts memory's copy of an absent line into its way, after evicting the victim |
| Transparency.SeenOverRun | CMSIS/core_cm7.h:2325-2591 | over every disciplined run of all eight routines, with any lines lent to another master, each byte seen is the last one written |
| Transparency.RunsAreTransparent | CMSIS/core_cm7.h:2325-2591 | at every point of every disciplined run from reset junk, an enabled cache or a quiet one, every CPU read would return the last CPU write |
| Transparency.TransparentIffDisciplined | CMSIS/core_cm7.h:2325-2591 | a program that invalidates everything only while the cache is off is transparent from every reset state if and only if it cleans nothing before it first enables or invalidates the whole cache |
| Transparency.UndisciplinedCounterexample | CMSIS/core_cm7.h:2385-2386 | for each undisciplined program, a reset state from which a CPU read returns junk |
| Transparency.LiveRemapInvisibleIff | board/board.c:262-273 | changing the memory map under an enabled cache shows exactly the dirty lines that now bypass the cache and differ from memory |
| Transparency.LiveRemapSafeIff | board/board.c:262-273 | it is invisible from every coherent state if and only if the new map lets no line bypass the cache that the old one had as write-back |
| Transparency.InvalidateAllInvisibleIff | CMSIS/core_cm7.h:2403-2431 | invalidating everything while the cache is on is invisible exactly when no dirty line differs from memory |
| Transparency.InvalidateAllSafeIff | CMSIS/core_cm7.h:2403-2431 | it is invisible from every coherent state if and only if the map has no write-back line |
| Transparency.WalkIsRun | CMSIS/core_cm7.h:2449-2461 | a set/way loop equals the run of its single register writes |
| Dma.AlignedBufferOwnsLines | CMSIS/core_cm7.h:2503-2511 | a line-aligned buffer touches a line exactly when it contains all of its bytes |
| Dma.CleanThenDeviceReads | CMSIS/core_cm7.h:2542-2561 | after a clean by address memory equals the CPU view on the whole range, and stays so through any run that does not write those lines |
| Dma.ReceiveAndReturn | CMSIS/core_cm7.h:2512-2531 | if the lent lines are not dirty and each is invalidated after the device's last write to it, the CPU sees the device's bytes there and its own elsewhere, with fills, evictions and accesses anywhere, the invalidate loop included |
| Dma.StillLentIff | CMSIS/core_cm7.h:2512-2531 | a line is still lent exactly when it was lent and neither a single register write nor a whole range has invalidated it |
| Dma.ReceiveThenInvalidate | CMSIS/core_cm7.h:2512-2531 | a device transfer followed by one call of the routine loses nothing, as long as no CPU store meets a line of the buffer that the map in force writes back |
| Dma.ReceiveAligned | CMSIS/core_cm7.h:2503-2531 | with a 32-byte aligned buffer the CPU only has to stay out of the buffer itself, whatever maps come into force |
| Dma.InvalidateKeepsViewIff | CMSIS/core_cm7.h:2512-2531 | invalidating a range shows memory there and loses exactly the dirty lines in it that differ from memory |
| Dma.NeighbourSharesLine | CMSIS/core_cm7.h:2512-2531 | for every unaligned address or size, the byte before or behind the buffer lies in one of its lines |
| Dma.StoreBesideIsReverted | CMSIS/core_cm7.h:2512-2531 | a store to any write-back line of the buffer, once the line is filled, is reverted by the invalidate |
| Dma.ReceiveSafeIff | CMSIS/core_cm7.h:2503-2531 | from every coherent state, all transfers during which the CPU stays out of the buffer, under any given set of maps, end with nothing lost if and only if none of these maps writes back a line the buffer shares with other bytes |
| Dma.ShareableIffAligned | CMSIS/core_cm7.h:2503-2511 | where all of the buffer's lines are written back, that condition is alignment of address and size |
| Drain.DrainSafeIff | CMSIS/core_cm7.h:2365-2396 | with loads and stores between the DCCISW writes of the disable loop, everything reads as last written from every coherent state if and only if each access meets a line that is not write-back or whose set is already written out |
| Drain.UndrainedCounterexample | CMSIS/core_cm7.h:2376-2391 | for each access to a line that may still be dirty, a state in which a load is stale or a store is lost |
| Drain.DrainEndsQuiet | CMSIS/core_cm7.h:2365-2396 | such a run ends with the cache off and empty and every byte as last written |
| Drain.RoutineIsDrain | CMSIS/core_cm7.h:2376-2391 | the routine itself is such a run, and writes out every line of the geometry |
| Mpu.RasrRoundTrip | CMSIS/mpu_armv7.h:88-124 | every field packed by ARM_MPU_RASR is read back by the hardware |
| Mpu.SetOwnRegion | CMSIS/mpu_armv7.h:75-78 | a row built with ARM_MPU_RBAR programs its own region whatever was selected |
| Mpu.SetSelectedRegion | CMSIS/mpu_armv7.h:225-229 | a row without the VALID bit programs the region RNR selects and leaves the selection |
| Mpu.AccessNormalKeepsInnerPolicyIff | CMSIS/mpu_armv7.h:157-157 | the inner cache policy survives the encoding exactly for the policies below 2 |
| Mpu.Winner | board/board.c:314-325 | the deciding region matches and no higher-numbered one does; -1 when none matches |
| Mpu.TypesAsListed | board/board.c:287-305 | the listed attribute combinations have the listed memory types |
| Mpu.ShareableIsNotCached | CMSIS/core_cm7.h:876-877 | with SIWT clear shareable memory is never cached, and shareability changes nothing else |
| Mpu.UnmatchedIsBackground | board/board.c:387-387 | where no region matches, PRIVDEFENA decides between the default map and a fault |
| Mpu.DefaultPolicyByEighth | board/board.c:387-387 | the default map has one cache policy per 512 MB |
| Mpu.VerdictIsPerLine | CMSIS/mpu_armv7.h:34-61 | with legal region sizes, sub-regions included, all bytes of a cache line get the same attributes |
| BoardMap.CoversItsRange | CMSIS/mpu_armv7.h:103-109 | a region whose base is a multiple of its size matches exactly the addresses from base to base plus size |
| BoardMap.CoversItsEighths | CMSIS/mpu_armv7.h:88-109 | a region of 256 bytes or more covers an address of its range exactly when the sub-region bit of its eighth is clear; smaller ones ignore the field |
| BoardMap.SectionFits | board/board.c:369-371 | a section that passes the asserts ends inside the address space |
| BoardMap.MapInClosedForm | board/board.c:320-387 | every 32-bit address outside the private peripheral bus is decided by a region: by an older region 13-15 where one matches, else with exactly the stated attributes; on that bus the default map applies |
| BoardMap.MapMeaning | board/board.c:313-384 | in decoded fields: no access and no execution outside the windows, flash alone read-only, full access elsewhere; RAM and flash write-back, the section normal non-cacheable, the rest device memory; nothing shareable |
| BoardMap.NonCacheableIff | board/board.c:366-384 | an address is normal non-cacheable memory exactly inside the section and outside regions 11 and 12 and the private peripheral bus |
| BoardMap.BoardSizesLegal | board/board.c:320-384 | the board's regions never split a cache line |
| Machine.CortexM7.constructor | CMSIS/core_cm7.h:455-500 | reset with any memory, lines and regions is a reachable state with both caches off |
| Machine.CcsidrFields | CMSIS/core_cm7.h:2231-2232 | the two macros read associativity from bit 3 and number of sets from bit 13 |
| Machine.CortexM7.WriteSetWay | CMSIS/core_cm7.h:2344-2345 | a set/way register write operates on the line its operand names |
| Machine.CortexM7.WriteMva | CMSIS/core_cm7.h:2521-2521 | an address register write operates on the way holding the line, if any |
| Machine.CortexM7.WalkSetsAndWays | CMSIS/core_cm7.h:2340-2350 | the nested loop terminates despite the wrap of its counters and performs the whole walk |
| Machine.CortexM7.EnableDCache | CMSIS/core_cm7.h:2325-2358 | equals the enable step: nothing when enabled, else invalidate all and enable |
| Machine.CortexM7.DisableDCache | CMSIS/core_cm7.h:2365-2396 | equals the disable step: enable bit off, then clean and invalidate all |
| Machine.CortexM7.InvalidateDCache | CMSIS/core_cm7.h:2403-2431 | equals the invalidate-all step |
| Machine.CortexM7.CleanDCache | CMSIS/core_cm7.h:2438-2466 | equals the clean step |
| Machine.CortexM7.CleanInvalidateDCache | CMSIS/core_cm7.h:2473-2501 | equals the clean-and-invalidate step |
| Machine.CortexM7.ByAddress | CMSIS/core_cm7.h:2512-2591 | the do-while with its wrapping address and size terminates and visits exactly the lines of the walk, in order |
| Machine.CortexM7.InvalidateDCacheByAddr | CMSIS/core_cm7.h:2512-2531 | equals the invalidate-range step |
| Machine.CortexM7.CleanDCacheByAddr | CMSIS/core_cm7.h:2542-2561 | equals the clean-range step |
| Machine.CortexM7.CleanInvalidateDCacheByAddr | CMSIS/core_cm7.h:2572-2591 | equals the clean-and-invalidate-range step |
| Machine.OnePass | CMSIS/core_cm7.h:2520-2525 | pass k names line k, and a further pass follows exactly while lines are left, although op_size may start out negative |
| Machine.CortexM7.OrderedMemcpy | CMSIS/mpu_armv7.h:248-255 | the words land on consecutive registers from RBAR, in order |
| Machine.CortexM7.LoadRegions | CMSIS/mpu_armv7.h:261-270 | loading in chunks of four through the aliases leaves the same regions and RNR as setting row by row, for every table and count, and never writes past RASR_A3 |
| Machine.ChunkIsRows | CMSIS/core_cm7.h:1431-1446 | up to four rows copied onto the registers are set row by row |
| Machine.CortexM7.SizeLog2 | board/board.c:361-364 | the sizing loop computes the floor of the base-two logarithm |
| Machine.CortexM7.ProgramFixedRows | board/board.c:320-359 | rows 0 to 9, with row 3 only for flash boot |
| Machine.CortexM7.ProgramSection | board/board.c:361-384 | the asserts pass exactly when the MPU can express the section, and then rows 10 to 12 complete the table |
| Machine.CortexM7.BoardConfigMpu | board/board.c:262-391 | from every reachable state each byte reads as before; on success the run is one reconfiguration step, the cache is on and empty, the table is in place and the MPU on with its background map; a failing assert leaves cache and MPU off |
| Machine.ConfiguredMap | board/board.c:320-387 | after success every address outside the private peripheral bus resolves as the closed form says, with the permissions and memory type it stands for, and those on it by the default map; the section is exactly start to start plus size |
| Machine.SectionBuffersAreShareable | board/board.c:366-384 | no line touched by a buffer inside the non-cacheable section is written back, so it may be received into without regard to alignment |
| Nvic.WidthsAddUp | CMSIS/core_cm7.h:2085-2086 | preempt and sub widths always add up to the implemented bits, the sub width is what the group leaves below bit 7, and every code fits them |
| Nvic.DecodeEncode | CMSIS/core_cm7.h:2079-2117 | decoding undoes encoding up to the masking of the arguments |
| Nvic.EncodeDecode | CMSIS/core_cm7.h:2079-2117 | encoding undoes decoding up to the implemented bits |
| Nvic.OrderIsLexicographic | CMSIS/core_cm7.h:2079-2093 | codes compare as (preempt, sub) pairs do |
| Nvic.GroupDecidesPreemption | CMSIS/core_cm7.h:2079-2117 | comparing the register bits above the group bit, as the hardware does, is comparing the decoded preempt levels |
| Nvic.RegisterRoundTrip | CMSIS/core_cm7.h:2032-2065 | a priority sits in the top implemented bits of its register and survives it up to those bits |
| Nvic.PriorityRegisters.SetPriority | CMSIS/core_cm7.h:2032-2042 | writes IP[irq] for an interrupt and SHPR byte irq + 12 for an exception, and no other register |
| Nvic.PriorityRegisters.GetPriority | CMSIS/core_cm7.h:2054-2065 | reads IP[irq] for an interrupt and SHPR byte irq + 12 for an exception |
| Nvic.LevelsSurviveTheRegister | CMSIS/core_cm7.h:2032-2117 | encode, set, get and decode give both levels back |
| FixedPoint.ClipQ63IsClamp | CMSIS/arm_math.h:670-675 | clip_q63_to_q31 is the clamp to 32 bits on every 64-bit value |
| FixedPoint.ClipQ31IsClamp | CMSIS/arm_math.h:700-705 | clip_q31_to_q15 is the clamp to 16 bits on every 32-bit value |
| FixedPoint.QAddSaturates | CMSIS/arm_math.h:1055-1071 | __QADD and __QSUB saturate the exact sum and difference |
| FixedPoint.SSatIsClamp | CMSIS/arm_math.h:605-621 | __SSAT is the clamp to every width from 1 to 32 bits and passes the value for any other |
| FixedPoint.CountLeadingZeros | CMSIS/arm_math.h:590-603 | the mask loop returns 32 for zero and else brackets the value between two powers of two |
| Reciprocal.PassLaw | CMSIS/arm_math.h:752-759 | one Newton pass stays in range and below 1/x, and takes the error e to more than e^2/E and less than e^2/E + 3x, at both widths |
| Reciprocal.PassQ31IsPass | CMSIS/arm_math.h:752-759 | for positive input no Q31 cast wraps and the clip never fires |
| Reciprocal.PassQ31Saturates | CMSIS/arm_math.h:752-759 | for every input a pass from a positive approximation is the exact pass, saturated |
| Reciprocal.PassQ15IsPass | CMSIS/arm_math.h:803-810 | for positive input the unclipped Q15 narrowing cast never wraps |
| Reciprocal.PassQ31NonPositive | CMSIS/arm_math.h:752-759 | without a positive input a pass never lowers the approximation, and doubles it up to saturation for normalised negative input |
| Reciprocal.RecipQ31 | CMSIS/arm_math.h:721-766 | for every input the exact value of two passes, each saturated, on the normalised input; two-pass error law for positive input, and with a table good to one part in 2^7 at its bucket ends a result good to one part in 2^27 for every positive input; for any other input the result is positive too, for negative input at least four times the table entry or saturated |
| Reciprocal.RecipQ15 | CMSIS/arm_math.h:772-817 | for every input the exact value of two passes, each reduced to 16 bits; for positive input nothing is lost in that, with the two-pass error law, and one part in 2^12 with a good table; for every negative input and a good table the first pass wraps |
| Reciprocal.TwentySevenBits | CMSIS/arm_math.h:721-766 | an entry good to one part in 2^7 gives a result good to one part in 2^27 |
| Reciprocal.Bucket | CMSIS/arm_math.h:743-745 | the masked index selects the bucket of width 1/64 the normalised input lies in |
| Reciprocal.EntryIndex | CMSIS/arm_math.h:743-748 | the entry read is that of the shifted input modulo 64, for inputs of either sign |
| Reciprocal.GoodTableIsGood | CMSIS/arm_math.h:743-748 | a table good at the ends of its buckets is good for every normalised input |
| Reciprocal.GoodTablesExist | CMSIS/arm_math.h:743-748 | such tables exist at both widths, with positive entries that fit them: the reciprocals of the bucket midpoints |
| Reciprocal.TwelveBits | CMSIS/arm_math.h:772-817 | the same at width 15: one part in 2^12 |
| Reciprocal.PassQ15Reduces | CMSIS/arm_math.h:803-810 | for every input and approximation, of either sign, the casts together reduce the exact pass to 16 bits and lose nothing else |
| Reciprocal.NarrowingExactIff | CMSIS/arm_math.h:803-810 | for every input and positive approximation the narrowing cast is exact if and only if the product is below 2^29, and otherwise the commented-out clip would have saturated |
| Reciprocal.NonPositiveWraps | CMSIS/arm_math.h:803-810 | every normalised negative input wraps from an entry of 0x3800 or more, and zero from an entry above 0x4000 |
| Reciprocal.GoodEntryQ15 | CMSIS/arm_math.h:794-799 | a good table has no entry below 0x3F80 |
| Pid.SaturateIsClamp | CMSIS/arm_math.h:5050-5051 | the output is the clamped, floored accumulator |
| Pid.StepIsClampedIncrement | CMSIS/arm_math.h:5038-5060 | from any state one sample gives the last output plus the floored increment, clamped to 16 bits, and shifts the two inputs |
| Pid.IncrementalIsPositional | CMSIS/arm_math.h:4888-4894 | over every unsaturated run of n samples from reset the output is at most the positional PID value and less than n units below it |
| Pid.FirstMultiply | CMSIS/arm_math.h:5034-5034 | SMUAD on sign-extended operands is the product, plus one when both are negative |
| Pid.SecondMultiply | CMSIS/arm_math.h:5037-5037 | SMLALD adds both packed products to the 64-bit accumulator exactly, for all gains and samples |
| Pid.DspTracksPortable | CMSIS/arm_math.h:5030-5056 | for all gains, on every stream from every common state, the packed output leads the portable one by 0 to the number of steps with negative A0 and input, through saturation |
| Pid.PackedIsPositional | CMSIS/arm_math.h:5030-5056 | over every unsaturated packed run of n samples the output is at most the positional value plus the bumps, worth 2^-15 of a unit each, and less than n units below that |
| Pid.StandInIsInstructionIff | CMSIS/arm_math.h:1119-1128 | the C stand-in for SMLALD, which is compiled only without the packed PID, agrees with the instruction exactly when not all four halves are -1.0 |
| Pid.Portable.Process | CMSIS/arm_math.h:5038-5060 | one sample updates the three state words as the step function says |
| Pid.Packed.Process | CMSIS/arm_math.h:5030-5060 | the same for the packed instance |
| Park.ForwardFits | CMSIS/arm_math.h:5349-5378 | inside the diamond no product or sum leaves its range, and the rotated coordinates stay inside it |
| Park.ForwardSaturates | CMSIS/arm_math.h:5349-5378 | on all inputs each coordinate is the saturated sum of its two truncated products, where only -1.0 times -1.0 wraps |
| Park.InverseSaturates | CMSIS/arm_math.h:5452-5481 | the same for the inverse |
| Park.ForwardClamps | CMSIS/arm_math.h:5349-5378 | where the products fit, arm_park_q31 is the plain rotation, saturated |
| Park.InverseClamps | CMSIS/arm_math.h:5452-5481 | where the products fit, arm_inv_park_q31 is the plain inverse rotation, saturated |
| Park.RoutinesAreRotation | CMSIS/arm_math.h:5349-5481 | when no product and no sum leaves its range, the two saturating routines are the plain rotation |
| Park.RoundTrip | CMSIS/arm_math.h:5349-5481 | for every vector below half of full scale and every sine and cosine, inverse Park after Park gives the coordinates times sin^2+cos^2, within less than 4 units for the first and between -5 and 3 for the second |
| Park.FaithfulIff | CMSIS/arm_math.h:5349-5481 | the routines are the plain rotation for every sine and cosine if and only if both coordinates are below half of full scale, or one is -0.5 and the other in (-0.5, 0] |
| Park.OutsideIsNotFaithful | CMSIS/arm_math.h:5452-5481 | for every other vector, a sine and cosine for which the routines are not the rotation |
| CircularBuffer.CircularWrite | CMSIS/arm_math.h:6040-6078 | for all strides whose accesses stay inside the arrays: sample k of the strided source is stored at offset k, in order, and the last offset leaves in 16 bits |
| CircularBuffer.CircularRead | CMSIS/arm_math.h:6084-6135 | on one memory, wherever the two buffers lie: for all strides whose accesses stay inside memory, the elements at the offsets are copied one by one to the places of a pointer that wraps on meeting its end |
| CircularBuffer.CopyIsLoadStore | CMSIS/arm_math.h:6084-6135 | when nothing is read after it has been stored to, copying one by one is loading all and storing all, and nothing else changes |
| CircularBuffer.OffsetIsSlot | CMSIS/arm_math.h:6040-6078 | for strides 0 to L, offset k is (start + k*stride) mod L |
| CircularBuffer.StaysInRangeIff | CMSIS/arm_math.h:6066-6071 | from any offset in the buffer the walk stays inside for ever if and only if the stride is between 0 and L |
| CircularBuffer.PlaceIsSlot | CMSIS/arm_math.h:6114-6122 | for a stride that divides length and start, place k is (start + k*stride) mod length |
| CircularBuffer.DestinationStaysIff | CMSIS/arm_math.h:6114-6122 | the destination pointer stays inside for ever if and only if its stride is 0 or divides length and start |
| CircularBuffer.PushBlock | CMSIS/arm_math.h:6040-6078 | a unit-stride write appends its block to the stream the buffer holds |
| CircularBuffer.CircularWriteUnit | CMSIS/arm_math.h:6040-6078 | one call with unit strides is one step of the block sequences below |
| CircularBuffer.WritesMakeDelayLine | CMSIS/arm_math.h:6040-6078 | after any sequence of blocks the buffer holds the last L samples and the offset is the total modulo L, for L up to 65536 |
| CircularBuffer.DelayLineIff | CMSIS/arm_math.h:6040-6078 | on all sequences of blocks the buffer holds the last L samples, and the offset counts them, if and only if L is at most 65536 |
| CircularBuffer.ReadIsDelayedSlice | CMSIS/arm_math.h:6084-6135 | reading n samples from d behind the write offset yields exactly that slice of the stream |
| CircularBuffer.ReadDelivers | CMSIS/arm_math.h:6084-6135 | with a destination that does not overlap the delay line, the read leaves exactly that slice at the destination, in order, and the rest of memory as it was |
| LinearInterp.InSegment | CMSIS/arm_math.h:5651-5693 | inside a segment the result is the floored weighted sum, between the lowered neighbours, with no cast overflowing |
| LinearInterp.Between | CMSIS/arm_math.h:5651-5693 | the result stays between the lowered minimum and the maximum of the table |
| LinearInterp.ClampsToEnds | CMSIS/arm_math.h:5668-5675 | from the last knot on the last entry is returned, and below zero the first, for every table |
| LinearInterp.KnotExactIff | CMSIS/arm_math.h:5651-5693 | at a knot the table value comes back exactly when it is not positive |
| LinearInterp.Monotone | CMSIS/arm_math.h:5651-5693 | a non-decreasing table gives a non-decreasing result over all x >= 0, across segments and into the clamp |
| LinearInterp.MonotoneEverywhereIff | CMSIS/arm_math.h:5651-5693 | over all x it does exactly when the table has one entry or does not start positive |
| LinearInterp.Q7AgreesWithQ15 | CMSIS/arm_math.h:5708-5750 | the Q7 routine agrees with the Q15 one on every Q7 table and coordinate |
| BilinearInterp.AllReadsInsideIff | CMSIS/arm_math.h:7103-7127 | for all dimensions, every accepted coordinate reads inside the table exactly when a dimension is zero or the table is longer than min(numRows, 2048) + numCols * min(numCols, 2048) |
| BilinearInterp.BilinearQ15Between | CMSIS/arm_math.h:7075-7142 | the result is the nested linear interpolation of the four table entries around the coordinate up to truncation, between smallest corner - 1 and largest corner, with no cast overflowing |
| BilinearInterp.BilinearQ7Between | CMSIS/arm_math.h:7153-7216 | the result is the nested linear interpolation of those four entries, floored, between the lowered corners |
| BilinearInterp.BilinearQ15OnEdges | CMSIS/arm_math.h:7108-7119 | on each edge of the cell the result is within one unit of the linear interpolation of the two entries at its ends: X runs along a row, Y across rows |
| BilinearInterp.BilinearQ7OnEdges | CMSIS/arm_math.h:7186-7197 | the same for Q7 |
| BilinearInterp.RejectedIsZero | CMSIS/arm_math.h:7098-7102 | both routines return zero for a coordinate outside the table |

## Left out

- Floating-point kernels and NEON helpers, the Q31 linear and bilinear interpolation, arm_clarke_q31 and arm_pid_q31.
- CMSIS-DSP functions that are only declared in this repository (filters, transforms, matrices) and the contents of the reciprocal tables, which are parameters.
- clip_q63_to_q15 and clip_q31_to_q7, which truncate rather than clamp in range.
- The instruction cache beyond its enable bit, the write buffer, the store order on the bus, access faults and privilege.
- Walks.LinesExact: sizes are 32-bit signed values as in the source; larger buffers cannot be passed.
- Machine.CortexM7.BoardConfigMpu: models the build with asserts; without them an inexpressible section would program region 10 with whatever the encoders make of it.
- Machine.CortexM7.WalkSetsAndWays: the geometry fits the operand fields, as on every Cortex-M7; `Walks.OperandsDistinctIff` says what happens otherwise.
- Reciprocal.RecipQ31: the most negative input is excluded, since the source negates it; table entries are positive.
- Pid.IncrementalIsPositional: speaks of unsaturated runs only, since a clipped output is fed back.
- Data accesses between the register writes of SCB_EnableDCache: the cache is off and its lines are only dropped, so they are ordinary accesses to memory.
- CircularBuffer.CircularWrite: offsets are unbounded integers; the source's 32-bit offset could overflow for lengths above 2^30; the source samples lie outside the buffer.
- Reciprocal.RecipQ15: the input -0x8000 is excluded, for which the source computes a count of -1 sign bits and shifts by it; table entries are positive.
- Nvic.PriorityRegisters.SetPriority: the exceptions with fixed priority are excluded, as the source's note says.
- Clock, pin and SD card configuration, I2C helpers, boot loader interface, drivers, FreeRTOS, lwIP, MQTT and the application: not part of this model.
