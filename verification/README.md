# Verified core of R2VM

R2VM runs RISC-V guests by translating them to x86-64 code. This project models the parts of it
whose correctness is hardest to see by reading, and proves what they promise. Verify it with
`dafny verify dfyconfig.toml` (Dafny 4.11).

**Software floating point** (`Powers`, `Float*`). The arithmetic of `lib/softfp`, generic over
exponent and significand widths, on natural-number bit patterns with explicit holder widths,
against exact real values. `FloatRounding.RoundsTo` is the specification: the exact value, scaled
to the last place of its binade, rounded to an integer in the mode, with overflow and tininess
after rounding. `FloatSpec` shows that this definition picks the nearest (or directed)
representable number and leaves no freedom. Addition, subtraction, multiplication, division,
square root, fused multiply-add and conversions are proved to deliver it, and conversions to
integers to deliver the rounded and saturated integer, except where stated. The lemma under most of
them is that the sticky right shift is round-to-odd (`Sticky`).

**Binary translator** (`Words`, `Guest`, `Riscv`, `RiscvStep`, `Misalign`, `X86`, `Dbt*`). `RiscvStep.Step`
is the interpreter's meaning of an instruction, `X86.Exec` and `DbtBlock.RunBlock` the meaning of
emitted code: registers with partial writes, flags that are only known after a comparison, the
context that RBP points to, division faults completed by the signal handler, helper calls, and
the packed EBX word. `DbtEmit` and `DbtBlock` emit what `src/emu/dbt.rs` emits, case by case. The
main theorem, `DbtTranslate.BlockRuns`, covers blocks of any length, batched pc and instret, traps
at any instruction, fused branch pairs and instructions that straddle a page. Accesses that are not
aligned, on which `step` traps and the emitted code enters a handler, are in `Misalign` and
`DbtTranslate.BlockExact`. Memory, page tables,
devices and the instructions that call back into the interpreter are arbitrary functions of an
abstract world, so the theorem holds for all of them. `DbtAssemble` takes the emitted instructions
to the encoder.

**x86 encoder and decoder** (`X86Ops`, `X86Encode`, `X86Decode`, `X86Codec`, `X86RoundTrip`), for
the instruction forms that the translator emits and the signal handlers decode.

**Translation-cache coherence** (`Coherence`): a state machine of any number of harts, guest
stores, DMA, page protection, translation byte by byte and queued invalidations. **Level-0 caches and Sv39**
(`Mmu`, `L0Cache`, `L0Lines`): bit-level lines against the page walk.

**Fibers** (`FiberMutex`, `FiberRing`, `FiberRuns`, `Fibers`, `FiberYield`, `FiberWfi`): the parking
mutex, the scheduling ring with its skip pointers, the yield loop and WFI, as sequentially
consistent interleavings of single atomic accesses. In `FiberRuns` a wake-up is one access at a
time, because yields and announcements of a pause take no lock; completing a pause is one step,
because wake-ups wait for its lock and the thread that would yield is the one completing it.

**Devices** (`VirtioBuffer`, `VirtioQueue`, `Plic`): the split virtqueue with its scatter/gather
cursors, and the interrupt controller.

Where the code and the standard differ the code is kept, and the exact condition under which they
agree is proved: `FloatFma.FusedMultiplyAddZeros`, `FloatSpec.SqrtFlags` and
`FloatToInt.ConvertToIntCorrect` against IEEE 754-2008; `DbtExact.OpExact` and
`DbtTranslate.BlockExact` (alignment), `DbtExact.MinstretRead`, `DbtExact.MinstretWrite` and
`DbtExact.MinstretUpdate` (the minstret CSR), `DbtCompiler.PairsUnchecked` (privilege) and
`DbtAssemble.StraddlingAuipc` (encoding) between the translator and the interpreter or the encoder;
`Misalign.ZeroSurvives` for x0. Each comes with an input on which they differ.

## Model

| member | source | states |
|---|---|---|
| FloatFormat.PackFields | lib/softfp/src/fp.rs:406-448 | the packed sign, biased exponent and trailing significand read back as they were set |
| FloatFormat.FieldsPack | lib/softfp/src/fp.rs:406-448 | every bit pattern is the packing of its own three fields, so the accessors lose nothing |
| Sticky.RightShiftSticky | lib/softfp/src/fp.rs:221-233 | the right shift is round-to-odd: shifting a sticky significand leaves a sticky significand of the scaled exact value, for every shift amount, also beyond the width |
| Sticky.EvenShift | lib/softfp/src/fp.rs:221-233 | a sticky significand stays one when an even integer is added to or subtracted from it and its exact value |
| Sticky.ComparesLike | lib/softfp/src/fp.rs:221-233 | a sticky significand compares with every even integer as the exact value does |
| FloatArith.SignificandExact | lib/softfp/src/fp.rs:474-491 | the extracted significand at its exponent is exactly the magnitude, with two clear guard bits |
| FloatArith.NormalizedSignificandExact | lib/softfp/src/fp.rs:450-472 | the same with the leading bit in place, for subnormals too |
| FloatArith.NormalizeCorrect | lib/softfp/src/fp.rs:236-252 | normalizing an exact or wide sticky significand keeps what it stands for and puts the leading bit in place |
| FloatArith.NormalizeAndRoundCorrect | lib/softfp/src/fp.rs:380-387 | normalize-then-round delivers the correctly rounded value with the required flags |
| FloatKernel.RoundSignificandCorrect | lib/softfp/src/fp.rs:255-285 | dropping the two guard bits of a sticky significand rounds the exact value in the active mode, and reports inexactness exactly |
| FloatKernel.RoundHuge | lib/softfp/src/fp.rs:288-305 | beyond the exponent range the result is infinity or the largest finite number as the mode and sign demand, with overflow and inexact |
| FloatKernel.RoundCorrect | lib/softfp/src/fp.rs:316-378 | for every sign, exponent and normalized sticky significand: the result is the exact value rounded once to the format, subnormals included, with INEXACT, OVERFLOW and UNDERFLOW (tininess after rounding) as sections 7.4 to 7.6 of IEEE 754-2008 define them |
| FloatSpec.Nearest | lib/softfp/src/fp.rs:255-378 | what "rounded" means, to nearest: no finite number of the format is closer to the exact value, in either tie rule |
| FloatSpec.Directed | lib/softfp/src/fp.rs:255-378 | what "rounded" means, directed: no finite number of the format lies between the exact value and the result |
| FloatSpec.RoundingUnique | lib/softfp/src/fp.rs:316-378 | the rounding definition determines result bits and flags completely |
| FloatAdd.ExactRounds | lib/softfp/src/fp.rs:316-378 | a representable number is its own rounding and raises nothing |
| FloatAdd.SubtractMagnitudeCorrect | lib/softfp/src/fp.rs:539-577 | the magnitude difference, through sticky alignment and cancellation, is rounded once; an exact zero has the sign of the mode |
| FloatAdd.AddMagnitudeNormal | lib/softfp/src/fp.rs:502-535 | the magnitude sum of operands with a normal larger one is rounded once |
| FloatAdd.AddMagnitudeSubnormal | lib/softfp/src/fp.rs:502-535 | the magnitude sum of subnormals, which skips rounding, is still the correctly rounded sum |
| FloatAdd.AddCorrect | lib/softfp/src/fp.rs:1327-1344 | the sum of any finite numbers is the exact sum rounded once, with the required sign of a zero sum |
| FloatAdd.SubtractCorrect | lib/softfp/src/fp.rs:1349-1351 | the same for differences |
| FloatMul.ProductExact | lib/softfp/src/fp.rs:579-617 | the double-width significand product is exactly the product of the magnitudes |
| FloatMul.MultiplyCorrect | lib/softfp/src/fp.rs:579-617 | the product of any finite numbers is the exact product rounded once, zeros signed by the operands |
| FloatDivide.DivisionStateStep | lib/softfp/src/fp.rs:659-711 | one digit of the division loop keeps remainder * bit + quotient * divisor = dividend and remainder < 2 * divisor |
| FloatDivide.RemainderFits | lib/softfp/src/fp.rs:659-711 | the shifted remainder never outgrows its holder |
| FloatDivide.DivideSignificands | lib/softfp/src/fp.rs:659-711 | the digit loop terminates with the sticky quotient of the significands |
| FloatDivide.Divide | lib/softfp/src/fp.rs:619-711 | for all finite operands with nonzero divisor the quotient is the exact one rounded once; the special operands give the results and flags of sections 6.1, 7.2 and 7.3 |
| FloatSqrt.SqrtStateStep | lib/softfp/src/fp.rs:740-801 | one digit of the square-root loop keeps the scaled-remainder invariant |
| FloatSqrt.SqrtFits | lib/softfp/src/fp.rs:740-801 | the scaled remainder never outgrows its holder |
| FloatSqrt.SqrtSignificand | lib/softfp/src/fp.rs:740-801 | the digit loop terminates with the sticky integer root |
| FloatSqrt.SquareRoot | lib/softfp/src/fp.rs:714-801 | for every finite non-negative input, normal or subnormal, the result is the exact root rounded once in the active mode; other inputs give the special results |
| FloatSpec.SqrtFlags | lib/softfp/src/fp.rs:714-719 | the flags of a root that does not round are those section 7.2 requires if and only if the operand is not a signaling NaN |
| FloatSpec.SqrtSignalingWitness | lib/softfp/src/fp.rs:714-719 | every format has such an operand, a NaN with the last significand bit set: DIVIDE_BY_ZERO is raised where INVALID is required |
| FloatFma.AlignCorrect | lib/softfp/src/fp.rs:855-884 | aligning product and addend, in either direction, keeps both sides sticky for a common exponent, at most one of them inexact |
| FloatFma.CombineCorrect | lib/softfp/src/fp.rs:886-905 | adding or subtracting the aligned sides, through massive cancellation, delivers the exact combination rounded once |
| FloatFma.FusedMultiplyAddCorrect | lib/softfp/src/fp.rs:804-905 | for all finite a, b, c with a*b nonzero the result is the exact a*b+c rounded once |
| FloatFma.FusedMultiplyAddZeroProduct | lib/softfp/src/fp.rs:847-853 | a zero product and a nonzero addend give the addend itself |
| FloatFma.FusedMultiplyAddZeros | lib/softfp/src/fp.rs:847-853 | when product and addend are both zero the code returns the zero that section 6.3 requires if and only if a stated condition on the signs and the mode holds |
| FloatFma.FusedMultiplyAddWrongZero | lib/softfp/src/fp.rs:847-853 | a concrete triple of zeros on which the sign of the result differs from the standard |
| FloatConvert.ConvertFromUintCorrect | lib/softfp/src/fp.rs:913-924 | every unsigned integer converts to its correctly rounded value, zero to plus zero |
| FloatConvert.ConvertFromSintCorrect | lib/softfp/src/fp.rs:927-935 | every two's complement integer converts to its correctly rounded value |
| FloatConvert.ConvertFormatCorrect | lib/softfp/src/fp.rs:1054-1084 | a finite number converts to another format by one rounding, keeping its sign |
| FloatConvert.WidenExact | lib/softfp/src/fp.rs:1054-1084 | conversion to a format of at least the same range and precision is exact and raises nothing |
| FloatConvert.WidenThenNarrow | lib/softfp/src/fp.rs:1054-1084 | widening and narrowing back, in any two modes, returns the same bits and raises nothing |
| FloatConvert.SingleThroughDouble | lib/softfp/src/fp.rs:1054-1084 | binary32 to binary64 and back is exact and raises nothing |
| FloatToInt.ConvertToIntCorrect | lib/softfp/src/fp.rs:937-1028 | for every number, mode, width and pair of bounds: value and flags are those of the exact value rounded to an integer and saturated, INVALID out of range, INEXACT where digits are lost, if and only if the number is not an integer of one or two bits too many whose truncation looks in range |
| FloatToInt.ConvertToUintCorrect | lib/softfp/src/fp.rs:1031-1038 | the same if and only if, for the unsigned word that is returned |
| FloatToInt.ConvertToSintCorrect | lib/softfp/src/fp.rs:1041-1050 | the same, for the two's complement word that is returned |
| FloatToInt.NarrowAlwaysCorrect | lib/softfp/src/fp.rs:937-1028 | a word at least two bits narrower than the significand is always converted to correctly |
| FloatToInt.PowerBecomesZero | lib/softfp/src/fp.rs:1010-1019 | in every format that reaches it, two to the width of the word becomes zero without a flag where the largest word and INVALID are required |
| FloatToInt.Binary32Witness | lib/softfp/src/fp.rs:1010-1019 | binary32 0x4f800000 to 32 bits is such an input |
| X86.CompareHolds | src/emu/dbt.rs:346-378 | each condition code read from the flags of CMP is the relation on the operands, signed ones through SF and OF |
| DbtOps.LoadRegRuns | src/emu/dbt.rs:219-226 | loading a guest register, x0 included, puts its value in the machine register and touches nothing but the flags |
| DbtOps.StoreRegRuns | src/emu/dbt.rs:229-246 | storing writes the register, sign-extended when 32 bits wide, and leaves x0 alone |
| DbtOps.MoveRuns | src/emu/dbt.rs:248-258 | a register copy, for all aliasing |
| DbtOps.Move32Runs | src/emu/dbt.rs:260-270 | a sign-extending copy, for all aliasing |
| DbtOps.LoadImmRuns | src/emu/dbt.rs:272-277 | a constant load |
| DbtOps.AddiRuns | src/emu/dbt.rs:680-698 | ADDI equals `step` for every register choice and immediate |
| DbtOps.ShiftImmRuns | src/emu/dbt.rs:700-853 | SLLI, SRLI and SRAI, including the shift by one done as an addition |
| DbtOps.SltiRuns | src/emu/dbt.rs:726-759 | SLTI, including x0, whose constant store falls through to the general code, and the decremented immediate |
| DbtOps.SltiuRuns | src/emu/dbt.rs:761-783 | SLTIU, with both fall-through constants and the equality shortcuts |
| DbtOps.XoriRuns | src/emu/dbt.rs:785-813 | XORI, -1 done as NOT |
| DbtOps.OriRuns | src/emu/dbt.rs:855-876 | ORI, -1 done as a constant |
| DbtOps.AndiRuns | src/emu/dbt.rs:878-899 | ANDI, 0 and -1 done as constant and copy |
| DbtOps.AddRuns | src/emu/dbt.rs:982-1020 | ADD, in all aliasing forms, equals `step` for every register choice and value |
| DbtOps.SubRuns | src/emu/dbt.rs:1022-1054 | SUB, with NEG for x0, equals `step` for every register choice and value |
| DbtOps.ShiftRegRuns | src/emu/dbt.rs:1056-1213 | SLL, SRL and SRA by the low six bits of the count, equals `step` for every register choice and value |
| DbtOps.SltRuns | src/emu/dbt.rs:1079-1112 | SLT, with the sign-bit shift and the x0 forms, equals `step` for every register choice and value |
| DbtOps.SltuRuns | src/emu/dbt.rs:1114-1136 | SLTU, equals `step` for every register choice and value |
| DbtOps.XorRuns | src/emu/dbt.rs:1138-1167 | XOR, equals `step` for every register choice and value |
| DbtOps.OrRuns | src/emu/dbt.rs:1215-1244 | OR, equals `step` for every register choice and value |
| DbtOps.AndRuns | src/emu/dbt.rs:1246-1272 | AND, equals `step` for every register choice and value |
| DbtOps32.AddiwRuns | src/emu/dbt.rs:907-921 | ADDIW: the 32-bit result, sign-extended, equals `step` |
| DbtOps32.ShiftImm32Runs | src/emu/dbt.rs:923-974 | SLLIW, SRLIW and SRAIW: the 32-bit result, sign-extended, equals `step` |
| DbtOps32.AddwRuns | src/emu/dbt.rs:1280-1298 | ADDW: the 32-bit result, sign-extended, equals `step` |
| DbtOps32.SubwRuns | src/emu/dbt.rs:1300-1319 | SUBW: the 32-bit result, sign-extended, equals `step` |
| DbtOps32.ShiftReg32Runs | src/emu/dbt.rs:1321-1370 | SLLW, SRLW and SRAW: the 32-bit result, sign-extended, equals `step` |
| DbtMulDiv.MulRuns | src/emu/dbt.rs:1378-1393 | MUL |
| DbtMulDiv.MulhRuns | src/emu/dbt.rs:1395-1411 | MULH and MULHU: the high word of the exact product |
| DbtMulDiv.MulhsuRuns | src/emu/dbt.rs:1413-1433 | MULHSU: the unsigned product with its fix-up is the high word of the exact signed-by-unsigned product |
| DbtMulDiv.MulwRuns | src/emu/dbt.rs:1435-1450 | MULW |
| DbtMulDiv.DivRemRuns | src/emu/dbt.rs:1452-1484 | DIV, DIVU, REM and REMU, faulting or not |
| DbtMulDiv.DivRem32Runs | src/emu/dbt.rs:1486-1519 | the 32-bit divisions, faulting or not |
| DbtMulDiv.DivideMeans | src/emu/signal.rs:118-157 | whether DIV or IDIV faults and the handler completes it or not, the registers end with RISC-V's quotient and remainder: -1 and the dividend by zero, the dividend and 0 on overflow |
| DbtMulDiv.QuotientFits | src/emu/signal.rs:139-153 | the only fault of an extended dividend by a nonzero divisor is the most negative number by minus one |
| Riscv.MulhsuFixUp | src/emu/interp.rs:1774-1789 | the fix-up computation that `step` itself uses is the high word of the exact product |
| DbtStep.ImmRuns | src/emu/dbt.rs:680-974 | every OP-IMM and OP-IMM-32 sequence computes what `step` computes, keeps the zero slot and leaves pc and instret alone |
| DbtStep.RegRuns | src/emu/dbt.rs:982-1519 | the same for every OP, OP-32 and M-extension sequence |
| DbtBlock.UnwindExact | src/emu/dbt.rs:284-290 | packing the offsets in EBX and adding its sign-extended halves, as helper_trap does, adds exactly the offsets |
| DbtStep.CompareRuns | src/emu/dbt.rs:358-369 | the comparison of a branch, x0 forms with swapped condition included, leaves flags that decide the branch as `step` does |
| DbtStep.BranchRuns | src/emu/dbt.rs:346-412 | a conditional branch leaves the block with pc and instret of the target when taken, and falls through otherwise |
| DbtStep.JalRuns | src/emu/dbt.rs:436-461 | JAL links and jumps as `step`, from batched counters |
| DbtStep.JalrRuns | src/emu/dbt.rs:414-434 | JALR, reading rs1 before rd is written, clears the low bit of the target |
| DbtStep.LoadRuns | src/emu/dbt.rs:642-654 | loads of all widths: faulting and successful ones match `step`, with precise pc and instret; where `step` traps for the address, the code stands at the entry of the handler with the same hart |
| DbtStep.StoreRuns | src/emu/dbt.rs:656-672 | the same for stores |
| DbtStep.HelperRuns | src/emu/dbt.rs:309-322 | an instruction run by calling the interpreter in a lagging context does what `step` does and traps with precise pc and instret, provided that it neither reads nor writes the two counters |
| DbtStep.ReadCsrRuns | src/emu/dbt.rs:1761-1770 | the inline read of a CSR into a register does the same, under the same condition |
| DbtStep.WriteCsrRuns | src/emu/dbt.rs:1749-1760 | the inline write of a CSR from a register or a constant does the same, under the same condition |
| DbtStep.SystemRuns | src/emu/dbt.rs:2030-2044 | system instructions see counters brought up to date, and a trap takes them back exactly |
| DbtAmo.SimpleAmo | src/emu/dbt.rs:1527-1549 | atomics done by one locked instruction store and return what `step` does |
| DbtAmo.LoopAmo | src/emu/dbt.rs:1551-1591 | atomics done by the compare-exchange loop do the same when no other hart intervenes |
| DbtAmo.RetryAtomic | src/emu/dbt.rs:1551-1591 | however often other harts change memory, a loop that ends has done the whole operation at one of its compare-exchanges, on what memory held there and returning that |
| DbtAmo.ChoiceIs | src/emu/dbt.rs:1988-2019 | the comparison and CMOV choose minimum and maximum, signed and unsigned, 32- and 64-bit |
| DbtOp.OpRuns | src/emu/dbt.rs:1624-2047 | every compiled instruction, from a context lagging by any pc and instret in range, does exactly what one `step` does |
| RiscvStep.MisalignedTraps | src/emu/interp.rs:1129-1165 | an access traps for its address exactly when it is not aligned, a load with cause 4, a store or an atomic with cause 5 |
| DbtExact.OpExact | src/emu/dbt.rs:612-617 | for every instruction, context and pending counters: the emitted code, handler included, does what `step` does if and only if the accessed address is aligned |
| DbtExact.OddHalfword | src/emu/dbt.rs:612-617 | LH from address 1 is a failing input: `step` traps with cause 4 and the emitted code enters the handler |
| DbtExact.MinstretRead | src/emu/dbt.rs:1722-1770 | minstret is not among the CSRs that bring the counters up to date first: its compiled read equals `step` if and only if it goes to x0 or nothing is pending, as in a straddling instruction |
| DbtExact.MinstretWrite | src/emu/dbt.rs:1722-1760 | its compiled write, of a register or a constant, equals `step` if and only if nothing is pending |
| DbtExact.MinstretUpdate | src/emu/dbt.rs:1771-1777 | the forms that read and write at once equal `step` if and only if the value read is right in that sense and the new value moves along with the old one |
| DbtExact.MinstretWitness | src/emu/dbt.rs:1722-1777 | an emulator in which the read, the write and the combined form at the start of a block all differ from `step` |
| Misalign.CopyFromVirtAddr | src/emu/interp.rs:340-356 | the copy loop reads what its recursive specification reads, translating again at each line |
| Misalign.CopyToVirtAddr | src/emu/interp.rs:359-375 | the same for writing |
| Misalign.HandlerDiffers | src/emu/interp.rs:2477-2541 | the handler never has the effect of `step` on an address that is not aligned: it completes loads and stores, and raises cause 6 for the rest |
| Misalign.LoadInLine | src/emu/interp.rs:2490-2514 | within one cache line the handler loads exactly what one load from the translated address would |
| Misalign.StoreInLine | src/emu/interp.rs:2515-2526 | the same for stores |
| Misalign.TornStore | src/emu/interp.rs:2515-2526 | a store that runs into a line that cannot be written traps with its first bytes written |
| Misalign.ZeroSurvives | src/emu/interp.rs:2490-2514 | the handler keeps x0 zero if and only if it does not complete a load into x0 that finds something else |
| Misalign.ZeroSpoiled | src/emu/interp.rs:2490-2514 | such a load exists |
| Misalign.LineMistaken | src/emu/interp.rs:340-356 | an address whose line number equals its own complement is read from physical address 0 without translation |
| Misalign.MistakenWitness | src/emu/interp.rs:340-356 | such an address exists for 64-byte lines |
| DbtTranslate.PairRuns | src/emu/dbt.rs:2102-2166 | a fused branch-over-one pair equals its two instructions when taken, when not taken and when the second one traps or jumps, instret exact on both paths |
| DbtTranslate.CrossRuns | src/emu/dbt.rs:2257-2286 | an instruction straddling the page end, compiled as if at offset -4, equals its `step` |
| DbtTranslate.BlockRuns | src/emu/dbt.rs:2051-2308 | for every block of any length: running the emitted code equals stepping the guest's instructions one by one, a trap at any instruction leaving pc and instret exactly there; where `step` traps for an address, the block stands before that instruction at the entry of the handler |
| DbtTranslate.BlockExact | src/emu/dbt.rs:2051-2308 | handler included, the block is the interpreter's run handed to the handler where it traps for an address; it is the interpreter's run itself if and only if all its accesses are aligned |
| DbtCompiler.DbtCompiler.CompileOp | src/emu/dbt.rs:2051-2088 | the compiler object appends exactly the code of one more instruction and advances its counters |
| DbtCompiler.DbtCompiler.CompileCondOp | src/emu/dbt.rs:2102-2166 | the same for a fused pair |
| DbtCompiler.DbtCompiler.End | src/emu/dbt.rs:2289-2308 | finishing a block that falls through |
| DbtCompiler.DbtCompiler.EndCross | src/emu/dbt.rs:2257-2286 | finishing a block with a straddling instruction |
| DbtCompiler.NextUnit | src/emu/interp.rs:2193-2263 | the next unit is what the translator takes at the position, inside the page, the first instruction checked against the privilege level; a pair only when the branch skips exactly the instruction |
| DbtCompiler.PairsUnchecked | src/emu/interp.rs:2225-2263 | what is compiled is the program that the privilege level sees if and only if no fused pair has a second instruction above the level |
| DbtCompiler.UncheckedWitness | src/emu/interp.rs:2241-2263 | a branch over SRET in user mode is such a pair |
| DbtCompiler.TranslateCode | src/emu/interp.rs:2168-2304 | the translation loop compiles exactly the guest instructions from the block start up to the first one that ends a block, or to the page end, never crossing it |
| DbtCompiler.TranslationRuns | src/emu/interp.rs:2168-2304 | what the loop produces, entered at its start, is a run of the interpreter of at least one instruction over the program that the privilege level sees, in the sense of BlockRuns and BlockExact |
| DbtAssemble.BlockDecodes | src/emu/dbt.rs:1624-2047 | every instruction of every block the translator builds from decoded guest instructions, cache lookups and call set-up included, is one the encoder accepts, and its bytes decode to the same instruction |
| DbtAssemble.StraddlingAuipc | src/emu/dbt.rs:2328-2346 | an AUIPC across two pages is encodable if and only if its constant is not the least one |
| X86Codec.ReadLe | lib/x86/src/encode.rs:24-57 | an immediate written low byte first reads back congruent to itself |
| X86Codec.RexForCovers | lib/x86/src/encode.rs:68-119 | REX carries the upper bit of every register number, and is present whenever SPL to DIL are named |
| X86Codec.MemoryBack | lib/x86/src/encode.rs:123-243 | every ModR/M and SIB form of a memory operand decodes to the same operand: no base, RIP, RSP/R12, RBP/R13 and index cases, short and long displacements |
| X86Codec.LocBack | lib/x86/src/decode.rs:75-135 | the same for registers and memory, together with the reg field |
| X86Codec.PrefixReads | lib/x86/src/decode.rs:164-192 | size prefix, REX and opcode are recovered as emitted |
| X86RoundTrip.AluBack | lib/x86/src/encode.rs:324-380 | all ALU forms: short immediate, accumulator form, full immediate, register and memory |
| X86RoundTrip.ShiftBack | lib/x86/src/encode.rs:384-401 | shifts by CL, by one and by an immediate |
| X86RoundTrip.MovBack | lib/x86/src/encode.rs:466-519 | all moves, including a 64-bit constant moved by the zero-extending 32-bit form |
| X86RoundTrip.MovsxBack | lib/x86/src/encode.rs:543-554 | sign-extending moves |
| X86RoundTrip.MovzxBack | lib/x86/src/encode.rs:557-567 | zero-extending moves |
| X86RoundTrip.JumpBack | lib/x86/src/encode.rs:423-456 | calls, jumps and conditional jumps, short and long |
| X86RoundTrip.PatchedBack | lib/x86/src/encode.rs:423-456 | a jump or call emitted with a distant placeholder and patched to any 32-bit distance, also a short one, decodes to the jump over that distance |
| X86RoundTrip.RoundTrip | lib/x86/src/encode.rs:706-801 | for every form the translator emits, whatever follows: decoding consumes exactly the encoded bytes and gives an instruction of the same meaning |
| X86RoundTrip.BufferRoundTrip | lib/x86/src/decode.rs:164-407 | a whole buffer of emitted code decodes instruction by instruction to what was emitted |
| X86Encode.Encoder.EmitRex | lib/x86/src/encode.rs:68-119 | the prefix gathered bit by bit is the one the instruction needs |
| X86Encode.Encoder.EmitInstruction | lib/x86/src/encode.rs:251-273 | the emitter appends exactly prefixes, opcode and operand bytes |
| X86Encode.Encoder.EmitModRmBytes | lib/x86/src/encode.rs:123-243 | the bytes emitted one by one for ModR/M, SIB and displacement are those of the operand, which MemoryBack decodes |
| X86Decode.ReadPrefixes | lib/x86/src/decode.rs:164-186 | the prefix loop stops at the opcode with the REX and operand size that apply to it |
| Coherence.RemovePages | src/emu/interp.rs:642-655 | the page loop removes exactly the pages of the range from CODE_PROT and reports whether any was there |
| Coherence.NextInv | src/emu/interp.rs:642-683 | every step of every hart and of DMA keeps the invariant: a block is current, covered by a queued invalidation, or being written; a protected page has no writable line |
| Coherence.TranslateInv | src/emu/interp.rs:2330-2360 | reading the code byte by byte after its page was protected, and inserting the block later, against stores and DMA in between, keeps it |
| Coherence.ProtectHartInv | src/emu/interp.rs:211-220 | protecting a page hart by hart, interleaved with stores, keeps it |
| Coherence.StoreMissInv | src/emu/interp.rs:704-710 | a store that misses, and unprotects and queues invalidations before it writes, keeps it |
| Coherence.DrainInv | src/emu/interp.rs:2365-2377 | running the queued invalidations keeps it |
| Coherence.RunInv | src/emu/interp.rs:846-865 | the invariant holds in every state of every run of any number of harts |
| Coherence.NoStaleBlock | src/emu/interp.rs:846-865 | a hart whose queue is empty, as after the interrupt check that follows FENCE.I, or that runs with no alarm raised, holds no stale block outside pages with a DMA write in flight |
| Coherence.NoWritableLine | src/emu/interp.rs:846-865 | outside the protecting section no protected page has a writable line on any hart |
| Mmu.CanonicalIff | lib/riscv/src/mmu.rs:21-25 | the shift test accepts exactly the addresses whose upper bits repeat bit 38 |
| Mmu.WalkPageLoop | lib/riscv/src/mmu.rs:21-72 | the three-level loop computes the recursive walk |
| Mmu.WalkedReadable | lib/riscv/src/mmu.rs:30-71 | whatever a walk finds, write permission comes with read permission |
| Mmu.HugePage | lib/riscv/src/mmu.rs:59-67 | a leaf above the last level maps its whole aligned region, as section 4.4 of the RISC-V Privileged Architecture requires |
| Mmu.WriteImpliesRead | src/emu/interp.rs:379-404 | an address that may be stored to may be loaded from, at the same place |
| Mmu.StatusBits | lib/riscv/src/mmu.rs:74-112 | translation depends on no status bit but SUM and MXR |
| L0Cache.FilledOk | src/emu/interp.rs:415-421 | a line filled after a successful translation is right for every address in it, for loads also when filled by a store |
| L0Cache.FetchedOk | src/emu/interp.rs:407-413 | the same for instruction lines |
| L0Cache.InvalidMisses | src/emu/interp.rs:26-36 | an invalidated line hits no address |
| L0Cache.ProtectedHits | src/emu/interp.rs:211-220 | a protected line still serves loads, and serves stores only outside the page |
| L0Cache.FastPathIsLookup | src/emu/dbt.rs:550-602 | the lookup that translated code does inline finds exactly the hits |
| L0Cache.NextInv | src/emu/interp.rs:530-579 | every access, fence, trap, return and CSR write keeps all lines in agreement with the page tables; changes of prv, satp, SUM and MXR flush |
| L0Cache.HitsAreWalks | src/emu/interp.rs:691-737 | over any run below M-mode, while page tables are unchanged since the last flush, every hit gives the address and success of a fresh walk |
| L0Lines.SharedContext.ClearLocalCache | src/emu/interp.rs:169-173 | every data line is invalidated |
| L0Lines.SharedContext.ClearLocalICache | src/emu/interp.rs:175-179 | every instruction line is invalidated |
| L0Lines.SharedContext.InvalidateCacheVirtual | src/emu/interp.rs:181-185 | afterwards no address of the virtual line hits for loads or stores, other lines are as before, and a cache that agreed with the page tables still does |
| L0Lines.SharedContext.InvalidateCachePhysical | src/emu/interp.rs:187-194 | exactly the lines at the interval of the physical index are invalidated |
| L0Lines.PhysicalGone | src/emu/interp.rs:187-194 | afterwards no address whose translation is in that physical line hits, for every line size |
| L0Lines.SharedContext.ProtectCode | src/emu/interp.rs:211-220 | every line is protected exactly if it is in the page |
| L0Lines.SharedContext.InsertDataCacheLine | src/emu/interp.rs:415-421 | afterwards exactly the addresses of the virtual line hit among those of its index, stores if and only if writable, at the given place and alongside it; other lines are as before; and if the place is what a walk says, a cache that agreed with the page tables still does |
| FiberMutex.NextInv | lib/fiber/src/mutex.rs:16-132 | every atomic step of lock, try_lock, unlock, park and unpark keeps the invariant |
| FiberMutex.MutexSafe | lib/fiber/src/mutex.rs:16-132 | in every interleaving of any number of fibers: at most one holds the mutex, a queued fiber implies the PARKED bit, and a free mutex with fibers queued has a contender that is not asleep |
| FiberMutex.FreeMutexIsTaken | lib/fiber/src/park.rs:33-119 | from any such state a fiber that is not asleep can take the mutex within four steps, so no wake-up is lost |
| FiberRing.SpreadWalks | lib/fiber/src/lib.rs:329-341 | what the backward walk changes: the fibers from the start down to the first that is not paused |
| FiberRing.UnpauseValid | lib/fiber/src/lib.rs:348-371 | the whole of a wake-up, undisturbed, keeps every skip pointer at the nearest runnable fiber |
| FiberRing.FinishValid | lib/fiber/src/lib.rs:312-345 | completing a pause keeps them so |
| FiberRuns.NextInv | lib/fiber/src/lib.rs:305-371 | announcing, completing a pause, yielding and each single access of a wake-up keep the invariant |
| FiberRuns.TestStops | lib/fiber/src/lib.rs:354-368 | when a wake-up stops, whatever was announced or yielded meanwhile, every skip pointer leads to the nearest runnable fiber again |
| FiberRuns.NeverOnParked | lib/fiber/src/lib.rs:305-371 | over any run, with yields and announcements between any two accesses of a wake-up: every skip pointer leads to a fiber that is not paused or to the one in transit, and a yield never lands on a parked fiber |
| FiberRuns.WalkEnds | lib/fiber/src/lib.rs:354-368 | a wake-up always has a fiber that is not paused ahead of it, at most one turn away |
| Fibers.FiberGroup.Spawn | lib/fiber/src/lib.rs:255-298 | adding a fiber keeps the ring linked in order, with valid skip pointers |
| Fibers.FiberGroup.Walk | lib/fiber/src/lib.rs:329-341 | the loop terminates by ring distance and does what the walk specifies |
| Fibers.FiberGroup.Pause | lib/fiber/src/lib.rs:312-345 | one pass of pause under the group lock: woken already, must wait, or parked |
| Fibers.FiberGroup.Unpause | lib/fiber/src/lib.rs:348-371 | waking a fiber |
| FiberYield.Scheduler.FiberSleep | lib/fiber/src/fiber.s:53-70 | the yield loop terminates, as the sum of sleep counts decreases, at the fiber and with the counts specified |
| FiberYield.SleepResumes | lib/fiber/src/fiber.s:53-70 | what the loop computes is a sleep followed by hops to the first fiber with no turns left, and that fiber has had exactly the visits it asked for |
| FiberYield.SleepExact | lib/fiber/src/lib.rs:44-49 | a fiber that calls sleep(n) runs again at exactly its n-th visit and not before |
| FiberYield.Lockstep | lib/fiber/src/fiber.s:53-70 | while no fiber is paused, no two fibers' visit counts differ by more than one |
| FiberWfi.NextInv | lib/fiber/src/mutex.rs:157-203 | every step of wait_alarm and fire_alarm keeps the condition-variable invariant |
| FiberWfi.NeverLeftAsleep | src/emu/interp.rs:137-151 | a hart is never left queued in wait_alarm with a non-zero alarm and the WFI mutex free, in any interleaving with any number of threads |
| VirtioBuffer.SeekSlice | lib/io/src/hw/virtio/queue.rs:270-285 | seeking finds the descriptor and offset of any position |
| VirtioBuffer.BufferReader.Seek | lib/io/src/hw/virtio/queue.rs:294-309 | a reader positioned anywhere |
| VirtioBuffer.BufferReader.Read | lib/io/src/hw/virtio/queue.rs:313-335 | one read returns the flat concatenation from the position up to a descriptor end, and nothing only at the end |
| VirtioBuffer.BufferReader.ReadExact | lib/io/src/hw/virtio/queue.rs:313-335 | repeated reads return the flat concatenation |
| VirtioBuffer.BufferWriter.WriteSome | lib/io/src/hw/virtio/queue.rs:397-421 | one write stores at exactly the flat positions, and bytes_written is the furthest position reached |
| VirtioBuffer.WriteSplices | lib/io/src/hw/virtio/queue.rs:397-421 | on a chain without overlaps a write replaces exactly that part of the flat contents |
| VirtioQueue.SlotOfCount | lib/io/src/hw/virtio/queue.rs:87-92 | a 16-bit counter masked with the ring size is the count modulo the ring size across every wrap, for powers of two |
| VirtioQueue.Collect | lib/io/src/hw/virtio/queue.rs:107-125 | following an acyclic chain sorts its descriptors, in order, into device-readable and device-writable |
| VirtioQueue.PartsCover | lib/io/src/hw/virtio/queue.rs:107-125 | every descriptor lands in exactly one half and no byte of the chain is lost |
| VirtioQueue.QueueInner.TryTake | lib/io/src/hw/virtio/queue.rs:70-127 | the k-th buffer taken is the chain in available slot k modulo the ring size; only that slot need hold a chain that ends |
| VirtioQueue.QueueInner.Put | lib/io/src/hw/virtio/queue.rs:130-143 | the j-th buffer put goes to used slot j modulo the ring size, and the index is published |
| Plic.PlicInner.PendingFor | lib/io/src/hw/intc/plic.rs:60-70 | the scan finds whether an enabled, unclaimed, pending source exceeds the threshold |
| Plic.PlicInner.RecomputePending | lib/io/src/hw/intc/plic.rs:72-76 | afterwards every line shows whether its context has something pending |
| Plic.PlicInner.Claim | lib/io/src/hw/intc/plic.rs:78-99 | a claim returns the highest-priority, lowest-numbered claimable source, and something whenever the line was raised |
| Plic.PlicInner.Complete | lib/io/src/hw/intc/plic.rs:231-234 | completion releases exactly that source |
| Plic.PlicInner.SetLevel | lib/io/src/hw/intc/plic.rs:278-287 | only a rising edge of a source triggers it |
| Plic.PlicInner.Write | lib/io/src/hw/intc/plic.rs:179-249 | a register write of any address and size has exactly the effect its address asks for, out-of-range ones none, and leaves every line equal to its pending state |
| Plic.PlicInner.SetPriority | lib/io/src/hw/intc/plic.rs:188-196 | a priority write keeps every line equal to its pending state |
| Plic.PlicInner.SetEnable | lib/io/src/hw/intc/plic.rs:203-213 | an enable write keeps them so |
| Plic.PlicInner.SetThreshold | lib/io/src/hw/intc/plic.rs:225-229 | a threshold write keeps them so |
| Plic.PinPromises | lib/io/src/hw/intc/plic.rs:60-99 | a raised line promises a non-zero claim above the threshold |
| Plic.BestUnique | lib/io/src/hw/intc/plic.rs:78-99 | what a claim must answer is determined |
| Plic.ClaimedOnce | lib/io/src/hw/intc/plic.rs:78-99 | over any run no source is claimed twice without a completion between |
| Plic.EdgeKept | lib/io/src/hw/intc/plic.rs:53-57 | an edge stays pending until the source is claimed, even while an earlier one is being handled |
| Plic.EdgeClaimable | lib/io/src/hw/intc/plic.rs:231-234 | after completion such an edge can be claimed by any context that enables it |
| Plic.ClaimsNeedEdges | lib/io/src/hw/intc/plic.rs:53-99 | no source is claimed more often than it was triggered |

## Left out

- Comparisons, minimum/maximum, classification and sign operations of softfp would only add easy members.
- FloatToInt.ConvertToIntCorrect: the required result is delivered only under the stated condition, because the code admits integers of up to two bits too many and truncates them before it compares with the bound.
- Results and flags for NaN and infinite operands of addition, multiplication and fused multiply-add are modelled as in the code but have no lemmas of their own; those of division and square root do.
- FloatFma.FusedMultiplyAddZeros: the sign of a zero product plus a zero addend follows section 6.3 of IEEE 754-2008 only under the stated condition, because the code returns the cancellation zero whatever the signs are.
- FloatSpec.SqrtFlags: for a signaling NaN operand of the square root the code raises DIVIDE_BY_ZERO instead of INVALID, so the flags agree with section 7.2 exactly for the other operands.
- LR and SC: the code compares values instead of keeping a reservation. Floating-point instructions, and CSR instructions that both read and write, appear in blocks as calls into the interpreter.
- DbtStep.HelperRuns: requires that the called instruction neither reads nor writes pc and instret, as `DbtTranslate.BlockRuns` does of the calls in the block; of the CSRs compiled in place only minstret does not meet this, and `DbtExact` shows when it is still right.
- DbtAssemble.BlockDecodes: covers the instructions of a block but its jumps and calls, whose distances are patched; `X86RoundTrip.PatchedBack` covers those one by one.
- DbtAmo.LoopAmo: no other hart runs inside a block, as in lockstep execution; `DbtAmo.RetryAtomic` has the loop against others.
- DbtExact.OpExact: the emitted code does what `step` does only for aligned addresses, because the code for others enters a handler that completes the access. The instruction the handler finds when it fetches once more is a parameter.
- Misalign.LoadInLine: stated for one line and for a destination other than x0; across lines the bytes come from two translations, as the specification of the loop says.
- DbtCompiler.PairsUnchecked: the privilege level of the second instruction of a fused pair is not checked by the code, so the program seen is compiled only under the stated condition.
- The statistics field `minstret` of the context (not the CSR of that name), cycle counts, pipeline models and the yields they insert, the instruction-cache line checks inside a block, the speculation guard at its entry, direct-jump patching and the sanitizer build.
- The guest program is given as already decoded instructions with in-range shift amounts, and the privilege level each needs as a function.
- DbtTranslate.CrossRuns: the run-time comparison of a straddling instruction's second half with the one compiled is not modelled; the code is taken to be compiled for the instruction that is there.
- DbtCompiler.TranslateCode: the block starts at an even address, as every jump target does.
- Jumps inside emitted blocks are counted in items, not bytes; `X86RoundTrip` is about single instructions and buffers, not about label patching. AH to BH, RSP or RBP as an index, PUSH and POP, moves of constants to byte registers other than AL, TEST of the accumulator with a constant and XCHG of two registers are not covered: the translator does not emit them and the decoder does not know some of them. RIP-relative operands are covered for LEA only.
- Coherence: a guest store is one step, tag check and write together, as lockstep execution makes it; threaded stores split between the two, and 16-bit DMA writes, which do not invalidate, are outside the statement. The level-0 lines are abstract there; `L0Cache` has their bits.
- L0Cache.HitsAreWalks: stated for privilege levels 0 and 1; M-mode with MPRV and SRET from M-mode are not modelled, nor address space identifiers, which the code ignores.
- Fibers: exit of a fiber and the restart of its group, `notify_all`/`unpark_all` and the reader-writer lock are not modelled. The group lock and the wait-list lock are taken as given.
- FiberRuns.NeverOnParked: only a fiber that has announced a pause and has not been woken since is woken, as the wait queues ensure.
- Fibers.FiberGroup.Spawn: fibers are added before the group runs, so none is paused yet.
- FiberWfi.NeverLeftAsleep: the WFI mutex is taken and released in single steps, as `FiberMutex` justifies.
- VirtioQueue.QueueInner.TryTake: the rings and the descriptor table are sequences rather than bytes of guest memory; the chain that is taken is assumed to end, and the cursors assume non-empty descriptors. Seeks to negative positions, wakers and device task bodies are left out.
- Plic.PlicInner.Write: the number of a source to complete is taken modulo 32, as in builds without overflow checks; builds with them stop there. Register reads other than the claim are not modelled.
- Loading, system calls, consoles, network and file devices, disassembly, device trees, statistics and configuration: foreign calls or easy members.
