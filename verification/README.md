# Verified core of the QuickJS runtime libraries

A Dafny model of four components of the QuickJS engine under `native/quickjs/`, with proofs of
what they are for:

1. **Regular expressions** (`libregexp.c`). The compiler emits byte code from a syntax tree with
   the insertions, patches and term reversals of the `re_parse_*` functions (`Compiler`,
   `CompiledCode`); the backtracking machine runs it on one flat stack of saved states and undo
   entries (`ExecBacktrack`, `RegexpExec`). Main result: `RegexpExec.LreExec`, run on the bytes of
   `CompiledCode.LreCompile`, always ends and reports the first result of the slot matcher, and
   where the iteration counters suffice (`NodeRefinement.CountersFit`) that is exactly what the
   matcher of section 22.2.2 of ECMA-262 finds first, or no match. `CounterLimit` shows that they
   must suffice. The steps in between: the continuation-passing matcher of the standard and its
   ordered list of outcomes (`EcmaMatcher`, `EcmaCharacters`), the same list on code units and slots
   (`SlotMatcher`, `SlotRefinement`, `Utf16`, `LinearAtoms`, `NodeRefinement`), a machine whose saved states hold full copies (`Machine`,
   `Simulation`, `LoopSimulation`, `NodeSimulation`, `RegexpProgram`), and the machine with an undo
   log that refines it (`UndoLog`, `ExecBacktrack`).
2. **Float printing and parsing** (`dtoa.c`). Limb arithmetic on arrays (`Limbs`, `Bignum`), exact
   rounding of `m * 2^e * radix^f` (`MulPow`), rounding to a 64-bit float (`DoubleRounding`,
   `FloatSpacing`, `FloatEnds`, `Ieee754`), the free-format digit search (`FreeFormat`), given numbers of digits
   (`FixedFormat`), `js_atod` with the wrap-around of its int exponents (`Atod`, `AtodMain`,
   `AtodRounding`, `AtodLimits`, `RadixText`) and the decimal layout (`DecimalText`, `NumberForm`, `Dtoa`). Main result:
   `Dtoa.PrintParse`, the round trip of every float but NaN.
3. **Character sets and Unicode tables** (`libunicode.c`): set algebra on boundary lists
   (`CharRanges`, `OverlapRemoval`), the case-folding image of a set (`CaseFolding`) from the case
   data of Unicode (`CaseData`), character classes against CharacterSetMatcher (`CharacterClass`),
   indexed lookup against linear decoding (`UnicodeTables`) of the tables that `unicode_gen.c` writes
   (`PropertyTables`), canonical ordering (`CanonicalOrdering`).
4. **rqsort** (`cutils.c`): `Sorting`, `Rqsort`.

Allocation is taken to succeed and the timeout callback never to fire. C buffers that grow are
sequence-valued fields, fixed buffers and in-place algorithms are arrays, unsigned wrap-around and
truncation are written out where they matter. Positions in the input are offsets in code units,
and -1 is the null pointer. `Preorder`, `EnvOk`, `Wf`, `RefsIn`, `RadixOk`, `RadixReady`, `TableOk`,
`MeantBy` and `IndexOk` name what the code relies on in comparison functions, patterns and constant tables;
`RadixTables.TenOk`, `RadixTables.BinaryOk`, `AtodMain.TenReady` and `AtodMain.BinaryReady`
discharge the radix tables for radix 10 and the powers of two.

Where the code differs from what it is for, an input shows it and the condition is exact:

- A quantifier `{min,}` that is compiled with a 31-bit counter stops after INT32_MAX iterations.
  Code and standard agree on every atom and every input of `len` characters exactly when `len`, plus
  `min` if the atom may match without advancing, is at most INT32_MAX (`CounterLimit.CounterExact`);
  the comment at `native/quickjs/libregexp.c:2341` considers only the length. `(?:|a){2147483646,}` on
  `aaa` is a failing input (`CounterLimit.ThreeLetters`). Quantifiers compiled without a counter need
  no condition, and termination and the first result of the slot matcher hold without any.
- `js_atod` moves the exponent in front of the first digit, counted in bits for powers of two, and this
  sum may leave the range of an int. The model wraps around as the build with `-fwrapv` does
  (`native/quickjs/Makefile:152`; the build in `native/CMakeLists.txt:41` does not ask for it, and the
  overflow is undefined there). For every string and radix the result is the nearest float exactly
  where `AtodMain.ExponentRoom` holds (`AtodMain.AtodExact`): the sum does not wrap, or the wrapped
  number lies beyond the same end of the float range, from 2^1024 - 2^970 on or up to 2^-1075
  (`FloatEnds.NearestEnds`); and an exponent too large for an int must really stand for a number beyond
  that end.
  - In radix 10 that means: the sum fits in an int, or the written exponent does not
    (`AtodMain.RoomIs`, `AtodLimits.FormExact`). `123456789e+2147483639` is read as 0
    (`AtodLimits.NineDigitsWrong`).
  - For powers of two the wrapped sum decides (`AtodMain.RoomByTop`). Integers, which is all that the
    engine reads in these radixes (`native/quickjs/quickjs.c:12904`), are wrong from 2^31 to 2^32 + 1023
    bits and right below and above (`AtodLimits.IntegerExact`): a 1 with 429496729 zeros in radix 32 is
    read as 0 (`AtodLimits.ManyZerosWrong`), and so is `1@500000000`, while `1@1000000000` is right
    although its sum wraps (`AtodLimits.AtWrong`, `AtodLimits.AtRight`).
  - A result that should be a finite float other than zero is right whenever the written exponent fits
    in an int (`AtodMain.FiniteRight`), which is why `Dtoa.PrintParse` needs no condition.

## Model

| member | source | states |
|---|---|---|
| `RegexpPattern.ForwardBack` | native/quickjs/libregexp.c:2621-2653 | stepping forward lands on a code-point boundary and stepping back from there undoes it, lone surrogates included |
| `RegexpPattern.BackForward` | native/quickjs/libregexp.c:2654-2702 | stepping back lands on a boundary and stepping forward undoes it |
| `Utf16.ReadEncoded` | native/quickjs/libregexp.c:2621-2637 | the character read at a code point encoded by UTF16EncodeCodePoint (section 11.1.1 of ECMA-262) is that code point |
| `Utf16.ReadEncodedBack` | native/quickjs/libregexp.c:2654-2674 | the same for reading backwards |
| `Utf16.InputIs` | native/quickjs/libregexp.c:2621-2674 | the input of the matcher on encoded text consists of exactly the encoded code points |
| `EcmaCharacters.LineTerminators` | native/quickjs/libregexp.c:2985-3004 | the line terminators are those of section 12.3 of ECMA-262 |
| `EcmaCharacters.WordBytes` | native/quickjs/libregexp.c:3138-3171 | the word characters without u and i are the 63 basic ones |
| `EcmaCharacters.WordCharacters` | native/quickjs/libregexp.c:3138-3171 | with u and i they are those that are basic or fold to a basic one |
| `Bytecode.DecodeEnc` | native/quickjs/libregexp.c:616-672 | every instruction whose operands fit is read back from its bytes, wherever they stand |
| `Bytecode.EncAt` | native/quickjs/libregexp.c:616-672 | the bytes of an instruction sequence decode to exactly these instructions at their addresses |
| `Bytecode.SizeAtEnc` | native/quickjs/libregexp.c:2444-2505 | the code scanners find the size of every instruction, variable parts included |
| `Simulation.RangeTabCorrect` | native/quickjs/libregexp.c:1225-1259 | the operands written for a class (16-bit with 0xffff as infinity, or 32-bit) make the search accept exactly the characters of the set |
| `Simulation.SearchFinds` | native/quickjs/libregexp.c:3243-3266 | the binary search finds an entry if and only if there is one |
| `Simulation.TestCharCorrect` | native/quickjs/libregexp.c:2926-2944 | the instruction chosen for a character set accepts exactly its characters, the empty class included |
| `Simulation.Advances` | native/quickjs/libregexp.c:1554-1628 | whenever the analysis drops the advance check, every successful run of the atom moves the position |
| `LoopSimulation.RunStar` | native/quickjs/libregexp.c:2298-2312 | the code of a* and a*? yields the results of all numbers of iterations in the order of the matcher |
| `LoopSimulation.RunPlus` | native/quickjs/libregexp.c:2332-2335 | the same for a+ without advance check |
| `LoopSimulation.RunCount` | native/quickjs/libregexp.c:3077-3126 | the same for counted loops: the counter, its limit and the advance check reject empty iterations only after the minimum |
| `NodeSimulation.Sim` | native/quickjs/libregexp.c:1845-2440 | the code of every node, run from any state, yields the results of the slot matcher one after the other and then fails into the states below |
| `EcmaMatcher.MatchIsFirst` | native/quickjs/libregexp.c:2257-2365 | the matcher of the standard with any continuation returns the first of the listed outcomes that the continuation accepts |
| `EcmaMatcher.RepeatIsFirst` | native/quickjs/libregexp.c:2257-2365 | the same for RepeatMatcher, section 22.2.2.3.1 of ECMA-262 |
| `LinearAtoms.LinearReset` | native/quickjs/libregexp.c:2270-2295 | where the compiler leaves out resetting captures in each iteration, resetting them would make no difference |
| `NodeRefinement.Refine` | native/quickjs/libregexp.c:1845-2440 | slots and code-unit positions represent the captures and positions of the standard, outcome by outcome and in the same order, as long as the iteration counters suffice |
| `NodeRefinement.RepeatBounded` | native/quickjs/libregexp.c:2336-2360 | a 31-bit iteration bound of the minimum and all remaining characters is as good as none |
| `NodeRefinement.RepeatMoving` | native/quickjs/libregexp.c:2336-2360 | when the analysis shows that every iteration moves, the remaining characters alone are enough |
| `SlotRefinement.RefineBackRef` | native/quickjs/libregexp.c:3172-3227 | comparing captured units with the input is comparing characters, forwards and backwards |
| `RegexpProgram.RunAttempt` | native/quickjs/libregexp.c:2554-2576 | an attempt at one position ends in the first result or fails into the saved states |
| `RegexpProgram.AttemptIs` | native/quickjs/libregexp.c:2554-2576 | where the counters suffice, the attempt at a character succeeds exactly when the matcher of the standard does, with the same captures |
| `RegexpProgram.CodeExecIs` | native/quickjs/libregexp.c:2554-2576 | where the counters suffice, the search over all starts reports RegExpBuiltinExec, section 22.2.7.2 of ECMA-262 |
| `RegexpProgram.RunProgram` | native/quickjs/libregexp.c:2554-2576 | every run of the whole program terminates, for every pattern, with the first result of the first attempt that has one, sticky or searching |
| `CounterLimit.FirstEnd` | native/quickjs/libregexp.c:2336-2360 | how far the repeated atoms (?:x or nothing) and x get with a bound and without |
| `CounterLimit.StopsShort` | native/quickjs/libregexp.c:2336-2360 | whenever a counter does not suffice, there is an atom for which the standard takes the whole input and the code stops before its end |
| `CounterLimit.ThreeLetters` | native/quickjs/libregexp.c:2336-2360 | on aaa the pattern (?:nothing or a) repeated at least 2147483646 times matches aaa in the standard and a in the code |
| `CounterLimit.CounterExact` | native/quickjs/libregexp.c:2336-2360 | code and standard agree on every atom and every input of a length if and only if the counter suffices for it |
| `CodeScan.ScanComp` | native/quickjs/libregexp.c:1554-1628 | the analysis of emitted code is a function of the pattern alone |
| `CodeScan.NeedCheckAdvAndCaptureInit` | native/quickjs/libregexp.c:1557-1628 | the byte scan computes that analysis |
| `CodeScan.RegComp` | native/quickjs/libregexp.c:2444-2505 | register pushes and pops balance, and the linear scan numbers registers by nesting, so that live ones differ |
| `CodeScan.RegProgram` | native/quickjs/libregexp.c:2444-2505 | on a whole pattern it fails exactly when more registers are live than allowed and otherwise returns their number |
| `CodeScan.CompSizes` | native/quickjs/libregexp.c:2444-2505 | register numbers do not change the size of the code |
| `Compiler.ParseState.Insert` | native/quickjs/libregexp.c:122-130 | opens a gap and moves the rest up |
| `Compiler.ParseState.EmitCharSet` | native/quickjs/libregexp.c:1225-1275 | appends the instruction of a character set or fails on too many ranges |
| `Compiler.ParseState.EmitQuantifier` | native/quickjs/libregexp.c:2257-2360 | insertions and back patches around an emitted atom leave exactly the code of the quantifier |
| `Compiler.ParseState.ReverseTerm` | native/quickjs/libregexp.c:2389-2401 | the last term moves in front of the terms of its alternative |
| `Compiler.ParseState.Parse` | native/quickjs/libregexp.c:1845-2440 | appends the code of the node with registers still zero, or fails exactly beyond the limits |
| `Compiler.ParseState.ComputeRegisterCount` | native/quickjs/libregexp.c:2444-2505 | patches register numbers in place and returns their count, -1 when there are too many; its asserts never fire |
| `CompiledCode.FitsProgram` | native/quickjs/libregexp.c:2522-2610 | every operand of an accepted pattern survives its encoding |
| `CompiledCode.LreCompile` | native/quickjs/libregexp.c:2522-2610 | succeeds exactly on the patterns within its limits and returns header and code |
| `JumpTargets.ClosedComp` | native/quickjs/libregexp.c:1845-2440 | after all insertions, patches and reversals each jump of a node leads to an instruction boundary of its code or to its end |
| `JumpTargets.ClosedProgram` | native/quickjs/libregexp.c:2554-2576 | the same for whole patterns |
| `Registers.RegsComp` | native/quickjs/libregexp.c:2444-2505 | the code of a node uses only the registers of its own range; the atom of a loop only registers above those of the loop |
| `Registers.RegsProgram` | native/quickjs/libregexp.c:3366-3370 | every register of a compiled pattern is below the count in its header |
| `Positions.StepOk` | native/quickjs/libregexp.c:2836-3321 | one step of the machine keeps every reached, saved or captured position inside the input and on a boundary, whatever the code |
| `Positions.RunOk` | native/quickjs/libregexp.c:2836-3321 | the same for runs of any length |
| `UndoLog.UndoSave` | native/quickjs/libregexp.c:2803-2812 | a write that saved the old value is undone by replaying |
| `UndoLog.UndoKnown` | native/quickjs/libregexp.c:2814-2833 | a write to an index saved since the last state needs no second entry |
| `UndoLog.SnapMerge` | native/quickjs/libregexp.c:2874-2906 | undo entries taken over from discarded states restore the captures of the states below |
| `UndoLog.BackSteps` | native/quickjs/libregexp.c:2852-2873 | backtracking over lookahead states takes no more steps than the machine with copies |
| `ExecBacktrack.TestRange` | native/quickjs/libregexp.c:3229-3307 | the search loop computes the range test, and its unsigned indexes never wrap |
| `ExecBacktrack.GetChar` | native/quickjs/libregexp.c:2621-2637 | the next character and position |
| `ExecBacktrack.CompareForward` | native/quickjs/libregexp.c:3196-3209 | the position after matching a captured text, or failure |
| `ExecBacktrack.CompareBackward` | native/quickjs/libregexp.c:3210-3222 | the same backwards |
| `ExecBacktrack.TestAssertion` | native/quickjs/libregexp.c:2985-3004 | line assertions; word boundaries at lines 3138-3171 |
| `ExecBacktrack.REExecContext.SaveCapture` | native/quickjs/libregexp.c:2803-2812 | the saved states, seen with their own captures, do not change |
| `ExecBacktrack.REExecContext.SaveCaptureCheck` | native/quickjs/libregexp.c:2814-2833 | the same although repeated saves are skipped |
| `ExecBacktrack.REExecContext.NoMatch` | native/quickjs/libregexp.c:2852-2873 | resumes the latest state that is not a lookahead with the captures it was created with |
| `ExecBacktrack.REExecContext.LookaheadMatch` | native/quickjs/libregexp.c:2874-2906 | discards inner states, keeps the captures, and slides the undo entries down so that the states below still restore theirs |
| `ExecBacktrack.REExecContext.NegativeLookaheadMatch` | native/quickjs/libregexp.c:2907-2925 | unwinds to the state below the lookahead |
| `ExecBacktrack.REExecContext.FindBackRef` | native/quickjs/libregexp.c:3172-3227 | the first set capture decides |
| `ExecBacktrack.REExecContext.ExecLoopSplit` | native/quickjs/libregexp.c:3077-3126 | the step of the machine with copies |
| `ExecBacktrack.REExecContext.Execute` | native/quickjs/libregexp.c:2836-3321 | each instruction does the step of the machine with copies |
| `ExecBacktrack.REExecContext.Backtrack` | native/quickjs/libregexp.c:2774-3321 | ends with the result and the captures of the machine with copies |
| `RegexpExec.StartPosition` | native/quickjs/libregexp.c:3351-3357 | a start inside a surrogate pair is moved before it |
| `RegexpExec.CharIndexAt` | native/quickjs/libregexp.c:3351-3357 | every boundary is the start of a character or the end |
| `RegexpExec.CompEnv` | native/quickjs/libregexp.c:1268-1275 | the code depends on the case folding only, not on the input |
| `RegexpExec.FlagsAre` | native/quickjs/libregexp.h:30-38 | of the flags word only the bits of u, y and v are read, at their places |
| `RegexpExec.MachineEnds` | native/quickjs/libregexp.c:2774-3321 | every run on compiled code terminates with the first result of the slot matcher, whatever the counters |
| `RegexpExec.ActualIsExpected` | native/quickjs/libregexp.c:3326-3364 | from any start position that result is the one of the standard where the counters suffice |
| `RegexpExec.LreExec` | native/quickjs/libregexp.c:3326-3364 | 1 with the slots of the first result in capture[], or 0, for every pattern; where the counters suffice the captures of RegExpBuiltinExec; all indexes stay below lre_get_alloc_count |
| `Limbs.MpAddUi` | native/quickjs/dtoa.c:75-89 | value plus b, with the carry |
| `Limbs.MpMul1` | native/quickjs/dtoa.c:91-104 | value times b plus l, with the high limb |
| `Limbs.MpDiv1` | native/quickjs/dtoa.c:137-148 | quotient in place and remainder |
| `Limbs.MpShl` | native/quickjs/dtoa.c:168-184 | value times 2^shift, with the bits shifted out |
| `Limbs.MpShr` | native/quickjs/dtoa.c:150-166 | value divided by 2^shift, with the remainder |
| `Limbs.Udiv1normInit` | native/quickjs/dtoa.c:106-113 | the reciprocal of a normalised divisor, enclosed by its defining inequality |
| `Limbs.Estimate` | native/quickjs/dtoa.c:117-127 | the estimated quotient is the quotient or one less |
| `Limbs.Udiv1norm` | native/quickjs/dtoa.c:115-135 | exact quotient and remainder through wrapping 32- and 64-bit operations |
| `Limbs.MpDiv1norm` | native/quickjs/dtoa.c:186-199 | on the shifted divisor, the quotient and remainder of the unshifted one |
| `Limbs.DivisionUnique` | native/quickjs/dtoa.c:186-199 | hence the same limbs and remainder as mp_div1, for any limb count |
| `Bignum.Mpb.Renorm` | native/quickjs/dtoa.c:214-218 | same value, top limb not zero |
| `Bignum.Mpb.GetBit` | native/quickjs/dtoa.c:300-310 | the bit of the value, 0 beyond its limbs |
| `Bignum.Mpb.ShrRound` | native/quickjs/dtoa.c:312-398 | value / 2^shift rounded to nearest even, to nearest away or down; exact product for negative shifts |
| `Bignum.RoundByBits` | native/quickjs/dtoa.c:336-376 | round bit, sticky bits and lowest kept bit decide the rounding |
| `Bignum.Mpb.FloorLog2` | native/quickjs/dtoa.c:447-456 | the position of the top bit |
| `Bignum.Mpb.SetU64` | native/quickjs/dtoa.c:419-432 | the value m |
| `Bignum.Mpb.GetU64` | native/quickjs/dtoa.c:434-445 | the value modulo 2^64 |
| `Pow5Tables.Pow5Correct` | native/quickjs/dtoa.c:220-231 | pow5_table with its high parts holds the powers of five |
| `Pow5Tables.Pow5InverseCorrect` | native/quickjs/dtoa.c:233-238 | pow5_inv_table holds the reciprocals that udiv1norm_init computes |
| `MulPow.PowUi` | native/quickjs/dtoa.c:241-269 | a^b, by table or repeated squaring |
| `MulPow.PowUiInv` | native/quickjs/dtoa.c:271-292 | the normalised power, its shift and its reciprocal |
| `MulPow.DivDown` | native/quickjs/dtoa.c:935-950 | chained divisions give the floor of the whole quotient and know whether anything was cut off |
| `MulPow.StickyRound` | native/quickjs/dtoa.c:951-952 | with two more bits to cut off, the sticky bit replaces the lost remainder in every rounding mode |
| `MulPow.ScaleByPow` | native/quickjs/dtoa.c:891-956 | exact product, or sticky quotient with enough bits for rounding, within the limbs stated |
| `MulPow.MulPowRound` | native/quickjs/dtoa.c:958-967 | exactly round(m * 2^e * radix^f), for f of either sign and every rounding mode |
| `RealPow.FractionReal` | native/quickjs/dtoa.c:958-967 | the fraction of integers is m * 2^e * radix1^f over the reals |
| `RealPow.RoundFraction` | native/quickjs/dtoa.c:312-398 | integer rounding is rounding of the real quotient |
| `RealPow.RoundMeans` | native/quickjs/dtoa.c:312-398 | no other integer is closer to the rounded number in the two nearest modes; ties go to the even and to the larger one, and the third mode rounds down |
| `DoubleRounding.RoundToD` | native/quickjs/dtoa.c:969-1001 | rounds to the 53-bit or subnormal grid, carry included, with a normalised result; from 2^-1085 on, which every caller guarantees, the 64-bit shift has a count below 64 and loses nothing |
| `DoubleRounding.MulPowRoundToD` | native/quickjs/dtoa.c:1003-1013 | a * radix^f rounded as a float |
| `FloatSpacing.RoundedClosest` | native/quickjs/dtoa.c:969-1001 | no float is closer than the rounded one, and ties go to an even mantissa |
| `FloatSpacing.FloatGap` | native/quickjs/dtoa.c:1003-1013 | different floats are apart by the spacing, halved below a power of two |
| `FloatSpacing.NearConverts` | native/quickjs/dtoa.c:1187-1222 | a number within half the spacing of a float rounds to it |
| `FloatSpacing.RoundsToUnique` | native/quickjs/dtoa.c:1003-1013 | the rounded float and its representation are unique |
| `RadixTables.Log10Ok` | native/quickjs/dtoa.c:473-487 | mul_log2_radix(a, 10) is the exact floor for all exponents of floats |
| `RadixTables.BinaryLogOk` | native/quickjs/dtoa.c:473-487 | the same for powers of two |
| `RadixTables.TenOk` | native/quickjs/dtoa.c:702-725 | the tables for radix 10 and the size of the buffer are right |
| `RadixTables.BinaryOk` | native/quickjs/dtoa.c:702-725 | the same for radix 2, 4, 8, 16 and 32 |
| `FreeFormat.SecondTry` | native/quickjs/dtoa.c:1198-1207 | the exponent is increased at most once |
| `FreeFormat.MaxDigitsConvert` | native/quickjs/dtoa.c:1187-1215 | P_max digits convert back for every finite non-zero float: the candidate accepted without a test is right |
| `FreeFormat.RoundDigits` | native/quickjs/dtoa.c:1196-1207 | P digits of the float, correctly rounded |
| `FreeFormat.DropZeros` | native/quickjs/dtoa.c:1208-1212 | same number, no trailing zero |
| `FreeFormat.ConvertsBack` | native/quickjs/dtoa.c:1216-1222 | decides whether the digits round to the float |
| `FreeFormat.FreeDigits` | native/quickjs/dtoa.c:1184-1236 | the digits convert back to exactly the same float, and one digit less, rounded to nearest, does not |
| `FixedFormat.MpbCmp` | native/quickjs/dtoa.c:400-416 | the sign of the difference of the values |
| `FixedFormat.FixedDigits` | native/quickjs/dtoa.c:1260-1277 | exactly P digits of the float, rounded to nearest with ties away from zero; the exponent is increased at most once |
| `FixedFormat.FixedText` | native/quickjs/dtoa.c:1260-1313 | the text with P significant digits in the layout of Number.prototype.toPrecision |
| `FixedFormat.PointDigits` | native/quickjs/dtoa.c:1250-1258 | the extra digit on the left is removed exactly when it is a superfluous zero |
| `FixedFormat.PointFormat` | native/quickjs/dtoa.c:1242-1259 | the float rounded to n digits after the point, ties away from zero, in positional notation |
| `AtodRounding.OverflowRounds` | native/quickjs/dtoa.c:1575-1597 | anything from 2^1024 on rounds to infinity |
| `AtodRounding.UnderflowRounds` | native/quickjs/dtoa.c:1579-1593 | anything below 2^-1075 rounds to zero |
| `FloatEnds.NearestEnds` | native/quickjs/dtoa.c:1587-1597 | a number rounds to infinity if and only if it is at least 2^1024 - 2^970, and to zero if and only if it is at most 2^-1075 |
| `AtodRounding.RoundRadix` | native/quickjs/dtoa.c:1582-1606 | the nearest float for the kept digits with the exponent that the ints hold, early exits included |
| `AtodRounding.RoundBinary` | native/quickjs/dtoa.c:1572-1581 | the same for powers of two and all digits |
| `AtodRounding.Encode` | native/quickjs/dtoa.c:1591-1606 | the bits of zero, subnormal, normal and infinite results |
| `Ieee754.FloatValue` | native/quickjs/dtoa.c:1122-1166 | the bits of a float, taken as sign, exponent and fraction of section 3.4 of IEEE 754, stand for its value |
| `Ieee754.SignValue` | native/quickjs/dtoa.c:1606-1607 | the sign bit negates the value |
| `Ieee754.BitsOrder` | native/quickjs/dtoa.c:1591-1606 | bits order floats as their values do |
| `Ieee754.NearestClosest` | native/quickjs/dtoa.c:1587-1606 | no other pattern stands for a number closer than that of the nearest bits |
| `Ieee754.NearestMono` | native/quickjs/dtoa.c:1587-1606 | the nearest bits grow with the number |
| `Atod.MulBase` | native/quickjs/dtoa.c:1332-1351 | value times base plus a, base 0 standing for 2^32 |
| `Atod.SkipZeros` | native/quickjs/dtoa.c:1442-1459 | leading zeros and point |
| `Atod.ScanDigits` | native/quickjs/dtoa.c:1424-1505 | the digits of the string, the number of the kept ones, and whether more than zeros follow |
| `AtodMain.ReadExponent` | native/quickjs/dtoa.c:1532-1552 | the exponent, or that it is at least 2147483640 |
| `AtodMain.HugeExponent` | native/quickjs/dtoa.c:1555-1562 | an exponent beyond an int decides the result for digits up to LengthLimit, more than any string of the engine holds unless the exponent is binary |
| `AtodMain.BinaryFar` | native/quickjs/dtoa.c:1555-1562 | radix 16 with 0x20000000 digits after the point and a binary exponent of 2147483640: the number is 2^-8 and the early exit gives infinity |
| `AtodMain.RoundNumeral` | native/quickjs/dtoa.c:1497-1606 | from kept digits, point and exponent to the nearest float, with the exponent modulo 2^32 |
| `AtodMain.JsAtod` | native/quickjs/dtoa.c:1354-1620 | for every string the result of the int arithmetic: nearest float of the digits kept with the exponent modulo 2^32, or infinity, or NaN, and where the number ends |
| `AtodMain.ComputedExact` | native/quickjs/dtoa.c:1532-1606 | for all digits, exponents and radixes the computed bits are the nearest float if and only if the exponent has room |
| `AtodMain.RoomByTop` | native/quickjs/dtoa.c:1572-1585 | when the sum wraps, its new value from 1029 on or down to -1075 lands at an end of the float range, and nearer to zero it does not: there is room in the one case and none in the other |
| `AtodMain.RoomIs` | native/quickjs/dtoa.c:1582-1585 | in radixes that are not powers of two there is room if and only if the exponent in front of the first digit fits in an int or the written one does not |
| `AtodMain.WrapsAcross` | native/quickjs/dtoa.c:1582-1593 | without room the result in these radixes is zero instead of infinity, or infinity instead of zero |
| `AtodMain.FiniteRight` | native/quickjs/dtoa.c:1532-1606 | when the nearest float is finite and not zero and the exponent fits in an int, it is the result, for any number of digits |
| `AtodMain.AtodExact` | native/quickjs/dtoa.c:1354-1620 | for every string and radix js_atod gives the nearest float if and only if its ints have room for the exponent |
| `AtodMain.AtodClosest` | native/quickjs/dtoa.c:1354-1620 | a right result is the pattern of the number closest to the kept digits, with the sign of the text, or infinity from 2^1024 - 2^970 on |
| `AtodMain.TwentyDigits` | native/quickjs/dtoa.c:1424-1505 | in radix 10 the first twenty significant digits are always kept, as RoundMVResult of ECMA-262 demands |
| `RadixText.LetterValue` | native/quickjs/dtoa.c:1320-1330 | a digit's value is its place in the alphabet of 0 to 9 and the letters, in either case |
| `RadixText.OnlyLetters` | native/quickjs/dtoa.c:1320-1330 | no other character is a digit |
| `RadixText.ParseRadixForm` | native/quickjs/dtoa.c:1424-1566 | in every radix a text with sign, point and exponent mark is read as exactly its parts, to the end |
| `RadixText.ReadDigits` | native/quickjs/dtoa.c:1354-1620 | digits alone, in every radix, are read as the float nearest to their number exactly where the exponent has room |
| `AtodLimits.FormExact` | native/quickjs/dtoa.c:1582-1585 | the same in terms of the digits, point and exponent of a decimal text |
| `AtodLimits.NineDigitsWrong` | native/quickjs/dtoa.c:1582-1585 | 123456789e+2147483639 is read as 0 although the nearest result is infinity |
| `AtodLimits.IntegerExact` | native/quickjs/dtoa.c:1572-1581 | integers without exponent in a radix that is a power of two are right below 2^31 bits, wrong up to 2^32 + 1023 bits and right from 2^32 + 1029 on |
| `AtodLimits.ManyZerosWrong` | native/quickjs/dtoa.c:1572-1581 | a 1 with 429496729 zeros in radix 32 is read as 0 although the nearest result is infinity |
| `AtodLimits.AtWrong` | native/quickjs/dtoa.c:1572-1581 | 1@500000000 in radix 32 is read as 0 although the nearest result is infinity |
| `AtodLimits.AtRight` | native/quickjs/dtoa.c:1572-1581 | 1@1000000000 wraps around and is read as infinity, which is right |
| `AtodMain.TenReady` | native/quickjs/dtoa.c:702-751 | the tables for radix 10 satisfy what js_atod needs |
| `AtodMain.BinaryReady` | native/quickjs/dtoa.c:702-751 | the same for powers of two |
| `DecimalText.U32toa` | native/quickjs/dtoa.c:590-603 | the decimal digits of n |
| `DecimalText.U64toa` | native/quickjs/dtoa.c:616-645 | the same for 64 bits, in groups of nine |
| `NumberForm.ParseForm` | native/quickjs/dtoa.c:1424-1566 | a text with sign, point and exponent is read as exactly its parts, to the end |
| `Dtoa.Unpack` | native/quickjs/dtoa.c:1122-1166 | mantissa and exponent of the number that the bits stand for, subnormal ones normalised |
| `Dtoa.OutputDigits` | native/quickjs/dtoa.c:845-889 | the digits of the value with the point in place |
| `Dtoa.Layout` | native/quickjs/dtoa.c:1278-1313 | the digits in exponential, leading-zero or trailing-zero layout |
| `Dtoa.LayoutIs` | native/quickjs/dtoa.c:1278-1313 | with the limit of free format this is Number::toString, section 6.1.6.1.20 of ECMA-262 |
| `Dtoa.LayoutForm` | native/quickjs/dtoa.c:1278-1313 | each layout denotes the digits scaled by their exponent |
| `Dtoa.JsDtoa` | native/quickjs/dtoa.c:1108-1318 | for every float the text: NaN, infinities, signed zeros, integers, and digits that convert back to the number that the bits stand for |
| `Dtoa.PrintParse` | native/quickjs/dtoa.c:1108-1620 | parsing the printed text gives back the same bits and consumes all of it |
| `CharRanges.OddIsIn` | native/quickjs/libunicode.c:432-458 | counting points decides membership in an ascending list |
| `CharRanges.CharRange.Compress` | native/quickjs/libunicode.c:432-458 | strictly increasing points for the same set, in place |
| `CharRanges.CharRange.Op` | native/quickjs/libunicode.c:461-515 | exactly the pointwise union, intersection, symmetric difference or difference, equal neighbours in the inputs allowed |
| `CharRanges.CharRange.Op1` | native/quickjs/libunicode.c:517-527 | the same in place |
| `CharRanges.CharRange.UnionInterval` | native/quickjs/libunicode.h:86-92 | adds the characters of an interval that ends below UINT32_MAX |
| `CharRanges.CharRange.Invert` | native/quickjs/libunicode.c:529-541 | the complement below UINT32_MAX |
| `CharRanges.CanonicalUnique` | native/quickjs/libunicode.c:432-458 | canonical lists with the same set are equal |
| `CharRanges.InvertTwice` | native/quickjs/libunicode.c:529-541 | inverting a canonical list twice gives it back, point by point |
| `CharRanges.InvertBack` | native/quickjs/libunicode.c:529-541 | calling cr_invert twice restores the points |
| `OverlapRemoval.SortAndRemoveOverlap` | native/quickjs/libunicode.c:615-656 | intervals in any order become sorted and separate, with the same characters |
| `CaseFolding.Unselected` | native/quickjs/libunicode.c:552-613 | characters that unicode_case1 does not select are not changed by folding |
| `CaseFolding.UnicodeCase1` | native/quickjs/libunicode.c:552-613 | exactly the selected characters, in ascending points |
| `CaseFolding.LreCanonicalize` | native/quickjs/libunicode.c:227-261 | the search finds the run of a character, and the ASCII short cut agrees with it |
| `CaseData.ConvertIs` | native/quickjs/libunicode.c:53-147 | on a run built from the case data of its characters, each conversion to a single character gives that character |
| `CaseData.LegacyCanon` | native/quickjs/libunicode.c:215-223 | without u and v the result is Canonicalize of section 22.2.2.7.3 of ECMA-262: the single upper-case character unless it leads into ASCII |
| `CaseData.LegacyAscii` | native/quickjs/libunicode.c:215-223 | without u and v exactly the ASCII characters fold to ASCII characters |
| `CaseData.UnicodeCanon` | native/quickjs/libunicode.c:198-214 | with u or v the result is the simple or common folding, but for the two ligatures of s and t, which fold to U+FB05 |
| `CaseData.SameClasses` | native/quickjs/libunicode.c:198-214 | and the same characters are equal up to case as in the standard |
| `CaseData.MaskIs` | native/quickjs/libunicode.c:552-613 | the selected characters are those with a folding, or without u and v those with an upper case |
| `CaseData.AsciiClass` | native/quickjs/libregexp.c:3229-3307 | without u and v a class of ASCII characters accepts no other character, whatever the case |
| `CaseFolding.Advance` | native/quickjs/libunicode.c:694-704 | the cursor reaches the run of the character and never passes the last entry |
| `CaseFolding.RegexpCanonicalize` | native/quickjs/libunicode.c:658-742 | exactly the folded forms of the characters of the set, as a canonical list within 32 bits |
| `CaseFolding.FoldingEnvOk` | native/quickjs/libunicode.c:227-261 | folding keeps code points code points, as the machine demands of its environment |
| `CharacterClass.AddItem` | native/quickjs/libregexp.c:1458-1477 | adds a character, a range or a set to a class, folded when case is ignored |
| `CharacterClass.NestedClass` | native/quickjs/libregexp.c:1382-1532 | the points of the class are the characters that its operands add, or all others when inverted |
| `CharacterClass.FoldClosedIs` | native/quickjs/libregexp.c:1460-1468 | a set may be added without folding if and only if folding does not lead out of it |
| `CharacterClass.ClassAccepts` | native/quickjs/libregexp.c:1382-1532 | the test of the folded character against the class decides as CharacterSetMatcher does for the sets that the operands stand for, section 22.2.2.7.1 of ECMA-262, inverted or not |
| `CharacterClass.NotWordStands` | native/quickjs/libregexp.c:438-462 | with the u and i flags the points added for the class of non-word characters contain two characters that fold into word characters, and still decide as the set of the standard |
| `CharacterClass.ImageAccepts` | native/quickjs/libregexp.c:3268-3307 | the folded image of a set accepts c exactly when some character of the set folds to the same as c; the inverted image accepts the others |
| `UnicodeTables.GetIndexPos` | native/quickjs/libunicode.c:270-302 | the last index entry not above c, or outside |
| `UnicodeTables.LreIsInTable` | native/quickjs/libunicode.c:304-345 | true exactly for the characters of the set that the table encodes, without reading past it |
| `UnicodeTables.UnicodeProp1` | native/quickjs/libunicode.c:1459-1504 | the intervals of exactly the same set |
| `PropertyTables.RunLengths` | native/quickjs/unicode_gen.c:1858-1870 | the run lengths alternate outside and inside the property from the first character on |
| `PropertyTables.DecodeEncoded` | native/quickjs/unicode_gen.c:1911-1935 | decoding the codes of run lengths gives back these lengths |
| `PropertyTables.BuildPropTable` | native/quickjs/unicode_gen.c:1880-1946 | table and index of the run lengths, which the lookup may use; it fails only where an offset needs more than three bits |
| `PropertyTables.LookUp` | native/quickjs/libunicode.c:304-345 | the lookup in generated tables decides the property for every character |
| `PropertyTables.ListAll` | native/quickjs/libunicode.c:1459-1504 | the linear decoder of a generated table lists exactly the characters with the property |
| `CanonicalOrdering.SortCc` | native/quickjs/libunicode.c:1091-1125 | the buffer becomes the canonical ordering of its characters |
| `CanonicalOrdering.ReorderPermutes` | native/quickjs/libunicode.c:1091-1125 | which is a permutation |
| `CanonicalOrdering.ReorderStarters` | native/quickjs/libunicode.c:1091-1125 | starters stay in place |
| `CanonicalOrdering.ReorderOrdered` | native/quickjs/libunicode.c:1091-1125 | no character stands before a non-starter of smaller class |
| `CanonicalOrdering.ReorderStable` | native/quickjs/libunicode.c:1091-1125 | characters of the same class keep their order |
| `CanonicalOrdering.ReorderParts` | native/quickjs/libunicode.c:1091-1125 | what lies between starters is reordered on its own |
| `CanonicalOrdering.ReorderIdempotent` | native/quickjs/libunicode.c:1091-1125 | a second pass changes nothing |
| `Sorting.HeapSort` | native/quickjs/cutils.c:480-512 | a sorted permutation of the part |
| `Sorting.InsertionSort` | native/quickjs/cutils.c:633-637 | a sorted permutation of the part |
| `Sorting.Partition` | native/quickjs/cutils.c:556-583 | equal, smaller, greater, equal elements around the pivot |
| `Sorting.GatherEqual` | native/quickjs/cutils.c:584-615 | the block swaps leave smaller, equal and greater elements |
| `Rqsort.Med3` | native/quickjs/cutils.c:514-519 | an element between the two others |
| `Rqsort.SortSeg` | native/quickjs/cutils.c:540-638 | one part is sorted or split, and the stack never exceeds 50 entries |
| `Rqsort.Sort` | native/quickjs/cutils.c:522-639 | a sorted permutation for every array and every total preorder |

## Left out

- Pattern text: escapes, group names, Annex B fallbacks, modifiers and error messages; the model starts from a syntax tree whose character tests carry their own case flag.
- String-set classes (`\q{}`, emoji sequences) and `REStringList`.
- CompiledCode.LreCompile: group names are not appended behind the code, and the limit on the size of the buffer is tested once at the end; a growing buffer may ask for up to half as much more and fail earlier.
- Compiler.ParseState.EmitQuantifier: the gap in front of an optional counted atom is opened by two insertions where the source opens it by one; the bytes are the same.
- CharacterClass.NestedClass: intersections and differences of the v flag are not operands, and strings are left out.
- Timeouts, allocation failure, growth of the stack buffer and the tagging of stack elements.
- Dtoa.JsDtoa: free format in radix 10; text for other radixes and the flags that force or forbid an exponent are not modelled, the digit search itself is modelled for every radix.
- Dtoa.OutputDigits: decimal output only; the bit groups of radixes that are powers of two are left out.
- Dtoa.Layout: radix 10 and the exponent chosen automatically.
- FixedFormat.FixedText: radix 10 and positive floats; sign, zero, NaN and infinity are the same as in free format.
- FixedFormat.PointFormat: the same restriction.
- AtodMain.JsAtod: no prefixes (0x, 0o, 0b, legacy octal), underscores or integer-only mode.
- AtodMain.HugeExponent: longer digits with a binary exponent are not decided by the exponent alone, as BinaryFar shows; ComputedExact covers them.
- AtodLimits.IntegerExact: from 2^32 + 1024 to 2^32 + 1028 bits the digits decide; AtodExact covers that.
- FixedFormat.FixedDigits: radix 10 only.
- CharRanges.CharRange.UnionInterval: c2 below UINT32_MAX, where c2 + 1 does not wrap; all callers pass code points.
- An explicit upper bound of 2147483647 in a quantifier: the parser makes no difference between it and no bound, and neither does `EcmaMatcher.Bound`, although the bound is finite in the standard. `CounterLimit` speaks of quantifiers without upper bound.
- mul_log2_radix, digits per limb and exponent tables for radixes other than 10 and the powers of two: they are premises (`RadixOk`, `RadixReady`).
- The Unicode data itself: tables are parameters restricted by `CaseFolding.TableOk` and `UnicodeTables.IndexOk`; for case data `CaseData.Represents` says what they stand for, for properties `PropertyTables` builds them. The generator of the case tables is not modelled.
- PropertyTables.BuildPropTable: where an index offset needs more than three bits the generator stops, as its assertion does.
- CaseFolding.UnicodeCase1: one case mask at a time; combined masks are not modelled.
- General category and script tables, normalisation beyond `sort_cc`.
- The byte-width variants of the exchange functions in `cutils.c`.
- `qjs.c`, `qjsc.c`, `quickjs-libc.c`, the JNI bindings and the npm package.
