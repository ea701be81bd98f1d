# Verified core of the vendored QuickJS libraries

A Dafny model of the hard parts of the C code under `native/`: the multi-precision
arithmetic behind BigInt (`libbf.c`), the regular expression compiler and its
backtracking machine (`libregexp.c`), the introsort (`cutils.c`), character sets
and canonical composition (`libunicode.c`), and the callback table that isolates
share (`quickjs_bridge.c`). `dafny verify dfyconfig.toml` checks everything.

The model keeps the form of the source: limb arrays are arrays updated in place on
overlapping windows, `bf_t` is a class whose fields the operations change, the byte
code buffer is inserted into and patched, the matcher runs on fixed arrays and a
state stack, sorting swaps in place. Every such method is proved against a
specification that does not mention how it works.

**Multi-precision kernels** (`Limb`, `MpBasic`, `MpDigit`, `MpDivide`, `Newton`,
`MpReciprocal`, `MpLarge`, `MpDivNorm`, `SqrtTable`, `MpSqrt`, `MpKaratsuba`).
Limbs have 32 or 64 bits; the base B stays symbolic and `Val` gives the number that
limbs stand for. Division is exact whichever of the three methods is chosen, the
reciprocal is within two units, the square root is the integer square root.

**Floating point layer** (`BfBits`, `Rounding`, `Dyadic`, `BfRound`, `BfFloat`,
`BfNormalize`, `BfSticky`, `BfAlign`, `BfCancel`, `BfCarry`, `BfAdd`, `BfMul`,
`BfFaithful`, `BfDivide`, `BfSqrt`, `BfDetermined`, `BfFormat`). A real number
enters only through the way it compares with half-integers (`Cut`), which is enough
to say what it rounds to in every mode. Sum, quotient and root are the exact result
rounded once, and so is the product except when faithful rounding is asked for,
where only the high limbs are multiplied. `Outcome` says what rounding leaves, with
overflow, underflow and the status flags, and it leaves nothing open: the result is
determined bit for bit. `BfFormat` says what that is for, in the terms of IEEE 754:
of all numbers of the precision in the exponent range the result is the best for
the exact value.

**Integers on top of it** (`BfExact`, `BfLogic`, `Radix`, `RealValue`, `FromRadix`,
`RadixQuotient`, `ToRadix`). At unlimited precision nothing is lost; bitwise
operations agree with infinite two's complement; conversion to and from any radix
are inverse to each other. The quotient that `bf_integer_to_radix_rec` estimates
from a rounded reciprocal is off by at most two, so its two correction loops take
at most two turns each, and the cache with `ceil_log2(n) + 2` entries (marked
"check" in the source) is large enough.

**Regular expressions** (`CharSet`, `RegexText`, `RegexSyntax`, `RegexSemantics`,
`RegexMachine`, `RegexRange`, `RegexAtoms`, `RegexSimple`, `RegexCorrect`,
`RegexOrder`, `RegexPositions`, `RegexMatch`, `RegexPlain`, `RegexUtf16`,
`RegexSafety`, `RegexCompiler`, `RegexBytes`, `RegexEngine`, `RegexBoundary`,
`RegexLazy`, `RegexLazyExample`). The reference, `EndPositions`, is the ordered
list of end positions of section 22.2.2 of ECMA-262. Code is a sequence of byte
cells, an opcode followed by its operand bytes, so that offsets and sizes are those
of the source; `RegexBytes` has the bytes themselves. The machine delivers the ends
that the code of a pattern tries, `Ends`, one after the other as failures drive it
back; these come to the reference positions in the same order, up to positions that
have been tried before; so compiled programs find the first of them. Assertions and
the dot are reduced to classes and look-arounds, and the characters of a text to
the definition of UTF-16. Every run, halting or not, stays on instruction starts
and within the stack.

**Sorting** (`SortBase`, `InsertionSort`, `HeapSort`, `Partition`, `Rqsort`),
**character sets** (`CharRanges`), **normalisation** (`Normalize`) and the
**callback table** (`Bridge`, atomic steps of any number of isolates in any
interleaving) are each one component.

Some properties hold only under a condition, and the model has the exact one.

- Stepping back undoes stepping forward exactly on character boundaries, so
  matching is right for every pattern if and only if it starts on one
  (`RegexBoundary.RightExactlyAtBoundaries`).
- The iterations of lazy quantifiers are not tested for being empty. A lazy
  quantifier is run rightly whatever follows it if and only if its iterations are
  `InOrder`: without a maximum, if no iteration is empty (otherwise the machine may
  run forever); with one, if the test would not change the order in which new
  positions come (otherwise it may report another match)
  (`RegexLazy.RightExactlyInOrder`). At most one optional iteration is always in
  order, and so is any number over an atom that is empty only as a last resort
  (`RegexPositions.EmptyLastFits`). `RegexPositions.LazyFits` asks this of every
  lazy quantifier in a pattern.
- A product rounded faithfully is a neighbour of the exact one for all operands if
  and only if prec + 2 is not a multiple of the limb size, or the result is
  subnormal and has fewer than prec places (`BfFaithful.FaithfulExactly`).
- The table has room for 65536 host callbacks, but the function object of a
  registration keeps its index in an `int16_t`. A dispatch calls the registered
  callback if and only if the index is below 32768; from there on every dispatch is
  refused, though its registration succeeded, and never does one reach another
  callback (`Bridge.DispatchExactly`, `Bridge.UpperHalfRefused`). The table of
  bytes callbacks is bounded in the same way.

Where comments and code disagree the model follows the code. The comment on
`mp_recip` promises B^(2n) < a*r + 2, while the algorithm it cites, and the theorem
here, give B^(2n) < a*(r + 2); `MpReciprocal.ProductFallsShort` has a number for
which no reciprocal keeps the comment. libbf.h describes BF_RNDF as either
neighbour at will; the code rounds to nearest. The comment in `qjs_dispatch`
expects `magic` to be the registered index, which is so only below 32768.

## Model

| member | source | states |
|---|---|---|
| `RegexText.PrevUndoesNext` | native/quickjs/libregexp.c:1845-1933 | PREV_CHAR undoes GET_CHAR at i if and only if i is not inside a surrogate pair, and then reads the same character back and lands on a boundary |
| `RegexText.NextUndoesPrev` | native/quickjs/libregexp.c:1845-1933 | GET_CHAR undoes PREV_CHAR if and only if the position is a character boundary; PREV_CHAR always lands on one |
| `RegexText.BoundaryKept` | native/quickjs/libregexp.c:1845-1933 | reading forward from a boundary, or backward from anywhere, ends on a boundary |
| `RegexUtf16.PairExact` | native/quickjs/libregexp.c:1845-1860 | a pair of surrogates is read as the code point between 0x10000 and 0x10ffff whose UTF-16 form (section 3.9 of the Unicode Standard) it is |
| `RegexUtf16.DecodeEncode` | native/quickjs/libregexp.c:1845-1867 | GET_CHAR, repeated from the start of the UTF-16 form of any code points, reads just these |
| `RegexUtf16.EncodeDecode` | native/quickjs/libregexp.c:1845-1867 | whatever the units, well-formed or not, encoding what GET_CHAR reads gives them back |
| `RegexUtf16.UnitsAreChars` | native/quickjs/libregexp.c:1845-1867 | without the Unicode flag every unit is read as a character |
| `RegexUtf16.BothWays` | native/quickjs/libregexp.c:1845-1933 | PEEK_PREV_CHAR and PREV_CHAR read backward what GET_CHAR reads forward |
| `RegexPlain.AssertionIsLook` | native/quickjs/libregexp.c:2148-2240 | the word boundary has the ends of the two alternatives `(?<=\w)(?!\w)` and `(?<!\w)(?=\w)`, and its opposite those of their negation; ^ and $ have those of a look-around for no character, and in multiline mode also of one for the four line terminators |
| `RegexPlain.DotIsClass` | native/quickjs/libregexp.c:2166-2172 | the dot has the ends of the class of all code points but the line terminators |
| `RegexPlain.PlainSame` | native/quickjs/libregexp.c:2010-2413 | every pattern, read forward or backward from anywhere, has the ends, in order, of its plain form without assertions and dots |
| `RegexPlain.PlainIsPlain` | native/quickjs/libregexp.c:2148-2240 | and the plain form has none |
| `RegexPlain.SpanSame` | native/quickjs/libregexp.c:2418-2454 | so a search finds what it finds for the plain form |
| `RegexRange.RangeInstrReads` | native/quickjs/libregexp.c:765-801 | the operands written for a canonical class, in the 16-bit form with 0xffff as infinity or in the 32-bit form, accept a code point exactly when it belongs to the class |
| `RegexRange.OperandsFit` | native/quickjs/libregexp.c:765-801 | every operand fits the two or four bytes it is written to and the intervals are ordered, so that the search may be run on them |
| `RegexRange.Search` | native/quickjs/libregexp.c:2286-2362 | the binary search of the VM on 32-bit unsigned indices answers membership in the intervals, without an index ever wrapping |
| `RegexAtoms.ClearedConsumes` | native/quickjs/libregexp.c:889-943 | code that re_need_check_advance clears comes only from patterns all of whose matches advance |
| `RegexAtoms.ConsumingEnds` | native/quickjs/libregexp.c:889-943 | a pattern that always consumes has only ends strictly ahead of the start |
| `RegexCompiler.NeedCheckAdvance` | native/quickjs/libregexp.c:889-943 | the scan over opcodes computes whether the code may leave the position unchanged |
| `RegexCompiler.SimpleLength` | native/quickjs/libregexp.c:945-984 | the scan returns the number of characters of an atom made of simple opcodes only, and -1 for any other |
| `RegexCompiler.CodeScannable` | native/quickjs/libregexp.c:889-984 | every emitted segment is read correctly by a scan that steps by instruction sizes |
| `RegexCompiler.StackSize` | native/quickjs/libregexp.c:1693-1736 | the result is the greatest depth of the linear scan, attained and never exceeded, or -1 exactly when some depth passes the limit |
| `RegexCompiler.MoveUp` | native/quickjs/libregexp.c:110-118 | the overlapping move of dbuf_insert, from the last byte down: what lies before the position stays and what lies behind it arrives whole, len bytes further up |
| `RegexCompiler.Generator.EmitAround` | native/quickjs/libregexp.c:1525-1567 | inserting in front of an emitted atom yields the code of the quantifier without mandatory iterations |
| `RegexCompiler.Generator.EmitTimes` | native/quickjs/libregexp.c:1573-1584 | the counted loop built around an emitted atom, or the atom itself for a count of one |
| `RegexCompiler.Generator.EmitBehind` | native/quickjs/libregexp.c:1585-1609 | the optional iterations behind the mandatory ones, with copies of the atom |
| `RegexCompiler.Generator.EmitQuantifier` | native/quickjs/libregexp.c:1477-1612 | from the emitted atom to the code of the whole quantifier, in the single-opcode form where the atom allows it |
| `RegexCompiler.Generator.EmitConcat` | native/quickjs/libregexp.c:1625-1657 | terms are appended in reading order; in a lookbehind each new term is rotated in front of the earlier ones |
| `RegexCompiler.Generator.EmitAlternative` | native/quickjs/libregexp.c:1659-1691 | a split is inserted in front of the first alternative and the jump behind it is patched to the end of the second |
| `RegexCompiler.Generator.EmitPattern` | native/quickjs/libregexp.c:1133-1691 | the single pass emits exactly the code of the pattern, and fails exactly when groups or class sizes exceed their limits |
| `RegexCompiler.Compile` | native/quickjs/libregexp.c:1742-1830 | a program is produced if and only if groups, class sizes and the nesting of counted loops stay within their limits; it is the code of the pattern between its prologue and accept, with the exact stack size; an error names a limit that is exceeded |
| `RegexBytes.BytesSize` | native/quickjs/libregexp-opcode.h:27-55 | the bytes of every instruction are as many as the opcode table says |
| `RegexBytes.DecodeBytes` | native/quickjs/libregexp.c:2010-2413 | what the interpreter reads at the bytes of an instruction, of any kind, is that instruction |
| `RegexBytes.ProgramEncodable` | native/quickjs/libregexp.c:1742-1830 | every operand of a compiled program of less than 2^31 bytes fits the one, two or four bytes it is written to |
| `RegexBytes.ProgramBytes` | native/quickjs/libregexp.c:1742-1830 | so from the bytes of a compiled program the interpreter reads just its instructions, each at its own position |
| `RegexSimple.SimpleRuns` | native/quickjs/libregexp.c:2369-2408 | a nested run over simple code has at most one end, the one of the reference semantics, pushes no state and leaves the captures alone |
| `RegexSimple.SimpleQuantDelivers` | native/quickjs/libregexp.c:2369-2408 | simple_greedy_quant, with one state that steps back a whole iteration at a time, tries the ends of the greedy repetition in order of preference |
| `RegexCorrect.SingleRefinesGeneral` | native/quickjs/libregexp.c:1481-1516 | the single opcode and the general split loop for the same atom and bounds try one and the same list of continuations |
| `RegexCorrect.StarDelivers` | native/quickjs/libregexp.c:1537-1550 | the loop of atom* with its zero-advance check delivers the ends of the unbounded repetition in order |
| `RegexCorrect.OptionalDelivers` | native/quickjs/libregexp.c:1535-1609 | the optional iterations of a quantifier, greedy or lazy, deliver in order the ends of the repetition that the emitted test allows |
| `RegexCorrect.TimesDelivers` | native/quickjs/libregexp.c:1573-1584 | the mandatory iterations, unrolled or counted, deliver every way to pass them, in order |
| `RegexCorrect.LookOutcome` | native/quickjs/libregexp.c:2081-2092 | an accept inside a look-around discards the states pushed since it began and decides it, positively or negatively |
| `RegexCorrect.CheckIsSufficient` | native/quickjs/libregexp.c:1481-1520 | greedy iterations that may be empty get the zero-advance check; bounded lazy ones are tried without it |
| `RegexCorrect.Correct` | native/quickjs/libregexp.c:2010-2413 | wherever it is placed, the code of a pattern delivers one after the other the ends that the emitted code tries, as failures drive the machine back; only unbounded lazy quantifiers over atoms that need not advance are excluded |
| `RegexPositions.Agrees` | native/quickjs/libregexp.c:2010-2413 | for every pattern whose lazy quantifiers fit, the states that the code tries come to the end positions of section 22.2.2 of ECMA-262 in the same order of first occurrence |
| `RegexOrder.AlikeOnward` | native/quickjs/libregexp.c:2010-2413 | lists of positions with the same first occurrences stay so when each position is replaced by where it leads: a position tried again adds nothing |
| `RegexPositions.OneOptionalFits` | native/quickjs/libregexp.c:1535-1550 | lazy quantifiers with at most one optional iteration fit over any atom |
| `RegexPositions.NeverEmptyFits` | native/quickjs/libregexp.c:1481-1520 | lazy quantifiers over atoms that are never empty fit with any bounds |
| `RegexPositions.EmptyLastFits` | native/quickjs/libregexp.c:1551-1609 | lazy quantifiers with any maximum fit over atoms that try nothing new once they have tried to be empty, like (?:a|) |
| `RegexPositions.ConsumingFits` | native/quickjs/libregexp.c:1481-1520 | the condition as it can be read off a pattern: at most one optional iteration, or an atom that always consumes |
| `RegexMatch.ProgramReaches` | native/quickjs/libregexp.c:1742-1830 | the whole program, with its search loop over start positions, computes the first match that its code tries |
| `RegexMatch.MatchCorrect` | native/quickjs/libregexp.c:2010-2413 | for every pattern whose lazy quantifiers fit and every text, the program halts, fails exactly when the pattern matches nowhere, and otherwise leaves in group 0 the first start and the most preferred end |
| `RegexSafety.Segment` | native/quickjs/libregexp.c:1481-1691 | every emitted segment has all its jumps landing on instruction starts inside it or at its end and restores the stack depth |
| `RegexSafety.ProgramSafe` | native/quickjs/libregexp.c:1742-1830 | hence the whole program is closed under its jumps, with the groups and depths that its instructions need |
| `RegexSafety.StepHealthy` | native/quickjs/libregexp.c:2010-2413 | one step of the VM keeps pc at an instruction start, the stack at the depth of the linear scan and every saved state likewise |
| `RegexSafety.AlwaysHealthy` | native/quickjs/libregexp.c:2010-2413 | so on every run of every compiled program, halting or not, the machine is never stuck and the stack is exactly as deep as compute_stack_size assumed |
| `RegexEngine.Matcher.Push` | native/quickjs/libregexp.c:1971-2007 | the two copying loops leave a saved state with the captures and exactly the counters in use, as values that later changes do not reach |
| `RegexEngine.Matcher.ResumeGreedy` | native/quickjs/libregexp.c:2058-2080 | resuming a simple quantifier steps back one iteration and drops the state when none is left |
| `RegexEngine.RunNested` | native/quickjs/libregexp.c:2369-2408 | the nested run decides like its functional description |
| `RegexEngine.Matcher.Step` | native/quickjs/libregexp.c:2010-2413 | one round of the interpreter loop, on arrays of fixed size, is one step of the abstract machine and stays within the arrays |
| `RegexEngine.Matcher.Loop` | native/quickjs/libregexp.c:2010-2413 | the loop ends and returns what the abstract machine halts with |
| `RegexEngine.Execute` | native/quickjs/libregexp.c:2418-2454 | an error if and only if the limits of the compiler are exceeded; otherwise compiling and running ends and finds exactly the span that the position semantics gives, for the pattern and for its plain form |
| `RegexLazy.RunsForever` | native/quickjs/libregexp.c:1521-1609 | an unbounded lazy quantifier over any atom that may be empty at the start, in front of a class that matches nothing: the machine never halts |
| `RegexLazy.OutOfOrderIsWrong` | native/quickjs/libregexp.c:1551-1609 | a bounded lazy quantifier whose new positions come in another order without the test: in front of a choice of two positions the machine ends in the wrong one |
| `RegexLazy.RightExactlyInOrder` | native/quickjs/libregexp.c:1481-1609 | over any text, a lazy quantifier with any bounds is run rightly from every boundary and whatever follows it if and only if its iterations are in order; without a maximum that means that no iteration is empty |
| `RegexLazy.EmptyLastIsRight` | native/quickjs/libregexp.c:1551-1609 | a bounded lazy quantifier over an atom that is empty only as a last resort is run rightly in front of anything that is in order |
| `RegexLazy.BoundedExactly` | native/quickjs/libregexp.c:1551-1609 | over all texts for atom{min,max}?: right for every text, start and continuation if and only if the iterations are in order over every text |
| `RegexLazy.UnboundedExactly` | native/quickjs/libregexp.c:1481-1609 | the same over all texts for atom*?: right for every text, start and continuation if and only if the atom is nowhere empty |
| `RegexLazyExample.TwiceEndsWrongly` | native/quickjs/libregexp.c:1551-1567 | (?:|aa|a){0,2}?(?=aaa$|$) on aaaa: the reference ends at 4, the machine reports an end at 1 |
| `RegexBoundary.TrapRunsWrong` | native/quickjs/libregexp.c:2058-2080 | for every text and every start inside a surrogate pair there is a pattern, .? and then the pair with all that follows it, that matches nowhere and is reported to match |
| `RegexBoundary.RightExactlyAtBoundaries` | native/quickjs/libregexp.c:2010-2454 | every supported pattern runs right from a start position, sticky or not, if and only if the position is not inside a surrogate pair |
| `MpBasic.Add` | native/quickjs/libbf.c:1041-1057 | sum of two n-limb numbers and a carry, exact with the carry out, for operands that overlap the result from above |
| `MpBasic.Sub` | native/quickjs/libbf.c:1075-1092 | difference of two n-limb numbers and a borrow, exact with the borrow out |
| `MpBasic.AddSmall` | native/quickjs/libbf.c:1059-1073 | adds one limb in place and stops as soon as there is no carry; exact with the carry out |
| `MpBasic.SubSmall` | native/quickjs/libbf.c:1111-1128 | subtracts one limb in place; exact with the borrow out |
| `MpBasic.Neg` | native/quickjs/libbf.c:1094-1109 | 0 - a - carry modulo B^n, exact with the borrow out |
| `MpBasic.Shr` | native/quickjs/libbf.c:1130-1145 | shifts right by less than a limb with bits coming in on top; exact with the bits shifted out |
| `MpBasic.Mul1` | native/quickjs/libbf.c:1147-1160 | a*b + l for one limb b, exact with the high limb returned |
| `MpBasic.AddMul1` | native/quickjs/libbf.c:1162-1176 | res + a*b for one limb b, exact |
| `MpBasic.SubMul1` | native/quickjs/libbf.c:1215-1229 | res - a*b for one limb b, exact with what remains to be subtracted |
| `MpBasic.Mul` | native/quickjs/libbf.c:1178-1190 | the product of an n-limb and an m-limb number |
| `MpBasic.Cmp` | native/quickjs/libbf.c:1431-1444 | compares the values of two n-limb numbers |
| `MpBasic.ScanNonZero` | native/quickjs/libbf.c:379-387 | whether the value is not zero |
| `MpDigit.Udiv1NormExact` | native/quickjs/libbf.c:1231-1259 | multiplication by the precomputed inverse, with its wrap-around and two corrections, is true division of two limbs by one normalised limb |
| `MpDigit.Div1Norm` | native/quickjs/libbf.c:1261-1282 | quotient and remainder of an n-limb number by one normalised limb |
| `MpDigit.EstimateClose` | native/quickjs/libbf.c:1328-1337 | the quotient digit estimated from the two top limbs is the true one or at most two more |
| `MpDivide.SubtractMultiple` | native/quickjs/libbf.c:1338-1343 | subtracts q times the divisor from the window and tells whether the result is negative |
| `MpDivide.Correct` | native/quickjs/libbf.c:1345-1357 | the add-back loop ends with the true digit and remainder |
| `MpDivide.DivStep` | native/quickjs/libbf.c:1327-1359 | one quotient digit is exact and is lowered at most twice |
| `MpDivide.FirstDigit` | native/quickjs/libbf.c:1313-1325 | the top digit is 0 or 1, found by comparison |
| `MpDivide.Schoolbook` | native/quickjs/libbf.c:1308-1360 | a = q*b + r with 0 <= r < b, one digit a turn from the top |
| `MpDivNorm.DivNorm` | native/quickjs/libbf.c:1288-1361 | for every normalised divisor: a = q*b + r with 0 <= r < b, whichever of the three methods is chosen |
| `MpDivNorm.DivNormLarge` | native/quickjs/libbf.c:1450-1539 | the quotient by a reciprocal is corrected to the exact quotient and remainder, the same as schoolbook division |
| `MpDivNorm.Recip` | native/quickjs/libbf.c:1363-1429 | a*r < B^(2n) < a*(r + 2) for every normalised n-limb a |
| `MpDivNorm.RecipBase` | native/quickjs/libbf.c:1373-1390 | the base of one or two limbs meets the same bounds by division |
| `MpReciprocal.LowerApproximation` | native/quickjs/libbf.c:1404-1410 | the first loop ends with an approximation whose product with a is below the power |
| `MpReciprocal.NewtonExtend` | native/quickjs/libbf.c:1391-1421 | one Newton step extends the reciprocal of the high half to that of the whole number |
| `MpReciprocal.ReciprocalRange` | native/quickjs/libbf.c:1363-1364 | the reciprocal of a normalised number has n + 1 limbs, the top one being 1 |
| `MpReciprocal.ProductFallsShort` | native/quickjs/libbf.c:1363-1364 | the bound in the comment, B^(2n) < a*r + 2, fails for a = B/2 + 1 with every reciprocal |
| `Newton.NewtonBelow` | native/quickjs/libbf.c:1411-1420 | the corrected approximation stays below the true reciprocal |
| `Newton.NewtonAbove` | native/quickjs/libbf.c:1411-1420 | and misses it by less than two units |
| `MpLarge.FirstQuotientClose` | native/quickjs/libbf.c:1470-1495 | the first quotient never exceeds the true one and falls short of it by less than six |
| `MpLarge.Residual` | native/quickjs/libbf.c:1504-1511 | nb + 1 limbs are enough for the remainder of the first quotient |
| `MpLarge.RaiseQuotient` | native/quickjs/libbf.c:1519-1527 | one turn of the correction loop keeps q*b + r and raises q by one |
| `SqrtTable.Seed` | native/quickjs/libbf.c:1900-1902 | every table entry starts the square root of all 16-bit numbers with its high byte |
| `MpSqrt.RootIsFloor` | native/quickjs/libbf.c:1904-1905 | s^2 + r = a with 0 <= r <= 2s says that s is the integer square root of a |
| `MpSqrt.StepRoot` | native/quickjs/libbf.c:1918-1928 | one step from the root of the high digits is right or one too high, and the sign of the remainder tells which |
| `MpSqrt.SqrtRem1` | native/quickjs/libbf.c:1904-1947 | root and remainder of one limb that is at least B/4 |
| `MpKaratsuba.SqrtRem2` | native/quickjs/libbf.c:1963-1989 | root and remainder of two limbs, the remainder with one bit more than a limb |
| `MpKaratsuba.DivideByRoot` | native/quickjs/libbf.c:2017-2039 | dividing by s1 and halving gives quotient and remainder by 2*s1 |
| `MpKaratsuba.SubtractSquare` | native/quickjs/libbf.c:2044-2053 | subtracts q^2 from the running remainder, with the borrow taken from above |
| `MpKaratsuba.FixRoot` | native/quickjs/libbf.c:2054-2058 | a negative remainder is corrected by lowering the root once |
| `MpKaratsuba.SqrtRec` | native/quickjs/libbf.c:1993-2061 | the recursion leaves root and remainder with 0 <= r <= 2s for every even split |
| `MpKaratsuba.SqrtRem` | native/quickjs/libbf.c:2063-2087 | for every n >= 1 and every 2n-limb a with top limb at least B/4: s^2 + r = a and 0 <= r <= 2s |
| `BfBits.GetBitExact` | native/quickjs/libbf.c:358-365 | get_bit reads the bit of the value, and 0 outside the limbs |
| `BfBits.ScanBits` | native/quickjs/libbf.c:389-408 | whether any bit up to a position is set |
| `BfAlign.GetBitsExact` | native/quickjs/libbf.c:326-356 | get_bits reads a limb of bits of the value at any offset, also across either end |
| `BfAlign.AlignedLimb` | native/quickjs/libbf.c:949-975 | at the offset of the exponent difference it reads a limb of the aligned operand |
| `Rounding.RoundUpExact` | native/quickjs/libbf.c:425-458 | the decision from the first dropped bit, the later ones and the last kept bit rounds as the mode asks (section 4.3 of IEEE 754-2008) |
| `Rounding.RoundedUnique` | native/quickjs/libbf.c:412-463 | every mode determines the rounded value |
| `Rounding.RoundedFaithful` | native/quickjs/libbf.c:449-458 | in every mode the rounded value is a neighbour of the exact one; asked to round faithfully the code rounds to nearest |
| `BfRound.GetRndAdd` | native/quickjs/libbf.c:410-463 | the bits of the mantissa lead to the correctly rounded number of units, and inexact is reported exactly when a set bit is dropped |
| `BfRound.AddUnit` | native/quickjs/libbf.c:545-556 | adds one unit of the last place and tells whether the top limb overflowed |
| `BfRound.ShiftCarry` | native/quickjs/libbf.c:557-566 | after an overflow the limbs are shifted right by one with the carry on top |
| `BfRound.KeepBits` | native/quickjs/libbf.c:587-604 | clears the bits below the last place and removes the zero limbs |
| `BfRound.RoundMantissa` | native/quickjs/libbf.c:542-604 | leaves a normalised mantissa of exactly the rounded number of units, raising the exponent on carry out |
| `BfFloat.OverflowsLikeRounding` | native/quickjs/libbf.c:471-477 | infinity is chosen just when the mode, with an unlimited exponent, would round a number above the largest one up out of the range; faithful rounding stays finite |
| `BfFloat.BigFloat.SetOverflow` | native/quickjs/libbf.c:465-494 | infinity, or the largest number of the precision, as the mode and sign ask |
| `BfFloat.BigFloat.Round` | native/quickjs/libbf.c:496-606 | without overflow or underflow the number is normalised, equals the old value rounded in the mode and has the exponent of the rounded value; INEXACT is set exactly when the value changed (always for BF_RNDF); underflow and overflow happen exactly when that exponent leaves the range, and leave zero or what bf_set_overflow gives |
| `BfNormalize.Normalize` | native/quickjs/libbf.c:614-637 | leading zero limbs and bits are removed without changing the value |
| `BfNormalize.NormalizeAndRound` | native/quickjs/libbf.c:609-643 | any mantissa becomes zero or the correctly rounded normal number |
| `BfSticky.StickyQuotient` | native/quickjs/libbf.c:1706-1737 | a quotient with two bits beyond the precision and the remainder ORed into its lowest bit rounds like the exact quotient, in every deterministic mode |
| `BfSticky.StickyRoot` | native/quickjs/libbf.c:2166-2201 | the same for the square root |
| `BfDivide.QuotientLimbs` | native/quickjs/libbf.c:1706-1731 | the integer kernel: n + 1 limbs of quotient and a sticky bit |
| `BfDivide.Div` | native/quickjs/libbf.c:1671-1741 | special values, and otherwise the exact quotient rounded once |
| `BfSqrt.RootLimbs` | native/quickjs/libbf.c:2170-2198 | the integer kernel: n limbs of root of the scaled operand and a sticky bit |
| `BfSqrt.Sqrt` | native/quickjs/libbf.c:2145-2207 | special values, and otherwise the exact root rounded once |
| `BfDetermined.NormalUnique` | native/quickjs/libbf.c:597-604 | a value has one normal form: exponent and limbs are determined |
| `BfDetermined.OneQuotient` | native/quickjs/libbf.c:1671-1741 | operands, precision and flags determine the result of __bf_div bit for bit, and its status |
| `BfDetermined.OneRoot` | native/quickjs/libbf.c:2145-2207 | and the result of bf_sqrt |
| `BfDetermined.OneSum` | native/quickjs/libbf.c:885-1027 | and the results of bf_add_internal and bf_mul |
| `BfFormat.ExponentField` | native/quickjs/libbf.c:508-511 | the exponents of normal numbers are those of a field of expBits bits with the bias of IEEE 754, without its first and last value |
| `BfFormat.PlaceIs` | native/quickjs/libbf.c:513-526 | numbers are rounded at prec bits, subnormal ones at the last place of the smallest normal number, and with BF_FLAG_RADPNT_PREC at prec bits behind the radix point |
| `BfFormat.RoundedIsBest` | native/quickjs/libbf.c:501-600 | rounding at the last place is rounding to the format: no number of prec bits in the exponent range lies between the exact value and the result, or nearer to it, as the mode asks |
| `BfFormat.OverflowsExactly` | native/quickjs/libbf.c:465-494 | the result leaves the range if and only if the exact value reaches the threshold of the mode: 2^ExpMax, anything above the largest number, or the midpoint above it (section 4.3.1 of IEEE 754-2008) |
| `BfFormat.LargestInFormat` | native/quickjs/libbf.c:480-492 | the number that bf_set_overflow writes belongs to the format and no other of it is larger |
| `BfFormat.ResultIsBest` | native/quickjs/libbf.c:465-600 | without overflow the result is a number of the format and the best one; with it, infinity or the largest number as the mode asks |
| `BfFormat.RoundsFrom` | native/quickjs/libbf.c:501-600 | and the status tells overflow by the threshold, inexact if and only if the result is not the exact value (always for BF_RNDF), and nothing else |
| `BfFormat.SumIsBest` | native/quickjs/libbf.c:885-1027 | all this for sums, differences and products |
| `BfFormat.QuotientIsBest` | native/quickjs/libbf.c:1671-1741 | and for quotients |
| `BfFormat.RootIsBest` | native/quickjs/libbf.c:2145-2207 | and for square roots |
| `BfCancel.ClzXorExact` | native/quickjs/libbf.c:854-856 | at the first differing bit the two numbers part by its weight and their low bits |
| `BfCancel.CountBorrow` | native/quickjs/libbf.c:857-880 | the second search, along zeros against ones after a difference of one, ends and bounds the leading zeros |
| `BfCancel.CountCancelled` | native/quickjs/libbf.c:824-883 | count_cancelled_bits terminates and bounds the leading zero bits of the difference |
| `BfCarry.CarryOn` | native/quickjs/libbf.c:992-1008 | one limb of the addition of b or of its complement keeps the relation between limbs done and carry |
| `BfCarry.CarryOverGap` | native/quickjs/libbf.c:976-997 | one turn stands for a whole gap of limbs that are zero in both operands |
| `BfCarry.JumpOverZeros` | native/quickjs/libbf.c:976-991 | the jump passes only limbs that neither mantissa reaches, and at least one |
| `BfCarry.LowPart` | native/quickjs/libbf.c:952-998 | the limbs below the result give the carry into it and the sticky bit |
| `BfCarry.HighPart` | native/quickjs/libbf.c:999-1009 | the limbs of the result and the last carry |
| `BfAdd.CmpU` | native/quickjs/libbf.c:755-778 | compares exponents, then mantissas of any two lengths |
| `BfAdd.TruncatedRounds` | native/quickjs/libbf.c:943-1021 | the high limbs with a sticky bit round like the whole, if exact or with two bits to spare |
| `BfAdd.KeptBits` | native/quickjs/libbf.c:932-946 | after the cancelled bits the kept limbs hold at least prec + 2 bits of the result |
| `BfAdd.AddFinite` | native/quickjs/libbf.c:925-1022 | sum or difference of finite operands, the larger first, rounded once |
| `BfAdd.Add` | native/quickjs/libbf.c:885-1027 | special values, the sign of an exact zero, and otherwise the exact sum or difference rounded once in every mode |
| `BfMul.Mul` | native/quickjs/libbf.c:1541-1622 | special values; in every mode but BF_RNDF the exact product rounded once, in BF_RNDF the product of the high limbs that are kept, rounded once |
| `BfFaithful.EnoughIsFaithful` | native/quickjs/libbf.c:1578-1585 | with three bits more than the result has places the product of the kept limbs rounds to a neighbour of the exact product |
| `BfFaithful.TruncationFails` | native/quickjs/libbf.c:1578-1585 | when prec + 2 fills whole limbs there are operands whose product is missed by more than a place |
| `BfFaithful.FaithfulExactly` | native/quickjs/libbf.c:1578-1585 | so BF_RNDF products are faithful for all operands if and only if prec + 2 is not a multiple of the limb size or the result is subnormal and has fewer than prec places |
| `BfMul.MulExact` | native/quickjs/libbf.c:1541-1622 | at unlimited precision the product of two integers is the integer product |
| `BfExact.SetSmall` | native/quickjs/libbf.c:225-278 | the number of one limb with a sign, in normal form |
| `BfExact.ExactOutcome` | native/quickjs/libbf.c:501-606 | at unlimited precision an integer within the exponent range is left unchanged |
| `BfExact.AddExact` | native/quickjs/libbf.c:2225-2235 | at unlimited precision sum and difference of two integers are the integer sum and difference |
| `BfLogic.BitwiseBit` | native/quickjs/libbf.c:2331-2342 | the reference operation on integers acts on every bit of the infinite two's complement by itself |
| `BfLogic.BitwiseMeans` | native/quickjs/libbf.c:2331-2342 | or sets a bit that either operand has, and one that both have, xor one that just one of them has |
| `BfLogic.SumOfBits` | native/quickjs/libbf.c:2331-2342 | for all integers (x or y) + (x and y) = x + y, and x xor y is the difference of the two |
| `BfLogic.MaskBelow` | native/quickjs/libbf.c:2331-2342 | for x not negative, x and y lies between 0 and x whatever the sign of y |
| `BfLogic.BitsDetermine` | native/quickjs/libbf.c:2402-2409 | an integer is determined by its two's complement bits, so the statement below leaves nothing open |
| `BfLogic.ComplementFlips` | native/quickjs/libbf.c:2364-2382 | -x - 1 has every bit of x flipped: what the -1 adjustments rest on |
| `BfLogic.IntegerLimb` | native/quickjs/libbf.c:2400-2407 | get_bits at the offset of the radix point reads the limbs of the integer, whatever its mantissa length |
| `BfLogic.NothingAbove` | native/quickjs/libbf.c:2384-2397 | above the length chosen, also the shortened one for AND, every bit of the result is its sign |
| `BfLogic.LogicCorrect` | native/quickjs/libbf.c:2402-2416 | the magnitude whose bits the loop computes, with the sign and the last -1, is the result |
| `BfLogic.LogicOp` | native/quickjs/libbf.c:2344-2428 | and, or, xor of two integers of any signs and lengths agree with two's complement (section 6.1.6.2 of ECMA-262) |
| `Radix.PartsFit` | native/quickjs/libbf.c:2726-2727 | at every level both parts have at least one digit and one of the two sizes of the next level, so that one low size serves all pieces of a level |
| `Radix.TableSuffices` | native/quickjs/libbf.c:2763 | ceil_log2(n) + 2 entries cover every level that looks up a power |
| `Radix.NumberSplit` | native/quickjs/libbf.c:2715-2751 | a number is its low k digits plus its high digits times radix^k |
| `Radix.NumberUnique` | native/quickjs/libbf.c:3402-3485 | the digits of a number below the radix are unique |
| `FromRadix.PowSmall` | native/quickjs/libbf.c:2280-2318 | square-and-multiply from the top bit gives the power |
| `FromRadix.LevelPower` | native/quickjs/libbf.c:2729-2734 | a cached entry is the power that its level needs, for every piece of the level |
| `FromRadix.FromRadixRec` | native/quickjs/libbf.c:2715-2751 | the sum of tab[i]*radix^i over the piece, with the cache left right |
| `FromRadix.FromRadix` | native/quickjs/libbf.c:2754-2775 | the sum of tab[i]*radix^i over all limbs |
| `RealValue.NearestClose` | native/quickjs/libbf.c:3442-3447 | rounding to nearest at prec bits moves a number by at most one part in 2^prec |
| `RealValue.EstimateClose` | native/quickjs/libbf.c:3440-3448 | with the precisions chosen, the product by the rounded reciprocal is within one and a half of the true quotient |
| `RadixQuotient.Reciprocal` | native/quickjs/libbf.c:3440-3443 | the cached reciprocal is right to one part in 2^prec |
| `RadixQuotient.Rint` | native/quickjs/libbf.c:2320-2324 | bf_rint towards zero leaves the integer part |
| `RadixQuotient.Compare` | native/quickjs/libbf.c:755-778 | bf_cmpu of integers compares their magnitudes |
| `RadixQuotient.Estimate` | native/quickjs/libbf.c:3446-3448 | the estimated quotient is off by at most two |
| `RadixQuotient.RaiseRemainder` | native/quickjs/libbf.c:3455-3461 | the first loop makes the remainder non-negative in at most two turns |
| `RadixQuotient.LowerRemainder` | native/quickjs/libbf.c:3462-3466 | the second loop brings it below the divisor in at most two turns |
| `RadixQuotient.Divide` | native/quickjs/libbf.c:3446-3470 | the corrected quotient and remainder are the true ones |
| `ToRadix.LevelPair` | native/quickjs/libbf.c:3434-3444 | a cached pair is the power of its level and its reciprocal at the precision needed |
| `ToRadix.ToRadixRec` | native/quickjs/libbf.c:3402-3485 | writes the digits below the radix of any x < radix^n into its n places and nothing else |
| `ToRadix.ToRadix` | native/quickjs/libbf.c:3488-3510 | the n digits of any x < radix^n |
| `ToRadix.WriteThenRead` | native/quickjs/libbf.c:3402-3510 | reading back the digits written for an integer gives the integer |
| `ToRadix.ReadThenWrite` | native/quickjs/libbf.c:2715-2775 | writing the integer read from digits gives the digits |
| `SortBase.Swap` | native/quickjs/cutils.c:384-468 | exchanges two elements and moves nothing else |
| `InsertionSort.Sort` | native/quickjs/cutils.c:623-627 | sorts a range, rearranging only inside it |
| `HeapSort.SiftDown` | native/quickjs/cutils.c:482-488 | restores the heap order below an element |
| `HeapSort.Sort` | native/quickjs/cutils.c:470-502 | a sorted rearrangement of the range |
| `Rqsort.MedianOfThree` | native/quickjs/cutils.c:504-510 | the chosen element has one of the others not above and one not below it |
| `Partition.Scan` | native/quickjs/cutils.c:547-573 | three-way partition: everything is equal at the ends, smaller or greater inside, nothing unseen |
| `Partition.Gather` | native/quickjs/cutils.c:580-599 | the equal elements end up in the middle |
| `Rqsort.Split` | native/quickjs/cutils.c:542-605 | a range falls into smaller, equal and greater than a median of three |
| `Rqsort.RangeSplit` | native/quickjs/cutils.c:601-621 | after a partition only the two outer parts are pending: every other position is already a cut |
| `Rqsort.Step` | native/quickjs/cutils.c:535-622 | one turn pushes the larger part, goes on with the smaller one and keeps stack entries within the depth counter |
| `Rqsort.SortTop` | native/quickjs/cutils.c:529-628 | one popped range is finished by partitioning, heapsort or insertion sort |
| `Rqsort.Sort` | native/quickjs/cutils.c:512-629 | for every total preorder: ends with a sorted permutation of the input, and the 50-entry stack never overflows |
| `CharRanges.OddIsMember` | native/quickjs/libunicode.c:458-508 | membership is an odd number of bounds not above the point: what the parity test of cr_op rests on |
| `CharRanges.MergeStep` | native/quickjs/libunicode.c:466-505 | taking the next bound of one or both operands keeps the merged set right up to it |
| `CharRanges.CompressPoints` | native/quickjs/libunicode.c:429-455 | removes empty and touching intervals in place: the same set in strictly increasing bounds |
| `CharRanges.CharRange.Combine` | native/quickjs/libunicode.c:458-508 | a code point is in the result if it is in one operand or the other (union), in both (intersection), in just one (xor), for any two sorted even-length inputs; the result is canonical |
| `CharRanges.CharRange.Invert` | native/quickjs/libunicode.c:522-534 | the complement within [0, UINT32_MAX), in canonical form |
| `CharRanges.CanonicalUnique` | native/quickjs/libunicode.c:429-455 | a set has only one canonical form |
| `CharRanges.InvertTwice` | native/quickjs/libunicode.c:522-534 | inverting a canonical set twice gives back its bounds |
| `CharRanges.Flatten` | native/quickjs/libunicode.c:1350-1384 | merging sorted intervals in place keeps their union and leaves gaps between them |
| `CharRanges.CharRange.SortAndRemoveOverlap` | native/quickjs/libunicode.c:1350-1384 | the same set, with each interval ending before the next begins, whatever the input; sorted bounds if no interval was reversed |
| `Normalize.StartersStay` | native/quickjs/libunicode.c:876-910 | exchanging reorderable pairs moves no starter |
| `Normalize.Stable` | native/quickjs/libunicode.c:876-910 | and keeps the order of characters of equal class |
| `Normalize.SortCC` | native/quickjs/libunicode.c:876-910 | the result comes from the input by exchanges of reorderable pairs and has none left: canonical ordering (section 3.11 of the Unicode Standard) |
| `Normalize.LastDecides` | native/quickjs/libunicode.c:1003-1015 | because marks are in order, the last kept character alone decides whether the next one is blocked |
| `Normalize.ComposeOne` | native/quickjs/libunicode.c:1002-1024 | one turn composes or keeps a character as the algorithm of the Standard does |
| `Normalize.Compose` | native/quickjs/libunicode.c:1000-1026 | the in-place loop computes the Canonical Composition Algorithm, for every class and pair function whose composites are starters |
| `Bridge.NarrowExact` | native/quickjs/quickjs.c:5058-5075 | the index that a function object keeps in an int16_t comes back itself below 32768 and as a negative number from there on |
| `Bridge.Always` | native/quickjs_bridge.c:30-35 | the invariant of counter, table and isolates, and what the log says, hold in every state of every interleaving |
| `Bridge.RegistrationsDistinct` | native/quickjs_bridge.c:136-143 | slots are given out once, written once and only by their owner; every call reaches the callback registered at its own index, in the lower half of the table; only indices of the upper half are refused; the counter passes the limit by less than the number of isolates |
| `Bridge.SlotsKept` | native/quickjs_bridge.c:136-143 | a registered callback never changes |
| `Bridge.DispatchExactly` | native/quickjs_bridge.c:56-65 | a dispatch of a completed index, whatever the others do meanwhile, calls exactly the callback registered there if and only if the index is below 32768, and is refused otherwise |
| `Bridge.CounterCounts` | native/quickjs_bridge.c:30-35 | the counter is the number of fetch-and-adds of all isolates so far; it is never reset |
| `Bridge.TakesSlot` | native/quickjs_bridge.c:136-142 | a registration that has passed the first test gets the value of the counter as its index, or fails if and only if the table has been given out by then |
| `Bridge.CallbackStored` | native/quickjs_bridge.c:136-143 | whatever the others do meanwhile, the callback that was passed in is stored at the index that the counter had |
| `Bridge.RegisteredIsCalled` | native/quickjs_bridge.c:56-65 | from end to end: the callback that one isolate registers is the one that any later dispatch of its index calls, below 32768 |
| `Bridge.UpperHalfRefused` | native/quickjs_bridge.c:56-65 | for every index of the upper half there is a run in which its registration completes and a dispatch of it is refused |

## Left out

- Parsing of patterns: the compiler is modelled from the syntax tree on; group names, escapes, Unicode properties and flags are not.
- Back references and case folding.
- Captures other than group 0 are carried along but only group 0 is compared with the position semantics: captures of earlier iterations are kept where ECMA-262 clears them at each iteration.
- The header of compiled programs, byte orders other than little-endian, and 32-bit wrap-around of jump offsets in programs of 2^31 bytes.
- RegexMatch.MatchCorrect: asks that every lazy quantifier of the pattern is in order by itself. `RegexLazy.RightExactlyInOrder` shows that this is exact for a quantifier that begins a pattern; one that is out of order may still do no harm where it stands, for instance in an alternative that is never taken.
- The stack overflow check of the recursive parser.
- Allocation failure, `realloc` callbacks and the memory error status, everywhere.
- NTT multiplication and decimal floats, which the build does not compile; `mp_mul` is `mp_mul_basecase`.
- Transcendental functions, `bf_mul_pow_radix` and number formatting; remainders (`bf_divrem`), shifts and conversions to machine numbers would add only easier members.
- Widths of loop counters and of lengths: they are unbounded, as are exponents except where a range check or a special exponent value is at stake.
- BfFloat.BigFloat.Round: with BF_FLAG_RADPNT_PREC, a precision of 0 and a mode that overflows to the largest finite number, it takes exponents below the overflow limit only: there is no largest number of 0 bits, and `bf_set_overflow` would write the first limb of an empty mantissa.
- BfAdd.Add, BfMul.Mul, BfDivide.Div and BfSqrt.Sqrt take no BF_FLAG_RADPNT_PREC, which libbf.h allows for bf_round only.
- BfLogic.LogicOp: operands are integers below 2^MAX_BITS, far above what memory holds, so that no exponent overflows; the same bound stands in the radix conversions.
- FromRadix.FromRadix: takes the one-limb power of the radix that `get_limb_radix` computes.
- Storage reused in place by `bf_resize`: a new mantissa is a new array; a result that is also an operand is computed apart and moved, as `bf_op2` does.
- The alignment variants of the exchange functions: all of them swap; blocks are exchanged element by element.
- Unicode tables: combining classes and composition pairs are arbitrary functions, composites being starters; decomposition and the shortcut for Latin-1 are not modelled.
- Marshalling, evaluation, job draining and the JS side of registration in the bridge: of a function object the model has the 16 bits it keeps of its index, and a function is dispatched only once its registration is complete. A NULL callback, which a dispatch refuses, is not among the callbacks.
- The table of bytes callbacks: it repeats the protocol of `Bridge` word for word, with the same 16 bits.
