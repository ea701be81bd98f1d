/**
Patterns, the bytecode they are compiled to, and the code generator.

Bytecode is a sequence of cells, one per byte: an instruction of n bytes is its
`Op` cell followed by n-1 `Arg` cells. So positions, sizes and jump offsets are
those of the byte buffer, while operands stay decoded.
*/
module RegexSyntax {
  import opened RegexText
  import opened CharSet

  /** INT32_MAX, which stands for "no upper bound" in a quantifier. */
  const INFINITE: nat := 0x7fff_ffff

  datatype Pattern =
    | Empty
    | Literal(c: nat)
    | Dot
    | AnyChar
    | Class(points: seq<nat>)
    | Assert(assertion: Assertion)
    | Concat(left: Pattern, right: Pattern)
    | Alternative(left: Pattern, right: Pattern)
    | Capture(body: Pattern)
    | Look(negative: bool, behind: bool, body: Pattern)
    | Quantified(body: Pattern, min: nat, max: nat, greedy: bool)

  /** Number of capture groups. */
  function Groups(r: Pattern): nat {
    match r
    case Concat(a, b) => Groups(a) + Groups(b)
    case Alternative(a, b) => Groups(a) + Groups(b)
    case Capture(a) => 1 + Groups(a)
    case Look(_, _, a) => Groups(a)
    case Quantified(a, _, _, _) => Groups(a)
    case _ => 0
  }

  datatype Instr =
    | Char(c: nat)
    | Char32(c: nat)
    | MatchDot
    | MatchAny
    | Test(assertion: Assertion)
    | Goto(offset: int)
    | Split(gotoFirst: bool, offset: int)
    | Accept
    | Save(group: nat, end: bool)
    | SaveReset(first: nat, last: nat)
    | Loop(offset: int)
    | PushCount(value: nat)
    | Drop
    | Range(wide: bool, ranges: seq<nat>)
    | LookAround(negative: bool, offset: int)
    | PushPos
    | CheckAdvance
    | StepBack
    | SimpleGreedy(offset: int, min: nat, max: nat, chars: nat)

  /** Size in bytes (libregexp-opcode.h). */
  function Size(i: Instr): (n: nat)
    ensures n >= 1
  {
    match i
    case Char(_) => 3
    case Char32(_) => 5
    case Goto(_) => 5
    case Split(_, _) => 5
    case Save(_, _) => 2
    case SaveReset(_, _) => 3
    case Loop(_) => 5
    case PushCount(_) => 5
    case Range(wide, pts) => 3 + (if wide then 4 else 2) * |pts|
    case LookAround(_, _) => 5
    case SimpleGreedy(_, _, _, _) => 17
    case _ => 1
  }

  datatype Cell = Op(ins: Instr) | Arg

  type Bytecode = seq<Cell>

  function Emit(i: Instr): (s: Bytecode)
    ensures |s| == Size(i) && s[0] == Op(i)
    ensures forall p :: 0 < p < |s| ==> s[p] == Arg
  {
    [Op(i)] + seq(Size(i) - 1, _ => Arg)
  }

  // ----- what the scans over emitted code look for -----

  /** Instructions that read exactly one character. */
  predicate Consuming(i: Instr) {
    i.Char? || i.Char32? || i.MatchDot? || i.MatchAny? || i.Range?
  }

  /** Instructions that re_need_check_advance passes over. */
  predicate Straight(i: Instr) {
    Consuming(i) || i.Test? || i.PushCount? || i.PushPos? || i.Drop? || i.StepBack? || i.Save? || i.SaveReset?
  }

  /** Instructions that re_is_simple_quantifier passes over. */
  predicate Simple(i: Instr) {
    Consuming(i) || i.Test?
  }

  predicate AllStraight(s: Bytecode) {
    forall p :: 0 <= p < |s| && s[p].Op? ==> Straight(s[p].ins)
  }

  predicate HasConsuming(s: Bytecode) {
    exists p :: 0 <= p < |s| && s[p].Op? && Consuming(s[p].ins)
  }

  predicate AllSimple(s: Bytecode) {
    forall p :: 0 <= p < |s| && s[p].Op? ==> Simple(s[p].ins)
  }

  function CharCount(s: Bytecode): nat {
    if s == [] then 0
    else CharCount(s[..|s| - 1]) + (if s[|s| - 1].Op? && Consuming(s[|s| - 1].ins) then 1 else 0)
  }

  /** The code may leave the position where it was (result of re_need_check_advance). */
  predicate MayStay(s: Bytecode) {
    !(AllStraight(s) && HasConsuming(s))
  }

  predicate SimpleAtom(s: Bytecode) {
    AllSimple(s) && CharCount(s) > 0
  }

  // ----- code generation -----

  function Oriented(back: bool, i: Instr): Bytecode {
    if back then Emit(StepBack) + Emit(i) + Emit(StepBack) else Emit(i)
  }

  function LiteralInstr(c: nat): Instr {
    if c <= 0xffff then Char(c) else Char32(c)
  }

  /** The atom, guarded by a test that it moved the position. */
  function Guarded(atom: Bytecode, check: bool): Bytecode {
    if check then Emit(PushPos) + atom + Emit(CheckAdvance) else atom
  }

  /** atom? */
  function OptionCode(body: Bytecode, greedy: bool): Bytecode {
    Emit(Split(!greedy, |body|)) + body
  }

  /** atom* */
  function StarCode(body: Bytecode, greedy: bool): Bytecode {
    Emit(Split(!greedy, |body| + 5)) + body + Emit(Goto(-(|body| + 10)))
  }

  /** Up to n times the atom. */
  function UpToCode(body: Bytecode, n: nat, greedy: bool): Bytecode {
    Emit(PushCount(n)) + Emit(Split(!greedy, |body| + 5)) + body + Emit(Loop(-(|body| + 10))) + Emit(Drop)
  }

  /** Exactly n times the atom, n >= 1. */
  function TimesCode(atom: Bytecode, n: nat): Bytecode {
    if n == 1 then atom
    else Emit(PushCount(n)) + atom + Emit(Loop(-(|atom| + 5))) + Emit(Drop)
  }

  function SimpleCode(atom: Bytecode, min: nat, max: nat): Bytecode {
    Emit(SimpleGreedy(|atom| + 1, min, max, CharCount(atom))) + atom + Emit(Accept)
  }

  function ResetCode(k: nat, n: nat): Bytecode {
    if n > 0 then Emit(SaveReset(k, k + n - 1)) else []
  }

  /** The part of a quantifier that may be skipped: zero to max - min further iterations. */
  function OptionalCode(body: Bytecode, min: nat, max: nat, greedy: bool): Bytecode {
    if max == INFINITE then StarCode(body, greedy)
    else if max > min then
      if min == 0 && max == 1 then OptionCode(body, greedy) else UpToCode(body, max - min, greedy)
    else []
  }

  /** The general form of a quantifier. */
  function GeneralCode(atom: Bytecode, k: nat, n: nat, min: nat, max: nat, greedy: bool): Bytecode {
    var check := greedy && MayStay(atom);
    if min == 0 then
      ResetCode(k, n) + OptionalCode(Guarded(atom, check), 0, max, greedy)
    else if min == 1 && max == INFINITE && !check then
      atom + Emit(Split(greedy, -(|atom| + 5)))
    else
      TimesCode(atom, min) + OptionalCode(Guarded(atom, check), min, max, greedy)
  }

  function QuantCode(atom: Bytecode, k: nat, n: nat, min: nat, max: nat, greedy: bool): Bytecode {
    if greedy && max > 0 && SimpleAtom(atom) then SimpleCode(atom, min, max)
    else GeneralCode(atom, k, n, min, max, greedy)
  }

  /** The code of a pattern whose first group is number k, read backward in a lookbehind. */
  function Code(r: Pattern, k: nat, back: bool): Bytecode {
    match r
    case Empty => []
    case Literal(c) => Oriented(back, LiteralInstr(c))
    case Dot => Oriented(back, MatchDot)
    case AnyChar => Oriented(back, MatchAny)
    case Class(pts) => Oriented(back, RangeInstr(pts))
    case Assert(a) => Emit(Test(a))
    case Concat(a, b) =>
      if back then Code(b, k + Groups(a), back) + Code(a, k, back)
      else Code(a, k, back) + Code(b, k + Groups(a), back)
    case Alternative(a, b) =>
      var ca, cb := Code(a, k, back), Code(b, k + Groups(a), back);
      Emit(Split(false, |ca| + 5)) + ca + Emit(Goto(|cb|)) + cb
    case Capture(a) => Emit(Save(k, back)) + Code(a, k + 1, back) + Emit(Save(k, !back))
    case Look(negative, behind, a) =>
      var ca := Code(a, k, behind);
      Emit(LookAround(negative, |ca| + 1)) + ca + Emit(Accept)
    case Quantified(a, min, max, greedy) =>
      QuantCode(Code(a, k, back), k, Groups(a), min, max, greedy)
  }

  /** The loop over all start positions, absent when sticky. */
  function SearchCode(sticky: bool): (c: Bytecode)
    ensures |c| == if sticky then 0 else 11
  {
    if sticky then [] else Emit(Split(true, 6)) + Emit(MatchAny) + Emit(Goto(-11))
  }

  /** The whole program: search loop unless sticky, group 0 around the pattern, accept. */
  function Program(r: Pattern, sticky: bool): Bytecode {
    SearchCode(sticky) + Emit(Save(0, false)) + Code(r, 1, false) + Emit(Save(0, true)) + Emit(Accept)
  }

  // ----- class operands (re_emit_range) -----

  /** Operands of the 16-bit form: 0xffff as last value stands for infinity. */
  function NarrowRanges(pts: seq<nat>): (r: seq<nat>)
    ensures |r| == |pts|
  {
    seq(|pts|, i requires 0 <= i < |pts| =>
      if i % 2 == 0 then pts[i]
      else if pts[i] == POINT_MAX then 0xffff
      else if pts[i] == 0 then 0 else pts[i] - 1)
  }

  function WideRanges(pts: seq<nat>): (r: seq<nat>)
    ensures |r| == |pts|
  {
    seq(|pts|, i requires 0 <= i < |pts| =>
      if i % 2 == 0 then pts[i] else if pts[i] == 0 then 0 else pts[i] - 1)
  }

  /** The largest bound that the narrow form has to hold. */
  function LargestBound(pts: seq<nat>): nat
    requires |pts| >= 2
  {
    if pts[|pts| - 1] == POINT_MAX then pts[|pts| - 2] else pts[|pts| - 1]
  }

  function RangeInstr(pts: seq<nat>): Instr {
    if |pts| < 2 then Char32(0xffff_ffff)
    else if LargestBound(pts) <= 0xffff then Range(false, NarrowRanges(pts))
    else Range(true, WideRanges(pts))
  }
}
