/**
The program as bytes: opcode numbers and operand formats of libregexp-opcode.h,
numbers in little-endian order, and what the interpreter reads back at each
instruction. So the cells that the compiler and the machine are modelled on are the
bytes of the source, and every operand fits the bytes it is given.
*/
module RegexBytes {
  import opened RegexText
  import opened CharSet
  import opened RegexSyntax
  import opened RegexSemantics
  import opened RegexRange
  import opened RegexAtoms
  import opened RegexSimple
  import opened RegexMatch
  import opened RegexSafety
  import opened RegexCompiler

  // ----- numbers -----

  /** put_u16 */
  function U16(v: nat): (u: seq<nat>)
    ensures |u| == 2
  {
    [v % 0x100, v / 0x100 % 0x100]
  }

  /** put_u32, of an unsigned or a signed number */
  function U32(v: int): (u: seq<nat>)
    ensures |u| == 4
  {
    var w: nat := v % 0x1_0000_0000;
    U16(w % 0x1_0000) + U16(w / 0x1_0000)
  }

  /** get_u16 */
  function Get16(s: seq<nat>, p: nat): nat
    requires p + 2 <= |s|
  {
    s[p] + 0x100 * s[p + 1]
  }

  /** get_u32 */
  function Get32(s: seq<nat>, p: nat): nat
    requires p + 4 <= |s|
  {
    Get16(s, p) + 0x1_0000 * Get16(s, p + 2)
  }

  /** The conversion to int. */
  function Signed(v: nat): int {
    if v < 0x8000_0000 then v else v - 0x1_0000_0000
  }

  lemma Read16(s: seq<nat>, p: nat, v: nat)
    requires v < 0x1_0000 && p + 2 <= |s| && s[p..p + 2] == U16(v)
    ensures Get16(s, p) == v
  {
    assert s[p] == s[p..p + 2][0] && s[p + 1] == s[p..p + 2][1];
  }

  lemma Read32(s: seq<nat>, p: nat, v: int)
    requires p + 4 <= |s| && s[p..p + 4] == U32(v)
    ensures Get32(s, p) == v % 0x1_0000_0000
  {
    hide U16, Get16;
    var w: nat := v % 0x1_0000_0000;
    var u := s[p..p + 4];
    assert u[..2] == U16(w % 0x1_0000) && u[2..] == U16(w / 0x1_0000);
    assert s[p..p + 2] == u[..2] && s[p + 2..p + 4] == u[2..];
    Read16(s, p, w % 0x1_0000);
    Read16(s, p + 2, w / 0x1_0000);
  }

  lemma SignedBack(v: int)
    requires -0x8000_0000 <= v < 0x8000_0000
    ensures Signed(v % 0x1_0000_0000) == v
  {}

  // ----- instructions -----

  /** The position in libregexp-opcode.h. */
  function Opcode(i: Instr): nat {
    match i
    case Char(_) => 1
    case Char32(_) => 2
    case MatchDot => 3
    case MatchAny => 4
    case Test(LineStart) => 5
    case Test(LineEnd) => 6
    case Goto(_) => 7
    case Split(gotoFirst, _) => if gotoFirst then 8 else 9
    case Accept => 10
    case Save(_, end) => if end then 12 else 11
    case SaveReset(_, _) => 13
    case Loop(_) => 14
    case PushCount(_) => 15
    case Drop => 16
    case Test(WordBoundary) => 17
    case Test(NotWordBoundary) => 18
    case Range(wide, _) => if wide then 22 else 21
    case LookAround(negative, _) => if negative then 24 else 23
    case PushPos => 25
    case CheckAdvance => 26
    case StepBack => 27
    case SimpleGreedy(_, _, _, _) => 28
  }

  /** The operands of a class, two or four bytes each. */
  function Points(wide: bool, rs: seq<nat>): seq<nat> {
    if rs == [] then [] else (if wide then U32(rs[0]) else U16(rs[0])) + Points(wide, rs[1..])
  }

  function Operands(i: Instr): seq<nat> {
    match i
    case Char(c) => U16(c)
    case Char32(c) => U32(c)
    case Goto(offset) => U32(offset)
    case Split(_, offset) => U32(offset)
    case Save(group, _) => [group]
    case SaveReset(first, last) => [first, last]
    case Loop(offset) => U32(offset)
    case PushCount(value) => U32(value)
    case Range(wide, rs) => U16(|rs| / 2) + Points(wide, rs)
    case LookAround(_, offset) => U32(offset)
    case SimpleGreedy(offset, min, max, chars) => U32(offset) + U32(min) + U32(max) + U32(chars)
    case _ => []
  }

  function Bytes(i: Instr): seq<nat> {
    [Opcode(i)] + Operands(i)
  }

  /** Every operand fits its bytes; the wide form of a character is used only for those that need it. */
  ghost predicate Encodable(i: Instr) {
    match i
    case Char(c) => c <= 0xffff
    case Char32(c) => 0xffff < c <= 0xffff_ffff
    case Save(group, _) => group <= 0xff
    case SaveReset(first, last) => first <= 0xff && last <= 0xff
    case PushCount(value) => value <= 0xffff_ffff
    case Range(wide, rs) =>
      && |rs| % 2 == 0 && |rs| / 2 <= 0xffff
      && forall j :: 0 <= j < |rs| ==> rs[j] <= if wide then 0xffff_ffff else 0xffff
    case SimpleGreedy(offset, min, max, chars) =>
      InInt(offset) && min <= 0xffff_ffff && max <= 0xffff_ffff && chars <= 0xffff_ffff
    case _ => Jumps(i) ==> InInt(i.offset)
  }

  predicate InInt(v: int) { -0x8000_0000 <= v < 0x8000_0000 }

  /** The sizes of the opcode table are those of the bytes. */
  lemma BytesSize(i: Instr)
    requires Encodable(i)
    ensures |Bytes(i)| == Size(i)
  {
    if i.Range? { PointsSize(i.wide, i.ranges); }
  }

  lemma {:induction false} PointsSize(wide: bool, rs: seq<nat>)
    ensures |Points(wide, rs)| == (if wide then 4 else 2) * |rs|
  {
    if rs != [] { PointsSize(wide, rs[1..]); }
  }

  // ----- decoding -----

  function GetPoints(s: seq<nat>, p: nat, wide: bool, n: nat): seq<nat>
    requires p + (if wide then 4 else 2) * n <= |s|
    decreases n
  {
    if n == 0 then []
    else if wide then [Get32(s, p)] + GetPoints(s, p + 4, wide, n - 1)
    else [Get16(s, p)] + GetPoints(s, p + 2, wide, n - 1)
  }

  /** The instruction that the interpreter reads at p (lre_exec_backtrack, from its opcode on). */
  function Decode(s: seq<nat>, p: nat): Option<Instr> {
    if p >= |s| then None
    else
      var room := |s| - p;
      match s[p]
      case 1 => if room >= 3 then Some(Char(Get16(s, p + 1))) else None
      case 2 => if room >= 5 then Some(Char32(Get32(s, p + 1))) else None
      case 3 => Some(MatchDot)
      case 4 => Some(MatchAny)
      case 5 => Some(Test(LineStart))
      case 6 => Some(Test(LineEnd))
      case 7 => if room >= 5 then Some(Goto(Signed(Get32(s, p + 1)))) else None
      case 8 => if room >= 5 then Some(Split(true, Signed(Get32(s, p + 1)))) else None
      case 9 => if room >= 5 then Some(Split(false, Signed(Get32(s, p + 1)))) else None
      case 10 => Some(Accept)
      case 11 => if room >= 2 then Some(Save(s[p + 1], false)) else None
      case 12 => if room >= 2 then Some(Save(s[p + 1], true)) else None
      case 13 => if room >= 3 then Some(SaveReset(s[p + 1], s[p + 2])) else None
      case 14 => if room >= 5 then Some(Loop(Signed(Get32(s, p + 1)))) else None
      case 15 => if room >= 5 then Some(PushCount(Get32(s, p + 1))) else None
      case 16 => Some(Drop)
      case 17 => Some(Test(WordBoundary))
      case 18 => Some(Test(NotWordBoundary))
      case 21 => DecodeRange(s, p, false)
      case 22 => DecodeRange(s, p, true)
      case 23 => if room >= 5 then Some(LookAround(false, Signed(Get32(s, p + 1)))) else None
      case 24 => if room >= 5 then Some(LookAround(true, Signed(Get32(s, p + 1)))) else None
      case 25 => Some(PushPos)
      case 26 => Some(CheckAdvance)
      case 27 => Some(StepBack)
      case 28 =>
        if room >= 17
        then Some(SimpleGreedy(Signed(Get32(s, p + 1)), Get32(s, p + 5), Get32(s, p + 9), Get32(s, p + 13)))
        else None
      case _ => None
  }

  function DecodeRange(s: seq<nat>, p: nat, wide: bool): Option<Instr>
    requires p < |s|
  {
    if p + 3 > |s| then None
    else
      var n := 2 * Get16(s, p + 1);
      if p + 3 + (if wide then 4 else 2) * n <= |s| then Some(Range(wide, GetPoints(s, p + 3, wide, n))) else None
  }

  lemma {:induction false} ReadPoints(s: seq<nat>, p: nat, wide: bool, rs: seq<nat>)
    requires forall j :: 0 <= j < |rs| ==> rs[j] <= if wide then 0xffff_ffff else 0xffff
    requires p + |Points(wide, rs)| <= |s| && s[p..p + |Points(wide, rs)|] == Points(wide, rs)
    ensures |Points(wide, rs)| == (if wide then 4 else 2) * |rs| && GetPoints(s, p, wide, |rs|) == rs
    decreases |rs|
  {
    hide U16, U32, Get16, Get32;
    PointsSize(wide, rs);
    if rs != [] {
      var w, u := if wide then 4 else 2, Points(wide, rs);
      PointsSize(wide, rs[1..]);
      assert s[p..p + w] == u[..w] && s[p + w..p + |u|] == u[w..];
      if wide { Read32(s, p, rs[0]); } else { Read16(s, p, rs[0]); }
      ReadPoints(s, p + w, wide, rs[1..]);
    }
  }

  /** The bytes of i lie at p. */
  ghost predicate Written(s: seq<nat>, p: nat, i: Instr) {
    p + |Bytes(i)| <= |s| && s[p..p + |Bytes(i)|] == Bytes(i)
  }

  lemma WrittenParts(s: seq<nat>, p: nat, i: Instr)
    requires Encodable(i) && Written(s, p, i)
    ensures p + Size(i) <= |s| && s[p] == Opcode(i) && |Operands(i)| == Size(i) - 1
    ensures s[p + 1..p + Size(i)] == Operands(i)
  {
    hide Operands, Opcode, Encodable, Size;
    BytesSize(i);
    var b := Bytes(i);
    assert s[p] == s[p..p + |b|][0] == b[0];
    assert s[p + 1..p + |b|] == b[1..];
  }

  /** What is written is read. */
  lemma DecodeBytes(s: seq<nat>, p: nat, i: Instr)
    requires Encodable(i) && Written(s, p, i)
    ensures Decode(s, p) == Some(i)
  {
    hide Decode, Encodable, Written;
    if i.Goto? || i.Split? || i.Loop? || i.LookAround? {
      DecodeJump(s, p, i);
    } else if i.Range? || i.SimpleGreedy? {
      DecodeLong(s, p, i);
    } else if Size(i) > 1 {
      DecodeShort(s, p, i);
    } else {
      DecodePlain(s, p, i);
    }
  }

  lemma DecodePlain(s: seq<nat>, p: nat, i: Instr)
    requires Size(i) == 1 && Encodable(i) && Written(s, p, i)
    ensures Decode(s, p) == Some(i)
  {
    hide Get16, Get32, Signed, Written, Operands, DecodeRange;
    WrittenParts(s, p, i);
  }

  lemma DecodeShort(s: seq<nat>, p: nat, i: Instr)
    requires i.Char? || i.Char32? || i.Save? || i.SaveReset? || i.PushCount?
    requires Encodable(i) && Written(s, p, i)
    ensures Decode(s, p) == Some(i)
  {
    hide U16, U32, Get16, Get32, Signed, Written, DecodeRange;
    WrittenParts(s, p, i);
    match i {
      case Char(c) => Read16(s, p + 1, c);
      case Char32(c) => Read32(s, p + 1, c);
      case Save(_, _) => assert s[p + 1] == s[p + 1..p + 2][0];
      case SaveReset(_, _) => assert s[p + 1] == s[p + 1..p + 3][0] && s[p + 2] == s[p + 1..p + 3][1];
      case PushCount(v) => Read32(s, p + 1, v);
    }
  }

  lemma DecodeJump(s: seq<nat>, p: nat, i: Instr)
    requires (i.Goto? || i.Split? || i.Loop? || i.LookAround?) && Encodable(i) && Written(s, p, i)
    ensures Decode(s, p) == Some(i)
  {
    hide U16, U32, Get16, Get32, Signed, Written, DecodeRange;
    WrittenParts(s, p, i);
    ReadOffset(s, p + 1, i.offset);
  }

  lemma DecodeLong(s: seq<nat>, p: nat, i: Instr)
    requires (i.Range? || i.SimpleGreedy?) && Encodable(i) && Written(s, p, i)
    ensures Decode(s, p) == Some(i)
  {
    hide U16, U32, Get16, Get32, Signed, Written, DecodeRange;
    WrittenParts(s, p, i);
    if i.Range? { DecodeClass(s, p, i); } else { DecodeSimple(s, p, i); }
  }

  lemma ReadOffset(s: seq<nat>, p: nat, v: int)
    requires InInt(v) && p + 4 <= |s| && s[p..p + 4] == U32(v)
    ensures Signed(Get32(s, p)) == v
  {
    hide Signed, Get32, U32;
    Read32(s, p, v);
    SignedBack(v);
  }

  lemma DecodeClass(s: seq<nat>, p: nat, i: Instr)
    requires i.Range? && Encodable(i) && p + 1 + |Operands(i)| <= |s| && s[p + 1..p + 1 + |Operands(i)|] == Operands(i)
    ensures DecodeRange(s, p, i.wide) == Some(i)
  {
    hide U16, U32, Get16, Get32, GetPoints;
    var u, v := U16(|i.ranges| / 2), Points(i.wide, i.ranges);
    var ops := s[p + 1..p + 1 + |Operands(i)|];
    assert ops == u + v;
    assert s[p + 1..p + 3] == ops[..2] == u && s[p + 3..p + 3 + |v|] == ops[2..] == v;
    Read16(s, p + 1, |i.ranges| / 2);
    ReadPoints(s, p + 3, i.wide, i.ranges);
  }

  /** A part of a part. */
  lemma Within(s: seq<nat>, a: nat, b: nat, x: nat, y: nat)
    requires a <= b <= |s| && x <= y <= b - a
    ensures s[a..b][x..y] == s[a + x..a + y]
  {
    var u, v := s[a..b][x..y], s[a + x..a + y];
    assert |u| == |v| && forall k :: 0 <= k < |u| ==> u[k] == v[k];
  }

  lemma DecodeSimple(s: seq<nat>, p: nat, i: Instr)
    requires i.SimpleGreedy? && Encodable(i) && p + 17 <= |s| && s[p + 1..p + 17] == Operands(i)
    ensures var a, b, c, d := Get32(s, p + 1), Get32(s, p + 5), Get32(s, p + 9), Get32(s, p + 13);
      SimpleGreedy(Signed(a), b, c, d) == i
  {
    hide Get32, Signed, U32;
    var ops := s[p + 1..p + 17];
    var a, b, c, d := U32(i.offset), U32(i.min), U32(i.max), U32(i.chars);
    assert ops == a + b + c + d;
    assert ops[..4] == a && ops[4..8] == b && ops[8..12] == c && ops[12..] == d;
    Within(s, p + 1, p + 17, 0, 4);
    Within(s, p + 1, p + 17, 4, 8);
    Within(s, p + 1, p + 17, 8, 12);
    Within(s, p + 1, p + 17, 12, 16);
    ReadOffset(s, p + 1, i.offset);
    Read32(s, p + 5, i.min);
    Read32(s, p + 9, i.max);
    Read32(s, p + 13, i.chars);
  }

  // ----- emitted operands -----

  /** Literals are code points. */
  predicate CodePoints(r: Pattern) {
    match r
    case Literal(c) => c <= 0x10_ffff
    case Concat(a, b) => CodePoints(a) && CodePoints(b)
    case Alternative(a, b) => CodePoints(a) && CodePoints(b)
    case Capture(a) => CodePoints(a)
    case Look(_, _, a) => CodePoints(a)
    case Quantified(a, _, _, _) => CodePoints(a)
    case _ => true
  }

  /** The operands that do not depend on where the instruction stands. */
  ghost predicate Modest(i: Instr) {
    match i
    case SaveReset(first, last) => first <= last
    case PushCount(value) => value <= 0x7fff_ffff
    case SimpleGreedy(offset, min, max, chars) => min <= 0x7fff_ffff && max <= 0x7fff_ffff && chars < offset
    case _ => i.Char? || i.Char32? || i.Range? ==> Encodable(i)
  }

  ghost predicate AllModest(c: Bytecode) {
    forall p :: 0 <= p < |c| && c[p].Op? ==> Modest(c[p].ins)
  }

  lemma ModestJoin(x: Bytecode, y: Bytecode)
    requires AllModest(x) && AllModest(y)
    ensures AllModest(x + y)
  {}

  lemma ModestEmit(i: Instr)
    requires Modest(i)
    ensures AllModest(Emit(i))
  {
    hide Modest;
  }

  lemma {:induction false} CharCountBelow(c: Bytecode)
    ensures CharCount(c) <= |c|
    decreases |c|
  {
    if c != [] { CharCountBelow(c[..|c| - 1]); }
  }

  lemma ModestPlain(i: Instr)
    requires i.Goto? || i.Split? || i.Loop? || i.LookAround? || i.Save? || i.Accept? || i.Drop? || i.PushPos? ||
      i.CheckAdvance? || i.StepBack? || i.Test? || i.MatchAny? || i.MatchDot?
    ensures AllModest(Emit(i))
  {
    hide AllModest, Emit;
    ModestEmit(i);
  }

  lemma CharModest(r: Pattern)
    requires OneChar(r) && WellFormed(r) && CodePoints(r)
    ensures Modest(CharInstr(r))
  {
    if r.Class? && |r.points| >= 2 {
      OperandsFit(r.points);
    }
  }

  lemma OrientedModest(back: bool, i: Instr)
    requires Modest(i)
    ensures AllModest(Oriented(back, i))
  {
    hide AllModest, Emit, Modest;
    ModestEmit(i);
    ModestPlain(StepBack);
    ModestJoin(Emit(StepBack), Emit(i));
    ModestJoin(Emit(StepBack) + Emit(i), Emit(StepBack));
  }

  lemma GuardedModest(atom: Bytecode, check: bool)
    requires AllModest(atom)
    ensures AllModest(Guarded(atom, check))
  {
    hide AllModest, Emit;
    ModestPlain(PushPos);
    ModestPlain(CheckAdvance);
    ModestJoin(Emit(PushPos), atom);
    ModestJoin(Emit(PushPos) + atom, Emit(CheckAdvance));
  }

  lemma OptionalModest(body: Bytecode, min: nat, max: nat, greedy: bool)
    requires AllModest(body) && max <= INFINITE
    ensures AllModest(OptionalCode(body, min, max, greedy))
  {
    hide AllModest, Emit;
    var n := |body|;
    if max == INFINITE {
      ModestPlain(Split(!greedy, n + 5));
      ModestPlain(Goto(-(n + 10)));
      ModestJoin(Emit(Split(!greedy, n + 5)), body);
      ModestJoin(Emit(Split(!greedy, n + 5)) + body, Emit(Goto(-(n + 10))));
    } else if max > min {
      ModestPlain(Split(!greedy, n));
      ModestJoin(Emit(Split(!greedy, n)), body);
      UpToModest(body, max - min, greedy);
    } else {
      ModestNothing();
    }
  }

  lemma ModestNothing()
    ensures AllModest([])
  {}

  lemma UpToModest(body: Bytecode, n: nat, greedy: bool)
    requires AllModest(body) && n <= INFINITE
    ensures AllModest(UpToCode(body, n, greedy))
  {
    hide AllModest, Emit;
    var push, split, loop, drop := PushCount(n), Split(!greedy, |body| + 5), Loop(-(|body| + 10)), Drop;
    ModestEmit(push);
    ModestPlain(split);
    ModestPlain(loop);
    ModestPlain(drop);
    ModestJoin(Emit(push), Emit(split));
    ModestJoin(Emit(push) + Emit(split), body);
    ModestJoin(Emit(push) + Emit(split) + body, Emit(loop));
    ModestJoin(Emit(push) + Emit(split) + body + Emit(loop), Emit(drop));
  }

  lemma TimesModest(atom: Bytecode, n: nat)
    requires AllModest(atom) && n <= INFINITE
    ensures AllModest(TimesCode(atom, n))
  {
    hide AllModest, Emit;
    var push, loop, drop := PushCount(n), Loop(-(|atom| + 5)), Drop;
    ModestEmit(push);
    ModestPlain(loop);
    ModestPlain(drop);
    ModestJoin(Emit(push), atom);
    ModestJoin(Emit(push) + atom, Emit(loop));
    ModestJoin(Emit(push) + atom + Emit(loop), Emit(drop));
  }

  lemma QuantModest(atom: Bytecode, k: nat, n: nat, min: nat, max: nat, greedy: bool)
    requires AllModest(atom) && min <= max <= INFINITE
    ensures AllModest(QuantCode(atom, k, n, min, max, greedy))
  {
    hide AllModest, Emit, OptionalCode, TimesCode, MayStay, SimpleAtom, Guarded, CharCount;
    if greedy && max > 0 && SimpleAtom(atom) {
      var i := SimpleGreedy(|atom| + 1, min, max, CharCount(atom));
      CharCountBelow(atom);
      ModestEmit(i);
      ModestPlain(Accept);
      ModestJoin(Emit(i), atom);
      ModestJoin(Emit(i) + atom, Emit(Accept));
    } else {
      var check := greedy && MayStay(atom);
      var body := Guarded(atom, check);
      GuardedModest(atom, check);
      OptionalModest(body, min, max, greedy);
      TimesModest(atom, min);
      ModestJoin(TimesCode(atom, min), OptionalCode(body, min, max, greedy));
      ResetModest(k, n);
      ModestJoin(ResetCode(k, n), OptionalCode(body, min, max, greedy));
      ModestPlain(Split(greedy, -(|atom| + 5)));
      ModestJoin(atom, Emit(Split(greedy, -(|atom| + 5))));
    }
  }

  lemma ResetModest(k: nat, n: nat)
    ensures AllModest(ResetCode(k, n))
  {
    hide AllModest, Emit;
    if n > 0 { ModestEmit(SaveReset(k, k + n - 1)); } else { ModestNothing(); }
  }

  lemma {:induction false} CodeModest(r: Pattern, k: nat, back: bool)
    requires WellFormed(r) && CodePoints(r)
    ensures AllModest(Code(r, k, back))
    decreases r
  {
    hide AllModest, Emit, QuantCode, Groups, Oriented, RangeInstr, LiteralInstr;
    match r {
      case Empty => ModestNothing();
      case Assert(a) => ModestPlain(Test(a));
      case Concat(a, b) =>
        CodeModest(a, k, back);
        CodeModest(b, k + Groups(a), back);
        ModestJoin(Code(a, k, back), Code(b, k + Groups(a), back));
        ModestJoin(Code(b, k + Groups(a), back), Code(a, k, back));
      case Alternative(a, b) =>
        CodeModest(a, k, back);
        CodeModest(b, k + Groups(a), back);
        BetweenModest(Split(false, |Code(a, k, back)| + 5), Code(a, k, back), Goto(|Code(b, k + Groups(a), back)|));
        ModestJoin(Emit(Split(false, |Code(a, k, back)| + 5)) + Code(a, k, back) +
          Emit(Goto(|Code(b, k + Groups(a), back)|)), Code(b, k + Groups(a), back));
      case Capture(a) =>
        CodeModest(a, k + 1, back);
        BetweenModest(Save(k, back), Code(a, k + 1, back), Save(k, !back));
      case Look(negative, behind, a) =>
        CodeModest(a, k, behind);
        BetweenModest(LookAround(negative, |Code(a, k, behind)| + 1), Code(a, k, behind), Accept);
      case Quantified(a, min, max, greedy) =>
        CodeModest(a, k, back);
        QuantModest(Code(a, k, back), k, Groups(a), min, max, greedy);
      case _ =>
        CharModest(r);
        OrientedModest(back, CharInstr(r));
    }
  }

  /** Code between two instructions without operands of their own. */
  lemma BetweenModest(i: Instr, c: Bytecode, j: Instr)
    requires i.Split? || i.Save? || i.LookAround?
    requires (j.Goto? || j.Save? || j.Accept?) && AllModest(c)
    ensures AllModest(Emit(i) + c + Emit(j))
  {
    hide AllModest, Emit;
    ModestPlain(i);
    ModestPlain(j);
    ModestJoin(Emit(i), c);
    ModestJoin(Emit(i) + c, Emit(j));
  }

  // ----- programs -----

  lemma ProgramModest(r: Pattern, sticky: bool)
    requires WellFormed(r) && CodePoints(r)
    ensures AllModest(Program(r, sticky))
  {
    hide AllModest, Emit, Code, WellFormed, CodePoints;
    CodeModest(r, 1, false);
    var core := Emit(Save(0, false)) + Code(r, 1, false) + Emit(Save(0, true));
    BetweenModest(Save(0, false), Code(r, 1, false), Save(0, true));
    ModestPlain(Split(true, 6));
    ModestPlain(MatchAny);
    ModestPlain(Goto(-11));
    ModestPlain(Accept);
    ModestNothing();
    ModestJoin(Emit(Split(true, 6)), Emit(MatchAny));
    ModestJoin(Emit(Split(true, 6)) + Emit(MatchAny), Emit(Goto(-11)));
    ModestJoin(SearchCode(sticky), core);
    ModestJoin(SearchCode(sticky) + core, Emit(Accept));
    assert Program(r, sticky) == SearchCode(sticky) + core + Emit(Accept);
  }

  /** Every operand of a program of less than 2^31 bytes fits. */
  lemma ProgramEncodable(r: Pattern, sticky: bool, p: nat)
    requires WellFormed(r) && CodePoints(r) && 1 + Groups(r) <= 255 && |Program(r, sticky)| < 0x8000_0000
    requires p < |Program(r, sticky)| && Program(r, sticky)[p].Op?
    ensures Encodable(Program(r, sticky)[p].ins)
  {
    hide Program, WellFormed, CodePoints, Groups, SafeCode, DepthAt, NestedOk, Size, Searchable;
    var c, t := Program(r, sticky), Text([], false, false);
    ProgramSafe(t, r, sticky);
    OkAt(t, c, 1 + Groups(r), p);
    ProgramModest(r, sticky);
    assert Modest(c[p].ins);
  }

  /** The bytes of code from p on. */
  function Assemble(code: Bytecode, p: nat): seq<nat>
    decreases |code| - p
  {
    if p >= |code| then []
    else if code[p].Op? then Bytes(code[p].ins) + Assemble(code, p + Size(code[p].ins))
    else [0] + Assemble(code, p + 1)
  }

  ghost predicate AllEncodable(code: Bytecode) {
    forall x :: 0 <= x < |code| && code[x].Op? ==> Encodable(code[x].ins)
  }

  /** Where the next instruction is. */
  lemma NextStarts(code: Bytecode, p: nat, q: nat)
    requires Scannable(code) && AllEncodable(code) && p < |code| && code[p].Op? && p < q && Starts(code, q)
    ensures var next := p + Size(code[p].ins);
      next <= q && Starts(code, next) && |Bytes(code[p].ins)| == next - p
    ensures Assemble(code, p) == Bytes(code[p].ins) + Assemble(code, p + Size(code[p].ins))
  {
    hide Encodable, Bytes, Size;
    BytesSize(code[p].ins);
    var next := p + Size(code[p].ins);
    assert Starts(code, next) && forall x :: p < x < next ==> code[x] == Arg;
  }

  /** Each instruction begins at its own position, and its bytes lie there. */
  lemma {:induction false} AssembledAt(code: Bytecode, p: nat, q: nat)
    requires Scannable(code) && AllEncodable(code) && Starts(code, p) && p <= q < |code| && code[q].Op?
    ensures Written(Assemble(code, p), q - p, code[q].ins)
    decreases |code| - p
  {
    hide Encodable, AllEncodable, Bytes, Scannable, Size, Assemble, Written;
    var next, b := p + Size(code[p].ins), Bytes(code[p].ins);
    if q == p {
      WrittenFirst(code, p);
    } else {
      NextStarts(code, p, q);
      AssembledAt(code, next, q);
      WrittenBehind(b, Assemble(code, next), q - next, code[q].ins);
    }
  }

  lemma WrittenFirst(code: Bytecode, p: nat)
    requires p < |code| && code[p].Op?
    ensures Written(Assemble(code, p), 0, code[p].ins)
  {
    hide Bytes, Size;
    var b := Bytes(code[p].ins);
    assert Assemble(code, p)[0..|b|] == b;
  }

  lemma {:induction false} AssembledSize(code: Bytecode, p: nat)
    requires Scannable(code) && AllEncodable(code) && Starts(code, p)
    ensures |Assemble(code, p)| == |code| - p
    decreases |code| - p
  {
    hide AllEncodable, Bytes, Scannable, Size;
    if p < |code| {
      NextStarts(code, p, |code|);
      AssembledSize(code, p + Size(code[p].ins));
    }
  }

  lemma WrittenBehind(b: seq<nat>, s: seq<nat>, p: nat, i: Instr)
    requires Written(s, p, i)
    ensures Written(b + s, |b| + p, i)
  {
    hide Bytes;
    var n := |Bytes(i)|;
    assert (b + s)[|b| + p..|b| + p + n] == s[p..p + n];
  }

  /** The interpreter reads from the bytes of a compiled program just its instructions, each at its position. */
  lemma ProgramBytes(r: Pattern, sticky: bool, p: nat)
    requires WellFormed(r) && CodePoints(r) && 1 + Groups(r) <= 255 && |Program(r, sticky)| < 0x8000_0000
    requires p < |Program(r, sticky)| && Program(r, sticky)[p].Op?
    ensures var s := Assemble(Program(r, sticky), 0);
      |s| == |Program(r, sticky)| && Decode(s, p) == Some(Program(r, sticky)[p].ins)
  {
    hide Program, WellFormed, CodePoints, Groups, Encodable, Decode, Written, Assemble;
    var c := Program(r, sticky);
    forall x | 0 <= x < |c| && c[x].Op? ensures Encodable(c[x].ins) { ProgramEncodable(r, sticky, x); }
    ProgramScannable(r, sticky);
    AssembledAt(c, 0, p);
    AssembledSize(c, 0);
    DecodeBytes(Assemble(c, 0), p, c[p].ins);
  }
}
