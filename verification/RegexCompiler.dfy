/**
The single-pass code generator of libregexp.c: it appends to one byte buffer,
inserts in front of code it has already emitted, patches operands, copies atoms
and rotates terms. The result is the code that `Code` prescribes.
*/
module RegexCompiler {
  import opened RegexText
  import opened CharSet
  import opened RegexSyntax
  import opened RegexSemantics
  import opened RegexRange
  import opened RegexAtoms
  import opened RegexCorrect
  import opened RegexMatch
  import opened RegexSafety

  const GROUPS_MAX: nat := 255
  const STACK_MAX: nat := 255

  datatype Error = TooManyCaptures | TooManyRanges | TooManyQuantifiers

  datatype Compiled = Ok(code: Bytecode, groups: nat, stackSize: nat) | Err(error: Error)

  // ----- scans -----

  /** Code that a scan by instruction sizes reads correctly. */
  ghost predicate Scannable(c: Bytecode) {
    && Headed(c)
    && forall p :: 0 <= p < |c| && c[p].Op? ==>
         && Starts(c, p + Size(c[p].ins))
         && (forall x :: p < x < p + Size(c[p].ins) ==> c[x] == Arg)
  }

  /** Emitted code can be scanned. */
  lemma CodeScannable(r: Pattern, k: nat, back: bool)
    requires WellFormed(r)
    ensures Scannable(Code(r, k, back))
  {
    hide Code, WellFormed, Groups, Placed;
    var c, t := Code(r, k, back), Text([], false, false);
    CodeHeaded(r, k, back);
    PlacedWhole(c);
    Segment(t, c, r, k, back, k + Groups(r), 0);
    SegmentScannable(t, c, k + Groups(r));
  }

  lemma SegmentScannable(t: Text, c: Bytecode, n: nat)
    requires Headed(c) && SegmentOk(t, c, n, 0, |c|)
    ensures Scannable(c)
  {
    hide DepthAt, NestedOk, Searchable, Size;
    forall p | 0 <= p < |c| && c[p].Op?
      ensures Starts(c, p + Size(c[p].ins)) && forall x :: p < x < p + Size(c[p].ins) ==> c[x] == Arg
    {
      assert InstrOk(t, c, 0, |c|, n, p);
    }
  }

  /** re_need_check_advance */
  method NeedCheckAdvance(c: Bytecode) returns (mayStay: bool)
    requires Scannable(c)
    ensures mayStay == MayStay(c)
  {
    hide AllStraight, HasConsuming, Scannable;
    var pos := 0;
    mayStay := true;
    ScanBegin(c);
    while pos < |c|
      invariant Starts(c, pos)
      invariant AllStraight(c[..pos])
      invariant mayStay == !HasConsuming(c[..pos])
    {
      var i := c[pos].ins;
      ScanStep(c, pos);
      if Consuming(i) {
        mayStay := false;
      } else if !Straight(i) {
        NotStraight(c, pos);
        return true;
      }
      pos := pos + Size(i);
    }
    assert c[..pos] == c;
  }

  lemma ScanBegin(c: Bytecode)
    requires Scannable(c)
    ensures Starts(c, 0) && AllStraight(c[..0]) && !HasConsuming(c[..0]) && AllSimple(c[..0]) && CharCount(c[..0]) == 0
  {}

  lemma NotSimple(c: Bytecode, p: nat)
    requires p < |c| && c[p].Op? && !Simple(c[p].ins)
    ensures !AllSimple(c)
  {}

  /** What one instruction adds to the scanned prefix. */
  lemma ScanStep(c: Bytecode, pos: nat)
    requires Scannable(c) && pos < |c| && c[pos].Op?
    ensures var i, next := c[pos].ins, pos + Size(c[pos].ins);
            && next <= |c| && Starts(c, next)
            && (AllStraight(c[..next]) <==> AllStraight(c[..pos]) && Straight(i))
            && (HasConsuming(c[..next]) <==> HasConsuming(c[..pos]) || Consuming(i))
            && (AllSimple(c[..next]) <==> AllSimple(c[..pos]) && Simple(i))
            && CharCount(c[..next]) == CharCount(c[..pos]) + (if Consuming(i) then 1 else 0)
  {
    hide CharCount, Size;
    var i, next := c[pos].ins, pos + Size(c[pos].ins);
    var x, y, z := c[..pos], c[pos..next], c[..next];
    assert z == x + y && z[pos] == Op(i);
    assert forall p :: 0 <= p < pos ==> z[p] == x[p];
    assert forall p :: pos < p < next ==> z[p] == Arg;
    assert y == Emit(i);
    CharCountParts(x, y);
    CharCountInstr(i);
    if HasConsuming(x) {
      var p :| 0 <= p < |x| && x[p].Op? && Consuming(x[p].ins);
      assert z[p].Op? && Consuming(z[p].ins);
    }
  }

  /** re_is_simple_quantifier: the number of characters, or -1. */
  method SimpleLength(c: Bytecode) returns (chars: int)
    requires Scannable(c)
    ensures chars == if AllSimple(c) then CharCount(c) else -1
  {
    hide AllSimple, CharCount, Scannable;
    var pos := 0;
    chars := 0;
    ScanBegin(c);
    while pos < |c|
      invariant Starts(c, pos)
      invariant AllSimple(c[..pos])
      invariant chars == CharCount(c[..pos])
    {
      var i := c[pos].ins;
      ScanStep(c, pos);
      if Consuming(i) {
        chars := chars + 1;
      } else if !Simple(i) {
        NotSimple(c, pos);
        return -1;
      }
      pos := pos + Size(i);
    }
    assert c[..pos] == c;
  }

  /** compute_stack_size: the greatest depth, or -1 when it exceeds the limit. */
  method StackSize(c: Bytecode) returns (size: int)
    requires Scannable(c) && forall p :: 0 <= p < |c| && c[p].Op? && Pops(c[p].ins) ==> DepthAt(c, p) >= 1
    ensures size >= 0 ==> size <= STACK_MAX && forall p :: 0 <= p <= |c| ==> DepthAt(c, p) <= size
    ensures size >= 0 ==> exists p :: 0 <= p <= |c| && DepthAt(c, p) == size
    ensures size < 0 ==> size == -1 && exists p :: 0 <= p <= |c| && DepthAt(c, p) > STACK_MAX
  {
    var pos, depth := 0, 0;
    size := 0;
    assert DepthAt(c, 0) == 0;
    while pos < |c|
      invariant Starts(c, pos)
      invariant depth == DepthAt(c, pos) <= size <= STACK_MAX
      invariant forall p :: 0 <= p <= pos ==> DepthAt(c, p) <= size
      invariant exists p :: 0 <= p <= |c| && DepthAt(c, p) == size
    {
      var i := c[pos].ins;
      ghost var next := pos + Size(i);
      DepthWithin(c, pos, next);
      if i.PushCount? || i.PushPos? {
        depth := depth + 1;
        if depth > size {
          if depth > STACK_MAX {
            assert DepthAt(c, next) > STACK_MAX;
            return -1;
          }
          size := depth;
          assert DepthAt(c, next) == size;
        }
      } else if i.Drop? || i.CheckAdvance? {
        assert depth > 0;
        depth := depth - 1;
      }
      pos := pos + Size(i);
    }
  }

  lemma {:induction false} DepthWithin(c: Bytecode, pos: nat, next: nat)
    requires pos < next <= |c| && c[pos].Op? && forall x :: pos < x < next ==> c[x] == Arg
    ensures forall p :: pos < p <= next ==> DepthAt(c, p) == DepthAt(c, pos) + Effect(c[pos].ins)
  {
    forall p | pos < p <= next ensures DepthAt(c, p) == DepthAt(c, pos) + Effect(c[pos].ins) {
      DepthOverArgs(c, pos + 1, p);
    }
  }

  // ----- the generator -----

  /** Classes small enough for the 16-bit count of a range instruction. */
  predicate ClassesFit(r: Pattern) {
    match r
    case Class(pts) => |pts| / 2 < 65535
    case Concat(a, b) => ClassesFit(a) && ClassesFit(b)
    case Alternative(a, b) => ClassesFit(a) && ClassesFit(b)
    case Capture(a) => ClassesFit(a)
    case Look(_, _, a) => ClassesFit(a)
    case Quantified(a, _, _, _) => ClassesFit(a)
    case _ => true
  }

  /** The error that stops the generator names a limit that r does exceed, when its first group is numbered k. */
  ghost predicate Blames(e: Error, r: Pattern, k: nat) {
    match e
    case TooManyCaptures => k + Groups(r) > 255
    case TooManyRanges => !ClassesFit(r)
    case TooManyQuantifiers => false
  }

  /** What the parser guarantees: canonical classes and ordered repetition bounds. */
  ghost predicate Shaped(r: Pattern) {
    match r
    case Class(pts) => Canonical(pts)
    case Concat(a, b) => Shaped(a) && Shaped(b)
    case Alternative(a, b) => Shaped(a) && Shaped(b)
    case Capture(a) => Shaped(a)
    case Look(_, _, a) => Shaped(a)
    case Quantified(a, min, max, _) => min <= max <= INFINITE && Shaped(a)
    case _ => true
  }

  lemma {:induction false} ShapedAndFit(r: Pattern)
    ensures WellFormed(r) <==> Shaped(r) && ClassesFit(r)
  {
    match r
    case Concat(a, b) => ShapedAndFit(a); ShapedAndFit(b);
    case Alternative(a, b) => ShapedAndFit(a); ShapedAndFit(b);
    case Capture(a) => ShapedAndFit(a);
    case Look(_, _, a) => ShapedAndFit(a);
    case Quantified(a, _, _, _) => ShapedAndFit(a);
    case _ =>
  }

  /**
  The memmove of dbuf_insert, on a buffer of n used bytes: the bytes from position
  at on move up by len, from the last one down since the ranges overlap. What lay
  before is not touched; the gap keeps whatever it held.
  */
  method MoveUp(buf: array<Cell>, n: nat, at: nat, len: nat)
    requires at <= n && n + len <= buf.Length
    modifies buf
    ensures buf[..at] == old(buf[..at]) && buf[at + len..n + len] == old(buf[at..n])
  {
    ghost var s := buf[..];
    var i := n;
    while i > at
      invariant at <= i <= n && buf[..i] == s[..i] && buf[i + len..n + len] == s[i..n]
    {
      i := i - 1;
      ghost var done := buf[i + 1 + len..n + len];
      assert buf[i] == buf[..i + 1][i] == s[i];
      buf[i + len] := buf[i];
      assert buf[..i] == s[..i];
      assert buf[i + len..n + len] == [s[i]] + done == s[i..n];
    }
    assert s[..at] == old(buf[..at]) && s[at..n] == old(buf[at..n]);
  }

  class Generator {
    var code: Bytecode
    var groups: nat

    constructor ()
      ensures code == [] && groups == 1
    {
      code, groups := [], 1;
    }

    /** re_emit_op and its variants. */
    method Put(i: Instr)
      modifies `code
      ensures code == old(code) + Emit(i)
    {
      code := code + Emit(i);
    }

    /** dbuf_insert: opens a gap of len bytes at position at. */
    method Insert(at: nat, len: nat) returns (ghost gap: Bytecode)
      requires at <= |code|
      modifies `code
      ensures |gap| == len && code == old(code)[..at] + gap + old(code)[at..]
    {
      var n, bytes := |code|, code;
      var buf := new Cell[n + len](i requires 0 <= i < n + len => if i < n then bytes[i] else Arg);
      assert buf[..at] == code[..at] && buf[at..n] == code[at..];
      MoveUp(buf, n, at, len);
      gap := buf[at..at + len];
      assert buf[..] == buf[..at] + gap + buf[at + len..n + len];
      code := buf[..];
    }

    /** Stores an opcode and its operands. */
    method Write(at: nat, i: Instr)
      requires at + Size(i) <= |code|
      modifies `code
      ensures code == old(code)[..at] + Emit(i) + old(code)[at + Size(i)..]
    {
      code := code[..at] + Emit(i) + code[at + Size(i)..];
    }

    /** Inserts an instruction in front of what follows position at. */
    method PutFront(at: nat, i: Instr)
      requires at <= |code|
      modifies `code
      ensures code == old(code)[..at] + Emit(i) + old(code)[at..]
    {
      hide Emit;
      ghost var x, y := code[..at], code[at..];
      ghost var gap := Insert(at, Size(i));
      Cut(x, gap, y);
      Write(at, i);
    }

    /** A single character, with the position moved back around it in a lookbehind. */
    method EmitChar(i: Instr, back: bool)
      modifies `code
      ensures code == old(code) + Oriented(back, i)
    {
      if back { Put(StepBack); }
      Put(i);
      if back { Put(StepBack); }
      assert back ==> old(code) + Emit(StepBack) + Emit(i) + Emit(StepBack) == old(code) + Oriented(back, i);
    }

    /** A split in front of the atom in code[at..], guarded if asked, with the gap opened at once. */
    method InsertSplit(at: nat, greedy: bool, check: bool, jump: bool, ghost pre: Bytecode, ghost atom: Bytecode)
      requires code == pre + atom && |pre| == at
      modifies `code
      ensures var body := Guarded(atom, check);
              code == pre + Emit(Split(!greedy, |body| + (if jump then 5 else 0))) + body
    {
      hide Emit;
      var len := |code| - at;
      var extra := if check then 1 else 0;
      var split := Split(!greedy, len + (if jump then 5 else 0) + 2 * extra);
      Cut(pre, [], atom);
      ghost var gap := Insert(at, 5 + extra);
      if check {
        WriteGuard(at, split, pre, gap, atom);
      } else {
        Cut(pre, gap, atom);
        Write(at, split);
      }
    }

    /** The split and the push of the position in a gap of six bytes, and the check behind the atom. */
    method WriteGuard(at: nat, split: Instr, ghost pre: Bytecode, ghost gap: Bytecode, ghost atom: Bytecode)
      requires at == |pre| && Size(split) == 5 && |gap| == 6 && code == pre + gap + atom
      modifies `code
      ensures code == pre + Emit(split) + Guarded(atom, true)
    {
      hide Emit;
      ghost var x, y := gap[..5], gap[5..];
      assert pre + gap + atom == pre + x + (y + atom);
      Cut(pre, x, y + atom);
      Write(at, split);
      WriteSecond(at + 5, split, pre, y, atom);
      Put(CheckAdvance);
      Joined(pre + Emit(split), Emit(PushPos), atom, Emit(CheckAdvance));
    }

    method WriteSecond(at: nat, ghost split: Instr, ghost pre: Bytecode, ghost gap: Bytecode, ghost atom: Bytecode)
      requires at == |pre| + 5 && Size(split) == 5 && |gap| == 1 && code == pre + Emit(split) + (gap + atom)
      modifies `code
      ensures code == pre + Emit(split) + Emit(PushPos) + atom
    {
      hide Emit;
      Cut(pre + Emit(split), gap, atom);
      assert pre + Emit(split) + (gap + atom) == pre + Emit(split) + gap + atom;
      Write(at, PushPos);
    }

    /** A quantifier without mandatory iterations: the loop is built around the atom in code[at..]. */
    method EmitAround(at: nat, max: nat, greedy: bool, check: bool, ghost pre: Bytecode, ghost atom: Bytecode)
      requires code == pre + atom && |pre| == at && 0 < max <= INFINITE
      modifies `code
      ensures code == pre + OptionalCode(Guarded(atom, check), 0, max, greedy)
    {
      hide Emit, Guarded;
      ghost var body := Guarded(atom, check);
      if max == 1 || max == INFINITE {
        InsertSplit(at, greedy, check, max == INFINITE, pre, atom);
        if max == INFINITE {
          Put(Goto(at - (|code| + 5)));
          EmittedStar(pre, body, greedy);
        } else {
          EmittedOption(pre, body, greedy);
        }
      } else {
        assert code[..at] == pre && code[at..] == atom;
        PutFront(at, PushCount(max));
        InsertSplit(at + 5, greedy, check, true, pre + Emit(PushCount(max)), atom);
        Put(Loop(at + 5 - (|code| + 5)));
        Put(Drop);
        EmittedUpTo(pre, body, max, greedy);
      }
    }

    /** A split followed by a copy of the atom in code[at..at + len], guarded if asked. */
    method AppendSplit(at: nat, len: nat, greedy: bool, check: bool, ghost atom: Bytecode)
      requires at + len <= |code| && code[at..at + len] == atom
      modifies `code
      ensures var body := Guarded(atom, check); code == old(code) + Emit(Split(!greedy, |body| + 5)) + body
    {
      ghost var pre := code;
      ghost var split := Emit(Split(!greedy, |Guarded(atom, check)| + 5));
      Put(Split(!greedy, len + 5 + (if check then 2 else 0)));
      assert code == pre + split;
      if check { Put(PushPos); }
      assert code[at..at + len] == atom;
      code := code + code[at..at + len];
      if check {
        Put(CheckAdvance);
        assert code == pre + split + (Emit(PushPos) + atom + Emit(CheckAdvance));
      }
    }

    /** The optional iterations behind the mandatory ones: the atom is copied. */
    method EmitBehind(at: nat, len: nat, min: nat, max: nat, greedy: bool, check: bool, ghost atom: Bytecode)
      requires at + len <= |code| && code[at..at + len] == atom && 0 < min <= max <= INFINITE
      requires min < max || max == INFINITE
      modifies `code
      ensures code == old(code) + OptionalCode(Guarded(atom, check), min, max, greedy)
    {
      hide Emit, Guarded, StarCode, UpToCode;
      ghost var pre, body := code, Guarded(atom, check);
      if max == INFINITE {
        var pos := |code|;
        AppendSplit(at, len, greedy, check, atom);
        Put(Goto(pos - (|code| + 5)));
        EmittedStar(pre, body, greedy);
      } else {
        Put(PushCount(max - min));
        var pos := |code|;
        SliceKept(pre, Emit(PushCount(max - min)), at, len);
        AppendSplit(at, len, greedy, check, atom);
        Put(Loop(pos - (|code| + 5)));
        Put(Drop);
        EmittedUpTo(pre, body, max - min, greedy);
      }
    }

    /** Mandatory iterations: a counted loop around the atom in code[at..]. */
    method EmitTimes(at: nat, min: nat, ghost pre: Bytecode, ghost atom: Bytecode) returns (begin: nat)
      requires code == pre + atom && |pre| == at && 0 < min
      modifies `code
      ensures code == pre + TimesCode(atom, min)
      ensures begin + |atom| <= |code| && code[begin..begin + |atom|] == atom
    {
      hide Emit;
      begin := at;
      if min > 1 {
        assert code[..at] == pre && code[at..] == atom;
        PutFront(at, PushCount(min));
        begin := at + 5;
        Put(Loop(begin - (|code| + 5)));
        Put(Drop);
      }
      EmittedTimes(pre, atom, min);
      TimesAtom(pre, atom, min, begin);
    }

    /** Everything of a quantifier that follows the parsing of its bounds; the atom begins at start. */
    method EmitQuantifier(start: nat, first: nat, min: nat, max: nat, greedy: bool)
      requires start <= |code| && first <= groups && min <= max <= INFINITE
      requires Scannable(code[start..])
      modifies `code
      ensures code == old(code)[..start] + QuantCode(old(code)[start..], first, groups - first, min, max, greedy)
    {
      hide GeneralCode, MayStay, CharCount, AllSimple, SimpleCode, Scannable;
      ghost var pre, atom := code[..start], code[start..];
      assert code == pre + atom;
      var check := false;
      if greedy {
        if max > 0 {
          var chars := SimpleLength(code[start..]);
          if chars > 0 {
            EmitSimple(start, min, max, chars, pre, atom);
            return;
          }
        }
        check := NeedCheckAdvance(code[start..]);
      }
      EmitGeneral(start, first, min, max, greedy, check, pre, atom);
    }

    method EmitGeneral(start: nat, first: nat, min: nat, max: nat, greedy: bool, check: bool, ghost pre: Bytecode,
        ghost atom: Bytecode)
      requires code == pre + atom && |pre| == start && first <= groups && min <= max <= INFINITE
      requires check == (greedy && MayStay(atom))
      modifies `code
      ensures code == pre + GeneralCode(atom, first, groups - first, min, max, greedy)
    {
      hide Emit, Guarded, MayStay, OptionalCode, TimesCode;
      ghost var body, n := Guarded(atom, check), groups - first;
      var at, len := start, |code| - start;
      assert code[..at] == pre && code[at..] == atom;
      if min == 0 {
        if first != groups {
          PutFront(at, SaveReset(first, groups - 1));
          at := at + 3;
        }
        ghost var pre1 := pre + ResetCode(first, n);
        assert code == pre1 + atom;
        if max == 0 {
          code := code[..at];
          assert code == pre1;
          NoOptional(body, min, max, greedy);
        } else {
          EmitAround(at, max, greedy, check, pre1, atom);
        }
        assert code == pre + (ResetCode(first, n) + OptionalCode(body, 0, max, greedy));
      } else if min == 1 && max == INFINITE && !check {
        Put(Split(greedy, at - (|code| + 5)));
        assert code == pre + (atom + Emit(Split(greedy, -(|atom| + 5))));
      } else {
        var begin := EmitTimes(at, min, pre, atom);
        if max > min || max == INFINITE {
          EmitBehind(begin, len, min, max, greedy, check, atom);
        } else {
          NoOptional(body, min, max, greedy);
        }
        assert code == pre + (TimesCode(atom, min) + OptionalCode(body, min, max, greedy));
      }
    }

    method EmitSimple(start: nat, min: nat, max: nat, chars: nat, ghost pre: Bytecode, ghost atom: Bytecode)
      requires code == pre + atom && |pre| == start && chars == CharCount(atom)
      modifies `code
      ensures code == pre + SimpleCode(atom, min, max)
    {
      hide CharCount;
      Put(Accept);
      assert code == pre + (atom + Emit(Accept));
      assert code[..start] == pre && code[start..] == atom + Emit(Accept);
      PutFront(start, SimpleGreedy(|code| - start, min, max, chars));
    }

    /**
    Emits the code of r at the end of the buffer. It fails exactly when the
    groups or a class exceed their limits.
    */
    method EmitPattern(r: Pattern, back: bool) returns (e: Option<Error>)
      requires Shaped(r) && groups <= GROUPS_MAX
      modifies this
      ensures e.None? <==> old(groups) + Groups(r) <= GROUPS_MAX && ClassesFit(r)
      ensures e.Some? ==> Blames(e.value, r, old(groups))
      ensures e.None? ==> code == old(code) + Code(r, old(groups), back) && groups == old(groups) + Groups(r)
      decreases r
    {
      hide QuantCode, Emit, RangeInstr, Oriented;
      e := None;
      match r
      case Empty => assert code + [] == code;
      case Literal(c) => EmitChar(LiteralInstr(c), back);
      case Dot => EmitChar(MatchDot, back);
      case AnyChar => EmitChar(MatchAny, back);
      case Class(pts) =>
        if |pts| / 2 >= 65535 { return Some(TooManyRanges); }
        EmitChar(RangeInstr(pts), back);
      case Assert(a) => Put(Test(a));
      case Concat(_, _) => e := EmitConcat(r, back);
      case Alternative(_, _) => e := EmitAlternative(r, back);
      case Capture(_) => e := EmitCapture(r, back);
      case Look(_, _, _) => e := EmitLook(r, back);
      case Quantified(_, _, _, _) => e := EmitQuantified(r, back);
    }

    /** re_parse_alternative: in a lookbehind the new term is rotated in front of the earlier ones. */
    method EmitConcat(r: Pattern, back: bool) returns (e: Option<Error>)
      requires r.Concat? && Shaped(r) && groups <= GROUPS_MAX
      modifies this
      ensures e.None? <==> old(groups) + Groups(r) <= GROUPS_MAX && ClassesFit(r)
      ensures e.Some? ==> Blames(e.value, r, old(groups))
      ensures e.None? ==> code == old(code) + Code(r, old(groups), back) && groups == old(groups) + Groups(r)
      decreases r, 0
    {
      hide Code;
      var start := |code|;
      ghost var pre, k := code, groups;
      e := EmitPattern(r.left, back);
      if e.Some? { return; }
      var term := |code|;
      e := EmitPattern(r.right, back);
      if e.Some? { return; }
      ghost var x, y := Code(r.left, k, back), Code(r.right, k + Groups(r.left), back);
      ConcatCode(r.left, r.right, k, back);
      assert code == pre + x + y;
      if back {
        var end := |code|;
        assert code[..start] == pre && code[start..term] == x && code[term..] == y;
        code := code[..start] + code[term..] + code[start..term];
        assert code == pre + (y + x);
      } else {
        assert code == pre + (x + y);
      }
    }

    /** re_parse_disjunction: a split in front of the first alternative, a patched jump behind it. */
    method EmitAlternative(r: Pattern, back: bool) returns (e: Option<Error>)
      requires r.Alternative? && Shaped(r) && groups <= GROUPS_MAX
      modifies this
      ensures e.None? <==> old(groups) + Groups(r) <= GROUPS_MAX && ClassesFit(r)
      ensures e.Some? ==> Blames(e.value, r, old(groups))
      ensures e.None? ==> code == old(code) + Code(r, old(groups), back) && groups == old(groups) + Groups(r)
      decreases r, 0
    {
      hide Code, Emit;
      var start := |code|;
      ghost var pre, k := code, groups;
      e := EmitPattern(r.left, back);
      if e.Some? { return; }
      ghost var x := Code(r.left, k, back);
      var len := |code| - start;
      Cut(pre, [], x);
      PutFront(start, Split(false, len + 5));
      ghost var front := code;
      var pos := |code|;
      Put(Goto(0));
      e := EmitPattern(r.right, back);
      if e.Some? { return; }
      ghost var y := Code(r.right, k + Groups(r.left), back);
      PatchGoto(pos, front, y);
      AlternativeCode(r.left, r.right, k, back);
      Assembled(pre, Emit(Split(false, |x| + 5)), x, Emit(Goto(|y|)), y);
    }

    /** Sets the jump at pos to the end of the buffer. */
    method PatchGoto(pos: nat, ghost front: Bytecode, ghost y: Bytecode)
      requires pos == |front| && code == front + Emit(Goto(0)) + y
      modifies `code
      ensures code == front + Emit(Goto(|y|)) + y
    {
      hide Emit;
      Cut(front, Emit(Goto(0)), y);
      Write(pos, Goto(|code| - (pos + 5)));
    }

    method EmitCapture(r: Pattern, back: bool) returns (e: Option<Error>)
      requires r.Capture? && Shaped(r) && groups <= GROUPS_MAX
      modifies this
      ensures e.None? <==> old(groups) + Groups(r) <= GROUPS_MAX && ClassesFit(r)
      ensures e.Some? ==> Blames(e.value, r, old(groups))
      ensures e.None? ==> code == old(code) + Code(r, old(groups), back) && groups == old(groups) + Groups(r)
      decreases r, 0
    {
      hide Code, Emit;
      ghost var pre := code;
      if groups >= GROUPS_MAX { return Some(TooManyCaptures); }
      var k := groups;
      groups := groups + 1;
      Put(Save(k, back));
      e := EmitPattern(r.body, back);
      if e.Some? { return; }
      Put(Save(k, !back));
      CaptureCode(r.body, k, back);
      assert code == pre + (Emit(Save(k, back)) + Code(r.body, k + 1, back) + Emit(Save(k, !back)));
    }

    method EmitLook(r: Pattern, back: bool) returns (e: Option<Error>)
      requires r.Look? && Shaped(r) && groups <= GROUPS_MAX
      modifies this
      ensures e.None? <==> old(groups) + Groups(r) <= GROUPS_MAX && ClassesFit(r)
      ensures e.Some? ==> Blames(e.value, r, old(groups))
      ensures e.None? ==> code == old(code) + Code(r, old(groups), back) && groups == old(groups) + Groups(r)
      decreases r, 0
    {
      hide Code, Emit;
      ghost var pre, k := code, groups;
      var pos := |code|;
      Put(LookAround(r.negative, 0));
      e := EmitPattern(r.body, r.behind);
      if e.Some? { return; }
      Put(Accept);
      ghost var x := Code(r.body, k, r.behind);
      assert code == pre + Emit(LookAround(r.negative, 0)) + (x + Emit(Accept));
      assert code[..pos] == pre && code[pos + 5..] == x + Emit(Accept);
      Write(pos, LookAround(r.negative, |code| - (pos + 5)));
      LookCode(r, k, back);
      assert code == pre + (Emit(LookAround(r.negative, |x| + 1)) + x + Emit(Accept));
    }

    method EmitQuantified(r: Pattern, back: bool) returns (e: Option<Error>)
      requires r.Quantified? && Shaped(r) && groups <= GROUPS_MAX
      modifies this
      ensures e.None? <==> old(groups) + Groups(r) <= GROUPS_MAX && ClassesFit(r)
      ensures e.Some? ==> Blames(e.value, r, old(groups))
      ensures e.None? ==> code == old(code) + Code(r, old(groups), back) && groups == old(groups) + Groups(r)
      decreases r, 0
    {
      hide Code, QuantCode, WellFormed;
      ghost var pre := code;
      var start, first := |code|, groups;
      e := EmitPattern(r.body, back);
      if e.Some? { return; }
      assert code[..start] == pre && code[start..] == Code(r.body, first, back);
      ShapedAndFit(r.body);
      CodeScannable(r.body, first, back);
      EmitQuantifier(start, first, r.min, r.max, r.greedy);
      QuantAtomCode(r, first, back);
    }
  }

  lemma Cut(x: Bytecode, y: Bytecode, z: Bytecode)
    ensures (x + y + z)[..|x|] == x && (x + y + z)[|x| + |y|..] == z
    ensures (x + z)[..|x|] == x && (x + z)[|x|..] == z
  {}

  lemma SliceKept(x: Bytecode, y: Bytecode, at: nat, len: nat)
    requires at + len <= |x|
    ensures (x + y)[at..at + len] == x[at..at + len]
  {}

  lemma Joined(pre: Bytecode, a: Bytecode, b: Bytecode, c: Bytecode)
    ensures pre + a + b + c == pre + (a + b + c)
  {}

  lemma Assembled(pre: Bytecode, a: Bytecode, b: Bytecode, c: Bytecode, d: Bytecode)
    ensures pre + a + b + c + d == pre + (a + b + c + d)
  {}

  lemma CaptureCode(p: Pattern, k: nat, back: bool)
    ensures Code(Capture(p), k, back) == Emit(Save(k, back)) + Code(p, k + 1, back) + Emit(Save(k, !back))
  {
    hide QuantCode, Groups, Emit, Oriented;
  }

  lemma LookCode(r: Pattern, k: nat, back: bool)
    requires r.Look?
    ensures var x := Code(r.body, k, r.behind);
            Code(r, k, back) == Emit(LookAround(r.negative, |x| + 1)) + x + Emit(Accept)
  {
    hide QuantCode, Groups, Emit, Oriented;
  }

  /** The greatest depth of the counter stack in a program. */
  ghost predicate Deepest(code: Bytecode, size: nat) {
    && (forall p :: 0 <= p <= |code| ==> DepthAt(code, p) <= size)
    && (exists p :: 0 <= p <= |code| && DepthAt(code, p) == size)
  }

  lemma ProgramScannable(r: Pattern, sticky: bool)
    requires WellFormed(r)
    ensures var c := Program(r, sticky);
            Scannable(c) && forall p :: 0 <= p < |c| && c[p].Op? && Pops(c[p].ins) ==> DepthAt(c, p) >= 1
  {
    hide Program, WellFormed, DepthAt, NestedOk, Searchable, Size, Groups;
    var c, t := Program(r, sticky), Text([], false, false);
    ProgramSafe(t, r, sticky);
    SafeScannable(t, c, 1 + Groups(r));
  }

  lemma SafeScannable(t: Text, c: Bytecode, n: nat)
    requires SafeCode(t, c, n)
    ensures Scannable(c) && forall p :: 0 <= p < |c| && c[p].Op? && Pops(c[p].ins) ==> DepthAt(c, p) >= 1
  {
    hide DepthAt, NestedOk, Searchable, Size, RegionOk;
    forall p | 0 <= p < |c| && c[p].Op?
      ensures Starts(c, p + Size(c[p].ins)) && (forall x :: p < x < p + Size(c[p].ins) ==> c[x] == Arg)
      ensures Pops(c[p].ins) ==> DepthAt(c, p) >= 1
    {
      OkAt(t, c, n, p);
    }
  }

  /** What the byte code can hold: groups, class sizes and the depth of the counter stack. */
  ghost predicate WithinLimits(r: Pattern, sticky: bool) {
    && 1 + Groups(r) <= 255 && ClassesFit(r)
    && forall p :: 0 <= p <= |Program(r, sticky)| ==> DepthAt(Program(r, sticky), p) <= 255
  }

  /**
  lre_compile behind the parser: a program is produced exactly when the groups,
  the classes and the nesting of counted loops stay within their limits.
  */
  method Compile(r: Pattern, sticky: bool) returns (c: Compiled)
    requires Shaped(r)
    ensures c.Ok? <==> WithinLimits(r, sticky)
    ensures c.Ok? ==> c.code == Program(r, sticky) && c.groups == 1 + Groups(r) <= GROUPS_MAX && WellFormed(r)
    ensures c.Ok? ==> Deepest(c.code, c.stackSize) && c.stackSize <= STACK_MAX
    ensures c.Err? && c.error.TooManyQuantifiers? ==>
      exists p :: 0 <= p <= |Program(r, sticky)| && DepthAt(Program(r, sticky), p) > 255
    ensures c.Err? && !c.error.TooManyQuantifiers? ==> Blames(c.error, r, 1)
  {
    hide Program, Groups, WellFormed, Scannable, DepthAt, Shaped, ClassesFit;
    var e, code, groups := EmitProgram(r, sticky);
    if e.Some? { return Err(e.value); }
    ShapedAndFit(r);
    ProgramScannable(r, sticky);
    var size := StackSize(code);
    if size < 0 { return Err(TooManyQuantifiers); }
    return Ok(code, groups, size);
  }

  /** The code of the pattern between the search loop, the two marks of group 0 and the accept. */
  method EmitProgram(r: Pattern, sticky: bool) returns (e: Option<Error>, code: Bytecode, groups: nat)
    requires Shaped(r)
    ensures e.None? <==> 1 + Groups(r) <= GROUPS_MAX && ClassesFit(r)
    ensures e.Some? ==> Blames(e.value, r, 1)
    ensures e.None? ==> code == Program(r, sticky) && groups == 1 + Groups(r)
  {
    hide Code, Emit, Shaped, ClassesFit;
    var g := new Generator();
    if !sticky {
      g.Put(Split(true, 6));
      g.Put(MatchAny);
      g.Put(Goto(-11));
    }
    assert g.code == SearchCode(sticky);
    g.Put(Save(0, false));
    e := g.EmitPattern(r, false);
    if e.None? {
      g.Put(Save(0, true));
      g.Put(Accept);
    }
    return e, g.code, g.groups;
  }

  lemma NoOptional(body: Bytecode, min: nat, max: nat, greedy: bool)
    requires max <= min && max < INFINITE
    ensures OptionalCode(body, min, max, greedy) == []
  {}

  lemma EmittedOption(pre: Bytecode, body: Bytecode, greedy: bool)
    ensures pre + Emit(Split(!greedy, |body| + 0)) + body == pre + OptionCode(body, greedy)
  {
    hide Emit;
  }

  lemma EmittedStar(pre: Bytecode, body: Bytecode, greedy: bool)
    ensures pre + Emit(Split(!greedy, |body| + 5)) + body + Emit(Goto(-(|body| + 10))) == pre + StarCode(body, greedy)
  {
    hide Emit;
  }

  lemma EmittedUpTo(pre: Bytecode, body: Bytecode, n: nat, greedy: bool)
    ensures pre + Emit(PushCount(n)) + Emit(Split(!greedy, |body| + 5)) + body + Emit(Loop(-(|body| + 10))) + Emit(Drop)
         == pre + UpToCode(body, n, greedy)
  {
    hide Emit;
  }

  lemma EmittedTimes(pre: Bytecode, atom: Bytecode, n: nat)
    requires n > 0
    ensures pre + TimesCode(atom, n) ==
            if n == 1 then pre + atom
            else pre + Emit(PushCount(n)) + atom + Emit(Loop(-(|atom| + 5))) + Emit(Drop)
  {
    hide Emit;
  }

  /** Where the atom sits in the code of its mandatory iterations. */
  lemma TimesAtom(pre: Bytecode, atom: Bytecode, n: nat, at: nat)
    requires n > 0 && at == |pre| + (if n > 1 then 5 else 0)
    ensures var c := pre + TimesCode(atom, n); at + |atom| <= |c| && c[at..at + |atom|] == atom
  {}
}
