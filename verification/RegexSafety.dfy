/**
Code closure and the stack bound: every jump of emitted code lands on an
instruction inside the segment it was emitted with or at its end, and the depth
of the counter stack is the one a linear scan of the code predicts. Hence on
every run the program counter is at an instruction and the stack stays within
the size computed by compute_stack_size.
*/
module RegexSafety {
  import opened RegexText
  import opened RegexSyntax
  import opened RegexSemantics
  import opened RegexMachine
  import opened RegexRange
  import opened RegexAtoms
  import opened RegexSimple
  import opened RegexCorrect
  import opened RegexMatch

  /** Change of the stack depth by an instruction. */
  function Effect(i: Instr): int {
    if i.PushCount? || i.PushPos? then 1 else if i.Drop? || i.CheckAdvance? then -1 else 0
  }

  /** The stack depth in front of position p, by a linear scan. */
  function DepthAt(code: Bytecode, p: nat): int
    requires p <= |code|
  {
    if p == 0 then 0
    else DepthAt(code, p - 1) + (if code[p - 1].Op? then Effect(code[p - 1].ins) else 0)
  }

  predicate Starts(code: Bytecode, p: int) {
    0 <= p <= |code| && (p < |code| ==> code[p].Op?)
  }

  function Offset(i: Instr): int
    requires Jumps(i)
  {
    i.offset
  }

  predicate Jumps(i: Instr) {
    i.Goto? || i.Split? || i.Loop? || i.LookAround? || i.SimpleGreedy?
  }

  predicate Pops(i: Instr) {
    i.Loop? || i.Drop? || i.CheckAdvance?
  }

  /** The nested run from pos stays within the atom and reads the announced number of characters. */
  ghost predicate NestedOkAt(t: Text, code: Bytecode, p: nat, pos: nat)
    requires p < |code| && code[p].Op? && code[p].ins.SimpleGreedy? && pos <= |t.units|
  {
    var r := NestedRun(t, code, p + 17, pos);
    && r != Broken
    && (r.Matched? ==> Boundary(t, r.pos) && CharsBefore(t, r.pos) == CharsBefore(t, pos) + code[p].ins.chars)
  }

  ghost predicate NestedOk(t: Text, code: Bytecode, p: nat)
    requires p < |code| && code[p].Op? && code[p].ins.SimpleGreedy?
  {
    forall pos :: 0 <= pos <= |t.units| && Boundary(t, pos) ==> NestedOkAt(t, code, p, pos)
  }

  /** The instruction at p: framed, jumping into [lo, hi], with the depth and the groups it needs. */
  ghost predicate InstrOk(t: Text, code: Bytecode, lo: nat, hi: nat, n: nat, p: nat)
    requires p < |code| && code[p].Op?
  {
    var i := code[p].ins;
    var next := p + Size(i);
    && Starts(code, next)
    && (forall x :: p < x < next ==> code[x] == Arg)
    && DepthAt(code, p) >= (if Pops(i) then 1 else 0)
    && (Jumps(i) ==>
          && lo <= next + Offset(i) <= hi && Starts(code, next + Offset(i))
          && DepthAt(code, next + Offset(i)) == DepthAt(code, p))
    && (i.Save? ==> i.group < n)
    && (i.SaveReset? ==> i.last < n)
    && (i.Range? ==> Searchable(i.ranges))
    && (i.SimpleGreedy? ==> NestedOk(t, code, p))
  }

  /** All instructions in [a, b) are in order and jump into [lo, hi]. */
  ghost predicate RegionOk(t: Text, code: Bytecode, lo: nat, hi: nat, n: nat, a: nat, b: nat)
    requires b <= |code|
  {
    forall p :: a <= p < b && code[p].Op? ==> InstrOk(t, code, lo, hi, n, p)
  }

  lemma RegionWiden(t: Text, code: Bytecode, lo: nat, hi: nat, n: nat, a: nat, b: nat, lo': nat, hi': nat)
    requires b <= |code| && lo' <= lo && hi <= hi' && RegionOk(t, code, lo, hi, n, a, b)
    ensures RegionOk(t, code, lo', hi', n, a, b)
  {
    forall p | a <= p < b && code[p].Op? ensures InstrOk(t, code, lo', hi', n, p) {
      assert InstrOk(t, code, lo, hi, n, p);
    }
  }

  lemma {:induction false} DepthOverArgs(code: Bytecode, a: nat, b: nat)
    requires a <= b <= |code| && forall x :: a <= x < b ==> code[x] == Arg
    ensures DepthAt(code, b) == DepthAt(code, a)
    decreases b
  {
    if a < b { DepthOverArgs(code, a, b - 1); }
  }

  lemma DepthAfter(code: Bytecode, a: nat, i: Instr)
    requires Placed(code, a, Emit(i))
    ensures a + Size(i) <= |code| && code[a] == Op(i)
    ensures DepthAt(code, a + Size(i)) == DepthAt(code, a) + Effect(i)
    ensures forall x :: a < x < a + Size(i) ==> code[x] == Arg
  {
    PlacedInstr(code, a, i);
    forall x | a < x < a + Size(i) ensures code[x] == Arg {
      assert code[x] == code[a..a + |Emit(i)|][x - a];
    }
    DepthOverArgs(code, a + 1, a + Size(i));
  }

  /** A single instruction as a region. */
  lemma InstrRegion(t: Text, code: Bytecode, lo: nat, hi: nat, n: nat, a: nat, i: Instr)
    requires Placed(code, a, Emit(i)) && Starts(code, a + Size(i))
    requires DepthAt(code, a) >= (if Pops(i) then 1 else 0)
    requires Jumps(i) ==>
      var target := a + Size(i) + Offset(i);
      lo <= target <= hi && Starts(code, target) && DepthAt(code, target) == DepthAt(code, a)
    requires (i.Save? ==> i.group < n) && (i.SaveReset? ==> i.last < n)
    requires i.Range? ==> Searchable(i.ranges)
    requires i.SimpleGreedy? ==> a < |code| && code[a] == Op(i) && NestedOk(t, code, a)
    ensures Starts(code, a) && a + Size(i) <= |code|
    ensures DepthAt(code, a + Size(i)) == DepthAt(code, a) + Effect(i)
    ensures RegionOk(t, code, lo, hi, n, a, a + Size(i))
  {
    hide Placed, DepthAt, NestedOk;
    DepthAfter(code, a, i);
  }

  /** What the induction over patterns establishes for placed code. */
  ghost predicate SegmentOk(t: Text, code: Bytecode, n: nat, a: nat, b: nat) {
    && a <= b <= |code|
    && Starts(code, a)
    && DepthAt(code, b) == DepthAt(code, a)
    && RegionOk(t, code, a, b, n, a, b)
  }

  /** A segment that may be placed at a: what follows begins with an instruction. */
  ghost predicate Slot(code: Bytecode, a: nat, c: Bytecode) {
    && Placed(code, a, c)
    && Starts(code, a + |c|)
    && DepthAt(code, a) >= 0
  }

  lemma SegmentJoin(t: Text, code: Bytecode, n: nat, a: nat, m: nat, b: nat)
    requires SegmentOk(t, code, n, a, m) && SegmentOk(t, code, n, m, b)
    ensures SegmentOk(t, code, n, a, b)
  {
    hide InstrOk, DepthAt;
    RegionWiden(t, code, a, m, n, a, m, a, b);
    RegionWiden(t, code, m, b, n, m, b, a, b);
  }

  lemma StartsAt(code: Bytecode, a: nat, i: Instr)
    requires Placed(code, a, Emit(i))
    ensures Starts(code, a)
  {
    PlacedInstr(code, a, i);
  }

  /** An instruction that neither jumps nor moves the stack. */
  lemma PlainSegment(t: Text, code: Bytecode, n: nat, a: nat, i: Instr)
    requires Slot(code, a, Emit(i)) && !Jumps(i) && Effect(i) == 0 && !Pops(i)
    requires (i.Save? ==> i.group < n) && (i.SaveReset? ==> i.last < n) && (i.Range? ==> Searchable(i.ranges))
    ensures SegmentOk(t, code, n, a, a + Size(i))
  {
    hide Placed, DepthAt;
    InstrRegion(t, code, a, a + Size(i), n, a, i);
  }

  // ----- emitted segments -----

  predicate Headed(c: Bytecode) {
    c == [] || c[0].Op?
  }

  lemma {:induction false} CodeHeaded(r: Pattern, k: nat, back: bool)
    ensures Headed(Code(r, k, back))
    decreases r
  {
    hide Groups, MayStay, SimpleAtom, CharCount, QuantCode, RangeInstr;
    match r
    case Concat(a, b) =>
      CodeHeaded(a, k, back);
      CodeHeaded(b, k + Groups(a), back);
    case Quantified(a, min, max, greedy) =>
      CodeHeaded(a, k, back);
      QuantHeaded(Code(a, k, back), k, Groups(a), min, max, greedy);
    case _ =>
  }

  lemma QuantHeaded(atom: Bytecode, k: nat, n: nat, min: nat, max: nat, greedy: bool)
    requires Headed(atom)
    ensures Headed(QuantCode(atom, k, n, min, max, greedy))
  {
    hide MayStay, SimpleAtom, CharCount;
  }

  lemma PlacedStarts(code: Bytecode, a: nat, c: Bytecode)
    requires Placed(code, a, c) && Headed(c) && Starts(code, a + |c|)
    ensures Starts(code, a)
  {
    if c != [] { assert code[a] == code[a..a + |c|][0]; }
  }

  ghost predicate Context(t: Text, r: Pattern, k: nat, n: nat) {
    ValidText(t) && WellFormed(r) && k + Groups(r) <= n
  }

  /** Every emitted segment is closed under its jumps and keeps the depth. */
  lemma {:induction false} Segment(t: Text, code: Bytecode, r: Pattern, k: nat, back: bool, n: nat, a: nat)
    requires Context(t, r, k, n) && Slot(code, a, Code(r, k, back))
    ensures SegmentOk(t, code, n, a, a + |Code(r, k, back)|)
    decreases r, 1
  {
    hide Code, SegmentOk, Slot;
    match r
    case Empty => EmptySegment(t, code, k, back, n, a);
    case Assert(x) => AssertSegment(t, code, x, k, back, n, a);
    case Concat(_, _) => ConcatSegment(t, code, r, k, back, n, a);
    case Alternative(_, _) => AlternativeSegment(t, code, r, k, back, n, a);
    case Capture(_) => CaptureSegment(t, code, r, k, back, n, a);
    case Look(_, _, _) => LookSegment(t, code, r, k, back, n, a);
    case Quantified(_, _, _, _) => QuantSegment(t, code, r, k, back, n, a);
    case _ => CharSegment(t, code, r, k, back, n, a);
  }

  lemma EmptySegment(t: Text, code: Bytecode, k: nat, back: bool, n: nat, a: nat)
    requires Slot(code, a, Code(Empty, k, back))
    ensures SegmentOk(t, code, n, a, a + |Code(Empty, k, back)|)
  {}

  lemma AssertSegment(t: Text, code: Bytecode, x: Assertion, k: nat, back: bool, n: nat, a: nat)
    requires Slot(code, a, Code(Assert(x), k, back))
    ensures SegmentOk(t, code, n, a, a + |Code(Assert(x), k, back)|)
  {
    hide SegmentOk, Slot;
    PlainSegment(t, code, n, a, Test(x));
  }

  lemma CharSegment(t: Text, code: Bytecode, r: Pattern, k: nat, back: bool, n: nat, a: nat)
    requires OneChar(r) && WellFormed(r) && Slot(code, a, Code(r, k, back))
    ensures SegmentOk(t, code, n, a, a + |Code(r, k, back)|)
  {
    hide SegmentOk, Placed, DepthAt, Searchable;
    var i := CharInstr(r);
    if r.Class? { ClassSearchable(r.points); }
    if back {
      assert Code(r, k, back) == Emit(StepBack) + Emit(i) + Emit(StepBack);
      BackSegment(t, code, n, a, i);
    } else {
      PlainSegment(t, code, n, a, i);
    }
  }

  lemma BackSegment(t: Text, code: Bytecode, n: nat, a: nat, i: Instr)
    requires Slot(code, a, Emit(StepBack) + Emit(i) + Emit(StepBack)) && Consuming(i)
    requires i.Range? ==> Searchable(i.ranges)
    ensures SegmentOk(t, code, n, a, a + 2 + Size(i))
  {
    hide SegmentOk, Placed, DepthAt, Emit, RegionOk, InstrOk;
    PlacedParts(code, a, Emit(StepBack) + Emit(i), Emit(StepBack));
    PlacedParts(code, a, Emit(StepBack), Emit(i));
    StartsAt(code, a + 1, i);
    StartsAt(code, a + 1 + Size(i), StepBack);
    DepthAfter(code, a, StepBack);
    DepthAfter(code, a + 1, i);
    PlainSegment(t, code, n, a, StepBack);
    PlainSegment(t, code, n, a + 1, i);
    PlainSegment(t, code, n, a + 1 + Size(i), StepBack);
    SegmentJoin(t, code, n, a, a + 1, a + 1 + Size(i));
    SegmentJoin(t, code, n, a, a + 1 + Size(i), a + 2 + Size(i));
  }

  lemma {:induction false} ConcatSegment(t: Text, code: Bytecode, r: Pattern, k: nat, back: bool, n: nat, a: nat)
    requires r.Concat? && Context(t, r, k, n) && Slot(code, a, Code(r, k, back))
    ensures SegmentOk(t, code, n, a, a + |Code(r, k, back)|)
    decreases r, 0
  {
    hide SegmentOk, Slot, Code, ValidText;
    ConcatCode(r.left, r.right, k, back);
    if back {
      ChainSegment(t, code, r, r.right, k + Groups(r.left), r.left, k, back, n, a);
    } else {
      ChainSegment(t, code, r, r.left, k, r.right, k + Groups(r.left), back, n, a);
    }
  }

  lemma {:induction false} ChainSegment(t: Text, code: Bytecode, r: Pattern, p: Pattern, kp: nat, q: Pattern, kq: nat,
      back: bool, n: nat, a: nat)
    requires Context(t, p, kp, n) && Context(t, q, kq, n) && (r == Concat(p, q) || r == Concat(q, p))
    requires Slot(code, a, Code(p, kp, back) + Code(q, kq, back))
    ensures SegmentOk(t, code, n, a, a + |Code(p, kp, back) + Code(q, kq, back)|)
    decreases r, -1
  {
    hide Placed, DepthAt, RegionOk, Code, Context, Headed;
    var x, y := Code(p, kp, back), Code(q, kq, back);
    PlacedParts(code, a, x, y);
    CodeHeaded(q, kq, back);
    PlacedStarts(code, a + |x|, y);
    Segment(t, code, p, kp, back, n, a);
    Segment(t, code, q, kq, back, n, a + |x|);
    SegmentJoin(t, code, n, a, a + |x|, a + |x| + |y|);
  }

  lemma {:induction false} AlternativeSegment(t: Text, code: Bytecode, r: Pattern, k: nat, back: bool, n: nat, a: nat)
    requires r.Alternative? && Context(t, r, k, n) && Slot(code, a, Code(r, k, back))
    ensures SegmentOk(t, code, n, a, a + |Code(r, k, back)|)
    decreases r, 0
  {
    hide Placed, DepthAt, RegionOk, Code, Headed, Emit, ValidText;
    var p, q, k' := r.left, r.right, k + Groups(r.left);
    var x, y := |Code(p, k, back)|, |Code(q, k', back)|;
    var m, b, e := a + 5 + x, a + 10 + x, a + 10 + x + y;
    AlternativePlaces(code, p, q, k, back, a);
    StartsAt(code, m, Goto(y));
    CodeHeaded(p, k, back);
    CodeHeaded(q, k', back);
    PlacedStarts(code, a + 5, Code(p, k, back));
    PlacedStarts(code, b, Code(q, k', back));
    DepthAfter(code, a, Split(false, x + 5));
    Segment(t, code, p, k, back, n, a + 5);
    DepthAfter(code, m, Goto(y));
    Segment(t, code, q, k', back, n, b);
    InstrRegion(t, code, a, e, n, a, Split(false, x + 5));
    InstrRegion(t, code, a, e, n, m, Goto(y));
    RegionWiden(t, code, a + 5, m, n, a + 5, m, a, e);
    RegionWiden(t, code, b, e, n, b, e, a, e);
    RegionsMeet(t, code, a, e, n, a, a + 5, m);
    RegionsMeet(t, code, a, e, n, a, m, b);
    RegionsMeet(t, code, a, e, n, a, b, e);
  }

  lemma RegionsMeet(t: Text, code: Bytecode, lo: nat, hi: nat, n: nat, a: nat, m: nat, b: nat)
    requires a <= m <= b <= |code| && RegionOk(t, code, lo, hi, n, a, m) && RegionOk(t, code, lo, hi, n, m, b)
    ensures RegionOk(t, code, lo, hi, n, a, b)
  {
    hide InstrOk;
  }

  lemma {:induction false} CaptureSegment(t: Text, code: Bytecode, r: Pattern, k: nat, back: bool, n: nat, a: nat)
    requires r.Capture? && Context(t, r, k, n) && Slot(code, a, Code(r, k, back))
    ensures SegmentOk(t, code, n, a, a + |Code(r, k, back)|)
    decreases r, 0
  {
    hide Placed, DepthAt, RegionOk, Code, Headed, Emit, ValidText;
    var x := |Code(r.body, k + 1, back)|;
    CapturePlaces(code, r, k, back, a);
    StartsAt(code, a + 2 + x, Save(k, !back));
    CodeHeaded(r.body, k + 1, back);
    PlacedStarts(code, a + 2, Code(r.body, k + 1, back));
    DepthAfter(code, a, Save(k, back));
    Segment(t, code, r.body, k + 1, back, n, a + 2);
    PlainSegment(t, code, n, a, Save(k, back));
    PlainSegment(t, code, n, a + 2 + x, Save(k, !back));
    SegmentJoin(t, code, n, a, a + 2, a + 2 + x);
    SegmentJoin(t, code, n, a, a + 2 + x, a + 4 + x);
  }

  lemma {:induction false} LookSegment(t: Text, code: Bytecode, r: Pattern, k: nat, back: bool, n: nat, a: nat)
    requires r.Look? && Context(t, r, k, n) && Slot(code, a, Code(r, k, back))
    ensures SegmentOk(t, code, n, a, a + |Code(r, k, back)|)
    decreases r, 0
  {
    hide Placed, DepthAt, RegionOk, Code, Headed, Emit, ValidText;
    var x := |Code(r.body, k, r.behind)|;
    var i, m, e := LookAround(r.negative, x + 1), a + 5 + x, a + 6 + x;
    LookPlaces(code, r, k, back, a);
    StartsAt(code, m, Accept);
    CodeHeaded(r.body, k, r.behind);
    PlacedStarts(code, a + 5, Code(r.body, k, r.behind));
    DepthAfter(code, a, i);
    Segment(t, code, r.body, k, r.behind, n, a + 5);
    InstrRegion(t, code, a, e, n, m, Accept);
    InstrRegion(t, code, a, e, n, a, i);
    RegionWiden(t, code, a + 5, m, n, a + 5, m, a, e);
    RegionsMeet(t, code, a, e, n, a, a + 5, m);
    RegionsMeet(t, code, a, e, n, a, m, e);
  }

  // ----- quantifiers -----

  /** Wherever the body of a loop is placed, it is a segment. */
  ghost predicate BodyOk(t: Text, code: Bytecode, n: nat, body: Bytecode) {
    && Headed(body)
    && forall a: nat :: Slot(code, a, body) ==> SegmentOk(t, code, n, a, a + |body|)
  }

  lemma GuardedSegment(t: Text, code: Bytecode, n: nat, atom: Bytecode, check: bool)
    requires BodyOk(t, code, n, atom)
    ensures BodyOk(t, code, n, Guarded(atom, check))
  {
    hide Slot, SegmentOk;
    if check {
      forall a: nat | Slot(code, a, Guarded(atom, check)) ensures SegmentOk(t, code, n, a, a + |Guarded(atom, check)|) {
        CheckedSegment(t, code, n, atom, a);
      }
    }
  }

  lemma CheckedSegment(t: Text, code: Bytecode, n: nat, atom: Bytecode, a: nat)
    requires BodyOk(t, code, n, atom) && Slot(code, a, Guarded(atom, true))
    ensures SegmentOk(t, code, n, a, a + |Guarded(atom, true)|)
  {
    hide Placed, DepthAt, RegionOk, Guarded, Emit;
    var m, e := a + 1 + |atom|, a + 2 + |atom|;
    GuardedPlaces(code, a, atom);
    StartsAt(code, m, CheckAdvance);
    PlacedStarts(code, a + 1, atom);
    DepthAfter(code, a, PushPos);
    assert Slot(code, a + 1, atom);
    InstrRegion(t, code, a, e, n, a, PushPos);
    InstrRegion(t, code, a, e, n, m, CheckAdvance);
    RegionWiden(t, code, a + 1, m, n, a + 1, m, a, e);
    RegionsMeet(t, code, a, e, n, a, a + 1, m);
    RegionsMeet(t, code, a, e, n, a, m, e);
  }

  lemma StarSegment(t: Text, code: Bytecode, n: nat, body: Bytecode, greedy: bool, a: nat)
    requires BodyOk(t, code, n, body) && Slot(code, a, StarCode(body, greedy))
    ensures SegmentOk(t, code, n, a, a + |StarCode(body, greedy)|)
  {
    hide Placed, DepthAt, RegionOk, Emit, StarCode;
    var i, j := Split(!greedy, |body| + 5), Goto(-(|body| + 10));
    var m, e := a + 5 + |body|, a + 10 + |body|;
    StarPlaces(code, a, body, greedy);
    StartsAt(code, a, i);
    StartsAt(code, m, j);
    PlacedStarts(code, a + 5, body);
    DepthAfter(code, a, i);
    assert Slot(code, a + 5, body);
    DepthAfter(code, m, j);
    InstrRegion(t, code, a, e, n, a, i);
    InstrRegion(t, code, a, e, n, m, j);
    RegionWiden(t, code, a + 5, m, n, a + 5, m, a, e);
    RegionsMeet(t, code, a, e, n, a, a + 5, m);
    RegionsMeet(t, code, a, e, n, a, m, e);
  }

  lemma OptionSegment(t: Text, code: Bytecode, n: nat, body: Bytecode, greedy: bool, a: nat)
    requires BodyOk(t, code, n, body) && Slot(code, a, OptionCode(body, greedy))
    ensures SegmentOk(t, code, n, a, a + |OptionCode(body, greedy)|)
  {
    hide Placed, DepthAt, RegionOk, Emit;
    var i, e := Split(!greedy, |body|), a + 5 + |body|;
    PlacedParts(code, a, Emit(i), body);
    PlacedStarts(code, a + 5, body);
    DepthAfter(code, a, i);
    assert Slot(code, a + 5, body);
    InstrRegion(t, code, a, e, n, a, i);
    RegionWiden(t, code, a + 5, e, n, a + 5, e, a, e);
    RegionsMeet(t, code, a, e, n, a, a + 5, e);
  }

  lemma UpToSegment(t: Text, code: Bytecode, n: nat, body: Bytecode, count: nat, greedy: bool, a: nat)
    requires BodyOk(t, code, n, body) && Slot(code, a, UpToCode(body, count, greedy))
    ensures SegmentOk(t, code, n, a, a + |UpToCode(body, count, greedy)|)
  {
    hide Placed, DepthAt, RegionOk, Emit, UpToCode;
    var i, j := Split(!greedy, |body| + 5), Loop(-(|body| + 10));
    var m, d, e := a + 10 + |body|, a + 15 + |body|, a + 16 + |body|;
    UpToPlaces(code, a, body, count, greedy);
    StartsAt(code, a + 5, i);
    StartsAt(code, m, j);
    StartsAt(code, d, Drop);
    PlacedStarts(code, a + 10, body);
    DepthAfter(code, a, PushCount(count));
    DepthAfter(code, a + 5, i);
    assert Slot(code, a + 10, body);
    DepthAfter(code, m, j);
    InstrRegion(t, code, a, e, n, a, PushCount(count));
    InstrRegion(t, code, a, e, n, a + 5, i);
    InstrRegion(t, code, a, e, n, m, j);
    InstrRegion(t, code, a, e, n, d, Drop);
    RegionWiden(t, code, a + 10, m, n, a + 10, m, a, e);
    RegionsMeet(t, code, a, e, n, a, a + 5, a + 10);
    RegionsMeet(t, code, a, e, n, a, a + 10, m);
    RegionsMeet(t, code, a, e, n, a, m, d);
    RegionsMeet(t, code, a, e, n, a, d, e);
  }

  lemma TimesSegment(t: Text, code: Bytecode, n: nat, atom: Bytecode, count: nat, a: nat)
    requires BodyOk(t, code, n, atom) && count > 0 && Slot(code, a, TimesCode(atom, count))
    ensures SegmentOk(t, code, n, a, a + |TimesCode(atom, count)|)
  {
    hide Slot, SegmentOk;
    if count > 1 { RepeatSegment(t, code, n, atom, count, a); }
  }

  lemma RepeatSegment(t: Text, code: Bytecode, n: nat, atom: Bytecode, count: nat, a: nat)
    requires BodyOk(t, code, n, atom) && count > 1 && Slot(code, a, TimesCode(atom, count))
    ensures SegmentOk(t, code, n, a, a + |TimesCode(atom, count)|)
  {
    hide Placed, DepthAt, RegionOk, Emit, TimesCode;
    var j := Loop(-(|atom| + 5));
    var m, d, e := a + 5 + |atom|, a + 10 + |atom|, a + 11 + |atom|;
    TimesPlaces(code, a, atom, count);
    StartsAt(code, m, j);
    StartsAt(code, d, Drop);
    PlacedStarts(code, a + 5, atom);
    DepthAfter(code, a, PushCount(count));
    assert Slot(code, a + 5, atom);
    DepthAfter(code, m, j);
    InstrRegion(t, code, a, e, n, a, PushCount(count));
    InstrRegion(t, code, a, e, n, m, j);
    InstrRegion(t, code, a, e, n, d, Drop);
    RegionWiden(t, code, a + 5, m, n, a + 5, m, a, e);
    RegionsMeet(t, code, a, e, n, a, a + 5, m);
    RegionsMeet(t, code, a, e, n, a, m, d);
    RegionsMeet(t, code, a, e, n, a, d, e);
  }

  lemma PlusSegment(t: Text, code: Bytecode, n: nat, atom: Bytecode, greedy: bool, a: nat)
    requires BodyOk(t, code, n, atom) && Slot(code, a, atom + Emit(Split(greedy, -(|atom| + 5))))
    ensures SegmentOk(t, code, n, a, a + |atom| + 5)
  {
    hide Placed, DepthAt, RegionOk, Emit;
    var i, m, e := Split(greedy, -(|atom| + 5)), a + |atom|, a + |atom| + 5;
    PlacedParts(code, a, atom, Emit(i));
    StartsAt(code, m, i);
    PlacedStarts(code, a, atom);
    assert Slot(code, a, atom);
    InstrRegion(t, code, a, e, n, m, i);
    RegionWiden(t, code, a, m, n, a, m, a, e);
    RegionsMeet(t, code, a, e, n, a, m, e);
  }

  lemma OptionalSegment(t: Text, code: Bytecode, n: nat, body: Bytecode, min: nat, max: nat, greedy: bool, a: nat)
    requires BodyOk(t, code, n, body) && Slot(code, a, OptionalCode(body, min, max, greedy))
    ensures SegmentOk(t, code, n, a, a + |OptionalCode(body, min, max, greedy)|)
  {
    hide BodyOk, StarCode, OptionCode, UpToCode, SegmentOk, Slot;
    if max == INFINITE {
      StarSegment(t, code, n, body, greedy, a);
    } else if max > min {
      if min == 0 && max == 1 { OptionSegment(t, code, n, body, greedy, a); }
      else { UpToSegment(t, code, n, body, max - min, greedy, a); }
    } else {
      NoSegment(t, code, n, a);
    }
  }

  lemma NoSegment(t: Text, code: Bytecode, n: nat, a: nat)
    requires Slot(code, a, [])
    ensures SegmentOk(t, code, n, a, a)
  {}

  lemma SimpleSegment(t: Text, code: Bytecode, r: Pattern, k: nat, back: bool, n: nat, min: nat, max: nat, a: nat)
    requires ValidText(t) && WellFormed(r) && SimpleAtom(Code(r, k, back)) && BodyOk(t, code, n, Code(r, k, back))
    requires Slot(code, a, SimpleCode(Code(r, k, back), min, max))
    ensures SegmentOk(t, code, n, a, a + |SimpleCode(Code(r, k, back), min, max)|)
  {
    hide Placed, DepthAt, Emit, Code, SimpleAtom, CharCount, RegionOk, NestedOk;
    var c, i := Code(r, k, back), SimpleInstr(r, k, back, min, max);
    var m, e := a + 17 + |c|, a + 18 + |c|;
    assert SimpleAt(code, r, k, back, a, min, max);
    PlacedParts(code, a, Emit(i) + c, Emit(Accept));
    PlacedParts(code, a, Emit(i), c);
    StartsAt(code, m, Accept);
    PlacedStarts(code, a + 17, c);
    DepthAfter(code, a, i);
    assert Slot(code, a + 17, c);
    DepthAfter(code, m, Accept);
    InstrRegion(t, code, a, e, n, m, Accept);
    NestedStays(t, code, r, k, back, a, min, max);
    InstrRegion(t, code, a, e, n, a, i);
    RegionWiden(t, code, a + 17, m, n, a + 17, m, a, e);
    RegionsMeet(t, code, a, e, n, a, a + 17, m);
    RegionsMeet(t, code, a, e, n, a, m, e);
  }

  lemma NestedStays(t: Text, code: Bytecode, r: Pattern, k: nat, back: bool, a: nat, min: nat, max: nat)
    requires ValidText(t) && WellFormed(r) && SimpleAt(code, r, k, back, a, min, max)
    requires a < |code| && code[a] == Op(SimpleInstr(r, k, back, min, max))
    ensures NestedOk(t, code, a)
  {
    hide Code, SimpleAt, CharCount, NestedRun, Boundary, CharsBefore, Ends, WellFormed, ValidText;
    forall pos | 0 <= pos <= |t.units| && Boundary(t, pos) ensures NestedOkAt(t, code, a, pos) {
      OneIteration(t, code, r, k, back, a, min, max, State(pos, []));
    }
  }

  lemma GeneralSegment(t: Text, code: Bytecode, n: nat, atom: Bytecode, k: nat, g: nat, min: nat, max: nat,
      greedy: bool, a: nat)
    requires BodyOk(t, code, n, atom) && k + g <= n && Slot(code, a, GeneralCode(atom, k, g, min, max, greedy))
    ensures SegmentOk(t, code, n, a, a + |GeneralCode(atom, k, g, min, max, greedy)|)
  {
    hide Placed, DepthAt, RegionOk, OptionalCode, TimesCode, MayStay, Guarded, BodyOk, Emit;
    var check := greedy && MayStay(atom);
    var body := Guarded(atom, check);
    GuardedSegment(t, code, n, atom, check);
    if min == 0 {
      ZeroSegment(t, code, n, body, k, g, max, greedy, a);
    } else if min == 1 && max == INFINITE && !check {
      PlusSegment(t, code, n, atom, greedy, a);
    } else {
      var x, y := TimesCode(atom, min), OptionalCode(body, min, max, greedy);
      PlacedParts(code, a, x, y);
      OptionalHeaded(body, min, max, greedy);
      PlacedStarts(code, a + |x|, y);
      TimesSegment(t, code, n, atom, min, a);
      OptionalSegment(t, code, n, body, min, max, greedy, a + |x|);
      SegmentJoin(t, code, n, a, a + |x|, a + |x| + |y|);
    }
  }

  lemma ZeroSegment(t: Text, code: Bytecode, n: nat, body: Bytecode, k: nat, g: nat, max: nat, greedy: bool, a: nat)
    requires BodyOk(t, code, n, body) && k + g <= n
    requires Slot(code, a, ResetCode(k, g) + OptionalCode(body, 0, max, greedy))
    ensures SegmentOk(t, code, n, a, a + |ResetCode(k, g) + OptionalCode(body, 0, max, greedy)|)
  {
    hide Placed, DepthAt, RegionOk, OptionalCode, BodyOk, Emit;
    var x, y := ResetCode(k, g), OptionalCode(body, 0, max, greedy);
    PlacedParts(code, a, x, y);
    OptionalHeaded(body, 0, max, greedy);
    PlacedStarts(code, a + |x|, y);
    if g > 0 {
      DepthAfter(code, a, SaveReset(k, k + g - 1));
      PlainSegment(t, code, n, a, SaveReset(k, k + g - 1));
    }
    OptionalSegment(t, code, n, body, 0, max, greedy, a + |x|);
    if g > 0 { SegmentJoin(t, code, n, a, a + |x|, a + |x| + |y|); }
  }

  lemma OptionalHeaded(body: Bytecode, min: nat, max: nat, greedy: bool)
    ensures Headed(OptionalCode(body, min, max, greedy))
  {}

  lemma {:induction false} QuantSegment(t: Text, code: Bytecode, r: Pattern, k: nat, back: bool, n: nat, a: nat)
    requires r.Quantified? && Context(t, r, k, n) && Slot(code, a, Code(r, k, back))
    ensures SegmentOk(t, code, n, a, a + |Code(r, k, back)|)
    decreases r, 0
  {
    hide Slot, SegmentOk, Code, GeneralCode, SimpleCode, SimpleAtom, ValidText, Headed;
    var atom := Code(r.body, k, back);
    CodeHeaded(r.body, k, back);
    forall b: nat | Slot(code, b, atom) ensures SegmentOk(t, code, n, b, b + |atom|) {
      Segment(t, code, r.body, k, back, n, b);
    }
    QuantAtomCode(r, k, back);
    if r.greedy && r.max > 0 && SimpleAtom(atom) {
      SimpleSegment(t, code, r.body, k, back, n, r.min, r.max, a);
    } else {
      GeneralSegment(t, code, n, atom, k, Groups(r.body), r.min, r.max, r.greedy, a);
    }
  }

  // ----- whole programs -----

  /** Code that runs safely: every instruction is in order and the last one accepts. */
  ghost predicate SafeCode(t: Text, code: Bytecode, n: nat) {
    && 0 < |code|
    && code[0].Op?
    && code[|code| - 1] == Op(Accept)
    && RegionOk(t, code, 0, |code| - 1, n, 0, |code|)
  }

  lemma ProgramSafe(t: Text, r: Pattern, sticky: bool)
    requires ValidText(t) && WellFormed(r)
    ensures SafeCode(t, Program(r, sticky), 1 + Groups(r))
  {
    hide Placed, DepthAt, RegionOk, Emit, Code, Program, ValidText, WellFormed, Groups, Headed;
    var p, a, c, n := Program(r, sticky), CoreStart(sticky), Code(r, 1, false), 1 + Groups(r);
    var m, e, hi := a + 2 + |c|, a + 4 + |c|, |p| - 1;
    ProgramPlaces(r, sticky);
    StartsAt(p, a, Save(0, false));
    StartsAt(p, m, Save(0, true));
    StartsAt(p, e, Accept);
    CodeHeaded(r, 1, false);
    PlacedStarts(p, a + 2, c);
    if !sticky { SearchRegion(t, p, n); }
    assert DepthAt(p, a) == 0 && RegionOk(t, p, 0, hi, n, 0, a) by { NothingYet(t, p, n, hi);
      if !sticky { RegionWiden(t, p, 0, 11, n, 0, 11, 0, hi); } }
    InstrRegion(t, p, 0, hi, n, a, Save(0, false));
    Segment(t, p, r, 1, false, n, a + 2);
    RegionWiden(t, p, a + 2, m, n, a + 2, m, 0, hi);
    InstrRegion(t, p, 0, hi, n, m, Save(0, true));
    InstrRegion(t, p, 0, hi, n, e, Accept);
    RegionsMeet(t, p, 0, hi, n, 0, a, a + 2);
    RegionsMeet(t, p, 0, hi, n, 0, a + 2, m);
    RegionsMeet(t, p, 0, hi, n, 0, m, e);
    RegionsMeet(t, p, 0, hi, n, 0, e, |p|);
    PlacedInstr(p, e, Accept);
    if !sticky { StartsAt(p, 0, Split(true, 6)); }
  }

  lemma NothingYet(t: Text, code: Bytecode, n: nat, hi: nat)
    ensures DepthAt(code, 0) == 0 && RegionOk(t, code, 0, hi, n, 0, 0)
  {}

  lemma SearchRegion(t: Text, p: Bytecode, n: nat)
    requires Placed(p, 0, Emit(Split(true, 6))) && Placed(p, 5, Emit(MatchAny)) && Placed(p, 6, Emit(Goto(-11)))
    requires Starts(p, 11)
    ensures RegionOk(t, p, 0, 11, n, 0, 11) && DepthAt(p, 11) == 0
  {
    hide Placed, DepthAt, RegionOk, Emit;
    NothingYet(t, p, n, 11);
    StartsAt(p, 0, Split(true, 6));
    StartsAt(p, 5, MatchAny);
    StartsAt(p, 6, Goto(-11));
    DepthAfter(p, 0, Split(true, 6));
    DepthAfter(p, 5, MatchAny);
    DepthAfter(p, 6, Goto(-11));
    InstrRegion(t, p, 0, 11, n, 0, Split(true, 6));
    InstrRegion(t, p, 0, 11, n, 5, MatchAny);
    InstrRegion(t, p, 0, 11, n, 6, Goto(-11));
    RegionsMeet(t, p, 0, 11, n, 0, 5, 6);
    RegionsMeet(t, p, 0, 11, n, 0, 6, 11);
  }

  // ----- every run -----

  /** pc is at an instruction and the stack has the depth predicted there. */
  ghost predicate Framed(t: Text, code: Bytecode, n: nat, pc: nat, pos: nat, caps: Captures, stack: seq<nat>) {
    && pc < |code| && code[pc].Op?
    && pos <= |t.units| && Boundary(t, pos)
    && |caps| == 2 * n
    && |stack| == DepthAt(code, pc)
  }

  ghost predicate PointOk(t: Text, code: Bytecode, n: nat, p: Point) {
    && Framed(t, code, n, p.pc, p.pos, p.caps, p.stack)
    && (p.kind.GreedyPoint? ==>
          code[p.pc].ins.SimpleGreedy? && p.count > 0 && p.count * code[p.pc].ins.chars <= CharsBefore(t, p.pos))
  }

  ghost predicate PointsOk(t: Text, code: Bytecode, n: nat, ps: seq<Point>) {
    forall i :: 0 <= i < |ps| ==> PointOk(t, code, n, ps[i])
  }

  ghost predicate RegistersOk(t: Text, code: Bytecode, n: nat, m: Registers) {
    Framed(t, code, n, m.pc, m.pos, m.caps, m.stack) && PointsOk(t, code, n, m.points)
  }

  /** The invariant of the machine on safe code; Stuck never satisfies it. */
  ghost predicate Healthy(t: Text, code: Bytecode, n: nat, c: Config) {
    match c
    case Run(m) => RegistersOk(t, code, n, m)
    case Iterate(m, done) =>
      && RegistersOk(t, code, n, m) && code[m.pc].ins.SimpleGreedy?
      && done * code[m.pc].ins.chars <= CharsBefore(t, m.pos)
    case Fail(ps) => PointsOk(t, code, n, ps)
    case Hit(caps, ps) => |caps| == 2 * n && PointsOk(t, code, n, ps)
    case Done(matched, caps) => matched ==> |caps| == 2 * n
    case Stuck => false
  }

  lemma OkAt(t: Text, code: Bytecode, n: nat, pc: nat)
    requires SafeCode(t, code, n) && pc < |code| && code[pc].Op?
    ensures InstrOk(t, code, 0, |code| - 1, n, pc)
  {
    hide InstrOk;
  }

  /** No instruction but the accept at the end falls off the code. */
  lemma NextAt(t: Text, code: Bytecode, n: nat, pc: nat)
    requires SafeCode(t, code, n) && pc < |code| && code[pc].Op? && !code[pc].ins.Accept?
    ensures var next := pc + Size(code[pc].ins);
            next < |code| && code[next].Op? && DepthAt(code, next) == DepthAt(code, pc) + Effect(code[pc].ins)
  {
    hide RegionOk, NestedOk, Searchable, Size;
    OkAt(t, code, n, pc);
    var next := pc + Size(code[pc].ins);
    assert next <= |code| - 1;
    DepthOverArgs(code, pc + 1, next);
  }

  /** Facts about the instruction at pc. */
  lemma AtInstr(t: Text, code: Bytecode, n: nat, pc: nat)
    requires SafeCode(t, code, n) && pc < |code| && code[pc].Op?
    ensures InstrOk(t, code, 0, |code| - 1, n, pc)
    ensures !code[pc].ins.Accept? ==>
      var next := pc + Size(code[pc].ins);
      next < |code| && code[next].Op? && DepthAt(code, next) == DepthAt(code, pc) + Effect(code[pc].ins)
    ensures Jumps(code[pc].ins) ==>
      var target := pc + Size(code[pc].ins) + Offset(code[pc].ins);
      0 <= target < |code| && code[target].Op? && DepthAt(code, target) == DepthAt(code, pc)
  {
    hide RegionOk, NestedOk, Searchable, Size, DepthAt;
    OkAt(t, code, n, pc);
    if !code[pc].ins.Accept? { NextAt(t, code, n, pc); }
  }

  lemma PushedOk(t: Text, code: Bytecode, n: nat, ps: seq<Point>, p: Point)
    requires PointsOk(t, code, n, ps) && PointOk(t, code, n, p)
    ensures PointsOk(t, code, n, ps + [p])
  {
    hide PointOk;
  }

  lemma PoppedOk(t: Text, code: Bytecode, n: nat, ps: seq<Point>)
    requires PointsOk(t, code, n, ps) && ps != []
    ensures PointsOk(t, code, n, ps[..|ps| - 1]) && PointOk(t, code, n, ps[|ps| - 1])
  {
    hide PointOk;
  }

  lemma ExecHealthy(t: Text, code: Bytecode, n: nat, m: Registers)
    requires SafeCode(t, code, n) && RegistersOk(t, code, n, m)
    ensures Healthy(t, code, n, Exec(t, code[m.pc].ins, m))
  {
    hide SafeCode, InstrOk, PointsOk, Saved, Cleared;
    var i := code[m.pc].ins;
    AtInstr(t, code, n, m.pc);
    assert InstrOk(t, code, 0, |code| - 1, n, m.pc);
    if i.Split? || i.LookAround? {
      ForkHealthy(t, code, n, m);
    } else if Simple(i) {
      SimpleHealthy(t, code, n, m);
    } else if i.Save? || i.SaveReset? || Pops(i) || i.StepBack? {
      OtherHealthy(t, code, n, m);
    } else {
      hide DepthAt, Boundary;
    }
  }

  lemma ForkHealthy(t: Text, code: Bytecode, n: nat, m: Registers)
    requires SafeCode(t, code, n) && RegistersOk(t, code, n, m)
    requires code[m.pc].ins.Split? || code[m.pc].ins.LookAround?
    ensures Healthy(t, code, n, Exec(t, code[m.pc].ins, m))
  {
    hide SafeCode, InstrOk, DepthAt, Boundary, PointsOk;
    var i := code[m.pc].ins;
    var next := m.pc + 5;
    AtInstr(t, code, n, m.pc);
    var kind := if i.Split? then SplitPoint else if i.negative then NegativeLookPoint else LookPoint;
    var second := if i.Split? && i.gotoFirst then next else next + i.offset;
    PushedOk(t, code, n, m.points, Point(kind, second, m.pos, m.caps, m.stack, 0));
  }

  lemma SimpleHealthy(t: Text, code: Bytecode, n: nat, m: Registers)
    requires SafeCode(t, code, n) && RegistersOk(t, code, n, m) && Simple(code[m.pc].ins)
    ensures Healthy(t, code, n, Exec(t, code[m.pc].ins, m))
  {
    hide SafeCode, InstrOk, DepthAt, Boundary, PointsOk, Reads, Holds, Next, CharAt;
    AtInstr(t, code, n, m.pc);
    BoundaryKept(t, m.pos);
  }

  lemma OtherHealthy(t: Text, code: Bytecode, n: nat, m: Registers)
    requires SafeCode(t, code, n) && RegistersOk(t, code, n, m)
    requires var i := code[m.pc].ins; i.Save? || i.SaveReset? || Pops(i) || i.StepBack?
    ensures Healthy(t, code, n, Exec(t, code[m.pc].ins, m))
  {
    hide SafeCode, DepthAt, Boundary, PointsOk, NestedOk, Saved, Cleared, Prev;
    AtInstr(t, code, n, m.pc);
    BoundaryKept(t, m.pos);
  }

  lemma LeaveHealthy(t: Text, code: Bytecode, n: nat, m: Registers, done: nat)
    requires SafeCode(t, code, n) && Healthy(t, code, n, Iterate(m, done))
    ensures Healthy(t, code, n, Leave(code[m.pc].ins, m, done))
  {
    hide SafeCode, InstrOk, DepthAt, Boundary, PointsOk, CharsBefore;
    var i := code[m.pc].ins;
    AtInstr(t, code, n, m.pc);
    if done > i.min {
      assert (done - i.min) * i.chars <= done * i.chars;
      PushedOk(t, code, n, m.points, Point(GreedyPoint, m.pc, m.pos, m.caps, m.stack, done - i.min));
    }
  }

  lemma IterateHealthy(t: Text, code: Bytecode, n: nat, m: Registers, done: nat)
    requires SafeCode(t, code, n) && Healthy(t, code, n, Iterate(m, done))
    ensures Healthy(t, code, n, Again(t, code, code[m.pc].ins, m, done))
  {
    hide SafeCode, DepthAt, Boundary, PointsOk, CharsBefore, NestedRun;
    var i := code[m.pc].ins;
    AtInstr(t, code, n, m.pc);
    assert NestedOkAt(t, code, m.pc, m.pos);
    var r := NestedRun(t, code, m.pc + 17, m.pos);
    if r.Matched? {
      assert (done + 1) * i.chars == done * i.chars + i.chars;
      assert Healthy(t, code, n, Iterate(m.(pos := r.pos), done + 1));
      LeaveHealthy(t, code, n, m.(pos := r.pos), done + 1);
    } else {
      LeaveHealthy(t, code, n, m, done);
    }
  }

  lemma {:induction false} PrevNChars(t: Text, i: nat, n: nat)
    requires i <= |t.units| && n <= CharsBefore(t, i)
    ensures CharsBefore(t, PrevN(t, i, n)) == CharsBefore(t, i) - n
    ensures Boundary(t, i) ==> Boundary(t, PrevN(t, i, n))
    decreases n
  {
    if n > 0 {
      BoundaryKept(t, i);
      PrevNChars(t, Prev(t, i), n - 1);
    }
  }

  lemma ResumeHealthy(t: Text, code: Bytecode, n: nat, ps: seq<Point>)
    requires SafeCode(t, code, n) && PointsOk(t, code, n, ps) && ps != []
    ensures Healthy(t, code, n, Resume(t, code, ps))
  {
    hide SafeCode, InstrOk, DepthAt, Boundary, PointsOk, CharsBefore, PrevN;
    var rest, p := ps[..|ps| - 1], ps[|ps| - 1];
    PoppedOk(t, code, n, ps);
    AtInstr(t, code, n, p.pc);
    if p.kind.GreedyPoint? {
      var i := code[p.pc].ins;
      assert p.count * i.chars == i.chars + (p.count - 1) * i.chars;
      assert 0 <= (p.count - 1) * i.chars;
      PrevNChars(t, p.pos, i.chars);
      var q := p.(pos := PrevN(t, p.pos, i.chars), count := p.count - 1);
      if p.count > 1 { PushedOk(t, code, n, rest, q); }
    }
  }

  /** One step keeps the invariant. */
  lemma StepHealthy(t: Text, code: Bytecode, n: nat, c: Config)
    requires SafeCode(t, code, n) && Healthy(t, code, n, c)
    ensures Healthy(t, code, n, Step(t, code, c))
  {
    hide SafeCode, DepthAt, Boundary, PointsOk, CharsBefore, Exec, Resume, Again;
    match c
    case Run(m) => ExecHealthy(t, code, n, m);
    case Iterate(m, done) => IterateHealthy(t, code, n, m, done);
    case Fail(ps) => if ps != [] { ResumeHealthy(t, code, n, ps); }
    case Hit(_, ps) => if ps != [] { PoppedOk(t, code, n, ps); }
    case _ =>
  }

  lemma {:induction false} StepsHealthy(t: Text, code: Bytecode, n: nat, c: Config, k: nat)
    requires SafeCode(t, code, n) && Healthy(t, code, n, c)
    ensures Healthy(t, code, n, Steps(Engine(t, code), c, k))
    decreases k
  {
    hide SafeCode, Healthy, Step;
    if k > 0 {
      StepHealthy(t, code, n, c);
      assert Engine(t, code)(c) == Step(t, code, c);
      StepsHealthy(t, code, n, Step(t, code, c), k - 1);
    }
  }

  /**
  On every run of a compiled program from a character boundary, however long and
  whether or not it halts, the machine is never stuck: pc is at an instruction
  and the stack is exactly as deep as the linear scan says.
  */
  lemma AlwaysHealthy(t: Text, r: Pattern, sticky: bool, i: nat, k: nat)
    requires ValidText(t) && WellFormed(r) && i <= |t.units| && Boundary(t, i)
    ensures Healthy(t, Program(r, sticky), 1 + Groups(r), Steps(Engine(t, Program(r, sticky)), Initial(r, i), k))
  {
    hide ValidText, WellFormed, Program, Boundary, Groups, RegionOk, InstrOk;
    var p, n := Program(r, sticky), 1 + Groups(r);
    ProgramSafe(t, r, sticky);
    assert Healthy(t, p, n, Initial(r, i));
    StepsHealthy(t, p, n, Initial(r, i), k);
  }
}
