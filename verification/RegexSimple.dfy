/**
simple_greedy_quant: for an atom made of single-character tests and assertions
the nested run agrees with the reference semantics, never branches, and can be
undone by stepping back as many characters as it read. So the single opcode
tries the same states in the same order as the general repetition.
*/
module RegexSimple {
  import opened RegexText
  import opened CharSet
  import opened RegexSyntax
  import opened RegexSemantics
  import opened RegexMachine
  import opened RegexRange
  import opened RegexAtoms

  /** Code units of a subject string are 16 bits wide. */
  ghost predicate ValidText(t: Text) {
    forall i :: 0 <= i < |t.units| ==> t.units[i] <= 0xffff
  }

  lemma CharBound(t: Text, i: nat)
    requires ValidText(t) && i < |t.units|
    ensures CharAt(t, i) < 0x11_0000
  {}

  /** The instruction of a single character accepts what the pattern accepts. */
  function CharInstr(r: Pattern): (i: Instr)
    requires OneChar(r)
    ensures Consuming(i)
  {
    match r
    case Literal(c) => LiteralInstr(c)
    case Dot => MatchDot
    case AnyChar => MatchAny
    case Class(pts) => RangeInstr(pts)
  }

  lemma CharReads(r: Pattern, c: nat)
    requires OneChar(r) && WellFormed(r) && c < 0x11_0000
    ensures Reads(CharInstr(r), c) <==> Accepts(r, c)
  {
    if r.Class? { RangeInstrReads(r.points, c); }
  }

  lemma {:induction false} PrevNAdd(t: Text, i: nat, m: nat, n: nat)
    requires i <= |t.units|
    ensures PrevN(t, i, m + n) == PrevN(t, PrevN(t, i, m), n)
    decreases m
  {
    if m > 0 && i > 0 { PrevNAdd(t, Prev(t, i), m - 1, n); }
  }

  /** What a run over simple code means: at most one end, reached without touching the captures. */
  ghost predicate RunsTo(t: Text, code: Bytecode, a: nat, b: nat, s: State, es: seq<State>, chars: nat)
    requires s.pos <= |t.units|
  {
    && |es| <= 1
    && (es == [] ==> NestedRun(t, code, a, s.pos) == Unmatched)
    && (|es| == 1 ==>
          && es[0].caps == s.caps
          && s.pos <= es[0].pos <= |t.units|
          && NestedRun(t, code, a, s.pos) == NestedRun(t, code, b, es[0].pos)
          && (Boundary(t, s.pos) ==>
                && Boundary(t, es[0].pos)
                && PrevN(t, es[0].pos, chars) == s.pos
                && CharsBefore(t, es[0].pos) == CharsBefore(t, s.pos) + chars))
  }

  /** Nested runs agree with the reference semantics on simple code. */
  lemma {:induction false} SimpleRuns(t: Text, code: Bytecode, r: Pattern, k: nat, back: bool, a: nat, s: State)
    requires ValidText(t) && WellFormed(r) && s.pos <= |t.units|
    requires Placed(code, a, Code(r, k, back)) && AllSimple(Code(r, k, back))
    ensures RunsTo(t, code, a, a + |Code(r, k, back)|, s, Ends(t, r, k, back, s), CharCount(Code(r, k, back)))
    decreases r, 1
  {
    hide Ends, NestedRun, RunsTo, Placed, AllSimple, CharCount, PrevN, CharsBefore, Emit;
    var c := Code(r, k, back);
    match r
    case Empty => EmptyRuns(t, code, k, back, a, s);
    case Assert(x) => AssertRuns(t, code, x, k, back, a, s);
    case Concat(_, _) => ConcatRuns(t, code, r, k, back, a, s);
    case Alternative(_, _) => AlternativeNotSimple(r, k, back);
    case Capture(_) => CaptureNotSimple(r, k, back);
    case Look(_, _, _) => LookNotSimple(r, k, back);
    case Quantified(_, _, _, _) => QuantRuns(t, code, r, k, back, a, s);
    case _ => CharRuns(t, code, r, k, back, a, s);
  }

  lemma EmptyRuns(t: Text, code: Bytecode, k: nat, back: bool, a: nat, s: State)
    requires s.pos <= |t.units|
    ensures RunsTo(t, code, a, a, s, Ends(t, Empty, k, back, s), CharCount([]))
  {}

  lemma AssertRuns(t: Text, code: Bytecode, x: Assertion, k: nat, back: bool, a: nat, s: State)
    requires s.pos <= |t.units| && Placed(code, a, Emit(Test(x)))
    ensures RunsTo(t, code, a, a + |Emit(Test(x))|, s, Ends(t, Assert(x), k, back, s), CharCount(Emit(Test(x))))
  {
    hide Holds;
    PlacedInstr(code, a, Test(x));
    CharCountInstr(Test(x));
  }

  lemma CharRuns(t: Text, code: Bytecode, r: Pattern, k: nat, back: bool, a: nat, s: State)
    requires ValidText(t) && OneChar(r) && WellFormed(r) && s.pos <= |t.units|
    requires Placed(code, a, Code(r, k, back)) && AllSimple(Code(r, k, back))
    ensures RunsTo(t, code, a, a + |Code(r, k, back)|, s, Ends(t, r, k, back, s), CharCount(Code(r, k, back)))
  {
    hide Reads, Accepts, ValidText, CharCount, Boundary, Next, CharAt, AllSimple, Emit, CharInstr, RangeInstr,
      Canonical;
    var i := CharInstr(r);
    CharCode(r, k, back);
    if back {
      BackNotSimple(i);
    } else {
      assert Code(r, k, back) == Emit(i);
      PlacedInstr(code, a, i);
      CharCountInstr(i);
      if s.pos < |t.units| {
        CharBound(t, s.pos);
        CharReads(r, CharAt(t, s.pos));
        PrevUndoesNext(t, s.pos);
        assert PrevN(t, Next(t, s.pos), 1) == Prev(t, Next(t, s.pos));
      }
    }
  }

  lemma CharCode(r: Pattern, k: nat, back: bool)
    requires OneChar(r)
    ensures Code(r, k, back) == Oriented(back, CharInstr(r))
  {
    hide Oriented;
  }

  lemma BackNotSimple(i: Instr)
    ensures !AllSimple(Oriented(true, i))
  {
    assert Oriented(true, i)[0] == Op(StepBack);
  }

  lemma AlternativeNotSimple(r: Pattern, k: nat, back: bool)
    requires r.Alternative?
    ensures !AllSimple(Code(r, k, back))
  {
    NotStraight(Code(r, k, back), 0);
  }

  lemma CaptureNotSimple(r: Pattern, k: nat, back: bool)
    requires r.Capture?
    ensures !AllSimple(Code(r, k, back))
  {
    assert Code(r, k, back)[0] == Op(Save(k, back));
  }

  lemma LookNotSimple(r: Pattern, k: nat, back: bool)
    requires r.Look?
    ensures !AllSimple(Code(r, k, back))
  {
    NotStraight(Code(r, k, back), 0);
  }

  lemma {:induction false} ConcatRuns(t: Text, code: Bytecode, r: Pattern, k: nat, back: bool, a: nat, s: State)
    requires ValidText(t) && r.Concat? && WellFormed(r) && s.pos <= |t.units|
    requires Placed(code, a, Code(r, k, back)) && AllSimple(Code(r, k, back))
    ensures RunsTo(t, code, a, a + |Code(r, k, back)|, s, Ends(t, r, k, back, s), CharCount(Code(r, k, back)))
    decreases r, 0
  {
    hide Ends, NestedRun, RunsTo, Placed, AllSimple, CharCount, PrevN, CharsBefore, Emit, Chained;
    if back {
      ChainRuns(t, code, r, r.right, k + Groups(r.left), r.left, k, back, a, s);
      ConcatBackward(t, r.left, r.right, k, s);
    } else {
      ChainRuns(t, code, r, r.left, k, r.right, k + Groups(r.left), back, a, s);
      ConcatForward(t, r.left, r.right, k, s);
    }
  }

  lemma {:induction false} ChainRuns(t: Text, code: Bytecode, r: Pattern, p: Pattern, kp: nat, q: Pattern, kq: nat,
      back: bool, a: nat, s: State)
    requires ValidText(t) && WellFormed(r) && s.pos <= |t.units|
    requires r == Concat(p, q) || r == Concat(q, p)
    requires Placed(code, a, Code(p, kp, back) + Code(q, kq, back))
    requires AllSimple(Code(p, kp, back) + Code(q, kq, back))
    ensures var c := Code(p, kp, back) + Code(q, kq, back);
            RunsTo(t, code, a, a + |c|, s, Chained(t, p, kp, q, kq, back, s), CharCount(c))
    decreases r, -1
  {
    hide Ends, NestedRun, Placed, AllSimple, CharCount, PrevN, CharsBefore, Code, Boundary, EachEnds;
    var x, y := Code(p, kp, back), Code(q, kq, back);
    PlacedParts(code, a, x, y);
    SimpleParts(x, y);
    CharCountParts(x, y);
    SimpleRuns(t, code, p, kp, back, a, s);
    var es := Ends(t, p, kp, back, s);
    EachEndsAt(t, q, kq, back, es, s);
    if es != [] {
      var e := es[0];
      SimpleRuns(t, code, q, kq, back, a + |x|, e);
      var fs := EachEnds(t, q, kq, back, es, s);
      assert fs == [Ends(t, q, kq, back, e)];
      FlattenOne(Ends(t, q, kq, back, e));
      if Ends(t, q, kq, back, e) != [] {
        PrevNAdd(t, Ends(t, q, kq, back, e)[0].pos, CharCount(y), CharCount(x));
      }
    }
  }

  lemma FlattenOne<T>(f: seq<T>)
    ensures Flatten([f]) == f
  {
    assert [f][1..] == [];
    assert f + [] == f;
  }

  lemma {:induction false} QuantRuns(t: Text, code: Bytecode, r: Pattern, k: nat, back: bool, a: nat, s: State)
    requires ValidText(t) && r.Quantified? && WellFormed(r) && s.pos <= |t.units|
    requires Placed(code, a, Code(r, k, back)) && AllSimple(Code(r, k, back))
    ensures RunsTo(t, code, a, a + |Code(r, k, back)|, s, Ends(t, r, k, back, s), CharCount(Code(r, k, back)))
    decreases r, 0
  {
    hide Ends, NestedRun, Placed, CharCount, PrevN, CharsBefore, Boundary, Repeat, EachRepeat, SimpleAtom;
    var atom := Code(r.body, k, back);
    assert AllStraight(Code(r, k, back));
    QuantStraight(atom, k, Groups(r.body), r.min, r.max, r.greedy);
    QuantEnds(t, r.body, r.min, r.max, r.greedy, k, back, s);
    if r.max == 0 {
      assert Code(r, k, back) == ResetCode(k, Groups(r.body));
      RepeatZero(t, r.body, k, back, 0, r.greedy, s);
      assert CharCount([]) == 0 && PrevN(t, s.pos, 0) == s.pos by { NothingCounted(t, s.pos); }
    } else {
      SimpleRuns(t, code, r.body, k, back, a, s);
      OnceIsAtom(t, r.body, k, back, r.greedy, s);
    }
  }

  lemma NothingCounted(t: Text, i: nat)
    requires i <= |t.units|
    ensures CharCount([]) == 0 && PrevN(t, i, 0) == i
  {}

  lemma RepeatZero(t: Text, r: Pattern, k: nat, back: bool, min: nat, greedy: bool, s: State)
    requires s.pos <= |t.units|
    ensures Repeat(t, r, k, back, min, 0, greedy, s) == [s]
  {
    hide Ends, EachRepeat;
  }

  /** r{1} has the ends of r. */
  lemma {:induction false} OnceIsAtom(t: Text, r: Pattern, k: nat, back: bool, greedy: bool, s: State)
    requires s.pos <= |t.units|
    ensures Repeat(t, r, k, back, 1, 1, greedy, s) == Ends(t, r, k, back, s)
  {
    hide Ends, Repeat, EachRepeat, Flatten;
    RepeatMust(t, r, k, back, 1, 1, greedy, s);
    var es := Ends(t, r, k, back, s);
    var fs := EachRepeat(t, r, k, back, 0, 0, greedy, es, s, false);
    EachRepeatAt(t, r, k, back, 0, 0, greedy, es, s, false);
    forall i | 0 <= i < |es| ensures fs[i] == [es[i]] {
      RepeatZero(t, r, k, back, 0, greedy, es[i]);
    }
    FlattenSingles(fs, es);
  }

  lemma {:induction false} FlattenSingles<T>(fs: seq<seq<T>>, es: seq<T>)
    requires |fs| == |es| && forall i :: 0 <= i < |es| ==> fs[i] == [es[i]]
    ensures Flatten(fs) == es
  {
    if fs != [] {
      FlattenSingles(fs[1..], es[1..]);
    }
  }

  // ----- the opcode -----

  lemma {:induction false} CountedIsConsuming(s: Bytecode)
    ensures CharCount(s) > 0 ==> HasConsuming(s)
    decreases |s|
  {
    if s != [] {
      var u := s[..|s| - 1];
      CountedIsConsuming(u);
      if HasConsuming(u) {
        var p :| 0 <= p < |u| && u[p].Op? && Consuming(u[p].ins);
        assert s[p] == u[p];
      }
    }
  }

  /** An iteration of a simple atom moves forward. */
  lemma SimpleAdvances(t: Text, r: Pattern, k: nat, back: bool, s: State)
    requires WellFormed(r) && SimpleAtom(Code(r, k, back)) && s.pos <= |t.units|
    ensures NoneAt(Ends(t, r, k, back, s), s.pos)
  {
    hide Code, Ends, NoneAt, HasConsuming, CharCount;
    CountedIsConsuming(Code(r, k, back));
    ClearedConsumes(r, k, back);
    ConsumingEnds(t, r, k, back, s);
  }

  /** A simple quantifier of r begins at a. */
  ghost predicate SimpleAt(code: Bytecode, r: Pattern, k: nat, back: bool, a: nat, min: nat, max: nat) {
    && SimpleAtom(Code(r, k, back))
    && Placed(code, a, SimpleCode(Code(r, k, back), min, max))
  }

  function SimpleInstr(r: Pattern, k: nat, back: bool, min: nat, max: nat): Instr {
    SimpleGreedy(|Code(r, k, back)| + 1, min, max, CharCount(Code(r, k, back)))
  }

  /** The position after the quantifier. */
  function SimpleEnd(r: Pattern, k: nat, back: bool, a: nat): nat {
    a + 18 + |Code(r, k, back)|
  }

  lemma SimplePlaces(code: Bytecode, r: Pattern, k: nat, back: bool, a: nat, min: nat, max: nat)
    requires SimpleAt(code, r, k, back, a, min, max)
    ensures var c := Code(r, k, back);
            && a + 18 + |c| <= |code|
            && code[a] == Op(SimpleInstr(r, k, back, min, max))
            && Placed(code, a + 17, c)
            && code[a + 17 + |c|] == Op(Accept)
  {
    hide Code, Placed, SimpleAtom, CharCount;
    var c := Code(r, k, back);
    var i := SimpleInstr(r, k, back, min, max);
    PlacedParts(code, a, Emit(i) + c, Emit(Accept));
    PlacedParts(code, a, Emit(i), c);
    PlacedInstr(code, a, i);
    PlacedInstr(code, a + 17 + |c|, Accept);
  }

  /** One nested run: the unique end of the atom, from which one can step back. */
  lemma OneIteration(t: Text, code: Bytecode, r: Pattern, k: nat, back: bool, a: nat, min: nat, max: nat, s: State)
    requires ValidText(t) && WellFormed(r) && s.pos <= |t.units| && Boundary(t, s.pos)
    requires SimpleAt(code, r, k, back, a, min, max)
    ensures var es := Ends(t, r, k, back, s);
            && |es| <= 1
            && (es == [] ==> NestedRun(t, code, a + 17, s.pos) == Unmatched)
            && (es != [] ==>
                  && es[0].caps == s.caps && s.pos < es[0].pos <= |t.units| && Boundary(t, es[0].pos)
                  && NestedRun(t, code, a + 17, s.pos) == Matched(es[0].pos)
                  && PrevN(t, es[0].pos, CharCount(Code(r, k, back))) == s.pos
                  && CharsBefore(t, es[0].pos) == CharsBefore(t, s.pos) + CharCount(Code(r, k, back)))
  {
    hide Code, Ends, CharCount, Placed, PrevN, CharsBefore, AllSimple;
    SimplePlaces(code, r, k, back, a, min, max);
    SimpleRuns(t, code, r, k, back, a + 17, s);
    SimpleAdvances(t, r, k, back, s);
  }

  /** The states from which `hist` is found by stepping back n characters at a time. */
  ghost predicate StepsBack(t: Text, n: nat, s: State, hist: seq<State>)
    requires s.pos <= |t.units|
    decreases |hist|
  {
    hist == [] ||
    (&& n <= CharsBefore(t, s.pos)
     && hist[0] == State(PrevN(t, s.pos, n), s.caps)
     && StepsBack(t, n, hist[0], hist[1..]))
  }

  ghost function GreedyAt(a: nat, s: State, stack: seq<nat>, count: nat): Point {
    Point(GreedyPoint, a, s.pos, s.caps, stack, count)
  }

  /** A greedy point delivers the earlier iterations, latest first. */
  lemma {:induction false} GreedyPointDelivers(t: Text, code: Bytecode, a: nat, s: State, hist: seq<State>,
      stack: seq<nat>, points: seq<Point>)
    requires a < |code| && code[a].Op? && code[a].ins.SimpleGreedy? && code[a].ins.offset >= 0
    requires s.pos <= |t.units| && hist != [] && StepsBack(t, code[a].ins.chars, s, hist)
    ensures Delivers(Engine(t, code), Fail(points + [GreedyAt(a, s, stack, |hist|)]),
                     a + 17 + code[a].ins.offset, stack, hist, points)
    decreases |hist|
  {
    hide PrevN, CharsBefore, Delivers;
    var f := Engine(t, code);
    var b := a + 17 + code[a].ins.offset;
    var h, rest := hist[0], hist[1..];
    var c := Fail(points + [GreedyAt(a, s, stack, |hist|)]);
    assert (points + [GreedyAt(a, s, stack, |hist|)])[..|points|] == points;
    if rest == [] {
      assert f(c) == At(b, h, stack, points);
      DeliversHere(f, b, h, stack, points);
      assert hist == [h];
    } else {
      var more := [GreedyAt(a, h, stack, |rest|)];
      assert f(c) == At(b, h, stack, points + more);
      GreedyPointDelivers(t, code, a, h, rest, stack, points);
      DeliversHere(f, b, h, stack, points + more);
      DeliversAppend(f, At(b, h, stack, points + more), b, stack, [h], rest, points, more);
      assert [h] + rest == hist;
    }
    DeliversStep(f, c, b, stack, hist, points);
  }

  /** Iterations before this one that may still be returned to. */
  ghost predicate History(t: Text, n: nat, min: nat, done: nat, s: State, hist: seq<State>)
    requires s.pos <= |t.units|
  {
    && StepsBack(t, n, s, hist)
    && |hist| == (if done > min then done - min else 0)
  }

  ghost function InLoop(a: nat, s: State, stack: seq<nat>, points: seq<Point>): Registers {
    Registers(a, s.pos, s.caps, stack, points)
  }

  /** Leaving the loop delivers the current state and then the earlier ones. */
  lemma LeaveDelivers(t: Text, code: Bytecode, a: nat, done: nat, s: State, hist: seq<State>, stack: seq<nat>,
      points: seq<Point>)
    requires a < |code| && code[a].Op? && code[a].ins.SimpleGreedy? && code[a].ins.offset >= 0
    requires s.pos <= |t.units| && done >= code[a].ins.min
    requires History(t, code[a].ins.chars, code[a].ins.min, done, s, hist)
    ensures Delivers(Engine(t, code), Leave(code[a].ins, InLoop(a, s, stack, points), done),
                     a + 17 + code[a].ins.offset, stack, [s] + hist, points)
  {
    hide PrevN, CharsBefore, Delivers, StepsBack;
    var f, b := Engine(t, code), a + 17 + code[a].ins.offset;
    if hist == [] {
      DeliversHere(f, b, s, stack, points);
      assert [s] + hist == [s];
    } else {
      var more := [GreedyAt(a, s, stack, |hist|)];
      GreedyPointDelivers(t, code, a, s, hist, stack, points);
      DeliversHere(f, b, s, stack, points + more);
      DeliversAppend(f, At(b, s, stack, points + more), b, stack, [s], hist, points, more);
    }
  }

  function MinLeft(min: nat, done: nat): nat {
    if done < min then min - done else 0
  }

  /** The ends of a greedy repetition of an atom that does not match here. */
  lemma RepeatStop(t: Text, r: Pattern, k: nat, back: bool, min: nat, max: nat, s: State)
    requires s.pos <= |t.units| && 0 < max && Ends(t, r, k, back, s) == []
    ensures Repeat(t, r, k, back, min, max, true, s) == if min > 0 then [] else [s]
  {
    hide Ends, Repeat;
    if min > 0 { RepeatMust(t, r, k, back, min, max, true, s); } else { RepeatMay(t, r, k, back, max, true, s); }
  }

  /** The ends of a greedy repetition of an atom with exactly one end, ahead of s. */
  lemma RepeatGo(t: Text, r: Pattern, k: nat, back: bool, min: nat, max: nat, s: State)
    requires s.pos <= |t.units| && 0 < max
    requires |Ends(t, r, k, back, s)| == 1 && Ends(t, r, k, back, s)[0].pos != s.pos
    ensures var e := Ends(t, r, k, back, s)[0];
            var rest := Repeat(t, r, k, back, if min > 0 then min - 1 else 0, Less(max), true, e);
            Repeat(t, r, k, back, min, max, true, s) == if min > 0 then rest else rest + [s]
  {
    hide Ends, Repeat, EachRepeat, Flatten;
    var es := Ends(t, r, k, back, s);
    var m := if min > 0 then min - 1 else 0;
    EachRepeatAt(t, r, k, back, m, Less(max), true, es, s, min == 0);
    FlattenOne(Repeat(t, r, k, back, m, Less(max), true, es[0]));
    assert EachRepeat(t, r, k, back, m, Less(max), true, es, s, min == 0)
        == [Repeat(t, r, k, back, m, Less(max), true, es[0])];
    if min > 0 { RepeatMust(t, r, k, back, min, max, true, s); } else { RepeatMay(t, r, k, back, max, true, s); }
  }

  /** From within the loop: the rest of the repetition, then the iterations already done. */
  lemma {:induction false} IterateDelivers(t: Text, code: Bytecode, r: Pattern, k: nat, back: bool, a: nat, min: nat,
      max: nat, done: nat, s: State, hist: seq<State>, stack: seq<nat>, points: seq<Point>)
    requires ValidText(t) && WellFormed(r) && s.pos <= |t.units| && Boundary(t, s.pos) && min <= max <= INFINITE
    requires SimpleAt(code, r, k, back, a, min, max)
    requires max == INFINITE || done < max
    requires History(t, CharCount(Code(r, k, back)), min, done, s, hist)
    ensures Delivers(Engine(t, code), Iterate(InLoop(a, s, stack, points), done), SimpleEnd(r, k, back, a), stack,
                     Repeat(t, r, k, back, MinLeft(min, done), if max ==
                            INFINITE then max else max - done, true, s) + hist,
                     points)
    decreases |t.units| - s.pos
  {
    hide Code, Ends, Repeat, Placed, SimpleAtom, CharCount, PrevN, CharsBefore, Delivers, Boundary, NestedRun,
      StepsBack, Size;
    var f, b := Engine(t, code), SimpleEnd(r, k, back, a);
    var i := SimpleInstr(r, k, back, min, max);
    var c := Iterate(InLoop(a, s, stack, points), done);
    var es := Ends(t, r, k, back, s);
    var left := if max == INFINITE then max else max - done;
    var all := Repeat(t, r, k, back, MinLeft(min, done), left, true, s) + hist;
    SimplePlaces(code, r, k, back, a, min, max);
    OneIteration(t, code, r, k, back, a, min, max, s);
    assert f(c) == Again(t, code, i, c.m, done);
    if es == [] {
      RepeatStop(t, r, k, back, MinLeft(min, done), left, s);
      assert f(c) == Leave(i, c.m, done);
      if done < min {
        assert hist == [];
        DeliversNothing(f, b, stack, points);
        assert all == [];
      } else {
        LeaveDelivers(t, code, a, done, s, hist, stack, points);
      }
    } else {
      var e := es[0];
      var hist' := if done >= min then [s] + hist else [];
      HistoryGrows(t, i.chars, min, done, s, hist, e);
      RepeatGo(t, r, k, back, MinLeft(min, done), left, s);
      assert Repeat(t, r, k, back, MinLeft(min, done + 1), Less(left), true, e) + hist' == all;
      if done + 1 >= max && max != INFINITE {
        RepeatZero(t, r, k, back, MinLeft(min, done + 1), true, e);
        assert f(c) == Leave(i, InLoop(a, e, stack, points), done + 1);
        LeaveDelivers(t, code, a, done + 1, e, hist', stack, points);
      } else {
        assert f(c) == Iterate(InLoop(a, e, stack, points), done + 1);
        IterateDelivers(t, code, r, k, back, a, min, max, done + 1, e, hist', stack, points);
      }
    }
    DeliversStep(f, c, b, stack, all, points);
  }

  lemma HistoryGrows(t: Text, n: nat, min: nat, done: nat, s: State, hist: seq<State>, e: State)
    requires s.pos <= |t.units| && e.pos <= |t.units| && History(t, n, min, done, s, hist)
    requires PrevN(t, e.pos, n) == s.pos && n <= CharsBefore(t, e.pos) && e.caps == s.caps
    ensures History(t, n, min, done + 1, e, if done >= min then [s] + hist else [])
  {
    if done >= min {
      var h := [s] + hist;
      assert h[1..] == hist;
    }
  }

  /**
  simple_greedy_quant tries exactly the ends of the general greedy repetition,
  in the same order.
  */
  lemma SimpleQuantDelivers(t: Text, code: Bytecode, r: Pattern, k: nat, back: bool, a: nat, min: nat, max: nat,
      s: State, stack: seq<nat>, points: seq<Point>)
    requires ValidText(t) && WellFormed(r) && s.pos <= |t.units| && Boundary(t, s.pos) && min <= max <= INFINITE
    requires 0 < max
    requires SimpleAt(code, r, k, back, a, min, max)
    ensures Delivers(Engine(t, code), At(a, s, stack, points), SimpleEnd(r, k, back, a), stack,
                     Repeat(t, r, k, back, min, max, true, s), points)
  {
    hide Code, Ends, Repeat, Placed, SimpleAtom, CharCount, PrevN, CharsBefore, Delivers, Boundary, NestedRun, Size;
    SimplePlaces(code, r, k, back, a, min, max);
    IterateDelivers(t, code, r, k, back, a, min, max, 0, s, [], stack, points);
    var f, c := Engine(t, code), At(a, s, stack, points);
    assert f(c) == Iterate(InLoop(a, s, stack, points), 0);
    assert Repeat(t, r, k, back, min, max, true, s) + [] == Repeat(t, r, k, back, min, max, true, s);
    DeliversStep(f, c, SimpleEnd(r, k, back, a), stack, Repeat(t, r, k, back, min, max, true, s), points);
  }
}
