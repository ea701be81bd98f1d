/**
Where a match may start: running a program is right for every pattern exactly
when the start is not inside a surrogate pair. Inside one, stepping back over the
low surrogate lands in front of the whole pair, and for every such start there is
a pattern that then matches although it should not.
*/
module RegexBoundary {
  import opened RegexText
  import opened RegexSyntax
  import opened RegexSemantics
  import opened RegexMachine
  import opened RegexAtoms
  import opened RegexSimple
  import opened RegexCorrect
  import opened RegexOrder
  import opened RegexPositions
  import opened RegexMatch

  // ----- the pattern -----

  /** Reads as many characters as there are from j on. */
  function Exactly(t: Text, j: nat): Pattern
    requires j <= |t.units|
    decreases |t.units| - j
  {
    if j == |t.units| then Empty else Concat(AnyChar, Exactly(t, Next(t, j)))
  }

  function CharsFrom(t: Text, j: nat): nat
    requires j <= |t.units|
    decreases |t.units| - j
  {
    if j == |t.units| then 0 else 1 + CharsFrom(t, Next(t, j))
  }

  /** The pair in front of i and everything behind it. */
  function Tail(t: Text, i: nat): Pattern
    requires 0 < i < |t.units|
  {
    Concat(Literal(CharAt(t, i - 1)), Exactly(t, i + 1))
  }

  /** .?, then the tail. */
  function Trap(t: Text, i: nat): Pattern
    requires 0 < i < |t.units|
  {
    Concat(Quantified(AnyChar, 0, 1, true), Tail(t, i))
  }

  lemma {:induction false} ExactlyPlain(t: Text, j: nat)
    requires j <= |t.units|
    ensures Groups(Exactly(t, j)) == 0 && WellFormed(Exactly(t, j)) && LazyConsumes(Exactly(t, j))
    decreases |t.units| - j
  {
    if j < |t.units| { ExactlyPlain(t, Next(t, j)); }
  }

  lemma CharPlain(r: Pattern)
    requires r.AnyChar? || r.Literal?
    ensures Groups(r) == 0 && WellFormed(r) && LazyConsumes(r)
  {}

  lemma TrapPlain(t: Text, i: nat)
    requires 0 < i < |t.units| && ValidText(t)
    ensures Groups(Trap(t, i)) == 0 && Supported(t, Trap(t, i)) && Groups(Tail(t, i)) == 0 && Supported(t, Tail(t, i))
  {
    hide ValidText, Exactly, LazyFits;
    ExactlyPlain(t, i + 1);
    CharPlain(AnyChar);
    CharPlain(Literal(CharAt(t, i - 1)));
    var q := Quantified(AnyChar, 0, 1, true);
    assert Groups(q) == 0 && WellFormed(q) && LazyConsumes(q);
    assert Groups(Tail(t, i)) == 0 && WellFormed(Tail(t, i)) && LazyConsumes(Tail(t, i));
    ConsumingFits(t, Tail(t, i), false);
    ConsumingFits(t, Trap(t, i), false);
  }

  // ----- its meaning -----

  /** One character, then the rest. */
  lemma CharThen(t: Text, a: Pattern, b: Pattern, i: nat)
    requires OneChar(a) && i <= |t.units|
    ensures var e := CharEnd(t, a, false, i);
      EndPositions(t, Concat(a, b), false, i) == if e.Some? then EndPositions(t, b, false, e.value) else []
  {
    hide AllAhead;
    ConcatPositions(t, a, b, false, i);
    var es := EndPositions(t, a, false, i);
    EachPositionsAt(t, b, false, es, i);
    var fs := EachPositions(t, b, false, es, i);
    if es != [] {
      assert fs == [EndPositions(t, b, false, es[0])];
      FlattenOne(EndPositions(t, b, false, es[0]));
    }
  }

  lemma {:induction false} ExactlyEnds(t: Text, j: nat)
    requires j <= |t.units|
    ensures EndPositions(t, Exactly(t, j), false, j) == [|t.units|]
    decreases |t.units| - j
  {
    hide EndPositions;
    if j == |t.units| {
      EmptyPositions(t, j);
    } else {
      CharThen(t, AnyChar, Exactly(t, Next(t, j)), j);
      ExactlyEnds(t, Next(t, j));
    }
  }

  lemma EmptyPositions(t: Text, j: nat)
    requires j <= |t.units|
    ensures EndPositions(t, Empty, false, j) == [j]
  {}

  lemma {:induction false} ExactlyFails(t: Text, j: nat, i: nat)
    requires j <= |t.units| && i <= |t.units| && CharsFrom(t, i) < CharsFrom(t, j)
    ensures EndPositions(t, Exactly(t, j), false, i) == []
    decreases |t.units| - j
  {
    hide EndPositions;
    CharThen(t, AnyChar, Exactly(t, Next(t, j)), i);
    if i < |t.units| { ExactlyFails(t, Next(t, j), Next(t, i)); }
  }

  lemma TailPositions(t: Text, i: nat)
    requires 0 < i && PairAt(t, i - 1)
    ensures EndPositions(t, Tail(t, i), false, i - 1) == [|t.units|]
    ensures EndPositions(t, Tail(t, i), false, i) == [] && EndPositions(t, Tail(t, i), false, i + 1) == []
  {
    hide EndPositions, Exactly, CharsFrom;
    var c := Literal(CharAt(t, i - 1));
    CharThen(t, c, Exactly(t, i + 1), i - 1);
    ExactlyEnds(t, i + 1);
    CharThen(t, c, Exactly(t, i + 1), i);
    CharThen(t, c, Exactly(t, i + 1), i + 1);
    if i + 1 < |t.units| {
      FewerBehind(t, i + 1);
      ExactlyFails(t, i + 1, Next(t, i + 1));
    }
  }

  lemma FewerBehind(t: Text, j: nat)
    requires j < |t.units|
    ensures CharsFrom(t, Next(t, j)) < CharsFrom(t, j)
  {}

  lemma OptionPositions(t: Text, i: nat)
    requires 0 < i && PairAt(t, i - 1)
    ensures EndPositions(t, Quantified(AnyChar, 0, 1, true), false, i) == [i + 1, i]
  {
    hide EndPositions, EachRepeatPositions, RepeatPositions;
    var a := AnyChar;
    assert EndPositions(t, a, false, i) == [i + 1] by { AnyPositions(t, i); }
    QuantPositions(t, a, 0, 1, true, false, i);
    RepeatPositionsOnce(t, a, false, 0, 1, true, i, true);
    EachRepeatPositionsAt(t, a, false, 0, 0, true, [i + 1], i, true, true);
    RepeatPositionsZero(t, a, false, 0, true, i + 1, true);
    assert EachRepeatPositions(t, a, false, 0, 0, true, [i + 1], i, true, true) == [[i + 1]];
    FlattenOne([i + 1]);
  }

  lemma AnyPositions(t: Text, i: nat)
    requires 0 < i && PairAt(t, i - 1)
    ensures EndPositions(t, AnyChar, false, i) == [i + 1]
  {}

  /** The trap matches nowhere. */
  lemma TrapNoMatch(t: Text, i: nat)
    requires 0 < i && PairAt(t, i - 1)
    ensures Span(t, Trap(t, i), true, i) == None
  {
    hide EndPositions, Tail, AllAhead;
    var r := Trap(t, i);
    ConcatPositions(t, r.left, r.right, false, i);
    OptionPositions(t, i);
    TailPositions(t, i);
    var es := EndPositions(t, r.left, false, i);
    EachPositionsAt(t, r.right, false, es, i);
    FlattenNothing(EachPositions(t, r.right, false, es, i));
  }

  // ----- its run -----

  /** Where the parts of the program are; x is the code of the tail. */
  ghost predicate TrapAt(p: Bytecode, x: Bytecode) {
    && SimpleAt(p, AnyChar, 1, false, 2, 0, 1) && Placed(p, 0, Emit(Save(0, false)))
    && Placed(p, 21, x) && Placed(p, 21 + |x|, Emit(Save(0, true))) && Placed(p, 23 + |x|, Emit(Accept))
  }

  lemma AnyCode()
    ensures Code(AnyChar, 1, false) == Emit(MatchAny)
    ensures SimpleAtom(Code(AnyChar, 1, false)) && CharCount(Code(AnyChar, 1, false)) == 1
    ensures Code(Quantified(AnyChar, 0, 1, true), 1, false) == SimpleCode(Emit(MatchAny), 0, 1)
  {
    CharCountInstr(MatchAny);
    assert AllSimple(Emit(MatchAny));
  }

  lemma AnySize()
    ensures |SimpleCode(Emit(MatchAny), 0, 1)| == 19 && Groups(Quantified(AnyChar, 0, 1, true)) == 0
  {}

  lemma TrapPlaces(tail: Pattern)
    ensures TrapAt(Program(Concat(Quantified(AnyChar, 0, 1, true), tail), true), Code(tail, 1, false))
  {
    hide Placed, CharCount, SimpleAtom, Code, Emit, Program, SimpleCode, Groups;
    var q := Quantified(AnyChar, 0, 1, true);
    var r := Concat(q, tail);
    var p := Program(r, true);
    AnyCode();
    AnySize();
    ConcatCode(q, tail, 1, false);
    ProgramPlaces(r, true);
    PlacedParts(p, 2, SimpleCode(Emit(MatchAny), 0, 1), Code(tail, 1, false));
  }

  lemma TrapCells(p: Bytecode, x: Bytecode)
    requires TrapAt(p, x)
    ensures 21 <= |p| && p[2] == Op(SimpleGreedy(2, 0, 1, 1)) && p[19] == Op(MatchAny) && p[20] == Op(Accept)
  {
    hide Placed, CharCount;
    AnyCode();
    SimplePlaces(p, AnyChar, 1, false, 2, 0, 1);
    PlacedInstr(p, 19, MatchAny);
  }

  /** The quantifier reads the low surrogate and goes on behind it. */
  lemma TrapReads(t: Text, p: Bytecode, x: Bytecode, i: nat, caps: Captures)
    requires TrapAt(p, x) && 0 < i && PairAt(t, i - 1)
    ensures Reaches(Engine(t, p), At(2, State(i, caps), [], []),
                    At(21, State(i + 1, caps), [], [Point(GreedyPoint, 2, i + 1, caps, [], 1)]))
  {
    hide Reaches, TrapAt;
    var f, point := Engine(t, p), Point(GreedyPoint, 2, i + 1, caps, [], 1);
    var y, y0 := At(2, State(i, caps), [], []), Iterate(InLoop(2, State(i, caps), [], []), 0);
    TrapCells(p, x);
    assert NestedRun(t, p, 20, i + 1) == Matched(i + 1);
    assert NestedRun(t, p, 19, i) == Matched(i + 1);
    assert [] + [point] == [point];
    assert f(y) == y0 && f(y0) == At(21, State(i + 1, caps), [], [point]);
    ReachesStep(f, y);
    ReachesStep(f, y0);
    ReachesTrans(f, y, y0, f(y0));
  }

  /** Stepping back lands in front of the pair. */
  lemma TrapStepsBack(t: Text, p: Bytecode, x: Bytecode, i: nat, caps: Captures)
    requires TrapAt(p, x) && 0 < i && PairAt(t, i - 1)
    ensures Reaches(Engine(t, p), Fail([Point(GreedyPoint, 2, i + 1, caps, [], 1)]), At(21, State(i - 1, caps), [], []))
  {
    var f, c := Engine(t, p), Fail([Point(GreedyPoint, 2, i + 1, caps, [], 1)]);
    TrapCells(p, x);
    assert Prev(t, i + 1) == i - 1 && PrevN(t, i + 1, 1) == PrevN(t, i - 1, 0) == i - 1;
    assert CharsBefore(t, i + 1) >= 1;
    assert c.points[..0] == [];
    assert f(c) == At(21, State(i - 1, caps), [], []);
    ReachesStep(f, c);
  }

  /** From the end of the tail the program accepts. */
  lemma TrapAccepts(t: Text, p: Bytecode, x: Bytecode, s: State, points: seq<Point>)
    requires TrapAt(p, x) && Discardable(points) && |s.caps| >= 2
    ensures Reaches(Engine(t, p), At(21 + |x|, s, [], points), Done(true, Saved(s.caps, 0, true, s.pos)))
  {
    hide Placed, Emit, Reaches, SimpleAt;
    var f, c, e := Engine(t, p), At(21 + |x|, s, [], points), State(s.pos, Saved(s.caps, 0, true, s.pos));
    OpReaches(t, p, 21 + |x|, Save(0, true), s, [], points, At(23 + |x|, e, [], points));
    OpReaches(t, p, 23 + |x|, Accept, e, [], points, Hit(e.caps, points));
    ReachesTrans(f, c, At(23 + |x|, e, [], points), Hit(e.caps, points));
    HitEnds(t, p, e.caps, points);
    ReachesTrans(f, c, Hit(e.caps, points), Done(true, e.caps));
  }

  /** The run of the tail from a boundary: it fails, or it arrives and the program accepts. */
  lemma TailRuns(t: Text, tail: Pattern, p: Bytecode, s: State, points: seq<Point>) returns (result: Captures)
    requires Supported(t, tail) && Groups(tail) == 0 && s.pos <= |t.units| && Boundary(t, s.pos) && |s.caps| == 2
    requires TrapAt(p, Code(tail, 1, false)) && Discardable(points)
    ensures var f, c := Engine(t, p), At(21, s, [], points);
      if EndPositions(t, tail, false, s.pos) ==
        [] then Reaches(f, c, Fail(points)) else Reaches(f, c, Done(true, result))
  {
    hide Reaches, Ends, EndPositions, Code, Placed, Delivers, LazyFits, LazyStops, WellFormed, Groups, Emit, SimpleAt,
      Distinct;
    FitsStops(t, tail, false);
    var f, c, x := Engine(t, p), At(21, s, [], points), Code(tail, 1, false);
    result := [];
    Correct(t, p, tail, 1, false, 21, s, [], points);
    Agrees(t, tail, 1, false, s);
    var es := Ends(t, tail, 1, false, s);
    AlikeFirst(Positions(es), EndPositions(t, tail, false, s.pos));
    if es == [] {
      DeliversEmpty(f, c, 21 + |x|, [], points);
    } else {
      var more := DeliversFirst(f, c, 21 + |x|, [], es, points);
      result := Saved(es[0].caps, 0, true, es[0].pos);
      TrapAccepts(t, p, x, es[0], points + more);
      ReachesTrans(f, c, At(21 + |x|, es[0], [], points + more), Done(true, result));
    }
  }

  /** Yet the machine reports a match. */
  lemma TrapMatches(t: Text, i: nat) returns (result: Captures)
    requires ValidText(t) && 0 < i && PairAt(t, i - 1)
    ensures Reaches(Engine(t, Program(Trap(t, i), true)), Initial(Trap(t, i), i), Done(true, result))
  {
    hide Reaches, EndPositions, Program, Placed, Emit, Supported, Tail, Code, SimpleAt, Engine;
    var tail := Tail(t, i);
    var p, x := Program(Trap(t, i), true), Code(tail, 1, false);
    var f := Engine(t, p);
    var none: Captures := [None, None];
    var caps: Captures := [Some(i), None];
    var point := Point(GreedyPoint, 2, i + 1, caps, [], 1);
    TrapPlain(t, i);
    TrapPlaces(tail);
    TailPositions(t, i);
    var c := Initial(Trap(t, i), i);
    assert c == At(0, State(i, none), [], []);
    OpReaches(t, p, 0, Save(0, false), State(i, none), [], [], At(2, State(i, caps), [], []));
    TrapReads(t, p, x, i, caps);
    ReachesTrans(f, c, At(2, State(i, caps), [], []), At(21, State(i + 1, caps), [], [point]));
    result := TailRuns(t, tail, p, State(i + 1, caps), [point]);
    ReachesTrans(f, c, At(21, State(i + 1, caps), [], [point]), Fail([point]));
    TrapStepsBack(t, p, x, i, caps);
    ReachesTrans(f, c, Fail([point]), At(21, State(i - 1, caps), [], []));
    result := TailRuns(t, tail, p, State(i - 1, caps), []);
    ReachesTrans(f, c, At(21, State(i - 1, caps), [], []), Done(true, result));
  }

  // ----- exactly at the boundaries -----

  lemma {:induction false} DoneStays(t: Text, code: Bytecode, d: Config, n: nat)
    requires d.Done?
    ensures Steps(Engine(t, code), d, n) == d
    decreases n
  {
    if n > 0 {
      assert Engine(t, code)(d) == d;
      DoneStays(t, code, d, n - 1);
    }
  }

  /** A machine halts in one way only. */
  lemma OneOutcome(t: Text, code: Bytecode, c: Config, d: Config, d': Config)
    requires Reaches(Engine(t, code), c, d) && Reaches(Engine(t, code), c, d') && d.Done? && d'.Done?
    ensures d == d'
  {
    var f := Engine(t, code);
    var m: nat :| Steps(f, c, m) == d;
    var n: nat :| Steps(f, c, n) == d';
    if m <= n {
      StepsAdd(f, c, m, n - m);
      DoneStays(t, code, d, n - m);
    } else {
      StepsAdd(f, c, n, m - n);
      DoneStays(t, code, d', m - n);
    }
  }

  lemma TrapRunsWrong(t: Text, i: nat)
    requires ValidText(t) && 0 < i && PairAt(t, i - 1)
    ensures Supported(t, Trap(t, i)) && !RunsRight(t, Trap(t, i), true, i)
  {
    hide Program, Initial, Trap, Engine, Steps, Span, Groups;
    var r := Trap(t, i);
    TrapPlain(t, i);
    TrapNoMatch(t, i);
    var result := TrapMatches(t, i);
    if RunsRight(t, r, true, i) {
      var f, c := Engine(t, Program(r, true)), Initial(r, i);
      var n: nat, m: Option<Captures> :| Steps(f, c, n) == Outcome(m) &&
        Records(m, Span(t, r, true, i), 2 * (1 + Groups(r)));
      assert Reaches(f, c, Done(false, []));
      OneOutcome(t, Program(r, true), c, Done(true, result), Done(false, []));
    }
  }

  /** Every supported pattern runs right from i, sticky or not, if and only if i is not inside a surrogate pair. */
  lemma RightExactlyAtBoundaries(t: Text, i: nat)
    requires ValidText(t) && i <= |t.units|
    ensures (forall r, sticky :: Supported(t, r) ==> RunsRight(t, r, sticky, i)) <==> Boundary(t, i)
  {
    hide RunsRight, Supported, Trap;
    if Boundary(t, i) {
      forall r, sticky | Supported(t, r) ensures RunsRight(t, r, sticky, i) {
        MatchRunsRight(t, r, sticky, i);
      }
    } else {
      TrapRunsWrong(t, i);
    }
  }

  lemma MatchRunsRight(t: Text, r: Pattern, sticky: bool, i: nat)
    requires Supported(t, r) && i <= |t.units| && Boundary(t, i)
    ensures RunsRight(t, r, sticky, i)
  {
    hide Program, Initial, Steps, Span, Groups, Supported;
    MatchCorrect(t, r, sticky, i);
  }
}
