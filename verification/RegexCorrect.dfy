/**
Compiled code means what its pattern means: wherever the code of a pattern is
placed, the machine delivers exactly the ends of the reference semantics, in
order, and then fails into the backtracking points it started with.
*/
module RegexCorrect {
  import opened RegexText
  import opened RegexSyntax
  import opened RegexSemantics
  import opened RegexMachine
  import opened RegexAtoms
  import opened RegexSimple

  /** Every end of r lies strictly ahead of where it began. */
  ghost predicate Advances(t: Text, r: Pattern, back: bool) {
    forall k: nat, s: State :: s.pos <= |t.units| && Boundary(t, s.pos) ==> NoneAt(Ends(t, r, k, back, s), s.pos)
  }

  /**
  The zero-advance check is emitted for greedy quantifiers only, so the atom of
  an unbounded lazy one has to advance by itself for the code to come to an end.
  */
  ghost predicate LazyStops(t: Text, r: Pattern, back: bool) {
    match r
    case Concat(a, b) => LazyStops(t, a, back) && LazyStops(t, b, back)
    case Alternative(a, b) => LazyStops(t, a, back) && LazyStops(t, b, back)
    case Capture(a) => LazyStops(t, a, back)
    case Look(_, behind, a) => LazyStops(t, a, behind)
    case Quantified(a, _, max, greedy) => (greedy || max < INFINITE || Advances(t, a, back)) && LazyStops(t, a, back)
    case _ => true
  }

  ghost predicate Executable(t: Text, r: Pattern, back: bool) {
    ValidText(t) && WellFormed(r) && LazyStops(t, r, back)
  }

  /** A state in which code that uses the groups below n can be entered. */
  ghost predicate Ready(t: Text, n: nat, s: State) {
    s.pos <= |t.units| && Boundary(t, s.pos) && 2 * n <= |s.caps|
  }

  lemma EndsReady(t: Text, back: bool, n: nat, s: State, es: seq<State>)
    requires Ready(t, n, s) && AllInDirection(t, back, s, es)
    ensures forall i :: 0 <= i < |es| ==> Ready(t, n, es[i])
  {}

  /** The code of r is at a and r can be run from s. */
  ghost predicate Setup(t: Text, code: Bytecode, r: Pattern, k: nat, back: bool, a: nat, s: State) {
    && Executable(t, r, back)
    && Ready(t, k + Groups(r), s)
    && Placed(code, a, Code(r, k, back))
  }

  lemma OpStep(t: Text, code: Bytecode, a: nat, i: Instr, s: State, stack: seq<nat>, points: seq<Point>)
    requires a < |code| && code[a] == Op(i)
    ensures Engine(t, code)(At(a, s, stack, points)) == Exec(t, i, InLoop(a, s, stack, points))
  {}

  /** One instruction in front of a delivery. */
  lemma OpDelivers(t: Text, code: Bytecode, a: nat, i: Instr, s: State, stack: seq<nat>, points: seq<Point>,
      c: Config, pc: nat, stack': seq<nat>, es: seq<State>)
    requires Placed(code, a, Emit(i)) && Exec(t, i, InLoop(a, s, stack, points)) == c
    requires Delivers(Engine(t, code), c, pc, stack', es, points)
    ensures Delivers(Engine(t, code), At(a, s, stack, points), pc, stack', es, points)
  {
    hide Delivers, Exec, Placed;
    PlacedInstr(code, a, i);
    OpStep(t, code, a, i, s, stack, points);
    DeliversStep(Engine(t, code), At(a, s, stack, points), pc, stack', es, points);
  }

  /** A split delivers what its preferred branch delivers and then what the other one does. */
  lemma SplitDelivers(t: Text, code: Bytecode, a: nat, gotoFirst: bool, off: int, s: State, stack: seq<nat>,
      points: seq<Point>, pc: nat, stack': seq<nat>, first: nat, second: nat, l1: seq<State>, l2: seq<State>)
    requires Placed(code, a, Emit(Split(gotoFirst, off)))
    requires (first, second) == if gotoFirst then (a + 5 + off, a + 5) else (a + 5, a + 5 + off)
    requires forall ps :: Delivers(Engine(t, code), At(first, s, stack, ps), pc, stack', l1, ps)
    requires forall ps :: Delivers(Engine(t, code), At(second, s, stack, ps), pc, stack', l2, ps)
    ensures Delivers(Engine(t, code), At(a, s, stack, points), pc, stack', l1 + l2, points)
  {
    hide Delivers, Placed;
    var f := Engine(t, code);
    var more := [Point(SplitPoint, second, s.pos, s.caps, stack, 0)];
    PlacedInstr(code, a, Split(gotoFirst, off));
    OpStep(t, code, a, Split(gotoFirst, off), s, stack, points);
    assert f(At(a, s, stack, points)) == At(first, s, stack, points + more);
    assert (points + more)[..|points|] == points;
    assert f(Fail(points + more)) == At(second, s, stack, points);
    DeliversStep(f, Fail(points + more), pc, stack', l2, points);
    DeliversAppend(f, At(first, s, stack, points + more), pc, stack', l1, l2, points, more);
    DeliversStep(f, At(a, s, stack, points), pc, stack', l1 + l2, points);
  }

  // ----- the patterns without loops -----

  lemma {:induction false} Correct(t: Text, code: Bytecode, r: Pattern, k: nat, back: bool, a: nat, s: State,
      stack: seq<nat>, points: seq<Point>)
    requires Setup(t, code, r, k, back, a, s)
    ensures Delivers(Engine(t, code), At(a, s, stack, points), a + |Code(r, k, back)|, stack,
                     Ends(t, r, k, back, s), points)
    decreases r, 5, 0, 0
  {
    hide Delivers, Ends, Code, Ready, Placed;
    match r
    case Empty => EmptyDelivers(t, code, k, back, a, s, stack, points);
    case Assert(x) => AssertDelivers(t, code, x, k, back, a, s, stack, points);
    case Concat(_, _) => ConcatDelivers(t, code, r, k, back, a, s, stack, points);
    case Alternative(_, _) => AlternativeDelivers(t, code, r, k, back, a, s, stack, points);
    case Capture(_) => CaptureDelivers(t, code, r, k, back, a, s, stack, points);
    case Look(_, _, _) => LookDelivers(t, code, r, k, back, a, s, stack, points);
    case Quantified(_, _, _, _) => QuantDelivers(t, code, r, k, back, a, s, stack, points);
    case _ => CharDelivers(t, code, r, k, back, a, s, stack, points);
  }

  lemma EmptyDelivers(t: Text, code: Bytecode, k: nat, back: bool, a: nat, s: State, stack: seq<nat>,
      points: seq<Point>)
    requires Setup(t, code, Empty, k, back, a, s)
    ensures Delivers(Engine(t, code), At(a, s, stack, points), a + |Code(Empty, k, back)|, stack,
                     Ends(t, Empty, k, back, s), points)
  {
    hide Delivers;
    DeliversHere(Engine(t, code), a, s, stack, points);
  }

  lemma AssertDelivers(t: Text, code: Bytecode, x: Assertion, k: nat, back: bool, a: nat, s: State, stack: seq<nat>,
      points: seq<Point>)
    requires Setup(t, code, Assert(x), k, back, a, s)
    ensures Delivers(Engine(t, code), At(a, s, stack, points), a + |Code(Assert(x), k, back)|, stack,
                     Ends(t, Assert(x), k, back, s), points)
  {
    hide Delivers, Holds, Placed;
    var f := Engine(t, code);
    DeliversHere(f, a + 1, s, stack, points);
    DeliversNothing(f, a + 1, stack, points);
    var c := if Holds(t, x, s.pos) then At(a + 1, s, stack, points) else Fail(points);
    OpDelivers(t, code, a, Test(x), s, stack, points, c, a + 1, stack, Ends(t, Assert(x), k, back, s));
  }

  lemma CharDelivers(t: Text, code: Bytecode, r: Pattern, k: nat, back: bool, a: nat, s: State, stack: seq<nat>,
      points: seq<Point>)
    requires OneChar(r) && Setup(t, code, r, k, back, a, s)
    ensures Delivers(Engine(t, code), At(a, s, stack, points), a + |Code(r, k, back)|, stack,
                     Ends(t, r, k, back, s), points)
  {
    hide Delivers, Placed, Reads, Accepts, ValidText, Emit, Boundary, CharAt, CharBefore, Next, Prev;
    var i := CharInstr(r);
    if back {
      assert Code(r, k, back) == Emit(StepBack) + Emit(i) + Emit(StepBack);
      BackCharDelivers(t, code, r, a, s, stack, points);
    } else {
      assert Code(r, k, back) == Emit(i);
      ForwardCharDelivers(t, code, r, a, s, stack, points);
    }
  }

  ghost function CharEnds(t: Text, r: Pattern, back: bool, s: State): seq<State>
    requires OneChar(r) && s.pos <= |t.units|
  {
    var e := CharEnd(t, r, back, s.pos);
    if e.Some? then [State(e.value, s.caps)] else []
  }

  lemma ForwardCharDelivers(t: Text, code: Bytecode, r: Pattern, a: nat, s: State, stack: seq<nat>, points: seq<Point>)
    requires OneChar(r) && WellFormed(r) && ValidText(t) && s.pos <= |t.units|
    requires Placed(code, a, Emit(CharInstr(r)))
    ensures Delivers(Engine(t, code), At(a, s, stack, points), a + Size(CharInstr(r)), stack,
                     CharEnds(t, r, false, s), points)
  {
    hide Delivers, Placed, Reads, Accepts, ValidText, Emit, Boundary, CharAt, CharBefore, Next, CharInstr, WellFormed,
      Size;
    var f, i := Engine(t, code), CharInstr(r);
    if s.pos < |t.units| {
      CharBound(t, s.pos);
      CharReads(r, CharAt(t, s.pos));
    }
    var es := CharEnds(t, r, false, s);
    if es == [] {
      DeliversNothing(f, a + Size(i), stack, points);
    } else {
      DeliversHere(f, a + Size(i), es[0], stack, points);
    }
    var c := if es == [] then Fail(points) else At(a + Size(i), es[0], stack, points);
    OpDelivers(t, code, a, i, s, stack, points, c, a + Size(i), stack, es);
  }

  lemma BackCharDelivers(t: Text, code: Bytecode, r: Pattern, a: nat, s: State, stack: seq<nat>, points: seq<Point>)
    requires OneChar(r) && WellFormed(r) && ValidText(t) && s.pos <= |t.units| && Boundary(t, s.pos)
    requires Placed(code, a, Emit(StepBack) + Emit(CharInstr(r)) + Emit(StepBack))
    ensures Delivers(Engine(t, code), At(a, s, stack, points), a + 2 + Size(CharInstr(r)), stack,
                     CharEnds(t, r, true, s), points)
  {
    hide Delivers, Placed, Accepts, ValidText, Emit, CharInstr, WellFormed, Reads;
    var f, i := Engine(t, code), CharInstr(r);
    var n := a + 1 + Size(i);
    PlacedParts(code, a, Emit(StepBack) + Emit(i), Emit(StepBack));
    PlacedParts(code, a, Emit(StepBack), Emit(i));
    var es := CharEnds(t, r, true, s);
    DeliversNothing(f, n + 1, stack, points);
    if s.pos == 0 {
      OpDelivers(t, code, a, StepBack, s, stack, points, Fail(points), n + 1, stack, es);
    } else {
      var p := State(Prev(t, s.pos), s.caps);
      NextUndoesPrev(t, s.pos);
      ForwardCharDelivers(t, code, r, a + 1, p, stack, points);
      assert CharAt(t, p.pos) == CharBefore(t, s.pos);
      var fs := if es == [] then [] else [[p]];
      forall j, ps | 0 <= j < |CharEnds(t, r, false, p)|
        ensures Delivers(f, At(n, CharEnds(t, r, false, p)[j], stack, ps), n + 1, stack, fs[j], ps)
      {
        DeliversHere(f, n + 1, p, stack, ps);
        OpDelivers(t, code, n, StepBack, s, stack, ps, At(n + 1, p, stack, ps), n + 1, stack, [p]);
      }
      DeliversEach(f, At(a + 1, p, stack, points), n, stack, CharEnds(t, r, false, p), n + 1, stack, fs, points);
      if es != [] { FlattenOne([p]); }
      assert Flatten(fs) == es;
      OpDelivers(t, code, a, StepBack, s, stack, points, At(a + 1, p, stack, points), n + 1, stack, es);
    }
  }

  lemma {:induction false} ConcatDelivers(t: Text, code: Bytecode, r: Pattern, k: nat, back: bool, a: nat, s: State,
      stack: seq<nat>, points: seq<Point>)
    requires r.Concat? && Setup(t, code, r, k, back, a, s)
    ensures Delivers(Engine(t, code), At(a, s, stack, points), a + |Code(r, k, back)|, stack,
                     Ends(t, r, k, back, s), points)
    decreases r, 4, 0, 0
  {
    hide Delivers, Ends, Placed, Chained, Executable, Boundary, Code;
    ConcatCode(r.left, r.right, k, back);
    if back {
      ChainDelivers(t, code, r, r.right, k + Groups(r.left), r.left, k, back, a, s, stack, points);
      ConcatBackward(t, r.left, r.right, k, s);
    } else {
      ChainDelivers(t, code, r, r.left, k, r.right, k + Groups(r.left), back, a, s, stack, points);
      ConcatForward(t, r.left, r.right, k, s);
    }
  }

  lemma ConcatCode(p: Pattern, q: Pattern, k: nat, back: bool)
    ensures Code(Concat(p, q), k, back) ==
      if back then Code(q, k + Groups(p), back) + Code(p, k, back) else Code(p, k, back) + Code(q, k + Groups(p), back)
  {
    hide QuantCode, Groups, Emit, Oriented;
  }

  lemma ExecutableParts(t: Text, r: Pattern, back: bool)
    requires Executable(t, r, back)
    ensures r.Concat? || r.Alternative? ==> Executable(t, r.left, back) && Executable(t, r.right, back)
    ensures r.Capture? || r.Quantified? ==> Executable(t, r.body, back)
    ensures r.Look? ==> Executable(t, r.body, r.behind)
  {}

  lemma {:induction false} ChainDelivers(t: Text, code: Bytecode, r: Pattern, p: Pattern, kp: nat, q: Pattern, kq: nat,
      back: bool, a: nat, s: State, stack: seq<nat>, points: seq<Point>)
    requires Executable(t, r, back) && (r == Concat(p, q) || r == Concat(q, p))
    requires Ready(t, kp + Groups(p), s) && Ready(t, kq + Groups(q), s)
    requires Placed(code, a, Code(p, kp, back) + Code(q, kq, back))
    ensures Delivers(Engine(t, code), At(a, s, stack, points), a + |Code(p, kp, back) + Code(q, kq, back)|, stack,
                     Chained(t, p, kp, q, kq, back, s), points)
    decreases r, 3, 0, 0
  {
    hide Delivers, Ends, EachEnds, Flatten, Code, Groups, Placed, Executable;
    var f, x, y := Engine(t, code), Code(p, kp, back), Code(q, kq, back);
    var m, b := a + |x|, a + |x| + |y|;
    ExecutableParts(t, r, back);
    PlacedParts(code, a, x, y);
    Correct(t, code, p, kp, back, a, s, stack, points);
    var es := Ends(t, p, kp, back, s);
    var fs := EachEnds(t, q, kq, back, es, s);
    EachEndsAt(t, q, kq, back, es, s);
    EndsReady(t, back, kq + Groups(q), s, es);
    forall i, ps | 0 <= i < |es|
      ensures Delivers(f, At(m, es[i], stack, ps), b, stack, fs[i], ps)
    {
      Correct(t, code, q, kq, back, m, es[i], stack, ps);
    }
    DeliversEach(f, At(a, s, stack, points), m, stack, es, b, stack, fs, points);
  }

  lemma {:induction false} AlternativeDelivers(t: Text, code: Bytecode, r: Pattern, k: nat, back: bool, a: nat,
      s: State, stack: seq<nat>, points: seq<Point>)
    requires r.Alternative? && Setup(t, code, r, k, back, a, s)
    ensures Delivers(Engine(t, code), At(a, s, stack, points), a + |Code(r, k, back)|, stack,
                     Ends(t, r, k, back, s), points)
    decreases r, 4, 0, 0
  {
    hide Delivers, Ends, Placed, Executable, Boundary, Emit;
    hide Code;
    var f, p, q := Engine(t, code), r.left, r.right;
    var x, y := Code(p, k, back), Code(q, k + Groups(p), back);
    var first, second, b := a + 5, a + 10 + |x|, a + 10 + |x| + |y|;
    ExecutableParts(t, r, back);
    AlternativePlaces(code, p, q, k, back, a);
    forall ps ensures Delivers(f, At(first, s, stack, ps), b, stack, Ends(t, p, k, back, s), ps) {
      LeftDelivers(t, code, r, k, back, a, s, stack, ps);
    }
    forall ps ensures Delivers(f, At(second, s, stack, ps), b, stack, Ends(t, q, k + Groups(p), back, s), ps) {
      Correct(t, code, q, k + Groups(p), back, second, s, stack, ps);
    }
    SplitDelivers(t, code, a, false, |x| + 5, s, stack, points, b, stack, first, second,
                  Ends(t, p, k, back, s), Ends(t, q, k + Groups(p), back, s));
    AlternativeEnds(t, p, q, k, back, s);
  }

  lemma AlternativeCode(p: Pattern, q: Pattern, k: nat, back: bool)
    ensures var x, y := Code(p, k, back), Code(q, k + Groups(p), back);
            Code(Alternative(p, q), k, back) == Emit(Split(false, |x| + 5)) + x + Emit(Goto(|y|)) + y
  {
    hide QuantCode, Groups, Emit, Oriented;
  }

  lemma AlternativePlaces(code: Bytecode, p: Pattern, q: Pattern, k: nat, back: bool, a: nat)
    requires Placed(code, a, Code(Alternative(p, q), k, back))
    ensures var x, y := Code(p, k, back), Code(q, k + Groups(p), back);
            && |Code(Alternative(p, q), k, back)| == 10 + |x| + |y|
            && Placed(code, a, Emit(Split(false, |x| + 5))) && Placed(code, a + 5, x)
            && Placed(code, a + 5 + |x|, Emit(Goto(|y|))) && Placed(code, a + 10 + |x|, y)
  {
    hide Placed, Code, Groups, Emit;
    AlternativeCode(p, q, k, back);
    var x, y := Code(p, k, back), Code(q, k + Groups(p), back);
    var split, skip := Emit(Split(false, |x| + 5)), Emit(Goto(|y|));
    PlacedParts(code, a, split + x + skip, y);
    PlacedParts(code, a, split + x, skip);
    PlacedParts(code, a, split, x);
  }

  /** The first alternative, followed by the jump over the second. */
  lemma {:induction false} LeftDelivers(t: Text, code: Bytecode, r: Pattern, k: nat, back: bool, a: nat, s: State,
      stack: seq<nat>, points: seq<Point>)
    requires r.Alternative? && Executable(t, r, back) && Ready(t, k + Groups(r), s)
    requires Placed(code, a + 5, Code(r.left, k, back))
    requires Placed(code, a + 5 + |Code(r.left, k, back)|, Emit(Goto(|Code(r.right, k + Groups(r.left), back)|)))
    ensures Delivers(Engine(t, code), At(a + 5, s, stack, points),
                     a + 10 + |Code(r.left, k, back)| + |Code(r.right, k + Groups(r.left), back)|, stack,
                     Ends(t, r.left, k, back, s), points)
    decreases r, 3, 0, 0
  {
    hide Delivers, Ends, Placed, Executable, Boundary, Emit, Code, Flatten;
    var f, x, y := Engine(t, code), Code(r.left, k, back), Code(r.right, k + Groups(r.left), back);
    var m, b := a + 5 + |x|, a + 10 + |x| + |y|;
    ExecutableParts(t, r, back);
    Correct(t, code, r.left, k, back, a + 5, s, stack, points);
    var es := Ends(t, r.left, k, back, s);
    var fs := seq(|es|, i requires 0 <= i < |es| => [es[i]]);
    forall i, ps | 0 <= i < |es| ensures Delivers(f, At(m, es[i], stack, ps), b, stack, fs[i], ps) {
      DeliversHere(f, b, es[i], stack, ps);
      OpDelivers(t, code, m, Goto(|y|), es[i], stack, ps, At(b, es[i], stack, ps), b, stack, fs[i]);
    }
    DeliversEach(f, At(a + 5, s, stack, points), m, stack, es, b, stack, fs, points);
    FlattenSingles(fs, es);
  }

  lemma CapturePlaces(code: Bytecode, r: Pattern, k: nat, back: bool, a: nat)
    requires r.Capture? && Placed(code, a, Code(r, k, back))
    ensures var x := Code(r.body, k + 1, back);
            && |Code(r, k, back)| == 4 + |x|
            && Placed(code, a, Emit(Save(k, back))) && Placed(code, a + 2, x) &&
              Placed(code, a + 2 + |x|, Emit(Save(k, !back)))
  {
    hide Placed, QuantCode, Groups;
    var x := Code(r.body, k + 1, back);
    PlacedParts(code, a, Emit(Save(k, back)) + x, Emit(Save(k, !back)));
    PlacedParts(code, a, Emit(Save(k, back)), x);
  }

  lemma {:induction false} CaptureDelivers(t: Text, code: Bytecode, r: Pattern, k: nat, back: bool, a: nat, s: State,
      stack: seq<nat>, points: seq<Point>)
    requires r.Capture? && Setup(t, code, r, k, back, a, s)
    ensures Delivers(Engine(t, code), At(a, s, stack, points), a + |Code(r, k, back)|, stack,
                     Ends(t, r, k, back, s), points)
    decreases r, 4, 0, 0
  {
    hide Delivers, Ends, Placed, Executable, Boundary, Emit, Flatten, Saved, Code;
    var f, x := Engine(t, code), Code(r.body, k + 1, back);
    var m, b := a + 2 + |x|, a + 4 + |x|;
    ExecutableParts(t, r, back);
    CapturePlaces(code, r, k, back, a);
    var s' := State(s.pos, Saved(s.caps, k, back, s.pos));
    Correct(t, code, r.body, k + 1, back, a + 2, s', stack, points);
    var es := Ends(t, r.body, k + 1, back, s');
    CaptureEnds(t, r.body, k, back, s);
    var cs := Closed(t, es, k, back, s);
    var fs := seq(|es|, i requires 0 <= i < |es| => [cs[i]]);
    EndsReady(t, back, k + Groups(r), s', es);
    forall i, ps | 0 <= i < |es| ensures Delivers(f, At(m, es[i], stack, ps), b, stack, fs[i], ps) {
      DeliversHere(f, b, cs[i], stack, ps);
      OpDelivers(t, code, m, Save(k, !back), es[i], stack, ps, At(b, cs[i], stack, ps), b, stack, fs[i]);
    }
    DeliversEach(f, At(a + 2, s', stack, points), m, stack, es, b, stack, fs, points);
    FlattenSingles(fs, cs);
    OpDelivers(t, code, a, Save(k, back), s, stack, points, At(a + 2, s', stack, points), b, stack, cs);
  }

  /** A match discards the points pushed since the look-around began. */
  lemma {:induction false} HitDiscards(t: Text, code: Bytecode, caps: Captures, points: seq<Point>, more: seq<Point>)
    requires Discardable(more)
    ensures Reaches(Engine(t, code), Hit(caps, points + more), Hit(caps, points))
    decreases |more|
  {
    hide Reaches;
    var f := Engine(t, code);
    if more == [] {
      assert points + more == points;
      ReachesSelf(f, Hit(caps, points));
    } else {
      var rest := more[..|more| - 1];
      assert (points + more)[..|points + more| - 1] == points + rest;
      assert f(Hit(caps, points + more)) == Hit(caps, points + rest);
      ReachesStep(f, Hit(caps, points + more));
      HitDiscards(t, code, caps, points, rest);
      ReachesTrans(f, Hit(caps, points + more), Hit(caps, points + rest), Hit(caps, points));
    }
  }

  lemma LookEnds(t: Text, negative: bool, behind: bool, r: Pattern, k: nat, back: bool, s: State)
    requires s.pos <= |t.units|
    ensures Ends(t, Look(negative, behind, r), k, back, s) ==
      var es := Ends(t, r, k, behind, s);
      if negative then if es == [] then [s] else []
      else if es == [] then [] else [State(s.pos, es[0].caps)]
  {
    hide EachEnds, Flatten, Groups, CharEnd, Closed, Repeat, Holds, AllInDirection;
  }

  lemma {:induction false} LookDelivers(t: Text, code: Bytecode, r: Pattern, k: nat, back: bool, a: nat, s: State,
      stack: seq<nat>, points: seq<Point>)
    requires r.Look? && Setup(t, code, r, k, back, a, s)
    ensures Delivers(Engine(t, code), At(a, s, stack, points), a + |Code(r, k, back)|, stack,
                     Ends(t, r, k, back, s), points)
    decreases r, 4, 0, 0
  {
    hide Delivers, Ends, Placed, Executable, Boundary, Emit, Code;
    var f, x := Engine(t, code), Code(r.body, k, r.behind);
    var i := LookAround(r.negative, |x| + 1);
    ExecutableParts(t, r, back);
    LookPlaces(code, r, k, back, a);
    var p := Point(if r.negative then NegativeLookPoint else LookPoint, a + 6 + |x|, s.pos, s.caps, stack, 0);
    Correct(t, code, r.body, k, r.behind, a + 5, s, stack, points + [p]);
    var es := Ends(t, r.body, k, r.behind, s);
    PlacedInstr(code, a + 5 + |x|, Accept);
    LookOutcome(t, code, r.negative, a + 5 + |x|, At(a + 5, s, stack, points + [p]), s, stack, es, points);
    LookEnds(t, r.negative, r.behind, r.body, k, back, s);
    OpDelivers(t, code, a, i, s, stack, points, At(a + 5, s, stack, points + [p]), a + 6 + |x|, stack,
               Ends(t, r, k, back, s));
  }

  lemma LookPlaces(code: Bytecode, r: Pattern, k: nat, back: bool, a: nat)
    requires r.Look? && Placed(code, a, Code(r, k, back))
    ensures var x := Code(r.body, k, r.behind);
            && |Code(r, k, back)| == 6 + |x|
            && Placed(code, a, Emit(LookAround(r.negative, |x| + 1))) && Placed(code, a + 5, x)
            && Placed(code, a + 5 + |x|, Emit(Accept))
  {
    hide Placed, QuantCode, Groups;
    var x := Code(r.body, k, r.behind);
    var i := LookAround(r.negative, |x| + 1);
    PlacedParts(code, a, Emit(i) + x, Emit(Accept));
    PlacedParts(code, a, Emit(i), x);
  }

  /** The accept at m ends the look-around whose point lies directly above `points`. */
  lemma LookOutcome(t: Text, code: Bytecode, negative: bool, m: nat, c: Config, s: State, stack: seq<nat>,
      es: seq<State>, points: seq<Point>)
    requires m < |code| && code[m] == Op(Accept)
    requires var p := Point(if negative then NegativeLookPoint else LookPoint, m + 1, s.pos, s.caps, stack, 0);
             Delivers(Engine(t, code), c, m, stack, es, points + [p])
    ensures Delivers(Engine(t, code), c, m + 1, stack,
                     if negative then if es == [] then [s] else []
                     else if es == [] then [] else [State(s.pos, es[0].caps)], points)
  {
    hide Reaches, Delivers;
    var f := Engine(t, code);
    var p := Point(if negative then NegativeLookPoint else LookPoint, m + 1, s.pos, s.caps, stack, 0);
    assert (points + [p])[..|points|] == points;
    if es == [] {
      DeliversEmpty(f, c, m, stack, points + [p]);
      if negative {
        DeliversHere(f, m + 1, s, stack, points);
        assert f(Fail(points + [p])) == At(m + 1, s, stack, points);
        DeliversStep(f, Fail(points + [p]), m + 1, stack, [s], points);
        DeliversAfter(f, c, Fail(points + [p]), m + 1, stack, [s], points);
      } else {
        DeliversNothing(f, m + 1, stack, points);
        assert f(Fail(points + [p])) == Fail(points);
        DeliversStep(f, Fail(points + [p]), m + 1, stack, [], points);
        DeliversAfter(f, c, Fail(points + [p]), m + 1, stack, [], points);
      }
    } else {
      var more := DeliversFirst(f, c, m, stack, es, points + [p]);
      var caps := es[0].caps;
      var hit := Hit(caps, points + [p] + more);
      assert f(At(m, es[0], stack, points + [p] + more)) == hit;
      ReachesStep(f, At(m, es[0], stack, points + [p] + more));
      ReachesTrans(f, c, At(m, es[0], stack, points + [p] + more), hit);
      HitDiscards(t, code, caps, points + [p], more);
      ReachesTrans(f, c, hit, Hit(caps, points + [p]));
      if negative {
        DeliversNothing(f, m + 1, stack, points);
        assert f(Hit(caps, points + [p])) == Fail(points);
        DeliversStep(f, Hit(caps, points + [p]), m + 1, stack, [], points);
        DeliversAfter(f, c, Hit(caps, points + [p]), m + 1, stack, [], points);
      } else {
        var e := State(s.pos, caps);
        DeliversHere(f, m + 1, e, stack, points);
        assert f(Hit(caps, points + [p])) == At(m + 1, e, stack, points);
        DeliversStep(f, Hit(caps, points + [p]), m + 1, stack, [e], points);
        DeliversAfter(f, c, Hit(caps, points + [p]), m + 1, stack, [e], points);
      }
    }
  }

  lemma DeliversEmpty(f: Machine, c: Config, pc: nat, stack: seq<nat>, points: seq<Point>)
    requires Delivers(f, c, pc, stack, [], points)
    ensures Reaches(f, c, Fail(points))
  {
    hide Reaches;
  }

  lemma DeliversFirst(f: Machine, c: Config, pc: nat, stack: seq<nat>, es: seq<State>, points: seq<Point>)
      returns (more: seq<Point>)
    requires es != [] && Delivers(f, c, pc, stack, es, points)
    ensures Discardable(more) && Reaches(f, c, At(pc, es[0], stack, points + more))
  {
    hide Reaches;
    var mores :| DeliversVia(f, c, pc, stack, es, points, mores);
    more := mores[0];
  }

  // ----- loops -----

  /** A loop over r may be run from s. */
  ghost predicate LoopSetup(t: Text, r: Pattern, k: nat, back: bool, s: State) {
    Executable(t, r, back) && Ready(t, k + Groups(r), s)
  }

  /** Empty iterations are barred by the emitted check or by the atom, or they are not barred at all. */
  ghost predicate CheckFits(t: Text, r: Pattern, back: bool, check: bool, barred: bool) {
    if barred then check || Advances(t, r, back) else !check
  }

  lemma {:induction false} EndsLoopSetup(t: Text, r: Pattern, k: nat, back: bool, s: State)
    requires LoopSetup(t, r, k, back, s)
    ensures forall i :: 0 <= i < |Ends(t, r, k, back, s)| ==> LoopSetup(t, r, k, back, Ends(t, r, k, back, s)[i])
  {
    hide Ends, Executable, Groups, Boundary;
  }

  lemma GuardedPlaces(code: Bytecode, a: nat, atom: Bytecode)
    requires Placed(code, a, Guarded(atom, true))
    ensures |Guarded(atom, true)| == |atom| + 2
    ensures Placed(code, a, Emit(PushPos)) && Placed(code, a + 1, atom)
    ensures Placed(code, a + 1 + |atom|, Emit(CheckAdvance))
  {
    hide Placed;
    PlacedParts(code, a, Emit(PushPos) + atom, Emit(CheckAdvance));
    PlacedParts(code, a, Emit(PushPos), atom);
  }

  /**
  An optional iteration: from every end that is not barred the machine goes on
  behind the guarded atom, the others fail.
  */
  lemma {:induction false} GuardedDelivers(t: Text, code: Bytecode, r: Pattern, k: nat, back: bool, check: bool,
      barred: bool,
      a: nat, b: nat, s: State, stack: seq<nat>, points: seq<Point>, pc: nat, stack': seq<nat>, fs: seq<seq<State>>)
    requires LoopSetup(t, r, k, back, s) && CheckFits(t, r, back, check, barred)
    requires Placed(code, a, Guarded(Code(r, k, back), check)) && b == a + |Guarded(Code(r, k, back), check)|
    requires |fs| == |Ends(t, r, k, back, s)|
    requires forall i :: 0 <= i < |fs| && barred && Ends(t, r, k, back, s)[i].pos == s.pos ==> fs[i] == []
    requires forall i, ps :: 0 <= i < |fs| && !(barred && Ends(t, r, k, back, s)[i].pos == s.pos) ==>
      Delivers(Engine(t, code), At(b, Ends(t, r, k, back, s)[i], stack, ps), pc, stack', fs[i], ps)
    ensures Delivers(Engine(t, code), At(a, s, stack, points), pc, stack', Flatten(fs), points)
    decreases r, 6, 0, 0
  {
    hide Delivers, Ends, Placed, Executable, Boundary, Emit, Code, Flatten, Guarded, Advances, Groups;
    var f := Engine(t, code);
    var es := Ends(t, r, k, back, s);
    if check {
      var n := a + 1 + |Code(r, k, back)|;
      var stack1 := stack + [s.pos];
      GuardedPlaces(code, a, Code(r, k, back));
      Correct(t, code, r, k, back, a + 1, s, stack1, points);
      forall i, ps | 0 <= i < |es| ensures Delivers(f, At(n, es[i], stack1, ps), pc, stack', fs[i], ps) {
        CheckDelivers(t, code, n, es[i], s.pos, stack, ps, pc, stack', fs[i]);
      }
      DeliversEach(f, At(a + 1, s, stack1, points), n, stack1, es, pc, stack', fs, points);
      OpDelivers(t, code, a, PushPos, s, stack, points, At(a + 1, s, stack1, points), pc, stack', Flatten(fs));
    } else {
      NotGuarded(Code(r, k, back));
      Correct(t, code, r, k, back, a, s, stack, points);
      if barred { AdvancingEnds(t, r, k, back, s); }
      DeliversEach(f, At(a, s, stack, points), b, stack, es, pc, stack', fs, points);
    }
  }

  lemma AdvancingEnds(t: Text, r: Pattern, k: nat, back: bool, s: State)
    requires Advances(t, r, back) && s.pos <= |t.units| && Boundary(t, s.pos)
    ensures NoneAt(Ends(t, r, k, back, s), s.pos)
  {
    hide Ends, NoneAt;
  }

  lemma NotGuarded(atom: Bytecode)
    ensures Guarded(atom, false) == atom
  {}

  /** check_advance: fails when the position is the one pushed before the atom. */
  lemma CheckDelivers(t: Text, code: Bytecode, n: nat, e: State, from: nat, stack: seq<nat>, points: seq<Point>,
      pc: nat, stack': seq<nat>, es: seq<State>)
    requires Placed(code, n, Emit(CheckAdvance))
    requires e.pos == from ==> es == []
    requires e.pos != from ==> Delivers(Engine(t, code), At(n + 1, e, stack, points), pc, stack', es, points)
    ensures Delivers(Engine(t, code), At(n, e, stack + [from], points), pc, stack', es, points)
  {
    hide Delivers, Placed, Emit;
    assert (stack + [from])[..|stack|] == stack;
    if e.pos == from {
      DeliversNothing(Engine(t, code), pc, stack', points);
      OpDelivers(t, code, n, CheckAdvance, e, stack + [from], points, Fail(points), pc, stack', es);
    } else {
      OpDelivers(t, code, n, CheckAdvance, e, stack + [from], points, At(n + 1, e, stack, points), pc, stack', es);
    }
  }

  /**
  The split in front of optional iterations: given the delivery behind the
  guarded atom and the one at the exit, it delivers the whole repetition.
  */
  lemma {:induction false} MayDelivers(t: Text, code: Bytecode, r: Pattern, k: nat, back: bool, greedy: bool,
      check: bool, max: nat,
      a: nat, b: nat, exit: nat, s: State, stack: seq<nat>, points: seq<Point>, pc: nat, stack': seq<nat>)
    requires LoopSetup(t, r, k, back, s) && CheckFits(t, r, back, check, Checked(greedy, max)) && 0 < max
    requires Placed(code, a, Emit(Split(!greedy, exit - (a + 5))))
    requires Placed(code, a + 5, Guarded(Code(r, k, back), check)) && b == a + 5 + |Guarded(Code(r, k, back), check)|
    requires forall ps :: Delivers(Engine(t, code), At(exit, s, stack, ps), pc, stack', [s], ps)
    requires forall i, ps ::
      0 <= i < |Ends(t, r, k, back, s)| && !(Checked(greedy, max) && Ends(t, r, k, back, s)[i].pos == s.pos) ==>
      Delivers(Engine(t, code), At(b, Ends(t, r, k, back, s)[i], stack, ps), pc, stack',
               Repeat(t, r, k, back, 0, Less(max), greedy, Ends(t, r, k, back, s)[i]), ps)
    ensures Delivers(Engine(t, code), At(a, s, stack, points), pc, stack',
                     Repeat(t, r, k, back, 0, max, greedy, s), points)
    decreases r, 6, 1, 0
  {
    hide Delivers, Ends, Placed, Executable, Boundary, Emit, Code, Flatten, Guarded, Advances, Groups, Repeat,
      EachRepeat;
    var f := Engine(t, code);
    var es := Ends(t, r, k, back, s);
    var fs := EachRepeat(t, r, k, back, 0, Less(max), greedy, es, s, Checked(greedy, max));
    EachRepeatAt(t, r, k, back, 0, Less(max), greedy, es, s, Checked(greedy, max));
    var body := a + 5;
    forall ps ensures Delivers(f, At(body, s, stack, ps), pc, stack', Flatten(fs), ps) {
      GuardedDelivers(t, code, r, k, back, check, Checked(greedy, max), body, b, s, stack, ps, pc, stack', fs);
    }
    RepeatMay(t, r, k, back, max, greedy, s);
    if greedy {
      SplitDelivers(t, code, a, false, exit - (a + 5), s, stack, points, pc, stack', body, exit, Flatten(fs), [s]);
    } else {
      SplitDelivers(t, code, a, true, exit - (a + 5), s, stack, points, pc, stack', exit, body, [s], Flatten(fs));
    }
  }

  lemma StarPlaces(code: Bytecode, a: nat, body: Bytecode, greedy: bool)
    requires Placed(code, a, StarCode(body, greedy))
    ensures |StarCode(body, greedy)| == |body| + 10
    ensures Placed(code, a, Emit(Split(!greedy, |body| + 5))) && Placed(code, a + 5, body)
    ensures Placed(code, a + 5 + |body|, Emit(Goto(-(|body| + 10))))
  {
    hide Placed;
    PlacedParts(code, a, Emit(Split(!greedy, |body| + 5)) + body, Emit(Goto(-(|body| + 10))));
    PlacedParts(code, a, Emit(Split(!greedy, |body| + 5)), body);
  }

  /** atom* */
  lemma {:induction false} StarDelivers(t: Text, code: Bytecode, r: Pattern, k: nat, back: bool, greedy: bool,
      check: bool, a: nat, s: State,
      stack: seq<nat>, points: seq<Point>)
    requires LoopSetup(t, r, k, back, s) && CheckFits(t, r, back, check, true)
    requires Placed(code, a, StarCode(Guarded(Code(r, k, back), check), greedy))
    ensures Delivers(Engine(t, code), At(a, s, stack, points),
                     a + |StarCode(Guarded(Code(r, k, back), check), greedy)|, stack,
                     Repeat(t, r, k, back, 0, INFINITE, greedy, s), points)
    decreases r, 7, 0, Ahead(t, back, s.pos)
  {
    hide Delivers, Ends, Placed, Executable, Boundary, Emit, Code, Guarded, Advances, Groups, Repeat, StarCode;
    var f := Engine(t, code);
    var body := Guarded(Code(r, k, back), check);
    var m, exit := a + 5 + |body|, a + 10 + |body|;
    StarPlaces(code, a, body, greedy);
    var es := Ends(t, r, k, back, s);
    EndsLoopSetup(t, r, k, back, s);
    forall ps ensures Delivers(f, At(exit, s, stack, ps), exit, stack, [s], ps) {
      DeliversHere(f, exit, s, stack, ps);
    }
    forall i, ps | 0 <= i < |es| && es[i].pos != s.pos
      ensures Delivers(f, At(m, es[i], stack, ps), exit, stack,
                       Repeat(t, r, k, back, 0, Less(INFINITE), greedy, es[i]), ps)
    {
      StarDelivers(t, code, r, k, back, greedy, check, a, es[i], stack, ps);
      OpDelivers(t, code, m, Goto(-(|body| + 10)), es[i], stack, ps, At(a, es[i], stack, ps), exit, stack,
                 Repeat(t, r, k, back, 0, INFINITE, greedy, es[i]));
    }
    MayDelivers(t, code, r, k, back, greedy, check, INFINITE, a, m, exit, s, stack, points, exit, stack);
  }

  /** atom? */
  lemma {:induction false} OptionDelivers(t: Text, code: Bytecode, r: Pattern, k: nat, back: bool, greedy: bool,
      check: bool, a: nat, s: State,
      stack: seq<nat>, points: seq<Point>)
    requires LoopSetup(t, r, k, back, s) && CheckFits(t, r, back, check, greedy)
    requires Placed(code, a, OptionCode(Guarded(Code(r, k, back), check), greedy))
    ensures Delivers(Engine(t, code), At(a, s, stack, points),
                     a + |OptionCode(Guarded(Code(r, k, back), check), greedy)|, stack,
                     Repeat(t, r, k, back, 0, 1, greedy, s), points)
    decreases r, 7, 0, 0
  {
    hide Delivers, Ends, Placed, Executable, Boundary, Code, Guarded, Advances, Groups, Repeat;
    var f := Engine(t, code);
    var body := Guarded(Code(r, k, back), check);
    var exit := a + 5 + |body|;
    PlacedParts(code, a, Emit(Split(!greedy, |body|)), body);
    var es := Ends(t, r, k, back, s);
    EndsLoopSetup(t, r, k, back, s);
    forall ps ensures Delivers(f, At(exit, s, stack, ps), exit, stack, [s], ps) {
      DeliversHere(f, exit, s, stack, ps);
    }
    forall i, ps | 0 <= i < |es|
      ensures Delivers(f, At(exit, es[i], stack, ps), exit, stack, Repeat(t, r, k, back, 0, Less(1), greedy, es[i]), ps)
    {
      RepeatZero(t, r, k, back, 0, greedy, es[i]);
      DeliversHere(f, exit, es[i], stack, ps);
    }
    MayDelivers(t, code, r, k, back, greedy, check, 1, a, exit, exit, s, stack, points, exit, stack);
  }

  /** Drop at n removes the loop counter and delivers the state behind it. */
  lemma DropDelivers(t: Text, code: Bytecode, n: nat, e: State, count: nat, stack: seq<nat>, points: seq<Point>)
    requires Placed(code, n, Emit(Drop))
    ensures Delivers(Engine(t, code), At(n, e, stack + [count], points), n + 1, stack, [e], points)
  {
    hide Delivers, Placed, Emit;
    assert (stack + [count])[..|stack|] == stack;
    DeliversHere(Engine(t, code), n + 1, e, stack, points);
    OpDelivers(t, code, n, Drop, e, stack + [count], points, At(n + 1, e, stack, points), n + 1, stack, [e]);
  }

  /** Loop at n: back to `target` while the counter does not reach zero. */
  lemma LoopDelivers(t: Text, code: Bytecode, n: nat, target: nat, e: State, count: nat, stack: seq<nat>,
      points: seq<Point>, pc: nat, stack': seq<nat>, es: seq<State>)
    requires count > 0 && Placed(code, n, Emit(Loop(target - (n + 5))))
    requires var next := if count > 1 then target else n + 5;
             Delivers(Engine(t, code), At(next, e, stack + [count - 1], points), pc, stack', es, points)
    ensures Delivers(Engine(t, code), At(n, e, stack + [count], points), pc, stack', es, points)
  {
    hide Delivers, Placed, Emit;
    assert (stack + [count])[..|stack|] == stack;
    OpDelivers(t, code, n, Loop(target - (n + 5)), e, stack + [count], points,
               At(if count > 1 then target else n + 5, e, stack + [count - 1], points), pc, stack', es);
  }

  lemma UpToPlaces(code: Bytecode, a: nat, body: Bytecode, n: nat, greedy: bool)
    requires Placed(code, a, UpToCode(body, n, greedy))
    ensures |UpToCode(body, n, greedy)| == |body| + 16
    ensures Placed(code, a, Emit(PushCount(n))) && Placed(code, a + 5, Emit(Split(!greedy, |body| + 5)))
    ensures Placed(code, a + 10, body) && Placed(code, a + 10 + |body|, Emit(Loop(-(|body| + 10))))
    ensures Placed(code, a + 15 + |body|, Emit(Drop))
  {
    hide Placed;
    var push, split, loop := Emit(PushCount(n)), Emit(Split(!greedy, |body| + 5)), Emit(Loop(-(|body| + 10)));
    PlacedParts(code, a, push + split + body + loop, Emit(Drop));
    PlacedParts(code, a, push + split + body, loop);
    PlacedParts(code, a, push + split, body);
    PlacedParts(code, a, push, split);
  }

  /** Up to n times the atom, from the split at `a` with the counter on the stack. */
  lemma {:induction false} UpToLoop(t: Text, code: Bytecode, r: Pattern, k: nat, back: bool, greedy: bool, check: bool,
      n: nat, a: nat, s: State,
      stack: seq<nat>, points: seq<Point>)
    requires LoopSetup(t, r, k, back, s) && CheckFits(t, r, back, check, greedy) && 0 < n < INFINITE
    requires var size := |Guarded(Code(r, k, back), check)|;
             && Placed(code, a, Emit(Split(!greedy, size + 5))) && Placed(code, a + 5, Guarded(Code(r, k, back), check))
             && Placed(code, a + 5 + size, Emit(Loop(-(size + 10)))) && Placed(code, a + 10 + size, Emit(Drop))
    ensures Delivers(Engine(t, code), At(a, s, stack + [n], points), a + 11 + |Guarded(Code(r, k, back), check)|, stack,
                     Repeat(t, r, k, back, 0, n, greedy, s), points)
    decreases r, 7, n, 0
  {
    hide Delivers, Ends, Placed, Executable, Boundary, Emit, Code, Guarded, Advances, Groups, Repeat;
    var f, size := Engine(t, code), |Guarded(Code(r, k, back), check)|;
    var m, exit, end := a + 5 + size, a + 10 + size, a + 11 + size;
    var es := Ends(t, r, k, back, s);
    var stackn := stack + [n];
    EndsLoopSetup(t, r, k, back, s);
    forall ps ensures Delivers(f, At(exit, s, stackn, ps), end, stack, [s], ps) {
      DropDelivers(t, code, exit, s, n, stack, ps);
    }
    forall i, ps | 0 <= i < |es|
      ensures Delivers(f, At(m, es[i], stackn, ps), end, stack, Repeat(t, r, k, back, 0, Less(n), greedy, es[i]), ps)
    {
      if n > 1 {
        UpToLoop(t, code, r, k, back, greedy, check, n - 1, a, es[i], stack, ps);
      } else {
        RepeatZero(t, r, k, back, 0, greedy, es[i]);
        DropDelivers(t, code, exit, es[i], 0, stack, ps);
      }
      LoopDelivers(t, code, m, a, es[i], n, stack, ps, end, stack, Repeat(t, r, k, back, 0, Less(n), greedy, es[i]));
    }
    MayDelivers(t, code, r, k, back, greedy, check, n, a, m, exit, s, stackn, points, end, stack);
  }

  lemma {:induction false} UpToDelivers(t: Text, code: Bytecode, r: Pattern, k: nat, back: bool, greedy: bool,
      check: bool, n: nat, a: nat, s: State,
      stack: seq<nat>, points: seq<Point>)
    requires LoopSetup(t, r, k, back, s) && CheckFits(t, r, back, check, greedy) && 0 < n < INFINITE
    requires Placed(code, a, UpToCode(Guarded(Code(r, k, back), check), n, greedy))
    ensures Delivers(Engine(t, code), At(a, s, stack, points),
                     a + |UpToCode(Guarded(Code(r, k, back), check), n, greedy)|, stack,
                     Repeat(t, r, k, back, 0, n, greedy, s), points)
    decreases r, 8, 0, 0
  {
    hide Delivers, Ends, Placed, Executable, Boundary, Emit, Code, Guarded, Advances, Groups, Repeat, UpToCode;
    var body := Guarded(Code(r, k, back), check);
    UpToPlaces(code, a, body, n, greedy);
    UpToLoop(t, code, r, k, back, greedy, check, n, a + 5, s, stack, points);
    OpDelivers(t, code, a, PushCount(n), s, stack, points, At(a + 5, s, stack + [n], points), a + 16 + |body|, stack,
               Repeat(t, r, k, back, 0, n, greedy, s));
  }

  function Remaining(min: nat, max: nat): nat {
    if max == INFINITE then INFINITE else if max > min then max - min else 0
  }

  /** The optional part of a quantifier. */
  lemma {:induction false} OptionalDelivers(t: Text, code: Bytecode, r: Pattern, k: nat, back: bool, greedy: bool,
      check: bool, min: nat, max: nat,
      a: nat, s: State, stack: seq<nat>, points: seq<Point>)
    requires LoopSetup(t, r, k, back, s) && min <= max <= INFINITE && CheckFits(t, r, back, check, Checked(greedy, max))
    requires Placed(code, a, OptionalCode(Guarded(Code(r, k, back), check), min, max, greedy))
    ensures Delivers(Engine(t, code), At(a, s, stack, points),
                     a + |OptionalCode(Guarded(Code(r, k, back), check), min, max, greedy)|, stack,
                     Repeat(t, r, k, back, 0, Remaining(min, max), greedy, s), points)
    decreases r, 9, 0, 0
  {
    hide Delivers, Ends, Placed, Executable, Boundary, Emit, Code, Guarded, Advances, Groups, Repeat, UpToCode,
      StarCode, OptionCode, CheckFits;
    if max == INFINITE {
      StarDelivers(t, code, r, k, back, greedy, check, a, s, stack, points);
    } else if max > min {
      if min == 0 && max == 1 {
        OptionDelivers(t, code, r, k, back, greedy, check, a, s, stack, points);
      } else {
        UpToDelivers(t, code, r, k, back, greedy, check, max - min, a, s, stack, points);
      }
    } else {
      RepeatZero(t, r, k, back, 0, greedy, s);
      DeliversHere(Engine(t, code), a, s, stack, points);
    }
  }

  /** A mandatory iteration: the atom, then the rest from each of its ends. */
  lemma {:induction false} MustDelivers(t: Text, code: Bytecode, r: Pattern, k: nat, back: bool, greedy: bool, n: nat,
      max: nat, a: nat, b: nat, s: State, stack: seq<nat>, points: seq<Point>, pc: nat, stack': seq<nat>)
    requires LoopSetup(t, r, k, back, s) && 0 < n && 0 < max
    requires Placed(code, a, Code(r, k, back)) && b == a + |Code(r, k, back)|
    requires forall i, ps :: 0 <= i < |Ends(t, r, k, back, s)| ==>
      Delivers(Engine(t, code), At(b, Ends(t, r, k, back, s)[i], stack, ps), pc, stack',
               Repeat(t, r, k, back, n - 1, Less(max), greedy, Ends(t, r, k, back, s)[i]), ps)
    ensures Delivers(Engine(t, code), At(a, s, stack, points), pc, stack',
                     Repeat(t, r, k, back, n, max, greedy, s), points)
    decreases r, 6, 0, 0
  {
    hide Delivers, Ends, Placed, Executable, Boundary, Code, Flatten, Groups, Repeat, EachRepeat;
    var es := Ends(t, r, k, back, s);
    var fs := EachRepeat(t, r, k, back, n - 1, Less(max), greedy, es, s, false);
    EachRepeatAt(t, r, k, back, n - 1, Less(max), greedy, es, s, false);
    Correct(t, code, r, k, back, a, s, stack, points);
    DeliversEach(Engine(t, code), At(a, s, stack, points), b, stack, es, pc, stack', fs, points);
    RepeatMust(t, r, k, back, n, max, greedy, s);
  }

  /** atom+ of a consuming atom, from the split behind it. */
  lemma {:induction false} PlusLoop(t: Text, code: Bytecode, r: Pattern, k: nat, back: bool, greedy: bool, a: nat,
      m: nat, s: State,
      stack: seq<nat>, points: seq<Point>)
    requires LoopSetup(t, r, k, back, s) && Advances(t, r, back)
    requires Placed(code, a, Code(r, k, back)) && m == a + |Code(r, k, back)|
    requires Placed(code, m, Emit(Split(greedy, a - (m + 5))))
    ensures Delivers(Engine(t, code), At(m, s, stack, points), m + 5, stack,
                     Repeat(t, r, k, back, 0, INFINITE, greedy, s), points)
    decreases r, 7, 0, Ahead(t, back, s.pos)
  {
    hide Delivers, Ends, Placed, Executable, Boundary, Emit, Code, Flatten, Advances, Groups, Repeat, EachRepeat;
    var f, exit := Engine(t, code), m + 5;
    var es := Ends(t, r, k, back, s);
    var fs := EachRepeat(t, r, k, back, 0, INFINITE, greedy, es, s, true);
    EachRepeatAt(t, r, k, back, 0, INFINITE, greedy, es, s, true);
    EndsLoopSetup(t, r, k, back, s);
    AdvancingEnds(t, r, k, back, s);
    forall i, ps | 0 <= i < |es| ensures Delivers(f, At(m, es[i], stack, ps), exit, stack, fs[i], ps) {
      PlusLoop(t, code, r, k, back, greedy, a, m, es[i], stack, ps);
    }
    forall ps ensures Delivers(f, At(a, s, stack, ps), exit, stack, Flatten(fs), ps) {
      Correct(t, code, r, k, back, a, s, stack, ps);
      DeliversEach(f, At(a, s, stack, ps), m, stack, es, exit, stack, fs, ps);
    }
    forall ps ensures Delivers(f, At(exit, s, stack, ps), exit, stack, [s], ps) {
      DeliversHere(f, exit, s, stack, ps);
    }
    RepeatMay(t, r, k, back, INFINITE, greedy, s);
    if greedy {
      SplitDelivers(t, code, m, true, a - (m + 5), s, stack, points, exit, stack, a, exit, Flatten(fs), [s]);
    } else {
      SplitDelivers(t, code, m, false, a - (m + 5), s, stack, points, exit, stack, exit, a, [s], Flatten(fs));
    }
  }

  lemma {:induction false} PlusDelivers(t: Text, code: Bytecode, r: Pattern, k: nat, back: bool, greedy: bool, a: nat,
      s: State, stack: seq<nat>, points: seq<Point>)
    requires LoopSetup(t, r, k, back, s) && Advances(t, r, back)
    requires Placed(code, a, Code(r, k, back) + Emit(Split(greedy, -(|Code(r, k, back)| + 5))))
    ensures Delivers(Engine(t, code), At(a, s, stack, points), a + |Code(r, k, back)| + 5, stack,
                     Repeat(t, r, k, back, 1, INFINITE, greedy, s), points)
    decreases r, 8, 0, 0
  {
    hide Delivers, Ends, Placed, Executable, Boundary, Emit, Code, Advances, Groups, Repeat;
    var f, m := Engine(t, code), a + |Code(r, k, back)|;
    var exit := m + 5;
    PlacedParts(code, a, Code(r, k, back), Emit(Split(greedy, -(|Code(r, k, back)| + 5))));
    var es := Ends(t, r, k, back, s);
    EndsLoopSetup(t, r, k, back, s);
    forall i, ps | 0 <= i < |es|
      ensures Delivers(f, At(m, es[i], stack, ps), exit, stack,
                       Repeat(t, r, k, back, 1 - 1, Less(INFINITE), greedy, es[i]), ps)
    {
      PlusLoop(t, code, r, k, back, greedy, a, m, es[i], stack, ps);
    }
    MustDelivers(t, code, r, k, back, greedy, 1, INFINITE, a, m, s, stack, points, exit, stack);
  }

  /** From every state the code at pc delivers the optional part. */
  ghost predicate RestDelivers(t: Text, code: Bytecode, r: Pattern, k: nat, back: bool, greedy: bool, rest: nat,
                               pc: nat, end: nat, stack: seq<nat>) {
    forall e, ps :: LoopSetup(t, r, k, back, e) ==>
      Delivers(Engine(t, code), At(pc, e, stack, ps), end, stack, Repeat(t, r, k, back, 0, rest, greedy, e), ps)
  }

  /** n mandatory iterations with the counter on the stack, then the optional part. */
  lemma {:induction false} TimesLoop(t: Text, code: Bytecode, r: Pattern, k: nat, back: bool, greedy: bool, n: nat,
      max: nat, rest: nat,
      a: nat, m: nat, end: nat, s: State, stack: seq<nat>, points: seq<Point>)
    requires LoopSetup(t, r, k, back, s) && 0 < n
    requires if max == INFINITE then rest == INFINITE else max == n + rest && max < INFINITE
    requires Placed(code, a, Code(r, k, back)) && m == a + |Code(r, k, back)|
    requires Placed(code, m, Emit(Loop(a - (m + 5)))) && Placed(code, m + 5, Emit(Drop))
    requires RestDelivers(t, code, r, k, back, greedy, rest, m + 6, end, stack)
    ensures Delivers(Engine(t, code), At(a, s, stack + [n], points), end, stack,
                     Repeat(t, r, k, back, n, max, greedy, s), points)
    decreases r, 7, n, 0
  {
    hide Delivers, Ends, Placed, Executable, Ready, Emit, Code, Groups, Repeat;
    var f := Engine(t, code);
    LoopSetupPos(t, r, k, back, s);
    var es := Ends(t, r, k, back, s);
    var stackn := stack + [n];
    EndsLoopSetup(t, r, k, back, s);
    forall i, ps | 0 <= i < |es|
      ensures Delivers(f, At(m, es[i], stackn, ps), end, stack,
                       Repeat(t, r, k, back, n - 1, Less(max), greedy, es[i]), ps)
    {
      if n > 1 {
        TimesLoop(t, code, r, k, back, greedy, n - 1, Less(max), rest, a, m, end, es[i], stack, ps);
      } else {
        DropThen(t, code, m + 5, es[i], 0, stack, ps, end, Repeat(t, r, k, back, 0, rest, greedy, es[i]));
      }
      LoopDelivers(t, code, m, a, es[i], n, stack, ps, end, stack,
                   Repeat(t, r, k, back, n - 1, Less(max), greedy, es[i]));
    }
    MustDelivers(t, code, r, k, back, greedy, n, max, a, m, s, stackn, points, end, stack);
  }

  lemma LoopSetupPos(t: Text, r: Pattern, k: nat, back: bool, s: State)
    requires LoopSetup(t, r, k, back, s)
    ensures s.pos <= |t.units|
  {}

  lemma DropThen(t: Text, code: Bytecode, n: nat, e: State, count: nat, stack: seq<nat>, points: seq<Point>, pc: nat,
      es: seq<State>)
    requires Placed(code, n, Emit(Drop))
    requires Delivers(Engine(t, code), At(n + 1, e, stack, points), pc, stack, es, points)
    ensures Delivers(Engine(t, code), At(n, e, stack + [count], points), pc, stack, es, points)
  {
    hide Delivers, Placed, Emit;
    assert (stack + [count])[..|stack|] == stack;
    OpDelivers(t, code, n, Drop, e, stack + [count], points, At(n + 1, e, stack, points), pc, stack, es);
  }

  lemma TimesPlaces(code: Bytecode, a: nat, atom: Bytecode, n: nat)
    requires n > 1 && Placed(code, a, TimesCode(atom, n))
    ensures |TimesCode(atom, n)| == |atom| + 11
    ensures Placed(code, a, Emit(PushCount(n))) && Placed(code, a + 5, atom)
    ensures Placed(code, a + 5 + |atom|, Emit(Loop(-(|atom| + 5)))) && Placed(code, a + 10 + |atom|, Emit(Drop))
  {
    hide Placed;
    var push, loop := Emit(PushCount(n)), Emit(Loop(-(|atom| + 5)));
    PlacedParts(code, a, push + atom + loop, Emit(Drop));
    PlacedParts(code, a, push + atom, loop);
    PlacedParts(code, a, push, atom);
  }

  /** The mandatory iterations of a quantifier followed by its optional part. */
  lemma {:induction false} TimesDelivers(t: Text, code: Bytecode, r: Pattern, k: nat, back: bool, greedy: bool,
      min: nat, max: nat, rest: nat,
      a: nat, b: nat, end: nat, s: State, stack: seq<nat>, points: seq<Point>)
    requires LoopSetup(t, r, k, back, s) && 0 < min
    requires if max == INFINITE then rest == INFINITE else max == min + rest && max < INFINITE
    requires Placed(code, a, TimesCode(Code(r, k, back), min)) && b == a + |TimesCode(Code(r, k, back), min)|
    requires RestDelivers(t, code, r, k, back, greedy, rest, b, end, stack)
    ensures Delivers(Engine(t, code), At(a, s, stack, points), end, stack,
                     Repeat(t, r, k, back, min, max, greedy, s), points)
    decreases r, 8, 0, 0
  {
    hide Delivers, Ends, Placed, Executable, Ready, Emit, Code, Groups, Repeat;
    var f := Engine(t, code);
    LoopSetupPos(t, r, k, back, s);
    if min == 1 {
      var es := Ends(t, r, k, back, s);
      EndsLoopSetup(t, r, k, back, s);
      assert forall i, ps :: 0 <= i < |es| ==>
        Delivers(f, At(b, es[i], stack, ps), end, stack, Repeat(t, r, k, back, min - 1, Less(max), greedy, es[i]), ps);
      MustDelivers(t, code, r, k, back, greedy, 1, max, a, b, s, stack, points, end, stack);
    } else {
      hide TimesCode;
      var len := |Code(r, k, back)|;
      TimesPlaces(code, a, Code(r, k, back), min);
      TimesLoop(t, code, r, k, back, greedy, min, max, rest, a + 5, a + 5 + len, end, s, stack, points);
      OpDelivers(t, code, a, PushCount(min), s, stack, points, At(a + 5, s, stack + [min], points), end, stack,
                 Repeat(t, r, k, back, min, max, greedy, s));
    }
  }

  // ----- quantifiers -----

  /** Simple code captures nothing. */
  lemma {:induction false} SimpleNoGroups(r: Pattern, k: nat, back: bool)
    requires WellFormed(r) && AllSimple(Code(r, k, back))
    ensures Groups(r) == 0
    decreases r
  {
    hide AllSimple, QuantCode, Emit;
    match r
    case Concat(p, q) =>
      if back {
        SimpleParts(Code(q, k + Groups(p), back), Code(p, k, back));
      } else {
        SimpleParts(Code(p, k, back), Code(q, k + Groups(p), back));
      }
      SimpleNoGroups(p, k, back);
      SimpleNoGroups(q, k + Groups(p), back);
    case Alternative(_, _) => AlternativeNotSimple(r, k, back);
    case Capture(_) => CaptureNotSimple(r, k, back);
    case Look(_, _, _) => LookNotSimple(r, k, back);
    case Quantified(p, min, max, greedy) =>
      SimpleIsStraight(Code(r, k, back));
      QuantStraight(Code(p, k, back), k, Groups(p), min, max, greedy);
      if max == 0 { ResetNotSimple(k, Groups(p)); } else { SimpleNoGroups(p, k, back); }
    case _ =>
  }

  lemma SimpleIsStraight(c: Bytecode)
    requires AllSimple(c)
    ensures AllStraight(c)
  {}

  lemma ResetNotSimple(k: nat, n: nat)
    ensures AllSimple(ResetCode(k, n)) ==> n == 0
  {
    if n > 0 { assert ResetCode(k, n)[0] == Op(SaveReset(k, k + n - 1)); }
  }

  lemma QuantAtomCode(r: Pattern, k: nat, back: bool)
    requires r.Quantified?
    ensures Code(r, k, back) == QuantCode(Code(r.body, k, back), k, Groups(r.body), r.min, r.max, r.greedy)
  {
    hide QuantCode;
  }

  lemma QuantLoopSetup(t: Text, r: Pattern, k: nat, back: bool, s: State)
    requires r.Quantified? && Executable(t, r, back) && Ready(t, k + Groups(r), s)
    ensures LoopSetup(t, r.body, k, back, s) && LoopSetup(t, r.body, k, back, Entered(s, k, Groups(r.body), r.min))
  {
    hide Boundary, ValidText;
  }

  lemma SimpleAtomGroups(r: Pattern, k: nat, back: bool)
    requires WellFormed(r) && SimpleAtom(Code(r, k, back))
    ensures Groups(r) == 0
  {
    hide Groups, Code, WellFormed, AllSimple;
    SimpleNoGroups(r, k, back);
  }

  /** Greedy iterations that may be empty get the zero-advance check; unbounded lazy ones advance by themselves. */
  lemma CheckIsSufficient(t: Text, r: Pattern, k: nat, back: bool)
    requires r.Quantified? && Executable(t, r, back)
    ensures CheckFits(t, r.body, back, r.greedy && MayStay(Code(r.body, k, back)), Checked(r.greedy, r.max))
  {
    hide Code, MayStay, ValidText, Advances;
    if !MayStay(Code(r.body, k, back)) {
      ClearedConsumes(r.body, k, back);
      ConsumingAdvances(t, r.body, back);
    }
  }

  lemma ConsumingAdvances(t: Text, r: Pattern, back: bool)
    requires Consumes(r) && WellFormed(r)
    ensures Advances(t, r, back)
  {
    hide Ends, NoneAt, Consumes, WellFormed;
    forall k: nat, s: State | s.pos <= |t.units| && Boundary(t, s.pos) ensures NoneAt(Ends(t, r, k, back, s), s.pos) {
      ConsumingEnds(t, r, k, back, s);
    }
  }

  /** A quantifier that may run zero times. */
  lemma {:induction false} ZeroDelivers(t: Text, code: Bytecode, r: Pattern, k: nat, back: bool, check: bool, a: nat,
      s: State, stack: seq<nat>, points: seq<Point>)
    requires r.Quantified? && r.min == 0 <= r.max <= INFINITE && LoopSetup(t, r.body, k, back, s)
    requires LoopSetup(t, r.body, k, back, Entered(s, k, Groups(r.body), 0))
    requires CheckFits(t, r.body, back, check, Checked(r.greedy, r.max))
    requires var atom := Guarded(Code(r.body, k, back), check);
             Placed(code, a, ResetCode(k, Groups(r.body)) + OptionalCode(atom, 0, r.max, r.greedy))
    ensures var atom := Guarded(Code(r.body, k, back), check);
            var c := ResetCode(k, Groups(r.body)) + OptionalCode(atom, 0, r.max, r.greedy);
            Delivers(Engine(t, code), At(a, s, stack, points), a + |c|, stack,
                     Repeat(t, r.body, k, back, 0, r.max, r.greedy, Entered(s, k, Groups(r.body), 0)), points)
    decreases r, 3, 0, 0
  {
    hide Delivers, Placed, Code, Groups, Repeat, Boundary, OptionalCode, Emit, Executable, Guarded, CheckFits;
    var n := Groups(r.body);
    var s' := Entered(s, k, n, 0);
    var x, y := ResetCode(k, n), OptionalCode(Guarded(Code(r.body, k, back), check), 0, r.max, r.greedy);
    PlacedParts(code, a, x, y);
    OptionalDelivers(t, code, r.body, k, back, r.greedy, check, 0, r.max, a + |x|, s', stack, points);
    if n > 0 {
      OpDelivers(t, code, a, SaveReset(k, k + n - 1), s, stack, points, At(a + 3, s', stack, points),
                 a + |x| + |y|, stack,
                 Repeat(t, r.body, k, back, 0, r.max, r.greedy, s'));
    }
  }

  /** A quantifier with mandatory iterations. */
  lemma {:induction false} SomeDelivers(t: Text, code: Bytecode, r: Pattern, k: nat, back: bool, check: bool, a: nat,
      s: State, stack: seq<nat>, points: seq<Point>)
    requires r.Quantified? && 0 < r.min <= r.max <= INFINITE && LoopSetup(t, r.body, k, back, s)
    requires CheckFits(t, r.body, back, check, Checked(r.greedy, r.max))
    requires var atom := Code(r.body, k, back);
             Placed(code, a, TimesCode(atom, r.min) + OptionalCode(Guarded(atom, check), r.min, r.max, r.greedy))
    ensures var atom := Code(r.body, k, back);
            var c := TimesCode(atom, r.min) + OptionalCode(Guarded(atom, check), r.min, r.max, r.greedy);
            Delivers(Engine(t, code), At(a, s, stack, points), a + |c|, stack,
                     Repeat(t, r.body, k, back, r.min, r.max, r.greedy, s), points)
    decreases r, 3, 0, 0
  {
    hide Delivers, Placed, Code, Groups, Repeat, OptionalCode, TimesCode, Emit, LoopSetup, Guarded, CheckFits;
    var x := TimesCode(Code(r.body, k, back), r.min);
    var y := OptionalCode(Guarded(Code(r.body, k, back), check), r.min, r.max, r.greedy);
    var b, end, rest := a + |x|, a + |x| + |y|, Remaining(r.min, r.max);
    PlacedParts(code, a, x, y);
    forall e, ps | LoopSetup(t, r.body, k, back, e)
      ensures e.pos <= |t.units|
      ensures Delivers(Engine(t, code), At(b, e, stack, ps), end, stack,
                       Repeat(t, r.body, k, back, 0, rest, r.greedy, e), ps)
    {
      LoopSetupPos(t, r.body, k, back, e);
      OptionalDelivers(t, code, r.body, k, back, r.greedy, check, r.min, r.max, b, e, stack, ps);
    }
    LoopSetupPos(t, r.body, k, back, s);
    TimesDelivers(t, code, r.body, k, back, r.greedy, r.min, r.max, rest, a, b, end, s, stack, points);
  }

  /** A quantifier compiled to the general form. */
  lemma {:induction false} GeneralDelivers(t: Text, code: Bytecode, r: Pattern, k: nat, back: bool, a: nat, s: State,
      stack: seq<nat>, points: seq<Point>)
    requires r.Quantified? && Executable(t, r, back) && Ready(t, k + Groups(r), s)
    requires Placed(code, a, GeneralCode(Code(r.body, k, back), k, Groups(r.body), r.min, r.max, r.greedy))
    ensures Delivers(Engine(t, code), At(a, s, stack, points),
                     a + |GeneralCode(Code(r.body, k, back), k, Groups(r.body), r.min, r.max, r.greedy)|, stack,
                     Ends(t, r, k, back, s), points)
    decreases r, 3, 1, 0
  {
    hide Delivers, Ends, Placed, Code, Groups, Repeat, Boundary, TimesCode, OptionalCode, Emit, MayStay, ValidText;
    var check := r.greedy && MayStay(Code(r.body, k, back));
    QuantEnds(t, r.body, r.min, r.max, r.greedy, k, back, s);
    QuantLoopSetup(t, r, k, back, s);
    CheckIsSufficient(t, r, k, back);
    if r.min == 0 {
      ZeroDelivers(t, code, r, k, back, check, a, s, stack, points);
    } else if r.min == 1 && r.max == INFINITE && !check {
      PlusDelivers(t, code, r.body, k, back, r.greedy, a, s, stack, points);
    } else {
      SomeDelivers(t, code, r, k, back, check, a, s, stack, points);
    }
  }

  /** A quantifier compiled to the single opcode. */
  lemma SingleDelivers(t: Text, code: Bytecode, r: Pattern, k: nat, back: bool, a: nat, s: State,
      stack: seq<nat>, points: seq<Point>)
    requires r.Quantified? && Executable(t, r, back) && Ready(t, k + Groups(r), s)
    requires r.greedy && r.max > 0 && SimpleAtom(Code(r.body, k, back))
    requires Placed(code, a, SimpleCode(Code(r.body, k, back), r.min, r.max))
    ensures Delivers(Engine(t, code), At(a, s, stack, points),
                     a + |SimpleCode(Code(r.body, k, back), r.min, r.max)|, stack,
                     Ends(t, r, k, back, s), points)
  {
    hide Delivers, Ends, Placed, Code, Groups, Repeat, Boundary, SimpleAtom, ValidText, CharCount;
    QuantEnds(t, r.body, r.min, r.max, r.greedy, k, back, s);
    SimpleAtomGroups(r.body, k, back);
    SimpleQuantDelivers(t, code, r.body, k, back, a, r.min, r.max, s, stack, points);
  }

  lemma {:induction false} QuantDelivers(t: Text, code: Bytecode, r: Pattern, k: nat, back: bool, a: nat, s: State,
      stack: seq<nat>, points: seq<Point>)
    requires r.Quantified? && Setup(t, code, r, k, back, a, s)
    ensures Delivers(Engine(t, code), At(a, s, stack, points), a + |Code(r, k, back)|, stack,
                     Ends(t, r, k, back, s), points)
    decreases r, 4, 0, 0
  {
    hide Delivers, Ends, Placed, Code, Ready, Executable, GeneralCode, SimpleCode, SimpleAtom;
    QuantAtomCode(r, k, back);
    if r.greedy && r.max > 0 && SimpleAtom(Code(r.body, k, back)) {
      SingleDelivers(t, code, r, k, back, a, s, stack, points);
    } else {
      GeneralDelivers(t, code, r, k, back, a, s, stack, points);
    }
  }

  /**
  The single opcode and the general split loop for the same atom and bounds,
  each in its own program, deliver one and the same list of continuations.
  */
  lemma SingleRefinesGeneral(t: Text, single: Bytecode, a: nat, a': nat, general: Bytecode, b: nat, b': nat,
      r: Pattern, k: nat, back: bool, s: State, stack: seq<nat>, points: seq<Point>)
    requires r.Quantified? && Executable(t, r, back) && Ready(t, k + Groups(r), s)
    requires r.greedy && r.max > 0 && SimpleAtom(Code(r.body, k, back))
    requires var c := SimpleCode(Code(r.body, k, back), r.min, r.max);
             Placed(single, a, c) && a' == a + |c|
    requires var c := GeneralCode(Code(r.body, k, back), k, Groups(r.body), r.min, r.max, r.greedy);
             Placed(general, b, c) && b' == b + |c|
    ensures exists es ::
      && Delivers(Engine(t, single), At(a, s, stack, points), a', stack, es, points)
      && Delivers(Engine(t, general), At(b, s, stack, points), b', stack, es, points)
  {
    hide Delivers, Ends, Placed, Code, Ready, Executable, GeneralCode, SimpleCode, SimpleAtom, Groups;
    SingleDelivers(t, single, r, k, back, a, s, stack, points);
    GeneralDelivers(t, general, r, k, back, b, s, stack, points);
  }
}
