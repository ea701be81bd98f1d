/**
The overall match: the compiled program finds the first position from which the
pattern matches and the most preferred end from there.
*/
module RegexMatch {
  import opened RegexText
  import opened RegexSyntax
  import opened RegexSemantics
  import opened RegexMachine
  import opened RegexAtoms
  import opened RegexSimple
  import opened RegexOrder
  import opened RegexCorrect
  import opened RegexPositions

  // ----- the program -----

  /** The captures after a successful match begun in s. */
  ghost function MatchFrom(t: Text, r: Pattern, i: nat, caps: Captures): Option<Captures>
    requires i <= |t.units|
  {
    var es := Ends(t, r, 1, false, State(i, Saved(caps, 0, false, i)));
    if es == [] then None else Some(Saved(es[0].caps, 0, true, es[0].pos))
  }

  /** The first match at or after i; only at i when sticky. */
  ghost function FirstMatch(t: Text, r: Pattern, sticky: bool, i: nat, caps: Captures): Option<Captures>
    requires i <= |t.units|
    decreases |t.units| - i
  {
    var m := MatchFrom(t, r, i, caps);
    if m.Some? || sticky || i == |t.units| then m else FirstMatch(t, r, sticky, Next(t, i), caps)
  }

  ghost function Outcome(m: Option<Captures>): Config {
    if m.Some? then Done(true, m.value) else Done(false, [])
  }

  /** Where group 0 begins in the program. */
  function CoreStart(sticky: bool): nat {
    if sticky then 0 else 11
  }

  lemma ProgramPlaces(r: Pattern, sticky: bool)
    ensures var p, a, c := Program(r, sticky), CoreStart(sticky), Code(r, 1, false);
            && |p| == a + |c| + 5
            && Placed(p, a, Emit(Save(0, false))) && Placed(p, a + 2, c)
            && Placed(p, a + 2 + |c|, Emit(Save(0, true))) && Placed(p, a + 4 + |c|, Emit(Accept))
            && (!sticky ==>
                  && Placed(p, 0, Emit(Split(true, 6))) && Placed(p, 5, Emit(MatchAny))
                  && Placed(p, 6, Emit(Goto(-11))))
  {
    hide Placed, Code, SearchCode;
    var c, x := Code(r, 1, false), SearchCode(sticky);
    var p := Program(r, sticky);
    var start, end, accept := Emit(Save(0, false)), Emit(Save(0, true)), Emit(Accept);
    assert |start| == 2 && |end| == 2 && |accept| == 1;
    assert Placed(p, 0, x + start + c + end + accept) by { PlacedWhole(p); }
    hide Emit, Program;
    FiveParts(p, x, start, c, end, accept);
    if !sticky { SearchPlaces(p); }
  }

  lemma FiveParts(p: Bytecode, v: Bytecode, w: Bytecode, x: Bytecode, y: Bytecode, z: Bytecode)
    requires Placed(p, 0, v + w + x + y + z)
    ensures Placed(p, 0, v) && Placed(p, |v|, w) && Placed(p, |v| + |w|, x)
    ensures Placed(p, |v| + |w| + |x|, y) && Placed(p, |v| + |w| + |x| + |y|, z)
  {
    hide Placed;
    PlacedParts(p, 0, v + w + x + y, z);
    PlacedParts(p, 0, v + w + x, y);
    PlacedParts(p, 0, v + w, x);
    PlacedParts(p, 0, v, w);
  }

  lemma SearchPlaces(p: Bytecode)
    requires Placed(p, 0, SearchCode(false))
    ensures Placed(p, 0, Emit(Split(true, 6))) && Placed(p, 5, Emit(MatchAny)) && Placed(p, 6, Emit(Goto(-11)))
  {
    hide Placed;
    PlacedParts(p, 0, Emit(Split(true, 6)) + Emit(MatchAny), Emit(Goto(-11)));
    PlacedParts(p, 0, Emit(Split(true, 6)), Emit(MatchAny));
  }

  lemma PlacedWhole(p: Bytecode)
    ensures Placed(p, 0, p)
  {
    assert p[0..|p|] == p;
  }

  /** Can the program be run from i with these captures. */
  ghost predicate Startable(t: Text, r: Pattern, i: nat, caps: Captures) {
    Executable(t, r, false) && i <= |t.units| && Boundary(t, i) && |caps| == 2 * (1 + Groups(r))
  }

  lemma OpReaches(t: Text, code: Bytecode, a: nat, i: Instr, s: State, stack: seq<nat>, points: seq<Point>, c: Config)
    requires Placed(code, a, Emit(i)) && Exec(t, i, InLoop(a, s, stack, points)) == c
    ensures Reaches(Engine(t, code), At(a, s, stack, points), c)
  {
    hide Reaches, Exec, Placed;
    PlacedInstr(code, a, i);
    OpStep(t, code, a, i, s, stack, points);
    ReachesStep(Engine(t, code), At(a, s, stack, points));
  }

  /** Group 0 and the pattern at one start position. */
  lemma CoreReaches(t: Text, r: Pattern, sticky: bool, i: nat, caps: Captures, points: seq<Point>)
    requires Startable(t, r, i, caps) && Discardable(points)
    ensures var m := MatchFrom(t, r, i, caps);
            Reaches(Engine(t, Program(r, sticky)), At(CoreStart(sticky), State(i, caps), [], points),
                    if m.Some? then Done(true, m.value) else Fail(points))
  {
    hide Reaches, Ends, Code, Placed, Delivers, Groups, Executable, Program, Boundary, Emit;
    var p, a, len := Program(r, sticky), CoreStart(sticky), |Code(r, 1, false)|;
    var f, s := Engine(t, p), State(i, caps);
    var s' := State(i, Saved(caps, 0, false, i));
    ProgramPlaces(r, sticky);
    OpReaches(t, p, a, Save(0, false), s, [], points, At(a + 2, s', [], points));
    Correct(t, p, r, 1, false, a + 2, s', [], points);
    var es := Ends(t, r, 1, false, s');
    if es == [] {
      DeliversEmpty(f, At(a + 2, s', [], points), a + 2 + len, [], points);
      ReachesTrans(f, At(a, s, [], points), At(a + 2, s', [], points), Fail(points));
    } else {
      var more := DeliversFirst(f, At(a + 2, s', [], points), a + 2 + len, [], es, points);
      var e := State(es[0].pos, Saved(es[0].caps, 0, true, es[0].pos));
      var all := points + more;
      ReachesTrans(f, At(a, s, [], points), At(a + 2, s', [], points), At(a + 2 + len, es[0], [], all));
      OpReaches(t, p, a + 2 + len, Save(0, true), es[0], [], all, At(a + 4 + len, e, [], all));
      ReachesTrans(f, At(a, s, [], points), At(a + 2 + len, es[0], [], all), At(a + 4 + len, e, [], all));
      OpReaches(t, p, a + 4 + len, Accept, e, [], all, Hit(e.caps, all));
      ReachesTrans(f, At(a, s, [], points), At(a + 4 + len, e, [], all), Hit(e.caps, all));
      HitEnds(t, p, e.caps, all);
      ReachesTrans(f, At(a, s, [], points), Hit(e.caps, all), Done(true, e.caps));
    }
  }

  lemma HitEnds(t: Text, code: Bytecode, caps: Captures, points: seq<Point>)
    requires Discardable(points)
    ensures Reaches(Engine(t, code), Hit(caps, points), Done(true, caps))
  {
    hide Reaches;
    var f := Engine(t, code);
    assert [] + points == points;
    HitDiscards(t, code, caps, [], points);
    assert f(Hit(caps, [])) == Done(true, caps);
    ReachesStep(f, Hit(caps, []));
    ReachesTrans(f, Hit(caps, points), Hit(caps, []), Done(true, caps));
  }

  lemma FailEnds(t: Text, code: Bytecode)
    ensures Reaches(Engine(t, code), Fail([]), Done(false, []))
  {
    hide Reaches;
    assert Engine(t, code)(Fail([])) == Done(false, []);
    ReachesStep(Engine(t, code), Fail([]));
  }

  /** The compiled program computes the first match, captures included. */
  lemma {:induction false} ProgramReaches(t: Text, r: Pattern, sticky: bool, i: nat, caps: Captures)
    requires Startable(t, r, i, caps)
    ensures Reaches(Engine(t, Program(r, sticky)), At(0, State(i, caps), [], []),
                    Outcome(FirstMatch(t, r, sticky, i, caps)))
    decreases |t.units| - i
  {
    hide Reaches, Ends, Code, Placed, Groups, Executable, Program, Emit, MatchFrom;
    var p, s := Program(r, sticky), State(i, caps);
    var f := Engine(t, p);
    var m := MatchFrom(t, r, i, caps);
    if sticky {
      CoreReaches(t, r, sticky, i, caps, []);
      if m.None? {
        FailEnds(t, p);
        ReachesTrans(f, At(0, s, [], []), Fail([]), Done(false, []));
      }
    } else {
      ProgramPlaces(r, sticky);
      var points := [Point(SplitPoint, 5, i, caps, [], 0)];
      OpReaches(t, p, 0, Split(true, 6), s, [], [], At(11, s, [], points));
      CoreReaches(t, r, sticky, i, caps, points);
      if m.Some? {
        ReachesTrans(f, At(0, s, [], []), At(11, s, [], points), Done(true, m.value));
      } else {
        ReachesTrans(f, At(0, s, [], []), At(11, s, [], points), Fail(points));
        NextStart(t, r, i, caps);
        var next := if i == |t.units| then Fail([]) else At(0, State(Next(t, i), caps), [], []);
        ReachesTrans(f, At(0, s, [], []), Fail(points), next);
        if i == |t.units| {
          FailEnds(t, p);
        } else {
          BoundaryKept(t, i);
          ProgramReaches(t, r, sticky, Next(t, i), caps);
        }
        ReachesTrans(f, At(0, s, [], []), next, Outcome(FirstMatch(t, r, sticky, i, caps)));
      }
    }
  }

  /** The search loop advances by one character. */
  lemma NextStart(t: Text, r: Pattern, i: nat, caps: Captures)
    requires i <= |t.units|
    ensures Reaches(Engine(t, Program(r, false)), Fail([Point(SplitPoint, 5, i, caps, [], 0)]),
                    if i == |t.units| then Fail([]) else At(0, State(Next(t, i), caps), [], []))
  {
    hide Reaches, Code, Placed, Program, Emit, Next;
    var p, s := Program(r, false), State(i, caps);
    var f, c := Engine(t, p), Fail([Point(SplitPoint, 5, i, caps, [], 0)]);
    ProgramPlaces(r, false);
    assert c.points[..0] == [];
    assert f(c) == At(5, s, [], []);
    ReachesStep(f, c);
    if i == |t.units| {
      OpReaches(t, p, 5, MatchAny, s, [], [], Fail([]));
      ReachesTrans(f, c, At(5, s, [], []), Fail([]));
    } else {
      var s' := State(Next(t, i), caps);
      OpReaches(t, p, 5, MatchAny, s, [], [], At(6, s', [], []));
      ReachesTrans(f, c, At(5, s, [], []), At(6, s', [], []));
      OpReaches(t, p, 6, Goto(-11), s', [], [], At(0, s', [], []));
      ReachesTrans(f, c, At(6, s', [], []), At(0, s', [], []));
    }
  }

  // ----- the overall match -----

  /** The span of the match found at or after i, by the position semantics alone. */
  ghost function Span(t: Text, r: Pattern, sticky: bool, i: nat): Option<(nat, nat)>
    requires i <= |t.units|
    decreases |t.units| - i
  {
    var es := EndPositions(t, r, false, i);
    if es != [] then Some((i, es[0]))
    else if sticky || i == |t.units| then None
    else Span(t, r, sticky, Next(t, i))
  }

  /** Captures that record the span as group 0. */
  ghost predicate Records(m: Option<Captures>, span: Option<(nat, nat)>, n: nat) {
    if span.None? then m.None?
    else m.Some? && |m.value| == n && n >= 2
         && m.value[0] == Some(span.value.0) && m.value[1] == Some(span.value.1)
  }

  /** What the engine is promised to run rightly. */
  ghost predicate Supported(t: Text, r: Pattern) {
    ValidText(t) && WellFormed(r) && LazyFits(t, r, false)
  }

  lemma {:induction false} FirstMatchSpan(t: Text, r: Pattern, sticky: bool, i: nat, caps: Captures)
    requires i <= |t.units| && Boundary(t, i) && |caps| >= 2 && LazyFits(t, r, false)
    ensures Records(FirstMatch(t, r, sticky, i, caps), Span(t, r, sticky, i), |caps|)
    decreases |t.units| - i
  {
    hide Ends, EndPositions, LazyFits, Distinct;
    var s := State(i, Saved(caps, 0, false, i));
    var es := Ends(t, r, 1, false, s);
    Agrees(t, r, 1, false, s);
    AlikeFirst(Positions(es), EndPositions(t, r, false, i));
    if es != [] { AgreeKeeps(1, s, es, EndPositions(t, r, false, i), 0); }
    BoundaryKept(t, i);
    if EndPositions(t, r, false, i) == [] && !sticky && i < |t.units| {
      FirstMatchSpan(t, r, sticky, Next(t, i), caps);
    }
  }

  /** lre_exec: all captures unset, empty stacks. */
  ghost function Initial(r: Pattern, i: nat): Config {
    At(0, State(i, seq(2 * (1 + Groups(r)), _ => None)), [], [])
  }

  /** The program halts with what the position semantics gives. */
  ghost predicate RunsRight(t: Text, r: Pattern, sticky: bool, i: nat)
    requires i <= |t.units|
  {
    exists n: nat, m: Option<Captures> ::
      && Steps(Engine(t, Program(r, sticky)), Initial(r, i), n) == Outcome(m)
      && Records(m, Span(t, r, sticky, i), 2 * (1 + Groups(r)))
  }

  /**
  Running the compiled program from a character boundary halts, fails exactly
  when the pattern matches nowhere, and otherwise leaves in group 0 the first
  start position and the most preferred end from there.
  */
  lemma MatchCorrect(t: Text, r: Pattern, sticky: bool, i: nat)
    requires Supported(t, r) && i <= |t.units| && Boundary(t, i)
    ensures RunsRight(t, r, sticky, i)
  {
    hide Program, Groups, Span, FirstMatch, Records, LazyFits, LazyStops, WellFormed, Boundary;
    FitsStops(t, r, false);
    var caps: Captures := seq(2 * (1 + Groups(r)), _ => None);
    ProgramReaches(t, r, sticky, i, caps);
    FirstMatchSpan(t, r, sticky, i, caps);
    var f, m := Engine(t, Program(r, sticky)), FirstMatch(t, r, sticky, i, caps);
    var n: nat :| Steps(f, At(0, State(i, caps), [], []), n) == Outcome(m);
    assert Initial(r, i) == At(0, State(i, caps), [], []);
  }
}
