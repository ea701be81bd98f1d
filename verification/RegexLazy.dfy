/**
Lazy quantifiers. The emitted code does not test their iterations for being
empty. Whatever follows, a lazy quantifier is run rightly exactly when its
iterations are in order (RegexPositions.InOrder): without a maximum, when no
iteration of the atom is empty, since otherwise the machine may run forever; with
one, when the test would not change the order of new positions, since otherwise
it may find another match.
*/
module RegexLazy {
  import opened RegexText
  import opened RegexSyntax
  import opened RegexSemantics
  import opened RegexMachine
  import opened RegexAtoms
  import opened RegexSimple
  import opened RegexOrder
  import opened RegexCorrect
  import opened RegexPositions
  import opened RegexMatch
  import opened RegexBoundary

  // ----- machines that do not halt -----

  /** The machine fails into ps, or has not halted after n steps. */
  ghost predicate Returns(f: Machine, c: Config, ps: seq<Point>, n: nat) {
    Reaches(f, c, Fail(ps)) || !Steps(f, c, n).Done?
  }

  lemma NotDoneVia(t: Text, code: Bytecode, c: Config, d: Config, n: nat)
    requires Reaches(Engine(t, code), c, d) && !Steps(Engine(t, code), d, n).Done?
    ensures !Steps(Engine(t, code), c, n).Done?
  {
    var f := Engine(t, code);
    var m: nat :| Steps(f, c, m) == d;
    if Steps(f, c, n).Done? {
      if n <= m {
        StepsAdd(f, c, n, m - n);
        DoneStays(t, code, Steps(f, c, n), m - n);
        DoneStays(t, code, d, n);
      } else {
        StepsAdd(f, c, m, n - m);
        StepsAdd(f, d, n - m, m);
        DoneStays(t, code, Steps(f, d, n - m), m);
      }
    }
  }

  lemma ReturnsVia(t: Text, code: Bytecode, c: Config, d: Config, ps: seq<Point>, n: nat)
    requires Reaches(Engine(t, code), c, d) && Returns(Engine(t, code), d, ps, n)
    ensures Returns(Engine(t, code), c, ps, n)
  {
    hide Reaches, Steps;
    var f := Engine(t, code);
    if Reaches(f, d, Fail(ps)) { ReachesTrans(f, c, d, Fail(ps)); } else { NotDoneVia(t, code, c, d, n); }
  }

  /** One step more. */
  lemma ReturnsStep(t: Text, code: Bytecode, c: Config, ps: seq<Point>, n: nat)
    requires n > 0 && Returns(Engine(t, code), Engine(t, code)(c), ps, n - 1)
    ensures Returns(Engine(t, code), c, ps, n)
  {
    hide Reaches;
    var f := Engine(t, code);
    ReachesStep(f, c);
    if Reaches(f, f(c), Fail(ps)) { ReachesTrans(f, c, f(c), Fail(ps)); }
  }

  /** From every state delivered the machine returns or goes on; if it goes on from one of them, it goes on. */
  lemma {:induction false} ListTurns(t: Text, code: Bytecode, c: Config, pc: nat, stack: seq<nat>, es: seq<State>,
      points: seq<Point>, mores: seq<seq<Point>>, n: nat, self: int)
    requires DeliversVia(Engine(t, code), c, pc, stack, es, points, mores) && -1 <= self < |es|
    requires forall j, ps :: 0 <= j < |es| ==> Returns(Engine(t, code), At(pc, es[j], stack, ps), ps, n)
    requires self >= 0 ==> forall ps :: !Steps(Engine(t, code), At(pc, es[self], stack, ps), n).Done?
    ensures Returns(Engine(t, code), c, points, n)
    ensures self >= 0 ==> !Steps(Engine(t, code), c, n).Done?
    decreases |es|
  {
    hide Reaches, Steps;
    var f := Engine(t, code);
    if es != [] {
      var ps := points + mores[0];
      var d := At(pc, es[0], stack, ps);
      assert Returns(f, d, ps, n);
      if !Steps(f, d, n).Done? {
        NotDoneVia(t, code, c, d, n);
      } else {
        ReachesTrans(f, c, d, Fail(ps));
        ListTurns(t, code, Fail(ps), pc, stack, es[1..], points, mores[1..], n, if self > 0 then self - 1 else -1);
        ReturnsVia(t, code, c, Fail(ps), points, n);
        if self > 0 { NotDoneVia(t, code, c, Fail(ps), n); }
      }
    }
  }

  // ----- an unbounded lazy quantifier in front of a dead end -----

  /** From exit the machine always fails. */
  ghost predicate DeadEnd(t: Text, p: Bytecode, exit: nat) {
    forall s: State, ps :: s.pos <= |t.units| && Boundary(t, s.pos) ==>
      Reaches(Engine(t, p), At(exit, s, [], ps), Fail(ps))
  }

  ghost predicate Atom(t: Text, p: Bytecode, a: Pattern, z: nat) {
    Executable(t, a, false) && LazyFits(t, a, false) && Placed(p, z, Code(a, 1, false))
  }

  /** One end of the atom that has not advanced, if there is one. */
  lemma SelfEnd(t: Text, a: Pattern, s: State) returns (j: int)
    requires LazyFits(t, a, false) && s.pos <= |t.units| && Boundary(t, s.pos)
    ensures var es := Ends(t, a, 1, false, s);
      && -1 <= j < |es| && (j >= 0 ==> es[j].pos == s.pos)
      && (s.pos in EndPositions(t, a, false, s.pos) ==> j >= 0)
  {
    hide Ends, EndPositions, LazyFits, Distinct;
    var es := Ends(t, a, 1, false, s);
    Agrees(t, a, 1, false, s);
    SomeAt(es, EndPositions(t, a, false, s.pos), s.pos);
    if NoneAt(es, s.pos) { j := -1; } else { j :| 0 <= j < |es| && es[j].pos == s.pos; }
  }

  /** The split in front of a dead end goes on with the other branch. */
  lemma SplitTurns(t: Text, p: Bytecode, c: nat, gotoFirst: bool, off: int, exit: nat, z: nat, s: State, ps: seq<Point>)
    requires Placed(p, c, Emit(Split(gotoFirst, off))) && DeadEnd(t, p, exit) && s.pos <= |t.units|
    requires Boundary(t, s.pos)
    requires if gotoFirst then exit == c + 5 + off && z == c + 5 else exit == c + 5 && z == c + 5 + off
    ensures var f, x := Engine(t, p), At(c, s, [], ps); !f(x).Done? && Reaches(f, f(x), At(z, s, [], ps))
  {
    hide Reaches, Emit, Placed, Boundary;
    var f, x, point := Engine(t, p), At(c, s, [], ps), Point(SplitPoint, z, s.pos, s.caps, [], 0);
    PlacedInstr(p, c, Split(gotoFirst, off));
    OpStep(t, p, c, Split(gotoFirst, off), s, [], ps);
    var all := ps + [point];
    assert f(x) == At(exit, s, [], all);
    assert all[..|all| - 1] == ps;
    assert f(Fail(all)) == At(z, s, [], ps);
    ReachesStep(f, Fail(all));
    ReachesTrans(f, f(x), Fail(all), At(z, s, [], ps));
  }

  /** Stepping over a goto. */
  lemma GotoTurns(t: Text, p: Bytecode, m: nat, off: int, z: nat, s: State, ps: seq<Point>)
    requires Placed(p, m, Emit(Goto(off))) && z == m + 5 + off
    ensures Reaches(Engine(t, p), At(m, s, [], ps), At(z, s, [], ps))
  {
    hide Reaches, Emit, Placed;
    OpReaches(t, p, m, Goto(off), s, [], ps, At(z, s, [], ps));
  }

  /**
  The star: within n steps it returns, or it has not halted; and it has not when
  the atom may be empty here, for it comes back to where it was.
  */
  lemma {:induction false} StarTurns(t: Text, p: Bytecode, a: Pattern, z: nat, s: State, points: seq<Point>, n: nat)
    requires Placed(p, z, StarCode(Code(a, 1, false), false)) && Atom(t, p, a, z + 5)
    requires DeadEnd(t, p, z + 10 + |Code(a, 1, false)|)
    requires Ready(t, 1 + Groups(a), s)
    ensures Returns(Engine(t, p), At(z, s, [], points), points, n)
    ensures s.pos in EndPositions(t, a, false, s.pos) ==> !Steps(Engine(t, p), At(z, s, [], points), n).Done?
    decreases n
  {
    hide Reaches, Ends, EndPositions, Code, Placed, StarCode, Emit, LazyFits, LazyStops, WellFormed, DeadEnd, Delivers,
      Boundary, Groups;
    if n > 0 {
      var f, len := Engine(t, p), |Code(a, 1, false)|;
      var m, x, y := z + 5 + len, At(z, s, [], points), At(z + 5, s, [], points);
      StarPlaces(p, z, Code(a, 1, false), false);
      SplitTurns(t, p, z, true, len + 5, z + 10 + len, z + 5, s, points);
      var es := Ends(t, a, 1, false, s);
      EndsReady(t, false, 1 + Groups(a), s, es);
      var self := SelfEnd(t, a, s);
      forall j, ps | 0 <= j < |es|
        ensures Returns(f, At(m, es[j], [], ps), ps, n - 1)
        ensures j == self && s.pos in EndPositions(t, a, false, s.pos) ==> !Steps(f, At(m, es[j], [], ps), n - 1).Done?
      {
        StarTurns(t, p, a, z, es[j], ps, n - 1);
        GotoTurns(t, p, m, -(len + 10), z, es[j], ps);
        ReturnsVia(t, p, At(m, es[j], [], ps), At(z, es[j], [], ps), ps, n - 1);
        if j == self && s.pos in EndPositions(t, a, false, s.pos) {
          NotDoneVia(t, p, At(m, es[j], [], ps), At(z, es[j], [], ps), n - 1);
        }
      }
      AtomTurns(t, p, a, z + 5, m, s, [], points, n - 1,
                if s.pos in EndPositions(t, a, false, s.pos) then self else -1);
      ReturnsVia(t, p, f(x), y, points, n - 1);
      ReturnsStep(t, p, x, points, n);
      if s.pos in EndPositions(t, a, false, s.pos) { NotDoneVia(t, p, f(x), y, n - 1); }
    }
  }

  /** Through the atom, from z to m. */
  lemma AtomTurns(t: Text, p: Bytecode, a: Pattern, z: nat, m: nat, s: State, stack: seq<nat>, points: seq<Point>,
      n: nat, self: int)
    requires Atom(t, p, a, z) && m == z + |Code(a, 1, false)| && Ready(t, 1 + Groups(a), s)
    requires -1 <= self < |Ends(t, a, 1, false, s)|
    requires forall j, ps :: 0 <= j < |Ends(t, a, 1, false, s)| ==>
      Returns(Engine(t, p), At(m, Ends(t, a, 1, false, s)[j], stack, ps), ps, n)
    requires self >= 0 ==> forall ps :: !Steps(Engine(t, p), At(m, Ends(t, a, 1, false, s)[self], stack, ps), n).Done?
    ensures Returns(Engine(t, p), At(z, s, stack, points), points, n)
    ensures self >= 0 ==> !Steps(Engine(t, p), At(z, s, stack, points), n).Done?
  {
    hide Reaches, Ends, Code, Placed, LazyFits, LazyStops, WellFormed, Boundary, Groups, DeliversVia, Returns, Steps;
    var f, es := Engine(t, p), Ends(t, a, 1, false, s);
    Correct(t, p, a, 1, false, z, s, stack, points);
    var mores :| DeliversVia(f, At(z, s, stack, points), m, stack, es, points, mores);
    ListTurns(t, p, At(z, s, stack, points), m, stack, es, points, mores, n, self);
  }

  /** atom+? from the atom on: the split behind it fails at the exit and goes back. */
  lemma {:induction false} PlusTurns(t: Text, p: Bytecode, a: Pattern, z: nat, m: nat, s: State, points: seq<Point>,
      n: nat)
    requires Atom(t, p, a, z) && m == z + |Code(a, 1, false)| && Placed(p, m, Emit(Split(false, z - (m + 5))))
    requires DeadEnd(t, p, m + 5)
    requires Ready(t, 1 + Groups(a), s)
    ensures Returns(Engine(t, p), At(z, s, [], points), points, n)
    ensures s.pos in EndPositions(t, a, false, s.pos) ==> !Steps(Engine(t, p), At(z, s, [], points), n).Done?
    decreases n
  {
    hide Reaches, Ends, EndPositions, Code, Placed, Emit, LazyFits, LazyStops, WellFormed, DeadEnd, Delivers, Boundary,
      Groups;
    if n > 0 {
      var f, es := Engine(t, p), Ends(t, a, 1, false, s);
      EndsReady(t, false, 1 + Groups(a), s, es);
      var self := SelfEnd(t, a, s);
      var empty := s.pos in EndPositions(t, a, false, s.pos);
      forall j, ps | 0 <= j < |es|
        ensures Returns(f, At(m, es[j], [], ps), ps, n)
        ensures j == self && empty ==> !Steps(f, At(m, es[j], [], ps), n).Done?
      {
        var x, y := At(m, es[j], [], ps), At(z, es[j], [], ps);
        PlusTurns(t, p, a, z, m, es[j], ps, n - 1);
        SplitTurns(t, p, m, false, z - (m + 5), m + 5, z, es[j], ps);
        ReturnsVia(t, p, f(x), y, ps, n - 1);
        ReturnsStep(t, p, x, ps, n);
        if j == self && empty { NotDoneVia(t, p, f(x), y, n - 1); }
      }
      AtomTurns(t, p, a, z, m, s, [], points, n, if empty then self else -1);
    }
  }

  /** Loop and drop of a counted loop: back to the atom, or on to what follows. */
  lemma LoopTurns(t: Text, p: Bytecode, m: nat, z: nat, s: State, count: nat, ps: seq<Point>)
    requires count > 0 && Placed(p, m, Emit(Loop(z - (m + 5)))) && Placed(p, m + 5, Emit(Drop))
    ensures var next := if count > 1 then At(z, s, [count - 1], ps) else At(m + 6, s, [], ps);
            Reaches(Engine(t, p), At(m, s, [count], ps), next)
  {
    hide Reaches, Emit, Placed;
    var x := At(m, s, [count], ps);
    assert [count][..0] + [count - 1] == [count - 1] && [count - 1][..0] == [];
    if count > 1 {
      OpReaches(t, p, m, Loop(z - (m + 5)), s, [count], ps, At(z, s, [count - 1], ps));
    } else {
      OpReaches(t, p, m, Loop(z - (m + 5)), s, [count], ps, At(m + 5, s, [0], ps));
      OpReaches(t, p, m + 5, Drop, s, [0], ps, At(m + 6, s, [], ps));
      ReachesTrans(Engine(t, p), x, At(m + 5, s, [0], ps), At(m + 6, s, [], ps));
    }
  }

  /** Mandatory iterations in front of the star at m + 6: where the atom may be empty they come to it without moving. */
  lemma {:induction false} TimesTurns(t: Text, p: Bytecode, a: Pattern, z: nat, m: nat, count: nat, s: State,
      points: seq<Point>, n: nat)
    requires count > 0 && Atom(t, p, a, z) && m == z + |Code(a, 1, false)| && Ready(t, 1 + Groups(a), s)
    requires Placed(p, m, Emit(Loop(z - (m + 5)))) && Placed(p, m + 5, Emit(Drop))
    requires Placed(p, m + 6, StarCode(Code(a, 1, false), false)) && Atom(t, p, a, m + 11)
    requires DeadEnd(t, p, m + 16 + |Code(a, 1, false)|)
    ensures Returns(Engine(t, p), At(z, s, [count], points), points, n)
    ensures s.pos in EndPositions(t, a, false, s.pos) ==> !Steps(Engine(t, p), At(z, s, [count], points), n).Done?
    decreases count
  {
    hide Reaches, Ends, EndPositions, Code, Placed, StarCode, Emit, LazyFits, LazyStops, WellFormed, DeadEnd, Delivers,
      Boundary, Groups;
    var f, es := Engine(t, p), Ends(t, a, 1, false, s);
    EndsReady(t, false, 1 + Groups(a), s, es);
    var self := SelfEnd(t, a, s);
    var empty := s.pos in EndPositions(t, a, false, s.pos);
    forall j, ps | 0 <= j < |es|
      ensures Returns(f, At(m, es[j], [count], ps), ps, n)
      ensures j == self && empty ==> !Steps(f, At(m, es[j], [count], ps), n).Done?
    {
      var x, y := At(m, es[j], [count], ps), if count > 1 then At(z, es[j], [count - 1], ps)
        else At(m + 6, es[j], [], ps);
      if count > 1 {
        TimesTurns(t, p, a, z, m, count - 1, es[j], ps, n);
      } else {
        StarTurns(t, p, a, m + 6, es[j], ps, n);
      }
      LoopTurns(t, p, m, z, es[j], count, ps);
      ReturnsVia(t, p, x, y, ps, n);
      if j == self && empty { NotDoneVia(t, p, x, y, n); }
    }
    AtomTurns(t, p, a, z, m, s, [count], points, n, if empty then self else -1);
  }

  /** An unbounded lazy quantifier over an atom that may be empty here, in front of a dead end. */
  lemma QuantTurns(t: Text, p: Bytecode, a: Pattern, min: nat, z: nat, s: State, n: nat)
    requires Executable(t, a, false) && LazyFits(t, a, false) && Ready(t, 1 + Groups(a), s)
    requires s.pos in EndPositions(t, a, false, s.pos) && min <= INFINITE
    requires var c := Code(Quantified(a, min, INFINITE, false), 1, false); Placed(p, z, c) && DeadEnd(t, p, z + |c|)
    ensures !Steps(Engine(t, p), At(z, s, [], []), n).Done?
  {
    hide Reaches, Ends, EndPositions, Code, Placed, StarCode, TimesCode, Emit, LazyFits, LazyStops, WellFormed, DeadEnd,
      Boundary, Groups, Steps;
    var atom, len := Code(a, 1, false), |Code(a, 1, false)|;
    QuantAtomCode(Quantified(a, min, INFINITE, false), 1, false);
    NotGuarded(atom);
    var star := StarCode(atom, false);
    if min == 0 {
      var reset := ResetCode(1, Groups(a));
      PlacedParts(p, z, reset, star);
      StarPlaces(p, z + |reset|, atom, false);
      var s' := Entered(s, 1, Groups(a), 0);
      StarTurns(t, p, a, z + |reset|, s', [], n);
      ResetTurns(t, p, z, Groups(a), s);
      NotDoneVia(t, p, At(z, s, [], []), At(z + |reset|, s', [], []), n);
    } else if min == 1 {
      PlacedParts(p, z, atom, Emit(Split(false, -(len + 5))));
      SplitSize(-(len + 5));
      PlusTurns(t, p, a, z, z + len, s, [], n);
    } else {
      PlacedParts(p, z, TimesCode(atom, min), star);
      TimesPlaces(p, z, atom, min);
      StarPlaces(p, z + 11 + len, atom, false);
      TimesTurns(t, p, a, z + 5, z + 5 + len, min, s, [], n);
      OpReaches(t, p, z, PushCount(min), s, [], [], At(z + 5, s, [min], []));
      NotDoneVia(t, p, At(z, s, [], []), At(z + 5, s, [min], []), n);
    }
  }

  lemma SplitSize(off: int)
    ensures |Emit(Split(false, off))| == 5
  {}

  lemma ResetTurns(t: Text, p: Bytecode, z: nat, groups: nat, s: State)
    requires Placed(p, z, ResetCode(1, groups)) && 2 * (1 + groups) <= |s.caps|
    ensures Reaches(Engine(t, p), At(z, s, [], []), At(z + |ResetCode(1, groups)|, Entered(s, 1, groups, 0), [], []))
  {
    hide Reaches, Placed;
    if groups > 0 {
      OpReaches(t, p, z, SaveReset(1, groups), s, [], [], At(z + 3, Entered(s, 1, groups, 0), [], []));
    } else {
      ReachesSelf(Engine(t, p), At(z, s, [], []));
    }
  }

  /** A class without members matches nothing. */
  const NOTHING: Pattern := Class([])

  lemma NothingIsDead(t: Text, p: Bytecode, exit: nat)
    requires ValidText(t) && Placed(p, exit, Code(NOTHING, 1, false))
    ensures DeadEnd(t, p, exit)
  {
    hide Reaches, Placed, Delivers, Code, ValidText;
    var f, len := Engine(t, p), |Code(NOTHING, 1, false)|;
    forall s: State, ps | s.pos <= |t.units| && Boundary(t, s.pos) ensures Reaches(f, At(exit, s, [], ps), Fail(ps)) {
      NothingPlain(t);
      NothingEnds(t, s);
      Correct(t, p, NOTHING, 0, false, exit, s, [], ps);
      DeliversEmpty(f, At(exit, s, [], ps), exit + len, [], ps);
    }
  }

  lemma NothingPlain(t: Text)
    ensures Code(NOTHING, 0, false) == Code(NOTHING, 1, false) && Groups(NOTHING) == 0
    ensures WellFormed(NOTHING) && LazyFits(t, NOTHING, false) && LazyStops(t, NOTHING, false)
  {}

  lemma NothingEnds(t: Text, s: State)
    requires s.pos <= |t.units|
    ensures Ends(t, NOTHING, 0, false, s) == []
  {}

  /** The family that fails: started where the atom may be empty, the machine never halts. */
  lemma RunsForever(t: Text, a: Pattern, min: nat, i: nat, n: nat)
    requires ValidText(t) && WellFormed(a) && LazyFits(t, a, false) && min <= INFINITE
    requires i <= |t.units| && Boundary(t, i) && i in EndPositions(t, a, false, i)
    ensures var r := Concat(Quantified(a, min, INFINITE, false), NOTHING);
      !Steps(Engine(t, Program(r, true)), Initial(r, i), n).Done?
  {
    hide Reaches, EndPositions, Code, Placed, Emit, LazyFits, LazyStops, WellFormed, DeadEnd, Boundary, Program,
      ValidText, Steps, NOTHING;
    var q := Quantified(a, min, INFINITE, false);
    var r := Concat(q, NOTHING);
    var p, c := Program(r, true), Code(q, 1, false);
    FitsStops(t, a, false);
    NothingPlain(t);
    assert Groups(q) == Groups(a) && Groups(r) == Groups(a) by { JoinedGroups(a, min); }
    hide Groups;
    ProgramPlaces(r, true);
    ConcatCode(q, NOTHING, 1, false);
    NothingCode(Groups(a));
    PlacedParts(p, 2, c, Code(NOTHING, 1, false));
    NothingIsDead(t, p, 2 + |c|);
    var none: Captures := seq(2 * (1 + Groups(r)), _ => None);
    var s := State(i, Saved(none, 0, false, i));
    QuantTurns(t, p, a, min, 2, s, n);
    OpReaches(t, p, 0, Save(0, false), State(i, none), [], [], At(2, s, [], []));
    NotDoneVia(t, p, Initial(r, i), At(2, s, [], []), n);
  }

  lemma JoinedGroups(a: Pattern, min: nat)
    ensures Groups(Quantified(a, min, INFINITE, false)) == Groups(a)
    ensures Groups(Concat(Quantified(a, min, INFINITE, false), NOTHING)) == Groups(a)
  {}

  lemma NothingCode(k: nat)
    ensures Code(NOTHING, 1 + k, false) == Code(NOTHING, 1, false)
  {}

  lemma ForeverIsWrong(t: Text, a: Pattern, min: nat, i: nat)
    requires ValidText(t) && WellFormed(a) && LazyFits(t, a, false) && min <= INFINITE
    requires i <= |t.units| && Boundary(t, i) && i in EndPositions(t, a, false, i)
    ensures Supported(t, NOTHING) && !RunsRight(t, Concat(Quantified(a, min, INFINITE, false), NOTHING), true, i)
  {
    hide EndPositions, LazyFits, WellFormed, Boundary, Program, ValidText, Steps, Span, Groups, Initial;
    NothingPlain(t);
    var r := Concat(Quantified(a, min, INFINITE, false), NOTHING);
    if RunsRight(t, r, true, i) {
      var n: nat, m: Option<Captures> :|
        Steps(Engine(t, Program(r, true)), Initial(r, i), n) == Outcome(m) &&
          Records(m, Span(t, r, true, i), 2 * (1 + Groups(r)));
      RunsForever(t, a, min, i, n);
    }
  }

  // ----- a bounded lazy quantifier -----

  /** The positions at which the machine ends a bounded lazy quantifier followed by q. */
  ghost function Untested(t: Text, a: Pattern, min: nat, max: nat, q: Pattern, i: nat): seq<nat>
    requires i <= |t.units|
  {
    Flatten(EachPositions(t, q, false, RepeatPositions(t, a, false, min, max, false, i, false), i))
  }

  lemma BoundedAgrees(t: Text, a: Pattern, min: nat, max: nat, q: Pattern, s: State)
    requires s.pos <= |t.units| && Boundary(t, s.pos) && LazyFits(t, a, false) && LazyFits(t, q, false)
    ensures Agree(1, s, Ends(t, Concat(Quantified(a, min, max, false), q), 1, false, s),
                  Untested(t, a, min, max, q, s.pos))
  {
    hide Ends, EndPositions, EachEnds, EachPositions, Flatten, Repeat, RepeatPositions, Agree, LazyFits, Groups;
    var r, k := Quantified(a, min, max, false), 1 + Groups(Quantified(a, min, max, false));
    var s' := Entered(s, 1, Groups(a), min);
    QuantEnds(t, a, min, max, false, 1, false, s);
    RepeatAgrees(t, a, 1, false, min, max, false, s');
    assert KeepsBelow(1, s, s');
    var es, ps := Ends(t, r, 1, false, s), RepeatPositions(t, a, false, min, max, false, s.pos, false);
    AgreeVia(1, 1, s, s', es, ps);
    var fs, gs := EachEnds(t, q, k, false, es, s), EachPositions(t, q, false, ps, s.pos);
    EachEndsAt(t, q, k, false, es, s);
    EachPositionsAt(t, q, false, ps, s.pos);
    var h: Onward := (p: nat) => if p <= |t.units| then EndPositions(t, q, false, p) else [];
    forall j | 0 <= j < |fs| ensures Agree(1, s, fs[j], h(es[j].pos)) {
      Agrees(t, q, k, false, es[j]);
      AgreeKeeps(1, s, es, ps, j);
      AgreeVia(1, k, s, es[j], fs[j], h(es[j].pos));
    }
    AgreeOnward(1, s, es, fs, ps, gs, h);
    ConcatForward(t, r, q, 1, s);
  }

  /** What it means for the program to run rightly: the first end is the same. */
  lemma FirstEndDecides(t: Text, r: Pattern, i: nat, ps: seq<nat>)
    requires i <= |t.units| && Boundary(t, i) && Executable(t, r, false)
    requires forall s: State :: s.pos == i ==> Agree(1, s, Ends(t, r, 1, false, s), ps)
    requires RunsRight(t, r, true, i)
    ensures var es := EndPositions(t, r, false, i); (ps == [] <==> es == []) && (ps != [] ==> ps[0] == es[0])
  {
    hide Ends, EndPositions, Program, Groups, Executable, Boundary, Steps, Distinct, Agree, Records;
    var caps: Captures := seq(2 * (1 + Groups(r)), _ => None);
    var f, c := Engine(t, Program(r, true)), At(0, State(i, caps), [], []);
    ProgramReaches(t, r, true, i, caps);
    var m := FirstMatch(t, r, true, i, caps);
    var n: nat, m': Option<Captures> :| Steps(f, Initial(r, i), n) == Outcome(m') &&
      Records(m', Span(t, r, true, i), 2 * (1 + Groups(r)));
    assert Initial(r, i) == c;
    assert Reaches(f, c, Outcome(m'));
    OneOutcome(t, Program(r, true), c, Outcome(m), Outcome(m'));
    var s := State(i, Saved(caps, 0, false, i));
    FirstEndSame(t, r, s, ps, m, |caps|);
  }

  lemma FirstEndSame(t: Text, r: Pattern, s: State, ps: seq<nat>, m: Option<Captures>, n: nat)
    requires s.pos <= |t.units| && Agree(1, s, Ends(t, r, 1, false, s), ps) && n == |s.caps| >= 2
    requires var es := Ends(t, r, 1, false, s);
      m == if es == [] then None else Some(Saved(es[0].caps, 0, true, es[0].pos))
    requires Records(m, Span(t, r, true, s.pos), n)
    ensures var es := EndPositions(t, r, false, s.pos); (ps == [] <==> es == []) && (ps != [] ==> ps[0] == es[0])
  {
    hide Ends, EndPositions, Distinct;
    AlikeFirst(Positions(Ends(t, r, 1, false, s)), ps);
  }

  // ----- a continuation that accepts two positions -----

  const END_OF_TEXT: Pattern := Look(true, false, AnyChar)

  /** Accepts x and no other position of the text. */
  function AtOnly(t: Text, x: nat): Pattern
    requires x <= |t.units|
  {
    Look(false, false, Concat(Exactly(t, x), END_OF_TEXT))
  }

  /** Accepts x and y. */
  function Either(t: Text, x: nat, y: nat): Pattern
    requires x <= |t.units| && y <= |t.units|
  {
    Alternative(AtOnly(t, x), AtOnly(t, y))
  }

  /** A pattern with at most one end, then another. */
  lemma OneThen(t: Text, a: Pattern, b: Pattern, i: nat)
    requires i <= |t.units| && |EndPositions(t, a, false, i)| <= 1
    ensures var es := EndPositions(t, a, false, i);
      EndPositions(t, Concat(a, b), false, i) == if es == [] then [] else EndPositions(t, b, false, es[0])
  {
    hide EndPositions;
    ConcatPositions(t, a, b, false, i);
    var es := EndPositions(t, a, false, i);
    EachPositionsAt(t, b, false, es, i);
    var fs := EachPositions(t, b, false, es, i);
    if es != [] {
      assert fs == [EndPositions(t, b, false, es[0])];
      FlattenOne(EndPositions(t, b, false, es[0]));
    }
  }

  lemma {:induction false} ExactlyReads(t: Text, x: nat, p: nat) returns (e: nat)
    requires x <= |t.units| && p <= |t.units| && CharsFrom(t, x) <= CharsFrom(t, p)
    ensures e <= |t.units| && EndPositions(t, Exactly(t, x), false, p) == [e]
    ensures CharsFrom(t, e) == CharsFrom(t, p) - CharsFrom(t, x)
    decreases |t.units| - x
  {
    hide EndPositions;
    if x == |t.units| {
      EmptyPositions(t, p);
      e := p;
    } else {
      CharThen(t, AnyChar, Exactly(t, Next(t, x)), p);
      e := ExactlyReads(t, Next(t, x), Next(t, p));
    }
  }

  /** The number of characters that follow tells boundaries apart. */
  lemma {:induction false} FewerAhead(t: Text, p: nat, x: nat)
    requires p < x <= |t.units| && Boundary(t, p) && Boundary(t, x)
    ensures CharsFrom(t, x) < CharsFrom(t, p)
    decreases x - p
  {
    BoundaryKept(t, p);
    if Next(t, p) < x { FewerAhead(t, Next(t, p), x); }
  }

  lemma EndOfText(t: Text, e: nat)
    requires e <= |t.units|
    ensures EndPositions(t, END_OF_TEXT, false, e) == if CharsFrom(t, e) == 0 then [e] else []
  {}

  lemma AtOnlyPositions(t: Text, x: nat, p: nat)
    requires x <= |t.units| && p <= |t.units| && Boundary(t, x) && Boundary(t, p)
    ensures EndPositions(t, AtOnly(t, x), false, p) == if p == x then [p] else []
  {
    hide EndPositions, CharsFrom, Exactly, Boundary, END_OF_TEXT;
    if p < x { FewerAhead(t, p, x); }
    if x < p { FewerAhead(t, x, p); }
    var c := Concat(Exactly(t, x), END_OF_TEXT);
    if CharsFrom(t, p) < CharsFrom(t, x) {
      ExactlyFails(t, x, p);
      OneThen(t, Exactly(t, x), END_OF_TEXT, p);
    } else {
      var e := ExactlyReads(t, x, p);
      OneThen(t, Exactly(t, x), END_OF_TEXT, p);
      EndOfText(t, e);
    }
    AheadPositions(t, c, p);
  }

  lemma AheadPositions(t: Text, c: Pattern, p: nat)
    requires p <= |t.units|
    ensures EndPositions(t, Look(false, false, c), false, p) == if EndPositions(t, c, false, p) == [] then [] else [p]
  {
    hide EachPositions, Flatten, RepeatPositions, CharEnd, Holds, AllAhead;
  }

  ghost function Accepted(x: nat, y: nat, p: nat): seq<nat> {
    (if p == x then [p] else []) + (if p == y then [p] else [])
  }

  lemma EitherPositions(t: Text, x: nat, y: nat, p: nat)
    requires x <= |t.units| && y <= |t.units| && p <= |t.units| && Boundary(t, x) && Boundary(t, y) && Boundary(t, p)
    ensures EndPositions(t, Either(t, x, y), false, p) == Accepted(x, y, p)
  {
    hide AtOnly, Boundary, EachPositions, Flatten, RepeatPositions, CharEnd, Holds, AllAhead;
    AtOnlyPositions(t, x, p);
    AtOnlyPositions(t, y, p);
  }

  lemma AtOnlyPlain(t: Text, x: nat)
    requires x <= |t.units|
    ensures WellFormed(AtOnly(t, x)) && LazyConsumes(AtOnly(t, x))
  {
    hide Exactly;
    ExactlyPlain(t, x);
    assert WellFormed(END_OF_TEXT) && LazyConsumes(END_OF_TEXT);
    var c := Concat(Exactly(t, x), END_OF_TEXT);
    assert WellFormed(c) && LazyConsumes(c);
  }

  lemma EitherPlain(t: Text, x: nat, y: nat)
    requires x <= |t.units| && y <= |t.units|
    ensures WellFormed(Either(t, x, y)) && LazyFits(t, Either(t, x, y), false)
  {
    hide Exactly, LazyFits;
    AtOnlyPlain(t, x);
    AtOnlyPlain(t, y);
    ConsumingFits(t, Either(t, x, y), false);
  }

  /** Of the positions in ds, the first that is accepted. */
  lemma {:induction false} FirstAccepted(x: nat, y: nat, ds: seq<nat>, j: nat)
    requires j <= |ds| && (j < |ds| ==> ds[j] == x || ds[j] == y) && forall m :: 0 <= m < j ==> ds[m] != x && ds[m] != y
    ensures var all := Spread((p: nat) => Accepted(x, y, p), ds);
      if j == |ds| then all == [] else all != [] && all[0] == ds[j]
    decreases |ds|
  {
    if 0 < j {
      assert forall m :: 0 <= m < j - 1 ==> ds[1..][m] == ds[m + 1];
      FirstAccepted(x, y, ds[1..], j - 1);
    }
  }

  /** Followed by the choice between x and y, a list of positions ends in the first of them. */
  lemma FirstChosen(t: Text, x: nat, y: nat, ps: seq<nat>, i: nat, j: nat)
    requires i <= |t.units| && Boundary(t, i) && AllAhead(t, false, i, ps)
    requires x <= |t.units| && y <= |t.units| && Boundary(t, x) && Boundary(t, y)
    requires var ds := Distinct(ps); j <= |ds| && (j < |ds| ==> ds[j] == x || ds[j] == y) && forall m :: 0 <= m < j ==>
      ds[m] != x && ds[m] != y
    ensures var ds, all := Distinct(ps), Flatten(EachPositions(t, Either(t, x, y), false, ps, i));
      if j == |ds| then all == [] else all != [] && all[0] == ds[j]
  {
    hide Fresh, EndPositions, EachPositions, Flatten, Spread, Either, Boundary, Accepted;
    var h: Onward := (p: nat) => Accepted(x, y, p);
    var q, ds := Either(t, x, y), Distinct(ps);
    var gs := EachPositions(t, q, false, ps, i);
    EachPositionsAt(t, q, false, ps, i);
    forall m | 0 <= m < |ps| ensures gs[m] == h(ps[m]) { EitherPositions(t, x, y, ps[m]); }
    AlikeFlatten(h, ps, gs);
    SpreadFresh(h, {}, {}, ps);
    AlikeFirst(Flatten(gs), Spread(h, ds));
    FirstAccepted(x, y, ds, j);
  }

  /** Where two lists of positions part, the two positions that come next; neither has occurred. */
  lemma PartAt(ps: seq<nat>, qs: seq<nat>) returns (j: nat, x: nat, y: nat)
    requires Distinct(ps) != Distinct(qs)
    ensures var ds, es := Distinct(ps), Distinct(qs);
      && j <= |ds| && j <= |es| && (j < |ds| || j < |es|) && (j < |ds| ==> ds[j] == x) && (j < |es| ==> es[j] == y)
      && (j < |ds| && j < |es| ==> x != y) && x in ps + qs && y in ps + qs
      && (forall m :: 0 <= m < j ==> ds[m] != x && ds[m] != y && es[m] != x && es[m] != y)
  {
    hide Fresh;
    var ds, es := Distinct(ps), Distinct(qs);
    j := Part(ds, es);
    x := if j < |ds| then ds[j] else es[j];
    y := if j < |es| then es[j] else ds[j];
    FreshOnce({}, ps);
    FreshOnce({}, qs);
    FreshMembers({}, ps, x);
    FreshMembers({}, qs, x);
    FreshMembers({}, ps, y);
    FreshMembers({}, qs, y);
    assert forall m :: 0 <= m < j ==> ds[m] == ds[..j][m] == es[..j][m] == es[m];
  }

  /** The family that fails: where the order differs, the choice between the two positions ends in the wrong one. */
  lemma OutOfOrderIsWrong(t: Text, a: Pattern, min: nat, max: nat, i: nat) returns (q: Pattern)
    requires ValidText(t) && WellFormed(a) && LazyFits(t, a, false) && min <= max < INFINITE && i <= |t.units|
    requires Boundary(t, i)
    requires Distinct(RepeatPositions(t, a, false, min, max, false, i, false)) !=
      Distinct(RepeatPositions(t, a, false, min, max, false, i, true))
    ensures Supported(t, q) && !RunsRight(t, Concat(Quantified(a, min, max, false), q), true, i)
  {
    hide RepeatPositions, EachPositions, EndPositions, Flatten, Distinct, ValidText, LazyFits, WellFormed, LazyStops,
      Either, RunsRight;
    var ps := RepeatPositions(t, a, false, min, max, false, i, false);
    var qs := RepeatPositions(t, a, false, min, max, false, i, true);
    var j, x, y := PartAt(ps, qs);
    q := Either(t, x, y);
    EitherPlain(t, x, y);
    var r := Concat(Quantified(a, min, max, false), q);
    FirstChosen(t, x, y, ps, i, j);
    FirstChosen(t, x, y, qs, i, j);
    QuantPositions(t, a, min, max, false, false, i);
    ConcatPositions(t, r.left, q, false, i);
    if RunsRight(t, r, true, i) {
      BoundedRuns(t, a, min, max, q, i);
    }
  }

  lemma BoundedRuns(t: Text, a: Pattern, min: nat, max: nat, q: Pattern, i: nat)
    requires ValidText(t) && WellFormed(a) && LazyFits(t, a, false) && min <= max < INFINITE && Supported(t, q)
    requires i <= |t.units| && Boundary(t, i) && RunsRight(t, Concat(Quantified(a, min, max, false), q), true, i)
    ensures var ps, es := Untested(t, a, min, max, q, i),
      EndPositions(t, Concat(Quantified(a, min, max, false), q), false, i);
      (ps == [] <==> es == []) && (ps != [] ==> ps[0] == es[0])
  {
    hide Untested, EndPositions, Ends, ValidText, LazyFits, Agree, RunsRight, Boundary;
    var r := Concat(Quantified(a, min, max, false), q);
    FitsStops(t, a, false);
    FitsStops(t, q, false);
    assert WellFormed(r.left) && LazyStops(t, r.left, false);
    assert WellFormed(r) && LazyStops(t, r, false);
    forall s: State | s.pos == i ensures Agree(1, s, Ends(t, r, 1, false, s), Untested(t, a, min, max, q, i)) {
      BoundedAgrees(t, a, min, max, q, s);
    }
    FirstEndDecides(t, r, i, Untested(t, a, min, max, q, i));
  }

  // ----- exactly when in order -----

  /**
  Over any text, a lazy quantifier is run rightly from every boundary and whatever
  follows it, if and only if its iterations are in order. For an unbounded one
  that means: no iteration of the atom is empty.
  */
  lemma RightExactlyInOrder(t: Text, a: Pattern, min: nat, max: nat)
    requires ValidText(t) && WellFormed(a) && LazyFits(t, a, false) && min <= max <= INFINITE
    ensures (forall i: nat, q :: i <= |t.units| && Boundary(t, i) && Supported(t, q) ==>
               RunsRight(t, Concat(Quantified(a, min, max, false), q), true, i))
            <==> InOrder(t, a, false, min, max)
  {
    hide RunsRight, ValidText, LazyFits, WellFormed, EndPositions, RepeatPositions, Distinct, Boundary, NOTHING;
    if InOrder(t, a, false, min, max) {
      forall i: nat, q | i <= |t.units| && Boundary(t, i) && Supported(t, q)
        ensures RunsRight(t, Concat(Quantified(a, min, max, false), q), true, i)
      {
        InOrderSupported(t, a, min, max, q);
        MatchCorrect(t, Concat(Quantified(a, min, max, false), q), true, i);
      }
    } else if max == INFINITE {
      var i: nat :| i <= |t.units| && Boundary(t, i) && i in EndPositions(t, a, false, i);
      ForeverIsWrong(t, a, min, i);
    } else {
      var i: nat :| i <= |t.units| && Boundary(t, i) &&
        Distinct(RepeatPositions(t, a, false, min, max, false, i, false)) !=
          Distinct(RepeatPositions(t, a, false, min, max, false, i, true));
      var q := OutOfOrderIsWrong(t, a, min, max, i);
    }
  }

  lemma InOrderSupported(t: Text, a: Pattern, min: nat, max: nat, q: Pattern)
    requires WellFormed(a) && LazyFits(t, a, false) && min <= max <= INFINITE && InOrder(t, a, false, min, max)
    requires Supported(t, q)
    ensures Supported(t, Concat(Quantified(a, min, max, false), q))
  {
    hide InOrder, ValidText;
    var r := Quantified(a, min, max, false);
    assert WellFormed(r) && LazyFits(t, r, false);
  }

  /** The same over all texts, for an unbounded quantifier. */
  lemma UnboundedExactly(a: Pattern)
    requires WellFormed(a) && LazyConsumes(a)
    ensures (forall t, i: nat, q :: ValidText(t) && i <= |t.units| && Boundary(t, i) && Supported(t, q) ==>
               RunsRight(t, Concat(Quantified(a, 0, INFINITE, false), q), true, i))
            <==> (forall t, i: nat :: ValidText(t) && i <= |t.units| && Boundary(t, i) ==>
              i !in EndPositions(t, a, false, i))
  {
    hide RunsRight, ValidText, LazyFits, WellFormed, EndPositions, Boundary, LazyConsumes, Supported;
    forall t | ValidText(t)
      ensures (forall i: nat, q :: i <= |t.units| && Boundary(t, i) && Supported(t, q) ==>
                 RunsRight(t, Concat(Quantified(a, 0, INFINITE, false), q), true, i))
              <==> (forall i: nat :: i <= |t.units| && Boundary(t, i) ==> i !in EndPositions(t, a, false, i))
    {
      ConsumingFits(t, a, false);
      RightExactlyInOrder(t, a, 0, INFINITE);
    }
  }

  /** The same over all texts, for a bounded one. */
  lemma BoundedExactly(a: Pattern, min: nat, max: nat)
    requires WellFormed(a) && LazyConsumes(a) && min <= max < INFINITE
    ensures (forall t, i: nat, q :: ValidText(t) && i <= |t.units| && Boundary(t, i) && Supported(t, q) ==>
               RunsRight(t, Concat(Quantified(a, min, max, false), q), true, i))
            <==> (forall t :: ValidText(t) ==> InOrder(t, a, false, min, max))
  {
    hide RunsRight, ValidText, LazyFits, WellFormed, InOrder, Boundary, LazyConsumes, Supported;
    forall t | ValidText(t)
      ensures (forall i: nat, q :: i <= |t.units| && Boundary(t, i) && Supported(t, q) ==>
                 RunsRight(t, Concat(Quantified(a, min, max, false), q), true, i))
              <==> InOrder(t, a, false, min, max)
    {
      ConsumingFits(t, a, false);
      RightExactlyInOrder(t, a, min, max);
    }
  }

  /** An atom that is empty only as a last resort is run rightly with any maximum, whatever follows. */
  lemma EmptyLastIsRight(t: Text, a: Pattern, min: nat, max: nat, q: Pattern, i: nat)
    requires ValidText(t) && WellFormed(a) && LazyFits(t, a, false) && EmptyLast(t, a, false) && min <= max < INFINITE
    requires Supported(t, q) && i <= |t.units| && Boundary(t, i)
    ensures RunsRight(t, Concat(Quantified(a, min, max, false), q), true, i)
  {
    hide RunsRight, ValidText, LazyFits, WellFormed, EmptyLast, InOrder, Boundary, Supported;
    EmptyLastFits(t, a, false, min, max);
    InOrderSupported(t, a, min, max, q);
    MatchCorrect(t, Concat(Quantified(a, min, max, false), q), true, i);
  }
}
