/**
A lazy quantifier that is out of order: (?:|aa|a){0,2}?(?=aaa$|$) on "aaaa". With
the test for empty iterations position 4 comes before position 1, without it after.
*/
module RegexLazyExample {
  import opened RegexText
  import opened RegexSyntax
  import opened RegexSemantics
  import opened RegexMachine
  import opened RegexAtoms
  import opened RegexSimple
  import opened RegexOrder
  import opened RegexCorrect
  import opened RegexPositions
  import opened RegexMatch
  import opened RegexBoundary
  import opened RegexLazy

  const LETTER: nat := 97
  const LETTERS: Text := Text([LETTER, LETTER, LETTER, LETTER], false, false)
  const ONE: Pattern := Literal(LETTER)
  const TWO: Pattern := Concat(ONE, ONE)
  const ATOM: Pattern := Alternative(Empty, Alternative(TWO, ONE))
  const REST: Pattern := Look(false, false, Alternative(Concat(ONE, Concat(TWO, Assert(LineEnd))), Assert(LineEnd)))
  const TWICE: Pattern := Concat(Quantified(ATOM, 0, 2, false), REST)

  lemma OnePositions(p: nat)
    requires p <= 4
    ensures EndPositions(LETTERS, ONE, false, p) == if p < 4 then [p + 1] else []
  {}

  lemma TwoPositions(p: nat)
    requires p <= 4
    ensures EndPositions(LETTERS, TWO, false, p) == if p < 3 then [p + 2] else []
  {
    hide EndPositions;
    OnePositions(p);
    CharThen(LETTERS, ONE, ONE, p);
    if p < 4 { OnePositions(p + 1); CharOne(p); } else { CharOne(p); }
  }

  lemma CharOne(p: nat)
    requires p <= 4
    ensures CharEnd(LETTERS, ONE, false, p) == if p < 4 then Some(p + 1) else None
  {}

  lemma AtomPositions(p: nat)
    requires p <= 4
    ensures EndPositions(LETTERS, ATOM, false, p) ==
      [p] + (if p < 3 then [p + 2] else []) + (if p < 4 then [p + 1] else [])
  {
    hide EndPositions;
    OnePositions(p);
    TwoPositions(p);
    EmptyPositions(LETTERS, p);
    EitherOf(Empty, Alternative(TWO, ONE), p);
    EitherOf(TWO, ONE, p);
  }

  lemma EitherOf(x: Pattern, y: Pattern, p: nat)
    requires p <= 4
    ensures EndPositions(LETTERS, Alternative(x, y), false, p) ==
      EndPositions(LETTERS, x, false, p) + EndPositions(LETTERS, y, false, p)
  {
    hide EachPositions, Flatten, RepeatPositions, CharEnd, Holds, AllAhead;
  }

  lemma EndPosition(p: nat)
    requires p <= 4
    ensures EndPositions(LETTERS, Assert(LineEnd), false, p) == if p == 4 then [4] else []
  {}

  /** Only 1 and 4 are followed by aaa$ or $. */
  lemma RestPositions(p: nat)
    requires p <= 4
    ensures EndPositions(LETTERS, REST, false, p) == if p == 1 || p == 4 then [p] else []
  {
    hide EndPositions;
    var three := Concat(TWO, Assert(LineEnd));
    AheadPositions(LETTERS, REST.body, p);
    EitherOf(Concat(ONE, three), Assert(LineEnd), p);
    EndPosition(p);
    CharThen(LETTERS, ONE, three, p);
    CharOne(p);
    if p < 4 {
      TwoPositions(p + 1);
      OneThen(LETTERS, TWO, Assert(LineEnd), p + 1);
      if p < 2 { EndPosition(p + 3); }
    }
  }

  /** One optional iteration: with the test the empty one is left out. */
  lemma AtMostOnce(p: nat, strict: bool)
    requires p <= 2
    ensures RepeatPositions(LETTERS, ATOM, false, 0, 1, false, p, strict) ==
      if strict then [p, p + 2, p + 1] else [p, p, p + 2, p + 1]
  {
    hide EndPositions, RepeatPositions, EachRepeatPositions, Flatten;
    AtomPositions(p);
    var es := EndPositions(LETTERS, ATOM, false, p);
    assert es == [p, p + 2, p + 1];
    RepeatPositionsOnce(LETTERS, ATOM, false, 0, 1, false, p, strict);
    EachRepeatPositionsAt(LETTERS, ATOM, false, 0, 0, false, es, p, strict, strict);
    RepeatPositionsZero(LETTERS, ATOM, false, 0, false, p, strict);
    RepeatPositionsZero(LETTERS, ATOM, false, 0, false, p + 2, strict);
    RepeatPositionsZero(LETTERS, ATOM, false, 0, false, p + 1, strict);
    var fs := EachRepeatPositions(LETTERS, ATOM, false, 0, 0, false, es, p, strict, strict);
    FlattenThree(fs);
  }

  lemma FlattenThree(fs: seq<seq<nat>>)
    requires |fs| == 3
    ensures Flatten(fs) == fs[0] + fs[1] + fs[2]
  {
    assert fs[2..] == [fs[2]];
    FlattenOne(fs[2]);
    assert Flatten(fs[1..]) == fs[1] + fs[2] by { assert fs[1..][1..] == fs[2..]; }
  }

  /** Two: with the test position 4 comes before position 1, without it after. */
  lemma AtMostTwice(strict: bool)
    ensures RepeatPositions(LETTERS, ATOM, false, 0, 2, false, 0, strict) ==
      if strict then [0] + [2, 4, 3] + [1, 3, 2] else [0] + [0, 0, 2, 1] + [2, 2, 4, 3] + [1, 1, 3, 2]
  {
    hide EndPositions, RepeatPositions, EachRepeatPositions, Flatten;
    AtomPositions(0);
    var es := EndPositions(LETTERS, ATOM, false, 0);
    assert es == [0, 2, 1];
    RepeatPositionsOnce(LETTERS, ATOM, false, 0, 2, false, 0, strict);
    EachRepeatPositionsAt(LETTERS, ATOM, false, 0, 1, false, es, 0, strict, strict);
    AtMostOnce(0, strict);
    AtMostOnce(2, strict);
    AtMostOnce(1, strict);
    var fs := EachRepeatPositions(LETTERS, ATOM, false, 0, 1, false, es, 0, strict, strict);
    FlattenThree(fs);
  }

  lemma {:induction false} FirstEnd(ps: seq<nat>, j: nat)
    requires j < |ps| && (ps[j] == 1 || ps[j] == 4) && forall m :: 0 <= m < j ==> ps[m] != 1 && ps[m] != 4
    requires AllAhead(LETTERS, false, 0, ps)
    ensures var all := Flatten(EachPositions(LETTERS, REST, false, ps, 0)); all != [] && all[0] == ps[j]
    decreases j
  {
    hide EndPositions, REST;
    RestPositions(ps[0]);
    if j > 0 {
      assert forall m :: 0 <= m < j - 1 ==> ps[1..][m] == ps[m + 1];
      FirstEnd(ps[1..], j - 1);
    }
  }

  lemma TwicePlain()
    ensures WellFormed(ATOM) && LazyConsumes(ATOM) && WellFormed(REST) && LazyConsumes(REST) && WellFormed(TWICE)
    ensures Groups(TWICE) == 0 && ValidText(LETTERS) && Boundary(LETTERS, 0)
  {
    assert WellFormed(TWO) && LazyConsumes(TWO) && Groups(TWO) == 0;
    var x := Concat(ONE, Concat(TWO, Assert(LineEnd)));
    assert WellFormed(Concat(TWO, Assert(LineEnd))) && LazyConsumes(Concat(TWO, Assert(LineEnd))) &&
      Groups(Concat(TWO, Assert(LineEnd))) == 0;
    assert WellFormed(x) && LazyConsumes(x) && Groups(x) == 0;
    assert WellFormed(REST.body) && LazyConsumes(REST.body) && Groups(REST.body) == 0;
    assert WellFormed(Alternative(TWO, ONE)) && LazyConsumes(Alternative(TWO, ONE)) &&
      Groups(Alternative(TWO, ONE)) == 0;
    assert WellFormed(ATOM) && Groups(ATOM) == 0;
    assert WellFormed(Quantified(ATOM, 0, 2, false)) && Groups(Quantified(ATOM, 0, 2, false)) == 0;
  }

  /** The reference ends at 4, the machine reports an end at 1. */
  lemma TwiceEndsWrongly()
    ensures Span(LETTERS, TWICE, true, 0) == Some((0, 4))
    ensures Reaches(Engine(LETTERS, Program(TWICE, true)), Initial(TWICE, 0), Done(true, [Some(0), Some(1)]))
  {
    hide EndPositions, RepeatPositions, EachPositions, Flatten, Ends, ATOM, REST, WellFormed, LazyConsumes, LazyFits,
      LazyStops, Program, Distinct, Reaches;
    TwicePlain();
    TwiceSpan();
    var t := LETTERS;
    var none: Captures := [None, None];
    var s := State(0, [Some(0), None]);
    ConsumingFits(t, ATOM, false);
    ConsumingFits(t, REST, false);
    TwiceExecutable();
    ProgramReaches(t, TWICE, true, 0, none);
    BoundedAgrees(t, ATOM, 0, 2, REST, s);
    AtMostTwice(false);
    var ps := RepeatPositions(t, ATOM, false, 0, 2, false, 0, false);
    assert AllAhead(t, false, 0, ps);
    FirstEnd(ps, 4);
    var es := Ends(t, TWICE, 1, false, s);
    AlikeFirst(Positions(es), Untested(t, ATOM, 0, 2, REST, 0));
    assert es[0].pos == 1;
    AgreeKeeps(1, s, es, Untested(t, ATOM, 0, 2, REST, 0), 0);
    var caps: Captures := [Some(0), Some(1)];
    assert Saved(es[0].caps, 0, true, 1) == caps;
    assert Saved(none, 0, false, 0) == s.caps;
    assert FirstMatch(t, TWICE, true, 0, none) == Some(caps);
    assert Initial(TWICE, 0) == At(0, State(0, none), [], []);
  }

  lemma TwiceExecutable()
    requires LazyFits(LETTERS, ATOM, false) && LazyFits(LETTERS, REST, false)
    ensures Executable(LETTERS, TWICE, false)
  {
    hide ATOM, REST, LazyFits;
    TwicePlain();
    FitsStops(LETTERS, ATOM, false);
    FitsStops(LETTERS, REST, false);
    assert LazyStops(LETTERS, Quantified(ATOM, 0, 2, false), false);
  }

  lemma TwiceSpan()
    ensures Span(LETTERS, TWICE, true, 0) == Some((0, 4))
  {
    hide EndPositions, RepeatPositions, EachPositions, Flatten, ATOM, REST;
    AtMostTwice(true);
    var ps := RepeatPositions(LETTERS, ATOM, false, 0, 2, false, 0, true);
    FirstEnd(ps, 2);
    QuantPositions(LETTERS, ATOM, 0, 2, false, false, 0);
    ConcatPositions(LETTERS, TWICE.left, REST, false, 0);
  }
}
