/**
What assertions and the dot mean, in terms of classes and look-arounds alone
(sections 22.2.2.4 and 22.2.2.9 of ECMA-262): a pattern has the same end positions
as its plain form, in which none of them is left.
*/
module RegexPlain {
  import opened RegexText
  import opened CharSet
  import opened RegexSyntax
  import opened RegexSemantics
  import opened RegexSimple
  import opened RegexPositions
  import opened RegexMatch

  /** \w: digits, capitals, the underscore and small letters. */
  const WORD: Pattern := Class([0x30, 0x3a, 0x41, 0x5b, 0x5f, 0x60, 0x61, 0x7b])

  /** Line feed, carriage return, line separator and paragraph separator. */
  const LINE_END: Pattern := Class([0x0a, 0x0b, 0x0d, 0x0e, 0x2028, 0x202a])

  /** All other code points. */
  const WITHIN_LINE: Pattern := Class([0, 0x0a, 0x0b, 0x0d, 0x0e, 0x2028, 0x202a, 0x11_0000])

  /** r matches, or does not match, from here on, or up to here. */
  function Before(r: Pattern, yes: bool): Pattern { Look(!yes, false, r) }

  function Behind(r: Pattern, yes: bool): Pattern { Look(!yes, true, r) }

  /** (?<=\w)(?!\w)|(?<!\w)(?=\w) */
  const WORD_EDGE: Pattern :=
    Alternative(Concat(Behind(WORD, true), Before(WORD, false)), Concat(Behind(WORD, false), Before(WORD, true)))

  function PlainAssertion(a: Assertion, multiline: bool): Pattern {
    match a
    case LineStart =>
      var start := Behind(AnyChar, false);
      if multiline then Alternative(start, Behind(LINE_END, true)) else start
    case LineEnd =>
      var end := Before(AnyChar, false);
      if multiline then Alternative(end, Before(LINE_END, true)) else end
    case WordBoundary => WORD_EDGE
    case NotWordBoundary => Before(WORD_EDGE, false)
  }

  function Plain(r: Pattern, multiline: bool): Pattern {
    match r
    case Dot => WITHIN_LINE
    case Assert(a) => PlainAssertion(a, multiline)
    case Concat(a, b) => Concat(Plain(a, multiline), Plain(b, multiline))
    case Alternative(a, b) => Alternative(Plain(a, multiline), Plain(b, multiline))
    case Capture(a) => Capture(Plain(a, multiline))
    case Look(negative, behind, a) => Look(negative, behind, Plain(a, multiline))
    case Quantified(a, min, max, greedy) => Quantified(Plain(a, multiline), min, max, greedy)
    case _ => r
  }

  /** No assertion and no dot. */
  predicate IsPlain(r: Pattern) {
    match r
    case Dot => false
    case Assert(_) => false
    case Concat(a, b) => IsPlain(a) && IsPlain(b)
    case Alternative(a, b) => IsPlain(a) && IsPlain(b)
    case Capture(a) => IsPlain(a)
    case Look(_, _, a) => IsPlain(a)
    case Quantified(a, _, _, _) => IsPlain(a)
    case _ => true
  }

  lemma PlainIsPlain(r: Pattern, multiline: bool)
    ensures IsPlain(Plain(r, multiline))
  {}

  // ----- the classes -----

  /** Membership in a class of up to four intervals. */
  lemma InFour(pts: seq<nat>, c: nat)
    requires |pts| == 6 || |pts| == 8
    ensures Contains(pts, c) <==>
      || pts[0] <= c < pts[1]
      || pts[2] <= c < pts[3]
      || pts[4] <= c < pts[5]
      || (|pts| == 8 && pts[6] <= c < pts[7])
  {
    assert Low(pts, 0) == pts[0] && Low(pts, 1) == pts[2] && Low(pts, 2) == pts[4];
    if |pts| == 8 { assert Low(pts, 3) == pts[6]; }
  }

  lemma WordMembers(c: nat)
    ensures Contains(WORD.points, c) <==> WordChar(c)
  {
    InFour(WORD.points, c);
  }

  lemma LineMembers(c: nat)
    ensures Contains(LINE_END.points, c) <==> LineTerminator(c)
    ensures c < 0x11_0000 ==> (Contains(WITHIN_LINE.points, c) <==> !LineTerminator(c))
  {
    InFour(LINE_END.points, c);
    InFour(WITHIN_LINE.points, c);
  }

  // ----- look-arounds at one character -----

  /** The character next to i, read forward or backward, yes one that r accepts. */
  ghost predicate Adjacent(t: Text, r: Pattern, behind: bool, i: nat)
    requires OneChar(r) && i <= |t.units|
  {
    if behind then 0 < i && Accepts(r, CharBefore(t, i)) else i < |t.units| && Accepts(r, CharAt(t, i))
  }

  lemma LookOne(t: Text, r: Pattern, behind: bool, yes: bool, back: bool, i: nat)
    requires OneChar(r) && i <= |t.units|
    ensures EndPositions(t, Look(!yes, behind, r), back, i) == if Adjacent(t, r, behind, i) == yes then [i] else []
  {
    hide Accepts;
  }

  /** An assertion, or what stands for one: it holds at i or not. */
  ghost predicate Asserts(t: Text, r: Pattern, back: bool, i: nat, holds: bool)
    requires i <= |t.units|
  {
    EndPositions(t, r, back, i) == if holds then [i] else []
  }

  lemma AssertsBoth(t: Text, a: Pattern, b: Pattern, back: bool, i: nat, x: bool, y: bool)
    requires i <= |t.units| && Asserts(t, a, back, i, x) && Asserts(t, b, back, i, y)
    ensures Asserts(t, Concat(a, b), back, i, x && y)
  {
    hide EndPositions, EachPositions;
    ConcatPositions(t, a, b, back, i);
    var (p, q) := if back then (b, a) else (a, b);
    var es := EndPositions(t, p, back, i);
    EachPositionsAt(t, q, back, es, i);
    if es != [] {
      assert EachPositions(t, q, back, es, i) == [EndPositions(t, q, back, i)];
      FlattenOne(EndPositions(t, q, back, i));
    } else {
      assert EachPositions(t, q, back, es, i) == [];
    }
  }

  lemma FlattenOne(es: seq<nat>)
    ensures Flatten([es]) == es
  {
    assert [es][1..] == [];
  }

  /** One or the other, never both. */
  lemma AssertsEither(t: Text, a: Pattern, b: Pattern, back: bool, i: nat, x: bool, y: bool)
    requires i <= |t.units| && Asserts(t, a, back, i, x) && Asserts(t, b, back, i, y) && !(x && y)
    ensures Asserts(t, Alternative(a, b), back, i, x || y)
  {
    hide EachPositions, RepeatPositions, CharEnd, Holds;
  }

  lemma AssertsNot(t: Text, a: Pattern, back: bool, i: nat, x: bool)
    requires i <= |t.units| && Asserts(t, a, false, i, x)
    ensures Asserts(t, Before(a, false), back, i, !x)
  {
    hide EachPositions, RepeatPositions, CharEnd, Holds;
  }

  lemma WordEdgeAsserts(t: Text, back: bool, i: nat)
    requires i <= |t.units|
    ensures Asserts(t, WORD_EDGE, back, i, Adjacent(t, WORD, true, i) != Adjacent(t, WORD, false, i))
  {
    hide Asserts, Adjacent;
    var w := WORD;
    var x, y := Adjacent(t, w, true, i), Adjacent(t, w, false, i);
    forall yes: bool
      ensures Asserts(t, Behind(w, yes), back, i, x == yes) && Asserts(t, Before(w, yes), back, i, y == yes)
    {
      AssertsOne(t, w, yes, back, i);
    }
    AssertsBoth(t, Behind(w, true), Before(w, false), back, i, x, !y);
    AssertsBoth(t, Behind(w, false), Before(w, true), back, i, !x, y);
    AssertsEither(t, Concat(Behind(w, true), Before(w, false)), Concat(Behind(w, false), Before(w, true)),
                  back, i, x && !y, !x && y);
  }

  lemma AssertsOne(t: Text, r: Pattern, yes: bool, back: bool, i: nat)
    requires OneChar(r) && i <= |t.units|
    ensures Asserts(t, Behind(r, yes), back, i, Adjacent(t, r, true, i) == yes)
    ensures Asserts(t, Before(r, yes), back, i, Adjacent(t, r, false, i) == yes)
  {
    hide EndPositions, Adjacent;
    LookOne(t, r, true, yes, back, i);
    LookOne(t, r, false, yes, back, i);
  }

  // ----- assertions -----

  /** \b, \B, ^ and $, multiline or not, stand for the look-arounds of their plain form. */
  lemma AssertionIsLook(t: Text, a: Assertion, back: bool, i: nat)
    requires i <= |t.units|
    ensures EndPositions(t, Assert(a), back, i) == EndPositions(t, PlainAssertion(a, t.multiline), back, i)
  {
    hide EachPositions, RepeatPositions, CharEnd;
    match a {
      case LineStart => LineAsserts(t, true, back, i);
      case LineEnd => LineAsserts(t, false, back, i);
      case _ => WordAsserts(t, back, i);
    }
  }

  lemma WordAsserts(t: Text, back: bool, i: nat)
    requires i <= |t.units|
    ensures Asserts(t, WORD_EDGE, back, i, WordEdge(t, i))
    ensures Asserts(t, Before(WORD_EDGE, false), back, i, !WordEdge(t, i))
  {
    hide Asserts, WORD_EDGE;
    if 0 < i { WordMembers(CharBefore(t, i)); }
    if i < |t.units| { WordMembers(CharAt(t, i)); }
    WordEdgeAsserts(t, back, i);
    WordEdgeAsserts(t, false, i);
    AssertsNot(t, WORD_EDGE, back, i, WordEdge(t, i));
  }

  lemma LineAsserts(t: Text, start: bool, back: bool, i: nat)
    requires i <= |t.units|
    ensures var a := if start then LineStart else LineEnd;
      Asserts(t, PlainAssertion(a, t.multiline), back, i, Holds(t, a, i))
  {
    hide Asserts, Contains;
    if 0 < i { LineMembers(CharBefore(t, i)); }
    if i < |t.units| { LineMembers(CharAt(t, i)); }
    var x, y := Adjacent(t, AnyChar, start, i), Adjacent(t, LINE_END, start, i);
    AssertsOne(t, AnyChar, false, back, i);
    AssertsOne(t, LINE_END, true, back, i);
    if start {
      AssertsEither(t, Behind(AnyChar, false), Behind(LINE_END, true), back, i, !x, y);
    } else {
      AssertsEither(t, Before(AnyChar, false), Before(LINE_END, true), back, i, !x, y);
    }
  }

  /** The dot reads every code point that ends no line. */
  lemma DotIsClass(t: Text, back: bool, i: nat)
    requires ValidText(t) && i <= |t.units|
    ensures EndPositions(t, Dot, back, i) == EndPositions(t, WITHIN_LINE, back, i)
  {
    hide Contains, LineTerminator;
    if 0 < i { LineMembers(CharBefore(t, i)); }
    if i < |t.units| { LineMembers(CharAt(t, i)); }
  }

  // ----- whole patterns -----

  /** A pattern has the end positions of its plain form, in the same order, wherever it is read. */
  lemma {:induction false} PlainSame(t: Text, r: Pattern, back: bool, i: nat)
    requires ValidText(t) && i <= |t.units|
    ensures EndPositions(t, Plain(r, t.multiline), back, i) == EndPositions(t, r, back, i)
    decreases r
  {
    hide EachPositions, RepeatPositions, CharEnd, Holds, ValidText;
    match r {
      case Dot => DotIsClass(t, back, i);
      case Assert(a) => AssertionIsLook(t, a, back, i);
      case Concat(a, b) =>
        forall j: nat | j <= |t.units|
          ensures EndPositions(t, Plain(a, t.multiline), back, j) == EndPositions(t, a, back, j)
          ensures EndPositions(t, Plain(b, t.multiline), back, j) == EndPositions(t, b, back, j)
        {
          PlainSame(t, a, back, j);
          PlainSame(t, b, back, j);
        }
        ConcatSame(t, Plain(a, t.multiline), Plain(b, t.multiline), a, b, back, i);
      case Alternative(a, b) =>
        PlainSame(t, a, back, i);
        PlainSame(t, b, back, i);
      case Capture(a) => PlainSame(t, a, back, i);
      case Look(_, behind, a) => PlainSame(t, a, behind, i);
      case Quantified(a, min, max, greedy) =>
        forall j: nat | j <= |t.units|
          ensures EndPositions(t, Plain(a, t.multiline), back, j) == EndPositions(t, a, back, j)
        {
          PlainSame(t, a, back, j);
        }
        RepeatSame(t, Plain(a, t.multiline), a, back, min, max, greedy, i);
      case _ =>
    }
  }

  /** Two patterns with the same end positions everywhere. */
  ghost predicate Same(t: Text, a: Pattern, b: Pattern, back: bool) {
    forall j: nat :: j <= |t.units| ==> EndPositions(t, a, back, j) == EndPositions(t, b, back, j)
  }

  lemma ConcatSame(t: Text, a': Pattern, b': Pattern, a: Pattern, b: Pattern, back: bool, i: nat)
    requires i <= |t.units| && Same(t, a', a, back) && Same(t, b', b, back)
    ensures EndPositions(t, Concat(a', b'), back, i) == EndPositions(t, Concat(a, b), back, i)
  {
    hide EndPositions, EachPositions;
    ConcatPositions(t, a', b', back, i);
    ConcatPositions(t, a, b, back, i);
    var (p, q) := if back then (b, a) else (a, b);
    var (p', q') := if back then (b', a') else (a', b');
    var es := EndPositions(t, p, back, i);
    assert EndPositions(t, p', back, i) == es;
    EachPositionsAt(t, q, back, es, i);
    EachPositionsAt(t, q', back, es, i);
    assert EachPositions(t, q', back, es, i) == EachPositions(t, q, back, es, i);
  }

  lemma {:induction false} RepeatSame(t: Text, a': Pattern, a: Pattern, back: bool, min: nat, max: nat, greedy: bool,
      i: nat)
    requires i <= |t.units| && Same(t, a', a, back)
    ensures RepeatPositions(t, a', back, min, max, greedy, i, true)
         == RepeatPositions(t, a, back, min, max, greedy, i, true)
    decreases min, Ahead(t, back, i), max
  {
    hide EndPositions, EachRepeatPositions, RepeatPositions, Flatten;
    if max == 0 {
      RepeatPositionsZero(t, a', back, min, greedy, i, true);
      RepeatPositionsZero(t, a, back, min, greedy, i, true);
    } else {
      RepeatPositionsOnce(t, a', back, min, max, greedy, i, true);
      RepeatPositionsOnce(t, a, back, min, max, greedy, i, true);
      var m, es := if min == 0 then 0 else min - 1, EndPositions(t, a, back, i);
      assert EndPositions(t, a', back, i) == es;
      EachRepeatPositionsAt(t, a', back, m, Less(max), greedy, es, i, true, min == 0);
      EachRepeatPositionsAt(t, a, back, m, Less(max), greedy, es, i, true, min == 0);
      forall j | 0 <= j < |es| && !(min == 0 && es[j] == i)
        ensures RepeatPositions(t, a', back, m, Less(max), greedy, es[j], true) ==
                RepeatPositions(t, a, back, m, Less(max), greedy, es[j], true)
      {
        RepeatSame(t, a', a, back, m, Less(max), greedy, es[j]);
      }
      assert EachRepeatPositions(t, a', back, m, Less(max), greedy, es, i, true, min == 0)
          == EachRepeatPositions(t, a, back, m, Less(max), greedy, es, i, true, min == 0);
    }
  }

  /** So a search finds what it finds for the plain form. */
  lemma {:induction false} SpanSame(t: Text, r: Pattern, sticky: bool, i: nat)
    requires ValidText(t) && i <= |t.units|
    ensures Span(t, r, sticky, i) == Span(t, Plain(r, t.multiline), sticky, i)
    decreases |t.units| - i
  {
    hide EndPositions, ValidText, Plain;
    PlainSame(t, r, false, i);
    if i < |t.units| { SpanSame(t, r, sticky, Next(t, i)); }
  }
}
