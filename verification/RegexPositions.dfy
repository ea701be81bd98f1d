/**
The meaning of patterns that the engine is judged by: `EndPositions`, the ordered
list of end positions of section 22.2.2 of ECMA-262, and how the list that the
emitted code tries agrees with it.
*/
module RegexPositions {
  import opened RegexText
  import opened RegexSyntax
  import opened RegexSemantics
  import opened RegexAtoms
  import opened RegexSimple
  import opened RegexOrder
  import opened RegexCorrect

  // ----- positions only -----

  ghost predicate AllAhead(t: Text, back: bool, i: nat, es: seq<nat>) {
    forall j :: 0 <= j < |es| ==> InDirection(t, back, i, es[j]) && (Boundary(t, i) ==> Boundary(t, es[j]))
  }

  /** The end positions of r from i, most preferred first (section 22.2.2 of ECMA-262). */
  ghost function EndPositions(t: Text, r: Pattern, back: bool, i: nat): (es: seq<nat>)
    requires i <= |t.units|
    ensures AllAhead(t, back, i, es)
    decreases r, 0, 0, 0, 0, 0
  {
    match r
    case Empty => [i]
    case Assert(a) => if Holds(t, a, i) then [i] else []
    case Concat(a, b) =>
      var (p, q) := if back then (b, a) else (a, b);
      Flatten(EachPositions(t, q, back, EndPositions(t, p, back, i), i))
    case Alternative(a, b) => EndPositions(t, a, back, i) + EndPositions(t, b, back, i)
    case Capture(a) => EndPositions(t, a, back, i)
    case Look(negative, behind, a) => if (EndPositions(t, a, behind, i) == []) == negative then [i] else []
    case Quantified(a, min, max, greedy) => RepeatPositions(t, a, back, min, max, greedy, i, true)
    case _ =>
      var e := CharEnd(t, r, back, i);
      if e.Some? then [e.value] else []
  }

  ghost function EachPositions(t: Text, r: Pattern, back: bool, es: seq<nat>, i: nat): (fs: seq<seq<nat>>)
    requires i <= |t.units| && AllAhead(t, back, i, es)
    ensures |fs| == |es| && AllAhead(t, back, i, Flatten(fs))
    decreases r, 0, 0, 0, 0, 1 + |es|
  {
    if es == [] then [] else [EndPositions(t, r, back, es[0])] + EachPositions(t, r, back, es[1..], i)
  }

  /**
  RepeatMatcher: when strict, an iteration beyond the minimum must not be empty; an
  unbounded repetition has to be.
  */
  ghost function RepeatPositions(t: Text, r: Pattern, back: bool, min: nat, max: nat, greedy: bool, i: nat,
      strict: bool): (es: seq<nat>)
    requires i <= |t.units|
    ensures AllAhead(t, back, i, es)
    decreases r, 1, min, Ahead(t, back, i), max, 0
  {
    if max == 0 then [i]
    else if min > 0 then
      var es := EndPositions(t, r, back, i);
      Flatten(EachRepeatPositions(t, r, back, min - 1, Less(max), greedy, es, i, strict, false))
    else
      var es := EndPositions(t, r, back, i);
      var check := Checked(strict, max);
      var more := Flatten(EachRepeatPositions(t, r, back, 0, Less(max), greedy, es, i, strict, check));
      if greedy then more + [i] else [i] + more
  }

  ghost function EachRepeatPositions(t: Text, r: Pattern, back: bool, min: nat, max: nat, greedy: bool,
                                     es: seq<nat>, i: nat, strict: bool, check: bool): (fs: seq<seq<nat>>)
    requires i <= |t.units| && AllAhead(t, back, i, es)
    ensures |fs| == |es| && AllAhead(t, back, i, Flatten(fs))
    decreases r, 1, min, Ahead(t, back, i) - (if check then 1 else 0), max, 1 + |es|
  {
    if es == [] then []
    else [if check && es[0] == i then [] else RepeatPositions(t, r, back, min, max, greedy, es[0], strict)]
         + EachRepeatPositions(t, r, back, min, max, greedy, es[1..], i, strict, check)
  }

  // ----- lazy quantifiers -----

  /** No iteration of r is empty. */
  ghost predicate NeverEmpty(t: Text, r: Pattern, back: bool) {
    forall i: nat :: i <= |t.units| && Boundary(t, i) ==> i !in EndPositions(t, r, back, i)
  }

  /**
  The emitted code does not test lazy iterations for being empty. That does no
  harm to min to max iterations of r when new positions come in the same order
  with and without the test; without a maximum, when none is empty.
  */
  ghost predicate InOrder(t: Text, r: Pattern, back: bool, min: nat, max: nat) {
    if max == INFINITE then NeverEmpty(t, r, back)
    else forall i: nat :: i <= |t.units| && Boundary(t, i) ==>
      Distinct(RepeatPositions(t, r, back, min, max, false, i, false)) ==
        Distinct(RepeatPositions(t, r, back, min, max, false, i, true))
  }

  /** The condition on the lazy quantifiers of a pattern. */
  ghost predicate LazyFits(t: Text, r: Pattern, back: bool) {
    match r
    case Concat(a, b) => LazyFits(t, a, back) && LazyFits(t, b, back)
    case Alternative(a, b) => LazyFits(t, a, back) && LazyFits(t, b, back)
    case Capture(a) => LazyFits(t, a, back)
    case Look(_, behind, a) => LazyFits(t, a, behind)
    case Quantified(a, min, max, greedy) => (greedy || InOrder(t, a, back, min, max)) && LazyFits(t, a, back)
    case _ => true
  }

  // ----- the states that are tried and the positions -----

  function Positions(es: seq<State>): (ps: seq<nat>)
    ensures |ps| == |es|
  {
    seq(|es|, j requires 0 <= j < |es| => es[j].pos)
  }

  /** es come to the positions ps in the same order, and keep the captures of s below group k. */
  ghost predicate Agree(k: nat, s: State, es: seq<State>, ps: seq<nat>) {
    Distinct(Positions(es)) == Distinct(ps) && AllKeep(k, s, es)
  }

  ghost predicate AllKeep(k: nat, s: State, es: seq<State>) {
    forall j :: 0 <= j < |es| ==> KeepsBelow(k, s, es[j])
  }

  ghost predicate KeepsBelow(k: nat, s: State, e: State) {
    && |e.caps| == |s.caps|
    && forall x :: 0 <= x < 2 * k && x < |s.caps| ==> e.caps[x] == s.caps[x]
  }

  lemma AgreeAppend(k: nat, s: State, es: seq<State>, ps: seq<nat>, es': seq<State>, ps': seq<nat>)
    requires Agree(k, s, es, ps) && Agree(k, s, es', ps')
    ensures Agree(k, s, es + es', ps + ps')
  {
    hide KeepsBelow, Distinct;
    AlikeAppend(Positions(es), Positions(es'), ps, ps');
    assert Positions(es + es') == Positions(es) + Positions(es');
  }

  lemma {:induction false} FlattenKeeps(k: nat, s: State, fs: seq<seq<State>>)
    requires forall j :: 0 <= j < |fs| ==> AllKeep(k, s, fs[j])
    ensures AllKeep(k, s, Flatten(fs))
    decreases |fs|
  {
    hide KeepsBelow;
    if fs != [] { FlattenKeeps(k, s, fs[1..]); }
  }

  function EachPositionsOf(fs: seq<seq<State>>): (gs: seq<seq<nat>>)
    ensures |gs| == |fs| && forall j :: 0 <= j < |fs| ==> gs[j] == Positions(fs[j])
  {
    seq(|fs|, j requires 0 <= j < |fs| => Positions(fs[j]))
  }

  lemma {:induction false} FlattenPositions(fs: seq<seq<State>>)
    ensures Positions(Flatten(fs)) == Flatten(EachPositionsOf(fs))
    decreases |fs|
  {
    if fs != [] {
      FlattenPositions(fs[1..]);
      assert EachPositionsOf(fs)[1..] == EachPositionsOf(fs[1..]);
    }
  }

  /** Going on from states and from positions that agree. */
  lemma AgreeOnward(k: nat, s: State, es: seq<State>, fs: seq<seq<State>>, ps: seq<nat>, gs: seq<seq<nat>>, h: Onward)
    requires Agree(k, s, es, ps) && |fs| == |es| && |gs| == |ps|
    requires forall j :: 0 <= j < |es| ==> Agree(k, s, fs[j], h(es[j].pos))
    requires forall j :: 0 <= j < |ps| ==> gs[j] == h(ps[j])
    ensures Agree(k, s, Flatten(fs), Flatten(gs))
  {
    hide AllKeep, Distinct, Flatten;
    FlattenKeeps(k, s, fs);
    FlattenPositions(fs);
    AlikeOnward(h, Positions(es), EachPositionsOf(fs), ps, gs);
  }

  lemma AgreeOne(k: nat, s: State)
    ensures Agree(k, s, [s], [s.pos]) && Agree(k, s, [], [])
  {
    assert Positions([s]) == [s.pos];
  }

  lemma AgreeVia(k: nat, k': nat, s: State, s': State, es: seq<State>, ps: seq<nat>)
    requires KeepsBelow(k, s, s') && k <= k' && Agree(k', s', es, ps)
    ensures Agree(k, s, es, ps)
  {}

  /** For a pattern whose lazy quantifiers fit, the code comes to the end positions in their order. */
  lemma {:induction false} Agrees(t: Text, r: Pattern, k: nat, back: bool, s: State)
    requires s.pos <= |t.units| && Boundary(t, s.pos) && LazyFits(t, r, back)
    ensures Agree(k, s, Ends(t, r, k, back, s), EndPositions(t, r, back, s.pos))
    decreases r, 5, 0, 0
  {
    hide Ends, EndPositions, Agree;
    match r
    case Concat(_, _) => ConcatAgrees(t, r, k, back, s);
    case Alternative(_, _) => AlternativeAgrees(t, r, k, back, s);
    case Capture(_) => CaptureAgrees(t, r, k, back, s);
    case Look(_, _, _) => LookAgrees(t, r, k, back, s);
    case Quantified(_, _, _, _) => QuantAgrees(t, r, k, back, s);
    case _ => LeafAgrees(t, r, k, back, s);
  }

  lemma LeafAgrees(t: Text, r: Pattern, k: nat, back: bool, s: State)
    requires s.pos <= |t.units| && (r.Empty? || r.Assert? || OneChar(r))
    ensures Agree(k, s, Ends(t, r, k, back, s), EndPositions(t, r, back, s.pos))
  {
    hide Holds, CharEnd, Distinct;
    var es, ps := Ends(t, r, k, back, s), EndPositions(t, r, back, s.pos);
    assert Positions(es) == ps;
  }

  ghost function ChainedPositions(t: Text, p: Pattern, q: Pattern, back: bool, i: nat): seq<nat>
    requires i <= |t.units|
  {
    Flatten(EachPositions(t, q, back, EndPositions(t, p, back, i), i))
  }

  lemma ConcatPositions(t: Text, a: Pattern, b: Pattern, back: bool, i: nat)
    requires i <= |t.units|
    ensures EndPositions(t, Concat(a, b), back, i) ==
      if back then ChainedPositions(t, b, a, back, i) else ChainedPositions(t, a, b, back, i)
  {
    hide EachPositions, Flatten, RepeatPositions, CharEnd, Holds, AllAhead;
  }

  lemma {:induction false} EachPositionsAt(t: Text, r: Pattern, back: bool, es: seq<nat>, i: nat)
    requires i <= |t.units| && AllAhead(t, back, i, es)
    ensures forall j :: 0 <= j < |es| ==> EachPositions(t, r, back, es, i)[j] == EndPositions(t, r, back, es[j])
    decreases |es|
  {
    if es != [] {
      EachPositionsAt(t, r, back, es[1..], i);
      var fs := EachPositions(t, r, back, es, i);
      forall j | 0 <= j < |es| ensures fs[j] == EndPositions(t, r, back, es[j]) {
        if j > 0 {
          assert es[1..][j - 1] == es[j];
          assert fs[j] == EachPositions(t, r, back, es[1..], i)[j - 1];
        }
      }
    }
  }

  lemma {:induction false} EachRepeatPositionsAt(t: Text, r: Pattern, back: bool, min: nat, max: nat, greedy: bool,
                                                 es: seq<nat>, i: nat, strict: bool, check: bool)
    requires i <= |t.units| && AllAhead(t, back, i, es)
    ensures forall j :: 0 <= j < |es| ==>
      EachRepeatPositions(t, r, back, min, max, greedy, es, i, strict, check)[j] ==
      if check && es[j] == i then [] else RepeatPositions(t, r, back, min, max, greedy, es[j], strict)
    decreases |es|
  {
    hide RepeatPositions;
    if es != [] {
      EachRepeatPositionsAt(t, r, back, min, max, greedy, es[1..], i, strict, check);
      var fs := EachRepeatPositions(t, r, back, min, max, greedy, es, i, strict, check);
      forall j | 0 <= j < |es|
        ensures fs[j] == if check && es[j] ==
          i then [] else RepeatPositions(t, r, back, min, max, greedy, es[j], strict)
      {
        if j > 0 {
          assert es[1..][j - 1] == es[j];
          assert fs[j] == EachRepeatPositions(t, r, back, min, max, greedy, es[1..], i, strict, check)[j - 1];
        }
      }
    }
  }

  lemma {:induction false} ConcatAgrees(t: Text, r: Pattern, k: nat, back: bool, s: State)
    requires s.pos <= |t.units| && Boundary(t, s.pos) && r.Concat? && LazyFits(t, r, back)
    ensures Agree(k, s, Ends(t, r, k, back, s), EndPositions(t, r, back, s.pos))
    decreases r, 4, 0, 0
  {
    hide Ends, EndPositions, Agree, Chained, ChainedPositions, Groups;
    ConcatPositions(t, r.left, r.right, back, s.pos);
    if back {
      ChainAgrees(t, r, r.right, k + Groups(r.left), r.left, k, k, back, s);
      ConcatBackward(t, r.left, r.right, k, s);
    } else {
      ChainAgrees(t, r, r.left, k, r.right, k + Groups(r.left), k, back, s);
      ConcatForward(t, r.left, r.right, k, s);
    }
  }

  lemma {:induction false} ChainAgrees(t: Text, r: Pattern, p: Pattern, kp: nat, q: Pattern, kq: nat, k: nat,
      back: bool, s: State)
    requires s.pos <= |t.units| && Boundary(t, s.pos) && (r == Concat(p, q) || r == Concat(q, p)) && k <= kp && k <= kq
    requires LazyFits(t, r, back)
    ensures Agree(k, s, Chained(t, p, kp, q, kq, back, s), ChainedPositions(t, p, q, back, s.pos))
    decreases r, 3, 0, 0
  {
    hide Ends, EndPositions, EachEnds, EachPositions, Flatten;
    Agrees(t, p, kp, back, s);
    var es, ps := Ends(t, p, kp, back, s), EndPositions(t, p, back, s.pos);
    var fs, gs := EachEnds(t, q, kq, back, es, s), EachPositions(t, q, back, ps, s.pos);
    EachEndsAt(t, q, kq, back, es, s);
    EachPositionsAt(t, q, back, ps, s.pos);
    var h: Onward := (p: nat) => if p <= |t.units| then EndPositions(t, q, back, p) else [];
    forall j | 0 <= j < |fs| ensures Agree(k, s, fs[j], h(es[j].pos)) {
      Agrees(t, q, kq, back, es[j]);
      AgreeVia(k, kq, s, es[j], fs[j], h(es[j].pos));
    }
    KeepsSelf(k, s);
    AgreeVia(k, kp, s, s, es, ps);
    AgreeOnward(k, s, es, fs, ps, gs, h);
  }

  lemma {:induction false} AlternativeAgrees(t: Text, r: Pattern, k: nat, back: bool, s: State)
    requires s.pos <= |t.units| && Boundary(t, s.pos) && r.Alternative? && LazyFits(t, r, back)
    ensures Agree(k, s, Ends(t, r, k, back, s), EndPositions(t, r, back, s.pos))
    decreases r, 4, 0, 0
  {
    hide Ends, Agree, Groups, KeepsBelow;
    var k' := k + Groups(r.left);
    Agrees(t, r.left, k, back, s);
    Agrees(t, r.right, k', back, s);
    KeepsSelf(k, s);
    AgreeVia(k, k', s, s, Ends(t, r.right, k', back, s), EndPositions(t, r.right, back, s.pos));
    AlternativeEnds(t, r.left, r.right, k, back, s);
    AgreeAppend(k, s, Ends(t, r.left, k, back, s), EndPositions(t, r.left, back, s.pos),
                Ends(t, r.right, k', back, s), EndPositions(t, r.right, back, s.pos));
  }

  lemma KeepsSelf(k: nat, s: State)
    ensures KeepsBelow(k, s, s)
  {}

  lemma {:induction false} CaptureAgrees(t: Text, r: Pattern, k: nat, back: bool, s: State)
    requires s.pos <= |t.units| && Boundary(t, s.pos) && r.Capture? && LazyFits(t, r, back)
    ensures Agree(k, s, Ends(t, r, k, back, s), EndPositions(t, r, back, s.pos))
    decreases r, 4, 0, 0
  {
    hide Ends, Distinct;
    var s' := State(s.pos, Saved(s.caps, k, back, s.pos));
    Agrees(t, r.body, k + 1, back, s');
    CaptureEnds(t, r.body, k, back, s);
    assert KeepsBelow(k, s, s');
    assert Positions(Ends(t, r, k, back, s)) == Positions(Ends(t, r.body, k + 1, back, s'));
    assert EndPositions(t, r, back, s.pos) == EndPositions(t, r.body, back, s.pos);
  }

  lemma {:induction false} LookAgrees(t: Text, r: Pattern, k: nat, back: bool, s: State)
    requires s.pos <= |t.units| && Boundary(t, s.pos) && r.Look? && LazyFits(t, r, back)
    ensures Agree(k, s, Ends(t, r, k, back, s), EndPositions(t, r, back, s.pos))
    decreases r, 4, 0, 0
  {
    hide Ends, Distinct;
    var es, ps := Ends(t, r.body, k, r.behind, s), EndPositions(t, r.body, r.behind, s.pos);
    Agrees(t, r.body, k, r.behind, s);
    LookEnds(t, r.negative, r.behind, r.body, k, back, s);
    AlikeFirst(Positions(es), ps);
    assert Positions(Ends(t, r, k, back, s)) == EndPositions(t, r, back, s.pos);
  }

  lemma {:induction false} FlattenNothing<T>(fs: seq<seq<T>>)
    requires forall j :: 0 <= j < |fs| ==> fs[j] == []
    ensures Flatten(fs) == []
  {
    if fs != [] { FlattenNothing(fs[1..]); }
  }

  lemma QuantPositions(t: Text, a: Pattern, min: nat, max: nat, greedy: bool, back: bool, i: nat)
    requires i <= |t.units|
    ensures EndPositions(t, Quantified(a, min, max, greedy), back, i) ==
      RepeatPositions(t, a, back, min, max, greedy, i, true)
  {
    hide EachPositions, Flatten, RepeatPositions, CharEnd, Holds, AllAhead;
  }

  lemma {:induction false} QuantAgrees(t: Text, r: Pattern, k: nat, back: bool, s: State)
    requires s.pos <= |t.units| && Boundary(t, s.pos) && r.Quantified? && LazyFits(t, r, back)
    ensures Agree(k, s, Ends(t, r, k, back, s), EndPositions(t, r, back, s.pos))
    decreases r, 4, 0, 0
  {
    hide Ends, EndPositions, Repeat, RepeatPositions, AllKeep, Groups, NeverEmpty, Distinct;
    var s' := Entered(s, k, Groups(r.body), r.min);
    QuantEnds(t, r.body, r.min, r.max, r.greedy, k, back, s);
    QuantPositions(t, r.body, r.min, r.max, r.greedy, back, s.pos);
    RepeatAgrees(t, r.body, k, back, r.min, r.max, r.greedy, s');
    assert KeepsBelow(k, s, s');
    AgreeVia(k, k, s, s', Ends(t, r, k, back, s),
             RepeatPositions(t, r.body, back, r.min, r.max, r.greedy, s.pos, r.greedy));
    if !r.greedy && r.max == INFINITE { StrictAnyway(t, r.body, back, r.min, r.max, r.greedy, s.pos); }
  }

  /** Where no iteration is empty, or the test is there in any case, it changes nothing to ask for it. */
  lemma {:induction false} StrictAnyway(t: Text, r: Pattern, back: bool, min: nat, max: nat, greedy: bool, i: nat)
    requires i <= |t.units| && Boundary(t, i) && (max == INFINITE || NeverEmpty(t, r, back))
    ensures RepeatPositions(t, r, back, min, max, greedy, i, false) ==
      RepeatPositions(t, r, back, min, max, greedy, i, true)
    decreases min, Ahead(t, back, i), max
  {
    hide EndPositions, EachRepeatPositions, RepeatPositions, Flatten;
    if max == 0 {
      RepeatPositionsZero(t, r, back, min, greedy, i, false);
      RepeatPositionsZero(t, r, back, min, greedy, i, true);
    } else {
      var m, es := if min == 0 then 0 else min - 1, EndPositions(t, r, back, i);
      var check, check' := min == 0 && Checked(false, max), min == 0;
      EachRepeatPositionsAt(t, r, back, m, Less(max), greedy, es, i, false, check);
      EachRepeatPositionsAt(t, r, back, m, Less(max), greedy, es, i, true, check');
      forall j | 0 <= j < |es| && !(check' && es[j] == i)
        ensures RepeatPositions(t, r, back, m, Less(max), greedy, es[j], false) ==
          RepeatPositions(t, r, back, m, Less(max), greedy, es[j], true)
      {
        StrictAnyway(t, r, back, m, Less(max), greedy, es[j]);
      }
      assert EachRepeatPositions(t, r, back, m, Less(max), greedy, es, i, false, check)
          == EachRepeatPositions(t, r, back, m, Less(max), greedy, es, i, true, check');
      RepeatPositionsOnce(t, r, back, min, max, greedy, i, false);
      RepeatPositionsOnce(t, r, back, min, max, greedy, i, true);
    }
  }

  lemma RepeatPositionsZero(t: Text, r: Pattern, back: bool, min: nat, greedy: bool, i: nat, strict: bool)
    requires i <= |t.units|
    ensures RepeatPositions(t, r, back, min, 0, greedy, i, strict) == [i]
  {
    hide EndPositions, EachRepeatPositions;
  }

  /** One unfolding. */
  lemma RepeatPositionsOnce(t: Text, r: Pattern, back: bool, min: nat, max: nat, greedy: bool, i: nat, strict: bool)
    requires i <= |t.units| && max > 0
    ensures var m := if min == 0 then 0 else min - 1;
      var more := Flatten(EachRepeatPositions(t, r, back, m, Less(max), greedy, EndPositions(t, r, back, i), i, strict,
        min == 0 && Checked(strict, max)));
      RepeatPositions(t, r, back, min, max, greedy, i, strict) ==
        if min > 0 then more else if greedy then more + [i] else [i] + more
  {
    hide EndPositions, EachRepeatPositions, Flatten, AllAhead;
  }

  lemma {:induction false} RepeatAgrees(t: Text, r: Pattern, k: nat, back: bool, min: nat, max: nat, greedy: bool,
      s: State)
    requires s.pos <= |t.units| && Boundary(t, s.pos) && LazyFits(t, r, back)
    ensures Agree(k, s, Repeat(t, r, k, back, min, max, greedy, s),
                  RepeatPositions(t, r, back, min, max, greedy, s.pos, greedy))
    decreases r, 6, min, Ahead(t, back, s.pos), max
  {
    hide Ends, EndPositions, EachRepeat, EachRepeatPositions, Flatten, Repeat, RepeatPositions, Agree, LazyFits;
    AgreeOne(k, s);
    if max == 0 {
      RepeatZero(t, r, k, back, min, greedy, s);
      RepeatPositionsZero(t, r, back, min, greedy, s.pos, greedy);
    } else {
      var check, m := min == 0 && Checked(greedy, max), if min == 0 then 0 else min - 1;
      Agrees(t, r, k, back, s);
      var es, ps := Ends(t, r, k, back, s), EndPositions(t, r, back, s.pos);
      var fs := EachRepeat(t, r, k, back, m, Less(max), greedy, es, s, check);
      var gs := EachRepeatPositions(t, r, back, m, Less(max), greedy, ps, s.pos, greedy, check);
      EachRepeatAt(t, r, k, back, m, Less(max), greedy, es, s, check);
      EachRepeatPositionsAt(t, r, back, m, Less(max), greedy, ps, s.pos, greedy, check);
      var h: Onward := (p: nat) =>
        if p > |t.units| || (check && p == s.pos) then []
          else RepeatPositions(t, r, back, m, Less(max), greedy, p, greedy);
      forall j | 0 <= j < |fs| ensures Agree(k, s, fs[j], h(es[j].pos)) {
        if !(check && es[j].pos == s.pos) {
          RepeatAgrees(t, r, k, back, m, Less(max), greedy, es[j]);
          AgreeKeeps(k, s, es, ps, j);
          AgreeVia(k, k, s, es[j], fs[j], h(es[j].pos));
        }
      }
      AgreeOnward(k, s, es, fs, ps, gs, h);
      AgreeAppend(k, s, Flatten(fs), Flatten(gs), [s], [s.pos]);
      AgreeAppend(k, s, [s], [s.pos], Flatten(fs), Flatten(gs));
      RepeatPositionsOnce(t, r, back, min, max, greedy, s.pos, greedy);
      if min > 0 { RepeatMust(t, r, k, back, min, max, greedy, s); } else { RepeatMay(t, r, k, back, max, greedy, s); }
    }
  }

  lemma AgreeKeeps(k: nat, s: State, es: seq<State>, ps: seq<nat>, j: nat)
    requires Agree(k, s, es, ps) && j < |es|
    ensures KeepsBelow(k, s, es[j])
  {}

  // ----- when lazy quantifiers fit -----

  /** Only atoms that may be empty make a lazy quantifier run on. */
  lemma NeverEmptyAdvances(t: Text, r: Pattern, back: bool)
    requires LazyFits(t, r, back)
    ensures Advances(t, r, back) <==> NeverEmpty(t, r, back)
  {
    hide Ends, EndPositions, LazyFits, Distinct;
    forall k: nat, s: State | s.pos <= |t.units| && Boundary(t, s.pos)
      ensures NoneAt(Ends(t, r, k, back, s), s.pos) <==> s.pos !in EndPositions(t, r, back, s.pos)
    {
      Agrees(t, r, k, back, s);
      SomeAt(Ends(t, r, k, back, s), EndPositions(t, r, back, s.pos), s.pos);
    }
    forall i: nat | i <= |t.units| && Boundary(t, i) ensures Advances(t, r, back) ==>
      i !in EndPositions(t, r, back, i) {
      assert NoneAt(Ends(t, r, 0, back, State(i, [])), i) <==> i !in EndPositions(t, r, back, State(i, []).pos);
    }
  }

  lemma SomeAt(es: seq<State>, ps: seq<nat>, p: nat)
    requires Distinct(Positions(es)) == Distinct(ps)
    ensures NoneAt(es, p) <==> p !in ps
  {
    hide Distinct;
    AlikeFresh({}, Positions(es), ps);
    assert p in Positions(es) <==> p in Members(Positions(es));
    assert forall j :: 0 <= j < |es| ==> Positions(es)[j] == es[j].pos;
  }

  /** So the code of a pattern whose lazy quantifiers fit comes to an end. */
  lemma {:induction false} FitsStops(t: Text, r: Pattern, back: bool)
    requires WellFormed(r) && LazyFits(t, r, back)
    ensures LazyStops(t, r, back)
    decreases r
  {
    hide NeverEmpty, Advances;
    match r
    case Concat(a, b) => FitsStops(t, a, back); FitsStops(t, b, back);
    case Alternative(a, b) => FitsStops(t, a, back); FitsStops(t, b, back);
    case Capture(a) => FitsStops(t, a, back);
    case Look(_, behind, a) => FitsStops(t, a, behind);
    case Quantified(a, _, max, greedy) =>
      FitsStops(t, a, back);
      if !greedy && max == INFINITE { NeverEmptyAdvances(t, a, back); }
    case _ =>
  }

  /** Atoms that are never empty fit any bounds. */
  lemma NeverEmptyFits(t: Text, r: Pattern, back: bool, min: nat, max: nat)
    requires NeverEmpty(t, r, back)
    ensures InOrder(t, r, back, min, max)
  {
    hide NeverEmpty, RepeatPositions, Distinct;
    forall i: nat | i <= |t.units| && Boundary(t, i)
      ensures Distinct(RepeatPositions(t, r, back, min, max, false, i, false)) ==
        Distinct(RepeatPositions(t, r, back, min, max, false, i, true))
    {
      StrictAnyway(t, r, back, min, max, false, i);
    }
  }

  /** At most one optional iteration fits any atom: an empty one only comes back to where it began. */
  lemma OneOptionalFits(t: Text, r: Pattern, back: bool, min: nat, max: nat)
    requires max < INFINITE && max <= min + 1
    ensures InOrder(t, r, back, min, max)
  {
    hide RepeatPositions, Distinct, Boundary;
    forall i: nat | i <= |t.units| && Boundary(t, i)
      ensures Distinct(RepeatPositions(t, r, back, min, max, false, i, false)) ==
        Distinct(RepeatPositions(t, r, back, min, max, false, i, true))
    {
      OneOptionalAlike(t, r, back, min, max, i);
    }
  }

  lemma {:induction false} OneOptionalAlike(t: Text, r: Pattern, back: bool, min: nat, max: nat, i: nat)
    requires i <= |t.units| && max < INFINITE && max <= min + 1
    ensures Distinct(RepeatPositions(t, r, back, min, max, false, i, false)) ==
      Distinct(RepeatPositions(t, r, back, min, max, false, i, true))
    decreases min
  {
    hide RepeatPositions, EachRepeatPositions, EndPositions, Distinct, Flatten;
    if max == 0 {
      RepeatPositionsZero(t, r, back, min, false, i, false);
      RepeatPositionsZero(t, r, back, min, false, i, true);
    } else if min == 0 {
      OptionAlike(t, r, back, i);
    } else {
      var es := EndPositions(t, r, back, i);
      var fs := EachRepeatPositions(t, r, back, min - 1, max - 1, false, es, i, false, false);
      var gs := EachRepeatPositions(t, r, back, min - 1, max - 1, false, es, i, true, false);
      EachRepeatPositionsAt(t, r, back, min - 1, max - 1, false, es, i, false, false);
      EachRepeatPositionsAt(t, r, back, min - 1, max - 1, false, es, i, true, false);
      RepeatPositionsOnce(t, r, back, min, max, false, i, false);
      RepeatPositionsOnce(t, r, back, min, max, false, i, true);
      var h: Onward := (p: nat) => if p <= |t.units| then RepeatPositions(t, r, back, min - 1, max - 1, false, p,
        true) else [];
      forall j | 0 <= j < |es| ensures Distinct(fs[j]) == Distinct(h(es[j])) {
        OneOptionalAlike(t, r, back, min - 1, max - 1, es[j]);
      }
      AlikeOnward(h, es, fs, es, gs);
    }
  }

  lemma OptionAlike(t: Text, r: Pattern, back: bool, i: nat)
    requires i <= |t.units|
    ensures Distinct(RepeatPositions(t, r, back, 0, 1, false, i, false)) ==
      Distinct(RepeatPositions(t, r, back, 0, 1, false, i, true))
  {
    hide RepeatPositions, EachRepeatPositions, EndPositions, Fresh, Flatten;
    var es := EndPositions(t, r, back, i);
    var fs := EachRepeatPositions(t, r, back, 0, 0, false, es, i, false, false);
    var gs := EachRepeatPositions(t, r, back, 0, 0, false, es, i, true, true);
    EachRepeatPositionsAt(t, r, back, 0, 0, false, es, i, false, false);
    EachRepeatPositionsAt(t, r, back, 0, 0, false, es, i, true, true);
    RepeatPositionsOnce(t, r, back, 0, 1, false, i, false);
    RepeatPositionsOnce(t, r, back, 0, 1, false, i, true);
    forall j | 0 <= j < |es| ensures fs[j] == [es[j]] && gs[j] == if es[j] == i then [] else [es[j]] {
      RepeatPositionsZero(t, r, back, 0, false, es[j], false);
      RepeatPositionsZero(t, r, back, 0, false, es[j], true);
    }
    var here: seq<nat> := [i];
    FreshAppend({}, here, Flatten(fs));
    FreshAppend({}, here, Flatten(gs));
    assert forall j :: 0 <= j < |fs| && gs[j] != fs[j] ==> Members(fs[j]) <= Members(here);
    LeaveOut({} + Members(here), fs, gs);
  }

  // ----- atoms that are empty only as a last resort -----

  /** Where an iteration may be empty, nothing new is tried after that. */
  ghost predicate EmptyLast(t: Text, r: Pattern, back: bool) {
    forall i: nat :: i <= |t.units| && Boundary(t, i) ==> OldAfter(EndPositions(t, r, back, i), i)
  }

  ghost predicate OldAfter(es: seq<nat>, i: nat) {
    forall j, m :: 0 <= j < m < |es| && es[j] == i ==> es[m] in es[..j + 1]
  }

  /** The positions after at most n iterations, without the test. */
  ghost function Unchecked(t: Text, r: Pattern, back: bool, n: nat, i: nat): (es: seq<nat>)
    requires i <= |t.units|
    ensures AllAhead(t, back, i, es)
  {
    RepeatPositions(t, r, back, 0, n, false, i, false)
  }

  /** One more iteration: the place itself, and what each end leads to. */
  lemma UncheckedHas(t: Text, r: Pattern, back: bool, n: nat, i: nat, x: nat)
    requires i <= |t.units| && 0 < n < INFINITE
    ensures x in Unchecked(t, r, back, n, i) <==>
      || x == i
      || (var es := EndPositions(t, r, back, i);
          exists j :: 0 <= j < |es| && x in Unchecked(t, r, back, n - 1, es[j]))
  {
    hide RepeatPositions, EachRepeatPositions, EndPositions, Flatten;
    var es := EndPositions(t, r, back, i);
    var fs := EachRepeatPositions(t, r, back, 0, n - 1, false, es, i, false, false);
    RepeatPositionsOnce(t, r, back, 0, n, false, i, false);
    EachRepeatPositionsAt(t, r, back, 0, n - 1, false, es, i, false, false);
    FlattenHas(fs, x);
    if j :| 0 <= j < |es| && x in Unchecked(t, r, back, n - 1, es[j]) { assert x in fs[j]; }
  }

  lemma UncheckedNone(t: Text, r: Pattern, back: bool, i: nat)
    requires i <= |t.units|
    ensures Unchecked(t, r, back, 0, i) == [i]
  {
    hide EndPositions, EachRepeatPositions;
  }

  lemma {:induction false} UncheckedGrows(t: Text, r: Pattern, back: bool, n: nat, i: nat, x: nat)
    requires i <= |t.units| && n + 1 < INFINITE && x in Unchecked(t, r, back, n, i)
    ensures x in Unchecked(t, r, back, n + 1, i)
    decreases n
  {
    hide EndPositions, Unchecked;
    UncheckedHas(t, r, back, n + 1, i, x);
    if n == 0 {
      UncheckedNone(t, r, back, i);
    } else {
      UncheckedHas(t, r, back, n, i, x);
      if x != i {
        var es := EndPositions(t, r, back, i);
        var j :| 0 <= j < |es| && x in Unchecked(t, r, back, n - 1, es[j]);
        UncheckedGrows(t, r, back, n - 1, es[j], x);
      }
    }
  }

  /** An empty first iteration leads nowhere that the other first iterations do not lead to. */
  lemma {:induction false} EmptyAddsNothing(t: Text, r: Pattern, back: bool, n: nat, i: nat, x: nat) returns (j: nat)
    requires i <= |t.units| && n < INFINITE && x in Unchecked(t, r, back, n, i) && x != i
    ensures var es := EndPositions(t, r, back, i); j < |es| && es[j] != i && x in Unchecked(t, r, back, n, es[j])
    decreases n
  {
    hide EndPositions, Unchecked;
    if n == 0 {
      UncheckedNone(t, r, back, i);
    } else {
      var es := EndPositions(t, r, back, i);
      UncheckedHas(t, r, back, n, i, x);
      j :| 0 <= j < |es| && x in Unchecked(t, r, back, n - 1, es[j]);
      if es[j] == i { j := EmptyAddsNothing(t, r, back, n - 1, i, x); }
      UncheckedGrows(t, r, back, n - 1, es[j], x);
    }
  }

  /** Such atoms fit any bounds. */
  lemma EmptyLastFits(t: Text, r: Pattern, back: bool, min: nat, max: nat)
    requires EmptyLast(t, r, back) && max < INFINITE
    ensures InOrder(t, r, back, min, max)
  {
    hide RepeatPositions, Distinct, Boundary, EmptyLast;
    forall i: nat | i <= |t.units| && Boundary(t, i)
      ensures Distinct(RepeatPositions(t, r, back, min, max, false, i, false))
           == Distinct(RepeatPositions(t, r, back, min, max, false, i, true))
    {
      EmptyLastAlike(t, r, back, min, max, i);
    }
  }

  lemma {:induction false} EmptyLastAlike(t: Text, r: Pattern, back: bool, min: nat, max: nat, i: nat)
    requires i <= |t.units| && Boundary(t, i) && EmptyLast(t, r, back) && max < INFINITE
    ensures Distinct(RepeatPositions(t, r, back, min, max, false, i, false))
         == Distinct(RepeatPositions(t, r, back, min, max, false, i, true))
    decreases min, max
  {
    hide RepeatPositions, EachRepeatPositions, EndPositions, Distinct, Flatten, EmptyLast;
    if max == 0 {
      RepeatPositionsZero(t, r, back, min, false, i, false);
      RepeatPositionsZero(t, r, back, min, false, i, true);
    } else {
      var m, es := if min == 0 then 0 else min - 1, EndPositions(t, r, back, i);
      var fs := EachRepeatPositions(t, r, back, m, max - 1, false, es, i, false, false);
      var gs := EachRepeatPositions(t, r, back, m, max - 1, false, es, i, true, min == 0);
      EachRepeatPositionsAt(t, r, back, m, max - 1, false, es, i, false, false);
      EachRepeatPositionsAt(t, r, back, m, max - 1, false, es, i, true, min == 0);
      RepeatPositionsOnce(t, r, back, min, max, false, i, false);
      RepeatPositionsOnce(t, r, back, min, max, false, i, true);
      forall j | 0 <= j < |es|
        ensures Distinct(fs[j]) == Distinct(RepeatPositions(t, r, back, m, max - 1, false, es[j], true))
      {
        EmptyLastAlike(t, r, back, m, max - 1, es[j]);
      }
      if min > 0 {
        AlikeEach(fs, gs);
      } else {
        var hs := seq(|es|, j requires 0 <= j < |es| => if es[j] == i then [] else fs[j]);
        AlikeEach(hs, gs);
        AlikeAppend([i], Flatten(hs), [i], Flatten(gs));
        LeaveEmptyOut(t, r, back, max - 1, i, fs, hs);
      }
    }
  }

  lemma LeaveEmptyOut(t: Text, r: Pattern, back: bool, n: nat, i: nat, fs: seq<seq<nat>>, hs: seq<seq<nat>>)
    requires i <= |t.units| && Boundary(t, i) && EmptyLast(t, r, back) && n < INFINITE
    requires |fs| == |hs| == |EndPositions(t, r, back, i)|
    requires forall j :: 0 <= j < |fs| ==>
      var e := EndPositions(t, r, back, i)[j];
      fs[j] == RepeatPositions(t, r, back, 0, n, false, e, false) && hs[j] == if e == i then [] else fs[j]
    ensures Distinct([i] + Flatten(fs)) == Distinct([i] + Flatten(hs))
  {
    hide RepeatPositions, EndPositions, Fresh, Flatten;
    var es, here: seq<nat> := EndPositions(t, r, back, i), [i];
    assert OldAfter(es, i);
    forall j | 0 <= j < |fs| && hs[j] != fs[j]
      ensures hs[j] == [] && Members(fs[j]) <= Members(here) + Members(Flatten(fs[..j]))
    {
      forall x | x in fs[j] && x != i ensures x in Flatten(fs[..j]) {
        var k := EmptyAddsNothing(t, r, back, n, i, x);
        var k' := if k < j then k else OldIndex(es, i, j, k);
        assert fs[..j][k'] == fs[k'];
        FlattenHas(fs[..j], x);
      }
    }
    FreshAppend({}, here, Flatten(fs));
    FreshAppend({}, here, Flatten(hs));
    assert {} + Members(here) == Members(here);
    LeaveOut(Members(here), fs, hs);
  }

  ghost function OldIndex(es: seq<nat>, i: nat, j: nat, k: nat): (k': nat)
    requires OldAfter(es, i) && j <= k < |es| && es[j] == i && es[k] != i
    ensures k' < j && es[k'] == es[k]
  {
    assert es[k] in es[..j + 1];
    var m :| 0 <= m < |es[..j + 1]| && es[..j + 1][m] == es[k];
    m
  }

  /** The condition as it can be read off a pattern: at most one optional iteration, or an atom that always consumes. */
  predicate LazyConsumes(r: Pattern) {
    match r
    case Concat(a, b) => LazyConsumes(a) && LazyConsumes(b)
    case Alternative(a, b) => LazyConsumes(a) && LazyConsumes(b)
    case Capture(a) => LazyConsumes(a)
    case Look(_, _, a) => LazyConsumes(a)
    case Quantified(a, min, max, greedy) => (greedy || (max < INFINITE && max <= min + 1) || Consumes(a)) &&
      LazyConsumes(a)
    case _ => true
  }

  lemma {:induction false} ConsumingFits(t: Text, r: Pattern, back: bool)
    requires WellFormed(r) && LazyConsumes(r)
    ensures LazyFits(t, r, back)
    decreases r
  {
    hide InOrder, NeverEmpty, Advances, Consumes;
    match r
    case Concat(a, b) => ConsumingFits(t, a, back); ConsumingFits(t, b, back);
    case Alternative(a, b) => ConsumingFits(t, a, back); ConsumingFits(t, b, back);
    case Capture(a) => ConsumingFits(t, a, back);
    case Look(_, behind, a) => ConsumingFits(t, a, behind);
    case Quantified(a, min, max, greedy) =>
      ConsumingFits(t, a, back);
      if !greedy {
        if max < INFINITE && max <= min + 1 {
          OneOptionalFits(t, a, back, min, max);
        } else {
          ConsumingAdvances(t, a, back);
          NeverEmptyAdvances(t, a, back);
          NeverEmptyFits(t, a, back, min, max);
        }
      }
    case _ =>
  }
}
