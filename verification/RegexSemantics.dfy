/**
The ordered list of all states in which a pattern can end, most preferred first,
as the emitted code tries them. It follows section 22.2.2 of ECMA-262 but for one
thing: the code tests only greedy iterations for being empty (an unbounded lazy
quantifier has no finite list without the test, so it has it here).

`EndPositions` in RegexPositions is the meaning that the engine is judged by: end
positions alone, with the test everywhere.
*/
module RegexSemantics {
  import opened RegexText
  import opened CharSet
  import opened RegexSyntax

  datatype Option<+T> = None | Some(value: T)

  type Captures = seq<Option<nat>>

  datatype State = State(pos: nat, caps: Captures)

  function Flatten<T>(ss: seq<seq<T>>): seq<T> {
    if ss == [] then [] else ss[0] + Flatten(ss[1..])
  }

  predicate OneChar(r: Pattern) {
    r.Literal? || r.Dot? || r.AnyChar? || r.Class?
  }

  ghost predicate Accepts(r: Pattern, c: nat)
    requires OneChar(r)
  {
    match r
    case Literal(d) => c == d
    case Dot => !LineTerminator(c)
    case AnyChar => true
    case Class(pts) => Contains(pts, c)
  }

  /** The end of one character read forward or backward. */
  ghost function CharEnd(t: Text, r: Pattern, back: bool, i: nat): (e: Option<nat>)
    requires OneChar(r) && i <= |t.units|
    ensures e.Some? ==> InDirection(t, back, i, e.value) && e.value != i
    ensures e.Some? && Boundary(t, i) ==> Boundary(t, e.value)
  {
    BoundaryKept(t, i);
    if back then
      if 0 < i && Accepts(r, CharBefore(t, i)) then Some(Prev(t, i)) else None
    else
      if i < |t.units| && Accepts(r, CharAt(t, i)) then Some(Next(t, i)) else None
  }

  /** j lies at or beyond i in the direction of reading. */
  predicate InDirection(t: Text, back: bool, i: nat, j: nat) {
    if back then j <= i else i <= j <= |t.units|
  }

  /** How much text lies ahead of i in the direction of reading. */
  function Ahead(t: Text, back: bool, i: nat): nat
    requires i <= |t.units|
  {
    if back then i else |t.units| - i
  }

  function Less(max: nat): nat {
    if max == INFINITE || max == 0 then max else max - 1
  }

  function Saved(caps: Captures, group: nat, end: bool, i: nat): (c: Captures)
    ensures |c| == |caps|
  {
    var slot := 2 * group + (if end then 1 else 0);
    if slot < |caps| then caps[slot := Some(i)] else caps
  }

  function Cleared(caps: Captures, first: nat, last: nat): (c: Captures)
    ensures |c| == |caps|
  {
    seq(|caps|, i requires 0 <= i < |caps| => if 2 * first <= i <= 2 * last + 1 then None else caps[i])
  }

  /** Every end lies ahead of s, keeps the number of captures and does not enter a surrogate pair. */
  ghost predicate AllInDirection(t: Text, back: bool, s: State, es: seq<State>) {
    forall i :: 0 <= i < |es| ==>
      && InDirection(t, back, s.pos, es[i].pos)
      && |es[i].caps| == |s.caps|
      && (Boundary(t, s.pos) ==> Boundary(t, es[i].pos))
  }

  /** Entry of a quantifier that may run zero times: its groups are cleared. */
  ghost function Entered(s: State, k: nat, n: nat, min: nat): State {
    if min == 0 && n > 0 then State(s.pos, Cleared(s.caps, k, k + n - 1)) else s
  }

  /** All end states of r from s, in order of preference; k numbers its first group. */
  ghost function Ends(t: Text, r: Pattern, k: nat, back: bool, s: State): (es: seq<State>)
    requires s.pos <= |t.units|
    ensures AllInDirection(t, back, s, es)
    decreases r, 0, 0, 0, 0, 0
  {
    match r
    case Empty => [s]
    case Assert(a) => if Holds(t, a, s.pos) then [s] else []
    case Concat(a, b) =>
      var (p, kp) := if back then (b, k + Groups(a)) else (a, k);
      var (q, kq) := if back then (a, k) else (b, k + Groups(a));
      Flatten(EachEnds(t, q, kq, back, Ends(t, p, kp, back, s), s))
    case Alternative(a, b) => Ends(t, a, k, back, s) + Ends(t, b, k + Groups(a), back, s)
    case Capture(a) =>
      Closed(t, Ends(t, a, k + 1, back, State(s.pos, Saved(s.caps, k, back, s.pos))), k, back, s)
    case Look(negative, behind, a) =>
      var es := Ends(t, a, k, behind, s);
      if negative then if es == [] then [s] else []
      else if es == [] then [] else [State(s.pos, es[0].caps)]
    case Quantified(a, min, max, greedy) =>
      Repeat(t, a, k, back, min, max, greedy, Entered(s, k, Groups(a), min))
    case _ =>
      var e := CharEnd(t, r, back, s.pos);
      if e.Some? then [State(e.value, s.caps)] else []
  }

  /** The ends of r from each of the given states. */
  ghost function EachEnds(t: Text, r: Pattern, k: nat, back: bool, es: seq<State>, s: State): (fs: seq<seq<State>>)
    requires s.pos <= |t.units|
    requires AllInDirection(t, back, s, es)
    ensures |fs| == |es|
    ensures AllInDirection(t, back, s, Flatten(fs))
    decreases r, 0, 0, 0, 0, 1 + |es|
  {
    if es == [] then []
    else [Ends(t, r, k, back, es[0])] + EachEnds(t, r, k, back, es[1..], s)
  }

  /** Records the position at which group k is left. */
  ghost function Closed(t: Text, es: seq<State>, k: nat, back: bool, s: State): (fs: seq<State>)
    requires AllInDirection(t, back, s, es)
    ensures |fs| == |es| && AllInDirection(t, back, s, fs)
    ensures forall i :: 0 <= i < |es| ==> fs[i] == State(es[i].pos, Saved(es[i].caps, k, !back, es[i].pos))
  {
    if es == [] then []
    else [State(es[0].pos, Saved(es[0].caps, k, !back, es[0].pos))] + Closed(t, es[1..], k, back, s)
  }

  /** Whether an optional iteration must advance. */
  predicate Checked(greedy: bool, max: nat) {
    greedy || max == INFINITE
  }

  /** At least min and at most max times r. */
  ghost function Repeat(t: Text, r: Pattern, k: nat, back: bool, min: nat, max: nat, greedy: bool,
      s: State): (es: seq<State>)
    requires s.pos <= |t.units|
    ensures AllInDirection(t, back, s, es)
    decreases r, 1, min, Ahead(t, back, s.pos), max, 0
  {
    if max == 0 then [s]
    else if min > 0 then
      Flatten(EachRepeat(t, r, k, back, min - 1, Less(max), greedy, Ends(t, r, k, back, s), s, false))
    else
      var more := Flatten(EachRepeat(t, r, k, back, 0, Less(max), greedy, Ends(t, r, k, back, s), s,
        Checked(greedy, max)));
      if greedy then more + [s] else [s] + more
  }

  /** The rest of the repetition after each end of one iteration begun in s. */
  ghost function EachRepeat(t: Text, r: Pattern, k: nat, back: bool, min: nat, max: nat, greedy: bool,
                            es: seq<State>, s: State, check: bool): (fs: seq<seq<State>>)
    requires s.pos <= |t.units|
    requires AllInDirection(t, back, s, es)
    ensures |fs| == |es|
    ensures AllInDirection(t, back, s, Flatten(fs))
    decreases r, 1, min, Ahead(t, back, s.pos) - (if check then 1 else 0), max, 1 + |es|
  {
    if es == [] then []
    else
      [if check && es[0].pos == s.pos then [] else Repeat(t, r, k, back, min, max, greedy, es[0])]
      + EachRepeat(t, r, k, back, min, max, greedy, es[1..], s, check)
  }

  /** The ends of p followed by q, where p is the part that is read first. */
  ghost function Chained(t: Text, p: Pattern, kp: nat, q: Pattern, kq: nat, back: bool, s: State): seq<State>
    requires s.pos <= |t.units|
  {
    Flatten(EachEnds(t, q, kq, back, Ends(t, p, kp, back, s), s))
  }

  // One unfolding of the definitions for each form of pattern.

  lemma ConcatForward(t: Text, a: Pattern, b: Pattern, k: nat, s: State)
    requires s.pos <= |t.units|
    ensures Ends(t, Concat(a, b), k, false, s) == Chained(t, a, k, b, k + Groups(a), false, s)
  {
    hide EachEnds, Flatten, Groups, CharEnd, Closed, Repeat, Holds, AllInDirection;
  }

  lemma ConcatBackward(t: Text, a: Pattern, b: Pattern, k: nat, s: State)
    requires s.pos <= |t.units|
    ensures Ends(t, Concat(a, b), k, true, s) == Chained(t, b, k + Groups(a), a, k, true, s)
  {
    hide EachEnds, Flatten, Groups, CharEnd, Closed, Repeat, Holds, AllInDirection;
  }

  lemma AlternativeEnds(t: Text, a: Pattern, b: Pattern, k: nat, back: bool, s: State)
    requires s.pos <= |t.units|
    ensures Ends(t, Alternative(a, b), k, back, s) ==
            Ends(t, a, k, back, s) + Ends(t, b, k + Groups(a), back, s)
  {
    hide EachEnds, Flatten, Groups, CharEnd, Closed, Repeat, Holds, AllInDirection;
  }

  lemma CaptureEnds(t: Text, a: Pattern, k: nat, back: bool, s: State)
    requires s.pos <= |t.units|
    ensures var es := Ends(t, a, k + 1, back, State(s.pos, Saved(s.caps, k, back, s.pos)));
            AllInDirection(t, back, s, es) && Ends(t, Capture(a), k, back, s) == Closed(t, es, k, back, s)
  {
    hide EachEnds, Flatten, Groups, CharEnd, Closed, Repeat, Holds;
  }

  lemma QuantEnds(t: Text, a: Pattern, min: nat, max: nat, greedy: bool, k: nat, back: bool, s: State)
    requires s.pos <= |t.units|
    ensures Ends(t, Quantified(a, min, max, greedy), k, back, s) ==
            Repeat(t, a, k, back, min, max, greedy, Entered(s, k, Groups(a), min))
  {
    hide EachEnds, Flatten, Groups, CharEnd, Closed, Repeat, Holds, AllInDirection;
  }

  /** A mandatory iteration. */
  lemma RepeatMust(t: Text, r: Pattern, k: nat, back: bool, min: nat, max: nat, greedy: bool, s: State)
    requires s.pos <= |t.units| && 0 < min && 0 < max
    ensures Repeat(t, r, k, back, min, max, greedy, s) ==
            Flatten(EachRepeat(t, r, k, back, min - 1, Less(max), greedy, Ends(t, r, k, back, s), s, false))
  {
    hide Ends, EachRepeat, Flatten, AllInDirection;
  }

  /** The further ends after an optional iteration. */
  ghost function More(t: Text, r: Pattern, k: nat, back: bool, max: nat, greedy: bool, s: State): seq<State>
    requires s.pos <= |t.units|
  {
    Flatten(EachRepeat(t, r, k, back, 0, Less(max), greedy, Ends(t, r, k, back, s), s, Checked(greedy, max)))
  }

  lemma RepeatMay(t: Text, r: Pattern, k: nat, back: bool, max: nat, greedy: bool, s: State)
    requires s.pos <= |t.units| && 0 < max
    ensures Repeat(t, r, k, back, 0, max, greedy, s) ==
            if greedy then More(t, r, k, back, max, greedy, s) + [s] else [s] + More(t, r, k, back, max, greedy, s)
  {
    hide Ends, EachRepeat, Flatten, AllInDirection;
  }

  lemma {:induction false} EachEndsAt(t: Text, r: Pattern, k: nat, back: bool, es: seq<State>, s: State)
    requires s.pos <= |t.units|
    requires AllInDirection(t, back, s, es)
    ensures forall i :: 0 <= i < |es| ==> EachEnds(t, r, k, back, es, s)[i] == Ends(t, r, k, back, es[i])
    decreases |es|
  {
    if es != [] {
      EachEndsAt(t, r, k, back, es[1..], s);
      forall i | 0 <= i < |es| ensures EachEnds(t, r, k, back, es, s)[i] == Ends(t, r, k, back, es[i]) {
        if i > 0 {
          assert es[1..][i - 1] == es[i];
          assert EachEnds(t, r, k, back, es, s)[i] == EachEnds(t, r, k, back, es[1..], s)[i - 1];
        }
      }
    }
  }

  lemma {:induction false} EachRepeatAt(t: Text, r: Pattern, k: nat, back: bool, min: nat, max: nat, greedy: bool,
                                        es: seq<State>, s: State, check: bool)
    requires s.pos <= |t.units|
    requires AllInDirection(t, back, s, es)
    ensures forall i :: 0 <= i < |es| ==>
      EachRepeat(t, r, k, back, min, max, greedy, es, s, check)[i] ==
      if check && es[i].pos == s.pos then [] else Repeat(t, r, k, back, min, max, greedy, es[i])
    decreases |es|
  {
    if es != [] {
      EachRepeatAt(t, r, k, back, min, max, greedy, es[1..], s, check);
      var fs := EachRepeat(t, r, k, back, min, max, greedy, es, s, check);
      forall i | 0 <= i < |es|
        ensures fs[i] == if check && es[i].pos == s.pos then [] else Repeat(t, r, k, back, min, max, greedy, es[i])
      {
        if i > 0 {
          assert es[1..][i - 1] == es[i];
          assert fs[i] == EachRepeat(t, r, k, back, min, max, greedy, es[1..], s, check)[i - 1];
        }
      }
    }
  }
}
