/**
How the two scans over emitted code go through its parts, and what the first of
them promises: code that re_need_check_advance clears comes only from patterns
that always consume.
*/
module RegexAtoms {
  import opened RegexText
  import opened CharSet
  import opened RegexSyntax
  import opened RegexSemantics

  // ----- splitting code into its parts -----

  ghost predicate Placed(code: Bytecode, a: nat, s: Bytecode) {
    a + |s| <= |code| && code[a..a + |s|] == s
  }

  lemma PlacedParts(code: Bytecode, a: nat, x: Bytecode, y: Bytecode)
    requires Placed(code, a, x + y)
    ensures Placed(code, a, x) && Placed(code, a + |x|, y)
  {
    assert (x + y)[..|x|] == x && (x + y)[|x|..] == y;
    assert code[a..a + |x|] == code[a..a + |x + y|][..|x|];
    assert code[a + |x|..a + |x| + |y|] == code[a..a + |x + y|][|x|..];
  }

  lemma PlacedInstr(code: Bytecode, a: nat, i: Instr)
    requires Placed(code, a, Emit(i))
    ensures a + Size(i) <= |code| && code[a] == Op(i)
  {
    assert code[a] == code[a..a + |Emit(i)|][0];
  }

  lemma SimpleParts(x: Bytecode, y: Bytecode)
    requires AllSimple(x + y)
    ensures AllSimple(x) && AllSimple(y)
  {
    forall p | 0 <= p < |x| ensures x[p].Op? ==> Simple(x[p].ins) { assert (x + y)[p] == x[p]; }
    forall p | 0 <= p < |y| ensures y[p].Op? ==> Simple(y[p].ins) { assert (x + y)[|x| + p] == y[p]; }
  }

  lemma StraightParts(x: Bytecode, y: Bytecode)
    requires AllStraight(x + y)
    ensures AllStraight(x) && AllStraight(y)
    ensures HasConsuming(x + y) ==> HasConsuming(x) || HasConsuming(y)
  {
    forall p | 0 <= p < |x| ensures x[p].Op? ==> Straight(x[p].ins) { assert (x + y)[p] == x[p]; }
    forall p | 0 <= p < |y| ensures y[p].Op? ==> Straight(y[p].ins) { assert (x + y)[|x| + p] == y[p]; }
  }

  lemma {:induction false} CharCountParts(x: Bytecode, y: Bytecode)
    ensures CharCount(x + y) == CharCount(x) + CharCount(y)
    decreases |y|
  {
    if y == [] {
      assert x + y == x;
    } else {
      assert (x + y)[..|x + y| - 1] == x + y[..|y| - 1];
      CharCountParts(x, y[..|y| - 1]);
    }
  }

  lemma {:induction false} CharCountArgs(n: nat)
    ensures CharCount(seq(n, _ => Arg)) == 0
    decreases n
  {
    if n > 0 {
      var s: Bytecode := seq(n, _ => Arg);
      assert s[..n - 1] == seq(n - 1, _ => Arg);
      CharCountArgs(n - 1);
    }
  }

  lemma CharCountInstr(i: Instr)
    ensures CharCount(Emit(i)) == if Consuming(i) then 1 else 0
  {
    var s: Bytecode := seq(Size(i) - 1, _ => Arg);
    CharCountParts([Op(i)], s);
    CharCountArgs(Size(i) - 1);
    assert [Op(i)][..0] == [];
    assert CharCount([Op(i)]) == if Consuming(i) then 1 else 0;
  }

  /** A jumping instruction at p: the code is neither straight nor simple. */
  lemma NotStraight(s: Bytecode, p: nat)
    requires p < |s| && s[p].Op? && !Straight(s[p].ins)
    ensures !AllStraight(s) && !AllSimple(s)
  {}

  /** Only two kinds of quantifier leave straight code behind: {0} and {1}. */
  lemma QuantStraight(atom: Bytecode, k: nat, n: nat, min: nat, max: nat, greedy: bool)
    requires min <= max <= INFINITE
    requires AllStraight(QuantCode(atom, k, n, min, max, greedy))
    ensures max == 0 || (min == 1 && max == 1)
    ensures max == 0 ==> QuantCode(atom, k, n, min, max, greedy) == ResetCode(k, n)
    ensures max != 0 ==> QuantCode(atom, k, n, min, max, greedy) == atom && !(greedy && SimpleAtom(atom))
  {
    var c := QuantCode(atom, k, n, min, max, greedy);
    var body := Guarded(atom, greedy && MayStay(atom));
    if greedy && max > 0 && SimpleAtom(atom) {
      NotStraight(c, 0);
    } else if min == 0 && max > 0 {
      StraightParts(ResetCode(k, n), OptionalCode(body, 0, max, greedy));
      OptionalNotStraight(body, 0, max, greedy);
    } else if min == 1 && max == INFINITE && !(greedy && MayStay(atom)) {
      NotStraight(c, |atom|);
    } else if min > 0 {
      StraightParts(TimesCode(atom, min), OptionalCode(body, min, max, greedy));
      if max > min { OptionalNotStraight(body, min, max, greedy); }
      if min > 1 { NotStraight(TimesCode(atom, min), 5 + |atom|); }
    }
  }

  lemma OptionalNotStraight(body: Bytecode, min: nat, max: nat, greedy: bool)
    requires min < max <= INFINITE
    ensures !AllStraight(OptionalCode(body, min, max, greedy))
  {
    var c := OptionalCode(body, min, max, greedy);
    NotStraight(c, if c[0].ins.Split? then 0 else 5);
  }

  // ----- patterns that always consume -----

  predicate Consumes(r: Pattern) {
    match r
    case Concat(a, b) => Consumes(a) || Consumes(b)
    case Alternative(a, b) => Consumes(a) && Consumes(b)
    case Capture(a) => Consumes(a)
    case Quantified(a, min, _, _) => min > 0 && Consumes(a)
    case _ => OneChar(r)
  }

  ghost predicate WellFormed(r: Pattern) {
    match r
    case Class(pts) => Canonical(pts) && |pts| / 2 < 65535
    case Concat(a, b) => WellFormed(a) && WellFormed(b)
    case Alternative(a, b) => WellFormed(a) && WellFormed(b)
    case Capture(a) => WellFormed(a)
    case Look(_, _, a) => WellFormed(a)
    case Quantified(a, min, max, _) => min <= max <= INFINITE && WellFormed(a)
    case _ => true
  }

  /** re_need_check_advance is sound: code it clears comes from a pattern that always consumes. */
  lemma {:induction false} ClearedConsumes(r: Pattern, k: nat, back: bool)
    requires WellFormed(r)
    requires !MayStay(Code(r, k, back))
    ensures Consumes(r)
    decreases r, 1
  {
    match r
    case Empty =>
    case Assert(a) =>
    case Concat(a, b) => ConcatCleared(r, k, back);
    case Alternative(a, b) => NotStraight(Code(r, k, back), 0);
    case Capture(a) => CaptureCleared(r, k, back);
    case Look(_, _, a) => NotStraight(Code(r, k, back), 0);
    case Quantified(a, min, max, greedy) =>
      QuantStraight(Code(a, k, back), k, Groups(a), min, max, greedy);
      if max != 0 { ClearedConsumes(a, k, back); }
    case _ =>
  }

  lemma {:induction false} ConcatCleared(r: Pattern, k: nat, back: bool)
    requires r.Concat? && WellFormed(r) && !MayStay(Code(r, k, back))
    ensures Consumes(r)
    decreases r, 0
  {
    var x, y := Code(r.left, k, back), Code(r.right, k + Groups(r.left), back);
    if back { StraightParts(y, x); } else { StraightParts(x, y); }
    if HasConsuming(x) {
      ClearedConsumes(r.left, k, back);
    } else {
      ClearedConsumes(r.right, k + Groups(r.left), back);
    }
  }

  lemma {:induction false} CaptureCleared(r: Pattern, k: nat, back: bool)
    requires r.Capture? && WellFormed(r) && !MayStay(Code(r, k, back))
    ensures Consumes(r)
    decreases r, 0
  {
    var m := Code(r.body, k + 1, back);
    StraightParts(Emit(Save(k, back)) + m, Emit(Save(k, !back)));
    StraightParts(Emit(Save(k, back)), m);
    ClearedConsumes(r.body, k + 1, back);
  }

  /** None of the states is at p. */
  ghost predicate NoneAt(es: seq<State>, p: nat) {
    forall j :: 0 <= j < |es| ==> es[j].pos != p
  }

  lemma {:induction false} FlattenNoneAt(fs: seq<seq<State>>, p: nat)
    requires forall i :: 0 <= i < |fs| ==> NoneAt(fs[i], p)
    ensures NoneAt(Flatten(fs), p)
  {
    if fs != [] {
      FlattenNoneAt(fs[1..], p);
    }
  }

  /** Of two steps in the same direction one leaves s.pos for good. */
  lemma FlattenBeyond(t: Text, back: bool, s: State, es: seq<State>, fs: seq<seq<State>>)
    requires s.pos <= |t.units| && |fs| == |es|
    requires AllInDirection(t, back, s, es)
    requires forall i :: 0 <= i < |es| ==> AllInDirection(t, back, es[i], fs[i])
    requires NoneAt(es, s.pos) || forall i :: 0 <= i < |es| ==> NoneAt(fs[i], es[i].pos)
    ensures NoneAt(Flatten(fs), s.pos)
  {
    forall i | 0 <= i < |fs| ensures NoneAt(fs[i], s.pos) {
      assert AllInDirection(t, back, es[i], fs[i]) && InDirection(t, back, s.pos, es[i].pos);
    }
    FlattenNoneAt(fs, s.pos);
  }

  /** Every end of a consuming pattern lies strictly ahead. */
  lemma {:induction false} ConsumingEnds(t: Text, r: Pattern, k: nat, back: bool, s: State)
    requires s.pos <= |t.units| && Consumes(r) && WellFormed(r)
    ensures NoneAt(Ends(t, r, k, back, s), s.pos)
    decreases r, 1
  {
    match r
    case Concat(_, _) => ConcatConsuming(t, r, k, back, s);
    case Alternative(_, _) => AlternativeConsuming(t, r, k, back, s);
    case Capture(_) => CaptureConsuming(t, r, k, back, s);
    case Quantified(_, _, _, _) => QuantConsuming(t, r, k, back, s);
    case _ =>
  }

  lemma {:induction false} AlternativeConsuming(t: Text, r: Pattern, k: nat, back: bool, s: State)
    requires s.pos <= |t.units| && r.Alternative? && Consumes(r) && WellFormed(r)
    ensures NoneAt(Ends(t, r, k, back, s), s.pos)
    decreases r, 0
  {
    hide Ends, Groups;
    ConsumingEnds(t, r.left, k, back, s);
    ConsumingEnds(t, r.right, k + Groups(r.left), back, s);
    AlternativeEnds(t, r.left, r.right, k, back, s);
  }

  lemma {:induction false} QuantConsuming(t: Text, r: Pattern, k: nat, back: bool, s: State)
    requires s.pos <= |t.units| && r.Quantified? && Consumes(r) && WellFormed(r)
    ensures NoneAt(Ends(t, r, k, back, s), s.pos)
    decreases r, 0
  {
    hide Ends, Groups, Repeat, EachRepeat, Flatten;
    var es := Ends(t, r.body, k, back, s);
    ConsumingEnds(t, r.body, k, back, s);
    QuantEnds(t, r.body, r.min, r.max, r.greedy, k, back, s);
    RepeatMust(t, r.body, k, back, r.min, r.max, r.greedy, s);
    EachRepeatAt(t, r.body, k, back, r.min - 1, Less(r.max), r.greedy, es, s, false);
    FlattenBeyond(t, back, s, es, EachRepeat(t, r.body, k, back, r.min - 1, Less(r.max), r.greedy, es, s, false));
  }

  lemma {:induction false} CaptureConsuming(t: Text, r: Pattern, k: nat, back: bool, s: State)
    requires s.pos <= |t.units| && r.Capture? && Consumes(r) && WellFormed(r)
    ensures NoneAt(Ends(t, r, k, back, s), s.pos)
    decreases r, 0
  {
    hide Ends, Groups;
    ConsumingEnds(t, r.body, k + 1, back, State(s.pos, Saved(s.caps, k, back, s.pos)));
    CaptureEnds(t, r.body, k, back, s);
  }

  lemma {:induction false} ConcatConsuming(t: Text, r: Pattern, k: nat, back: bool, s: State)
    requires s.pos <= |t.units| && r.Concat? && Consumes(r) && WellFormed(r)
    ensures NoneAt(Ends(t, r, k, back, s), s.pos)
    decreases r, 0
  {
    hide Ends, Groups, Chained;
    var a, b := r.left, r.right;
    if back {
      ChainConsuming(t, r, b, k + Groups(a), a, k, back, s);
      ConcatBackward(t, a, b, k, s);
    } else {
      ChainConsuming(t, r, a, k, b, k + Groups(a), back, s);
      ConcatForward(t, a, b, k, s);
    }
  }

  lemma {:induction false} ChainConsuming(t: Text, r: Pattern, p: Pattern, kp: nat, q: Pattern, kq: nat, back: bool,
      s: State)
    requires s.pos <= |t.units| && Consumes(r) && WellFormed(r)
    requires r == Concat(p, q) || r == Concat(q, p)
    ensures NoneAt(Chained(t, p, kp, q, kq, back, s), s.pos)
    decreases r, -1
  {
    hide Ends, EachEnds, Flatten, Groups;
    var es := Ends(t, p, kp, back, s);
    if Consumes(p) {
      ConsumingEnds(t, p, kp, back, s);
    } else {
      forall i | 0 <= i < |es| ensures NoneAt(Ends(t, q, kq, back, es[i]), es[i].pos) {
        ConsumingEnds(t, q, kq, back, es[i]);
      }
    }
    EachEndsAt(t, q, kq, back, es, s);
    FlattenBeyond(t, back, s, es, EachEnds(t, q, kq, back, es, s));
  }
}
