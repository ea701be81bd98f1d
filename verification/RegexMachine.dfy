/**
The backtracking machine (lre_exec_backtrack): one `Step` per instruction or per
pop of the state stack. All backtracking points lie on the explicit state stack,
whose top is the last element.
*/
module RegexMachine {
  import opened RegexText
  import opened CharSet
  import opened RegexSyntax
  import opened RegexSemantics

  /** UINTPTR_MAX: stack cells are unsigned words. */
  const WORD_MAX: nat := 0xffff_ffff_ffff_ffff

  datatype Kind = SplitPoint | LookPoint | NegativeLookPoint | GreedyPoint

  /** One entry of the state stack (REExecState). */
  datatype Point = Point(kind: Kind, pc: nat, pos: nat, caps: Captures, stack: seq<nat>, count: nat)

  datatype Registers = Registers(pc: nat, pos: nat, caps: Captures, stack: seq<nat>, points: seq<Point>)

  datatype Config =
    | Run(m: Registers)
    | Iterate(m: Registers, done: nat)   // inside simple_greedy_quant, after `done` iterations
    | Fail(points: seq<Point>)                  // no_match: unwinding with ret = 0
    | Hit(caps: Captures, points: seq<Point>)   // match: unwinding with ret = 1
    | Done(matched: bool, result: Captures)
    | Stuck                                     // no such instruction or operand

  /** The search for c in the operands of a range instruction, low and high bounds inclusive. */
  ghost predicate RangeAccepts(wide: bool, rs: seq<nat>, c: nat) {
    || (exists k :: 0 <= k < |rs| / 2 && Low(rs, k) <= c <= High(rs, k))
    || (!wide && |rs| >= 2 && rs[0] <= c && c >= 0xffff && rs[|rs| - 1] == 0xffff)
  }

  ghost predicate Reads(i: Instr, c: nat)
    requires Consuming(i)
  {
    match i
    case Char(d) => c == d
    case Char32(d) => c == d
    case MatchDot => !LineTerminator(c)
    case MatchAny => true
    case Range(wide, rs) => RangeAccepts(wide, rs, c)
  }

  /** Effect of a simple instruction: the new position, or none when it does not match. */
  ghost function Simply(t: Text, i: Instr, pos: nat): (e: Option<nat>)
    requires Simple(i) && pos <= |t.units|
    ensures e.Some? ==> pos <= e.value <= |t.units|
  {
    if i.Test? then if Holds(t, i.assertion, pos) then Some(pos) else None
    else if pos < |t.units| && Reads(i, CharAt(t, pos)) then Some(Next(t, pos))
    else None
  }

  datatype Nested = Matched(pos: nat) | Unmatched | Broken

  /** The nested run of simple_greedy_quant (no_recurse): simple instructions up to an accept. */
  ghost function NestedRun(t: Text, code: Bytecode, pc: nat, pos: nat): (r: Nested)
    requires pos <= |t.units|
    ensures r.Matched? ==> pos <= r.pos <= |t.units|
    decreases |code| - pc
  {
    if pc >= |code| || !code[pc].Op? then Broken
    else if code[pc].ins.Accept? then Matched(pos)
    else if !Simple(code[pc].ins) then Broken
    else
      var e := Simply(t, code[pc].ins, pos);
      if e.None? then Unmatched else NestedRun(t, code, pc + Size(code[pc].ins), e.value)
  }

  /** Continues at the target, or is stuck outside of the address space. */
  function Jump(m: Registers, target: int): Config {
    if target < 0 then Stuck else Run(m.(pc := target))
  }

  /** Continues at `first` after pushing a point that resumes at `second`. */
  function Fork(m: Registers, kind: Kind, first: int, second: int): Config {
    if first < 0 || second < 0 then Stuck
    else Run(m.(pc := first, points := m.points + [Point(kind, second, m.pos, m.caps, m.stack, 0)]))
  }

  ghost function Exec(t: Text, i: Instr, m: Registers): Config {
    var next := m.pc + Size(i);
    var top := |m.stack| - 1;
    match i
    case Goto(off) => Jump(m, next + off)
    case Split(gotoFirst, off) =>
      if gotoFirst then Fork(m, SplitPoint, next + off, next) else Fork(m, SplitPoint, next, next + off)
    case LookAround(negative, off) =>
      Fork(m, if negative then NegativeLookPoint else LookPoint, next, next + off)
    case Accept => Hit(m.caps, m.points)
    case Save(k, end) =>
      if 2 * k + 1 < |m.caps| then Run(m.(pc := next, caps := Saved(m.caps, k, end, m.pos))) else Stuck
    case SaveReset(first, last) =>
      if 2 * last + 1 < |m.caps| then Run(m.(pc := next, caps := Cleared(m.caps, first, last))) else Stuck
    case Loop(off) =>
      if top < 0 then Stuck
      else
        var n := if m.stack[top] == 0 then WORD_MAX else m.stack[top] - 1;
        Jump(m.(stack := m.stack[..top] + [n]), if n != 0 then next + off else next)
    case PushCount(v) => Run(m.(pc := next, stack := m.stack + [v]))
    case Drop => if top < 0 then Stuck else Run(m.(pc := next, stack := m.stack[..top]))
    case PushPos => Run(m.(pc := next, stack := m.stack + [m.pos]))
    case CheckAdvance =>
      if top < 0 then Stuck
      else if m.stack[top] == m.pos then Fail(m.points)
      else Run(m.(pc := next, stack := m.stack[..top]))
    case StepBack =>
      if 0 < m.pos <= |t.units| then Run(m.(pc := next, pos := Prev(t, m.pos))) else Fail(m.points)
    case SimpleGreedy(_, _, _, _) => Iterate(m, 0)
    case _ =>
      if m.pos > |t.units| then Stuck
      else
        var e := Simply(t, i, m.pos);
        if e.Some? then Run(m.(pc := next, pos := e.value)) else Fail(m.points)
  }

  /** simple_greedy_quant is left after `done` iterations. */
  function Leave(i: Instr, m: Registers, done: nat): Config
    requires i.SimpleGreedy?
  {
    if done < i.min then Fail(m.points)
    else if done == i.min then Jump(m, m.pc + 17 + i.offset)
    else Jump(m.(points := m.points + [Point(GreedyPoint, m.pc, m.pos, m.caps, m.stack, done - i.min)]),
              m.pc + 17 + i.offset)
  }

  /** One more iteration of simple_greedy_quant. */
  ghost function Again(t: Text, code: Bytecode, i: Instr, m: Registers, done: nat): Config
    requires i.SimpleGreedy?
  {
    if m.pos > |t.units| then Stuck
    else
      match NestedRun(t, code, m.pc + 17, m.pos)
      case Broken => Stuck
      case Unmatched => Leave(i, m, done)
      case Matched(p) =>
        if done + 1 >= i.max && i.max != INFINITE then Leave(i, m.(pos := p), done + 1)
        else Iterate(m.(pos := p), done + 1)
  }

  /** A failure resumes the newest backtracking point. */
  ghost function Resume(t: Text, code: Bytecode, points: seq<Point>): Config
    requires points != []
  {
    var rest, p := points[..|points| - 1], points[|points| - 1];
    match p.kind
    case LookPoint => Fail(rest)
    case GreedyPoint =>
      if p.pc < |code| && code[p.pc].Op? && code[p.pc].ins.SimpleGreedy? && p.count > 0
         && p.pos <= |t.units| && code[p.pc].ins.chars <= CharsBefore(t, p.pos)
      then
        var pos := PrevN(t, p.pos, code[p.pc].ins.chars);
        Jump(Registers(p.pc, pos, p.caps, p.stack,
                       if p.count == 1 then rest else rest + [p.(pos := pos, count := p.count - 1)]),
             p.pc + 17 + code[p.pc].ins.offset)
      else Stuck
    case _ => Run(Registers(p.pc, p.pos, p.caps, p.stack, rest))
  }

  ghost function Step(t: Text, code: Bytecode, c: Config): Config {
    match c
    case Run(m) =>
      if m.pc < |code| && code[m.pc].Op? then Exec(t, code[m.pc].ins, m) else Stuck
    case Iterate(m, done) =>
      if m.pc < |code| && code[m.pc].Op? && code[m.pc].ins.SimpleGreedy?
      then Again(t, code, code[m.pc].ins, m, done) else Stuck
    case Fail(points) => if points == [] then Done(false, []) else Resume(t, code, points)
    case Hit(caps, points) =>
      if points == [] then Done(true, caps)
      else
        var rest, p := points[..|points| - 1], points[|points| - 1];
        if p.kind.LookPoint? then Run(Registers(p.pc, p.pos, caps, p.stack, rest))
        else if p.kind.NegativeLookPoint? then Fail(rest)
        else Hit(caps, rest)
    case _ => c
  }

  /** The transition function of the machine that runs `code` on t. */
  type Machine = Config -> Config

  ghost function Engine(t: Text, code: Bytecode): Machine {
    c => Step(t, code, c)
  }

  ghost function Steps(f: Machine, c: Config, n: nat): Config
    decreases n
  {
    if n == 0 then c else Steps(f, f(c), n - 1)
  }

  ghost predicate Reaches(f: Machine, c: Config, d: Config) {
    exists n: nat :: Steps(f, c, n) == d
  }

  lemma {:induction false} StepsAdd(f: Machine, c: Config, m: nat, n: nat)
    ensures Steps(f, c, m + n) == Steps(f, Steps(f, c, m), n)
    decreases m
  {
    if m > 0 {
      StepsAdd(f, f(c), m - 1, n);
    }
  }

  lemma ReachesTrans(f: Machine, a: Config, b: Config, c: Config)
    requires Reaches(f, a, b) && Reaches(f, b, c)
    ensures Reaches(f, a, c)
  {
    var m: nat :| Steps(f, a, m) == b;
    var n: nat :| Steps(f, b, n) == c;
    StepsAdd(f, a, m, n);
  }

  lemma ReachesSelf(f: Machine, c: Config)
    ensures Reaches(f, c, c)
  {
    assert Steps(f, c, 0) == c;
  }

  lemma ReachesStep(f: Machine, c: Config)
    ensures Reaches(f, c, f(c))
  {
    assert Steps(f, f(c), 0) == f(c);
    assert Steps(f, c, 1) == f(c);
  }

  // ----- delivering a list of end states -----

  /** Backtracking points that a match discards. */
  ghost predicate Discardable(ps: seq<Point>) {
    forall i :: 0 <= i < |ps| ==> ps[i].kind.SplitPoint? || ps[i].kind.GreedyPoint?
  }

  ghost function At(pc: nat, s: State, stack: seq<nat>, points: seq<Point>): Config {
    Run(Registers(pc, s.pos, s.caps, stack, points))
  }

  /**
  From c the machine arrives at pc in each of the states es, one after the
  other as failures drive it back, and then fails into `points`. mores[i] are
  the backtracking points pushed on top when it arrives in es[i].
  */
  ghost predicate DeliversVia(f: Machine, c: Config, pc: nat, stack: seq<nat>, es: seq<State>, points: seq<Point>,
                              mores: seq<seq<Point>>)
    decreases |es|
  {
    if es == [] then Reaches(f, c, Fail(points))
    else
      && mores != []
      && Discardable(mores[0])
      && Reaches(f, c, At(pc, es[0], stack, points + mores[0]))
      && DeliversVia(f, Fail(points + mores[0]), pc, stack, es[1..], points, mores[1..])
  }

  ghost predicate Delivers(f: Machine, c: Config, pc: nat, stack: seq<nat>, es: seq<State>, points: seq<Point>) {
    exists mores :: DeliversVia(f, c, pc, stack, es, points, mores)
  }

  lemma DeliversAfter(f: Machine, a: Config, c: Config, pc: nat, stack: seq<nat>, es: seq<State>, points: seq<Point>)
    requires Reaches(f, a, c)
    requires Delivers(f, c, pc, stack, es, points)
    ensures Delivers(f, a, pc, stack, es, points)
  {
    var mores :| DeliversVia(f, c, pc, stack, es, points, mores);
    if es == [] {
      ReachesTrans(f, a, c, Fail(points));
    } else {
      ReachesTrans(f, a, c, At(pc, es[0], stack, points + mores[0]));
    }
    assert DeliversVia(f, a, pc, stack, es, points, mores);
  }

  /** One step in front. */
  lemma DeliversStep(f: Machine, c: Config, pc: nat, stack: seq<nat>, es: seq<State>, points: seq<Point>)
    requires Delivers(f, f(c), pc, stack, es, points)
    ensures Delivers(f, c, pc, stack, es, points)
  {
    ReachesStep(f, c);
    DeliversAfter(f, c, f(c), pc, stack, es, points);
  }

  /** Being there delivers exactly one state. */
  lemma DeliversHere(f: Machine, pc: nat, s: State, stack: seq<nat>, points: seq<Point>)
    ensures Delivers(f, At(pc, s, stack, points), pc, stack, [s], points)
  {
    var mores: seq<seq<Point>> := [[]];
    assert points + mores[0] == points;
    ReachesSelf(f, At(pc, s, stack, points));
    ReachesSelf(f, Fail(points));
    assert DeliversVia(f, Fail(points), pc, stack, [s][1..], points, mores[1..]);
    assert DeliversVia(f, At(pc, s, stack, points), pc, stack, [s], points, mores);
  }

  lemma DeliversNothing(f: Machine, pc: nat, stack: seq<nat>, points: seq<Point>)
    ensures Delivers(f, Fail(points), pc, stack, [], points)
  {
    ReachesSelf(f, Fail(points));
    assert DeliversVia(f, Fail(points), pc, stack, [], points, []);
  }

  lemma {:induction false} AppendVia(f: Machine, c: Config, pc: nat, stack: seq<nat>, es: seq<State>, fs: seq<State>,
      points: seq<Point>, more: seq<Point>, mores: seq<seq<Point>>)
    requires Discardable(more)
    requires DeliversVia(f, c, pc, stack, es, points + more, mores)
    requires Delivers(f, Fail(points + more), pc, stack, fs, points)
    ensures Delivers(f, c, pc, stack, es + fs, points)
    decreases |es|
  {
    if es == [] {
      assert es + fs == fs;
      DeliversAfter(f, c, Fail(points + more), pc, stack, fs, points);
    } else {
      var m := mores[0];
      AppendVia(f, Fail(points + more + m), pc, stack, es[1..], fs, points, more, mores[1..]);
      var rest :| DeliversVia(f, Fail(points + more + m), pc, stack, es[1..] + fs, points, rest);
      var all := [more + m] + rest;
      assert points + more + m == points + (more + m) == points + all[0];
      assert (es + fs)[1..] == es[1..] + fs && all[1..] == rest;
      assert DeliversVia(f, c, pc, stack, es + fs, points, all);
    }
  }

  /** Exhausting es above `more` and then delivering fs below it. */
  lemma DeliversAppend(f: Machine, c: Config, pc: nat, stack: seq<nat>, es: seq<State>, fs: seq<State>,
      points: seq<Point>, more: seq<Point>)
    requires Discardable(more)
    requires Delivers(f, c, pc, stack, es, points + more)
    requires Delivers(f, Fail(points + more), pc, stack, fs, points)
    ensures Delivers(f, c, pc, stack, es + fs, points)
  {
    var mores :| DeliversVia(f, c, pc, stack, es, points + more, mores);
    AppendVia(f, c, pc, stack, es, fs, points, more, mores);
  }

  lemma {:induction false} EachVia(f: Machine, c: Config, pc: nat, stack: seq<nat>, es: seq<State>,
      pc': nat, stack': seq<nat>, fs: seq<seq<State>>, points: seq<Point>, mores: seq<seq<Point>>)
    requires DeliversVia(f, c, pc, stack, es, points, mores)
    requires |fs| == |es|
    requires forall i, ps :: 0 <= i < |es| ==> Delivers(f, At(pc, es[i], stack, ps), pc', stack', fs[i], ps)
    ensures Delivers(f, c, pc', stack', Flatten(fs), points)
    decreases |es|
  {
    if es == [] {
      assert DeliversVia(f, c, pc', stack', Flatten(fs), points, []);
    } else {
      var m := mores[0];
      EachVia(f, Fail(points + m), pc, stack, es[1..], pc', stack', fs[1..], points, mores[1..]);
      DeliversAfter(f, c, At(pc, es[0], stack, points + m), pc', stack', fs[0], points + m);
      DeliversAppend(f, c, pc', stack', fs[0], Flatten(fs[1..]), points, m);
    }
  }

  /** Sequencing: from each delivered state, whatever the points below, the machine delivers the next list. */
  lemma DeliversEach(f: Machine, c: Config, pc: nat, stack: seq<nat>, es: seq<State>,
      pc': nat, stack': seq<nat>, fs: seq<seq<State>>, points: seq<Point>)
    requires Delivers(f, c, pc, stack, es, points)
    requires |fs| == |es|
    requires forall i, ps :: 0 <= i < |es| ==> Delivers(f, At(pc, es[i], stack, ps), pc', stack', fs[i], ps)
    ensures Delivers(f, c, pc', stack', Flatten(fs), points)
  {
    var mores :| DeliversVia(f, c, pc, stack, es, points, mores);
    EachVia(f, c, pc, stack, es, pc', stack', fs, points, mores);
  }
}
