/**
lre_exec and lre_exec_backtrack as they run: registers, a capture array, a
counter stack of the size the compiler announced, and a growing stack of
backtracking points, all updated in place.
*/
module RegexEngine {
  import opened RegexText
  import opened RegexSyntax
  import opened RegexSemantics
  import opened RegexMachine
  import opened RegexRange
  import opened RegexAtoms
  import opened RegexSimple
  import opened RegexPositions
  import opened RegexMatch
  import opened RegexPlain
  import opened RegexSafety
  import opened RegexCompiler

  datatype Mode = Running | Iterating | Failing | Hitting | Halted(matched: bool)

  /** Code that an engine with a stack of the given size can run. */
  ghost predicate Runnable(t: Text, code: Bytecode, groups: nat, size: nat) {
    SafeCode(t, code, groups) && forall p :: 0 <= p <= |code| ==> DepthAt(code, p) <= size
  }

  /** One simple instruction. */
  method RunSimple(t: Text, i: Instr, pos: nat) returns (e: Option<nat>)
    requires Simple(i) && pos <= |t.units| && (i.Range? ==> Searchable(i.ranges))
    ensures e == Simply(t, i, pos)
  {
    if i.Test? {
      e := if Holds(t, i.assertion, pos) then Some(pos) else None;
    } else if pos == |t.units| {
      e := None;
    } else {
      var c := CharAt(t, pos);
      var ok;
      match i {
        case Char(d) => ok := c == d;
        case Char32(d) => ok := c == d;
        case MatchDot => ok := !LineTerminator(c);
        case MatchAny => ok := true;
        case Range(wide, rs) => ok := Search(wide, rs, c);
      }
      e := if ok then Some(Next(t, pos)) else None;
    }
  }

  /** The nested run of simple_greedy_quant. */
  method RunNested(t: Text, code: Bytecode, ghost groups: nat, start: nat, from: nat) returns (r: Nested)
    requires SafeCode(t, code, groups) && from <= |t.units| && NestedRun(t, code, start, from) != Broken
    ensures r == NestedRun(t, code, start, from)
  {
    hide SafeCode, Simply;
    var pc: nat, pos: nat := start, from;
    while true
      invariant pos <= |t.units| && NestedRun(t, code, pc, pos) == NestedRun(t, code, start, from)
      decreases |code| - pc
    {
      var i := code[pc].ins;
      if i.Accept? { return Matched(pos); }
      OkAt(t, code, groups, pc);
      var e := RunSimple(t, i, pos);
      if e.None? { return Unmatched; }
      pc, pos := pc + Size(i), e.value;
    }
  }

  class Matcher {
    const text: Text
    const code: Bytecode
    ghost const groups: nat
    var pc: nat
    var pos: nat
    var done: nat
    var mode: Mode
    var depth: nat
    var points: seq<Point>
    const caps: array<Option<nat>>
    const stack: array<nat>

    ghost predicate Valid()
      reads this, stack
    {
      && depth <= stack.Length
      && Runnable(text, code, groups, stack.Length)
    }

    ghost function Now(): Registers
      requires depth <= stack.Length
      reads this, caps, stack
    {
      Registers(pc, pos, caps[..], stack[..depth], points)
    }

    /** The configuration of the abstract machine. */
    ghost function Abstract(): Config
      requires depth <= stack.Length
      reads this, caps, stack
    {
      match mode
      case Running => Run(Now())
      case Iterating => Iterate(Now(), done)
      case Failing => Fail(points)
      case Hitting => Hit(caps[..], points)
      case Halted(matched) => Done(matched, if matched then caps[..] else [])
    }

    ghost predicate Good()
      requires depth <= stack.Length
      reads this, caps, stack
    {
      Healthy(text, code, groups, Abstract()) && caps.Length == 2 * groups
    }

    constructor (t: Text, c: Bytecode, g: nat, size: nat, i: nat)
      requires Runnable(t, c, g, size)
      ensures Valid() && text == t && code == c && groups == g && stack.Length == size && caps.Length == 2 * g
      ensures Abstract() == At(0, State(i, seq(2 * g, _ => None)), [], [])
      ensures fresh(caps) && fresh(stack)
    {
      text, code, groups := t, c, g;
      pc, pos, done, depth := 0, i, 0, 0;
      mode, points := Running, [];
      caps := new Option<nat>[2 * g](_ => None);
      stack := new nat[size](_ => 0);
      new;
      assert caps[..] == seq(2 * g, _ => None);
      assert stack[..0] == [];
    }

    /**
    push_state: the state holds copies of the captures and of the counters in use,
    which later changes do not reach.
    */
    method Push(kind: Kind, resume: nat, count: nat)
      requires Valid()
      modifies `points
      ensures points == old(points) + [Point(kind, resume, pos, caps[..], stack[..depth], count)]
    {
      var saved, counters := new Option<nat>[caps.Length], new nat[depth];
      var i := 0;
      while i < caps.Length
        invariant 0 <= i <= caps.Length && saved[..i] == caps[..i]
        modifies saved
      {
        saved[i] := caps[i];
        i := i + 1;
      }
      assert saved[..] == caps[..];
      i := 0;
      while i < depth
        invariant 0 <= i <= depth && counters[..i] == stack[..i]
        modifies counters
      {
        counters[i] := stack[i];
        i := i + 1;
      }
      assert counters[..] == stack[..depth];
      assert saved[..] == caps[..];
      var p := Point(kind, resume, pos, saved[..], counters[..], count);
      assert p == Point(kind, resume, pos, caps[..], stack[..depth], count);
      points := points + [p];
    }

    /** Restores the counters of a point. */
    method RestoreStack(p: Point)
      requires Valid() && |p.stack| <= stack.Length
      modifies `depth, stack
      ensures depth == |p.stack| && stack[..depth] == p.stack
    {
      depth := |p.stack|;
      forall i | 0 <= i < |p.stack| { stack[i] := p.stack[i]; }
    }

    /** Restores the captures of a point. */
    method RestoreCaptures(p: Point)
      requires |p.caps| == caps.Length
      modifies caps
      ensures caps[..] == p.caps
    {
      forall i | 0 <= i < |p.caps| { caps[i] := p.caps[i]; }
    }

    /** Depths at the places control can go to are within the stack. */
    lemma DepthFits(p: nat)
      requires Valid() && p <= |code|
      ensures DepthAt(code, p) <= stack.Length
    {
      hide DepthAt;
    }

    method StepRun()
      requires Valid() && Good() && mode == Running
      modifies this, caps, stack
      ensures Valid()
      ensures Abstract() == RegexMachine.Step(text, code, old(Abstract()))
    {
      var i := code[pc].ins;
      if i.Split? || i.LookAround? || i.Goto? || i.Accept? || i.SimpleGreedy? {
        StepControl(i);
      } else if Simple(i) || i.StepBack? {
        StepMove(i);
      } else if i.Save? || i.SaveReset? {
        StepCapture(i);
      } else {
        StepStack(i);
      }
    }

    method StepControl(i: Instr)
      requires Valid() && Good() && mode == Running && i == code[pc].ins
      requires i.Split? || i.LookAround? || i.Goto? || i.Accept? || i.SimpleGreedy?
      modifies `pc, `mode, `done, `points
      ensures Valid() && Abstract() == Exec(text, i, old(Now()))
    {
      hide DepthAt, SafeCode, PointsOk, Boundary;
      ghost var here := pc;
      AtInstr(text, code, groups, here);
      var next := pc + Size(i);
      match i {
        case Goto(off) => pc := next + off;
        case Split(gotoFirst, off) =>
          Push(SplitPoint, if gotoFirst then next else next + off, 0);
          pc := if gotoFirst then next + off else next;
        case LookAround(negative, off) =>
          Push(if negative then NegativeLookPoint else LookPoint, next + off, 0);
          pc := next;
        case Accept => mode := Hitting;
        case SimpleGreedy(_, _, _, _) => mode, done := Iterating, 0;
      }
    }

    method StepMove(i: Instr)
      requires Valid() && Good() && mode == Running && i == code[pc].ins && (Simple(i) || i.StepBack?)
      modifies `pc, `pos, `mode
      ensures Valid() && Abstract() == Exec(text, i, old(Now()))
    {
      hide DepthAt, SafeCode, PointsOk, Boundary, Simply;
      OkAt(text, code, groups, pc);
      if i.StepBack? {
        if pos == 0 { mode := Failing; } else { pc, pos := pc + 1, Prev(text, pos); }
      } else {
        var e := RunSimple(text, i, pos);
        if e.Some? { pc, pos := pc + Size(i), e.value; } else { mode := Failing; }
      }
    }

    method StepCapture(i: Instr)
      requires Valid() && Good() && mode == Running && i == code[pc].ins && (i.Save? || i.SaveReset?)
      modifies `pc, caps
      ensures Valid() && Abstract() == Exec(text, i, old(Now()))
    {
      hide DepthAt, SafeCode, PointsOk, Boundary;
      OkAt(text, code, groups, pc);
      pc := pc + Size(i);
      if i.Save? {
        caps[2 * i.group + (if i.end then 1 else 0)] := Some(pos);
        assert caps[..] == Saved(old(caps[..]), i.group, i.end, pos);
      } else {
        var v := i.first;
        while v <= i.last
          modifies caps
          invariant i.first <= v
          invariant i.first <= i.last ==> v <= i.last + 1
          invariant i.last < i.first ==> v == i.first
          invariant forall x :: 0 <= x < caps.Length ==>
            caps[x] == if 2 * i.first <= x < 2 * v then None else old(caps[x])
        {
          caps[2 * v] := None;
          caps[2 * v + 1] := None;
          v := v + 1;
        }
        assert caps[..] == Cleared(old(caps[..]), i.first, i.last);
      }
    }

    method StepStack(i: Instr)
      requires Valid() && Good() && mode == Running && i == code[pc].ins
      requires i.Loop? || i.PushCount? || i.Drop? || i.PushPos? || i.CheckAdvance?
      modifies `pc, `mode, `depth, stack
      ensures Valid() && Abstract() == Exec(text, i, old(Now()))
    {
      hide *;
      if i.PushCount? || i.PushPos? {
        StepPush(i);
      } else if i.Loop? {
        StepLoop(i);
      } else {
        StepDrop(i);
      }
    }

    method StepPush(i: Instr)
      requires Valid() && Good() && mode == Running && i == code[pc].ins
      requires i.PushCount? || i.PushPos?
      modifies `pc, `depth, stack
      ensures Valid() && Abstract() == Exec(text, i, old(Now()))
    {
      hide DepthAt, SafeCode, PointsOk, Boundary;
      ghost var s := stack[..depth];
      AtInstr(text, code, groups, pc);
      var next := pc + Size(i);
      DepthFits(next);
      stack[depth] := if i.PushCount? then i.value else pos;
      depth, pc := depth + 1, next;
      assert stack[..depth] == s + [stack[depth - 1]];
    }

    method StepLoop(i: Instr)
      requires Valid() && Good() && mode == Running && i == code[pc].ins
      requires i.Loop?
      modifies `pc, stack
      ensures Valid() && Abstract() == Exec(text, i, old(Now()))
    {
      hide DepthAt, SafeCode, PointsOk, Boundary;
      ghost var s := stack[..depth];
      AtInstr(text, code, groups, pc);
      var n := if stack[depth - 1] == 0 then WORD_MAX else stack[depth - 1] - 1;
      stack[depth - 1] := n;
      assert stack[..depth] == s[..|s| - 1] + [n];
      pc := pc + Size(i) + (if n != 0 then i.offset else 0);
    }

    method StepDrop(i: Instr)
      requires Valid() && Good() && mode == Running && i == code[pc].ins
      requires i.Drop? || i.CheckAdvance?
      modifies `pc, `mode, `depth
      ensures Valid() && Abstract() == Exec(text, i, old(Now()))
    {
      hide DepthAt, SafeCode, PointsOk, Boundary;
      ghost var s := stack[..depth];
      AtInstr(text, code, groups, pc);
      if i.CheckAdvance? && stack[depth - 1] == pos {
        mode := Failing;
      } else {
        depth, pc := depth - 1, pc + Size(i);
        assert stack[..depth] == s[..|s| - 1];
      }
    }

    method StepIterate()
      requires Valid() && Good() && mode == Iterating
      modifies `pc, `pos, `done, `mode, `points
      ensures Valid() && Abstract() == RegexMachine.Step(text, code, old(Abstract()))
    {
      hide DepthAt, SafeCode, PointsOk, CharsBefore, NestedRun;
      var i := code[pc].ins;
      AtInstr(text, code, groups, pc);
      assert NestedOkAt(text, code, pc, pos);
      var r := RunNested(text, code, groups, pc + 17, pos);
      if r.Matched? {
        pos, done := r.pos, done + 1;
        if done < i.max || i.max == INFINITE { return; }
      }
      if done < i.min {
        mode := Failing;
      } else {
        if done > i.min { Push(GreedyPoint, pc, done - i.min); }
        pc, mode := pc + 17 + i.offset, Running;
      }
    }

    method StepFail()
      requires Valid() && Good() && mode == Failing
      modifies this, caps, stack
      ensures Valid() && Abstract() == RegexMachine.Step(text, code, old(Abstract()))
    {
      hide DepthAt, SafeCode, CharsBefore, PrevN, Boundary;
      if points == [] {
        mode := Halted(false);
        return;
      }
      var p := points[|points| - 1];
      points := points[..|points| - 1];
      assert PointOk(text, code, groups, p);
      if p.kind.LookPoint? { return; }
      if p.kind.GreedyPoint? { GreedyEnough(p); }
      DepthFits(p.pc);
      RestoreCaptures(p);
      RestoreStack(p);
      pc, pos, mode := p.pc, p.pos, Running;
      if p.kind.GreedyPoint? { ResumeGreedy(p); }
    }

    /** Goes back by one iteration of a simple quantifier; the point stays while earlier ones remain. */
    method ResumeGreedy(p: Point)
      requires Valid() && mode == Running && PointOk(text, code, groups, p) && p.kind.GreedyPoint? && pos == p.pos
      modifies `pc, `pos, `points
      ensures var i := code[p.pc].ins;
              && pc == p.pc + 17 + i.offset
              && pos == PrevN(text, p.pos, i.chars)
              && points == old(points) + (if p.count > 1 then [p.(pos := pos, count := p.count - 1)] else [])
    {
      hide DepthAt, SafeCode, CharsBefore, PrevN, Boundary;
      GreedyEnough(p);
      var i := code[p.pc].ins;
      AtInstr(text, code, groups, p.pc);
      var k := 0;
      while k < i.chars
        modifies `pos
        invariant k <= i.chars && pos <= |text.units|
        invariant i.chars - k <= CharsBefore(text, pos)
        invariant PrevN(text, p.pos, i.chars) == PrevN(text, pos, i.chars - k)
      {
        PrevNStep(text, pos, i.chars - k);
        pos := Prev(text, pos);
        k := k + 1;
      }
      PrevNStep(text, pos, 0);
      pc := p.pc + 17 + i.offset;
      if p.count > 1 {
        points := points + [p.(pos := pos, count := p.count - 1)];
      } else {
        assert points == points + [];
      }
    }

    lemma GreedyEnough(p: Point)
      requires PointOk(text, code, groups, p) && p.kind.GreedyPoint?
      ensures code[p.pc].ins.chars <= CharsBefore(text, p.pos)
    {
      hide CharsBefore, DepthAt, Boundary;
      var n := code[p.pc].ins.chars;
      assert p.count * n == n + (p.count - 1) * n;
      assert 0 <= (p.count - 1) * n;
    }

    method StepHit()
      requires Valid() && Good() && mode == Hitting
      modifies `pc, `pos, `mode, `depth, `points, stack
      ensures Valid() && Abstract() == RegexMachine.Step(text, code, old(Abstract()))
    {
      hide DepthAt, SafeCode, CharsBefore, Boundary;
      if points == [] {
        mode := Halted(true);
        return;
      }
      var p := points[|points| - 1];
      points := points[..|points| - 1];
      assert PointOk(text, code, groups, p);
      if p.kind.LookPoint? {
        DepthFits(p.pc);
        RestoreStack(p);
        pc, pos, mode := p.pc, p.pos, Running;
      } else if p.kind.NegativeLookPoint? {
        mode := Failing;
      }
    }

    /** One round of the interpreter loop. */
    method Step()
      requires Valid() && Good() && !mode.Halted?
      modifies this, caps, stack
      ensures Valid() && Good()
      ensures Abstract() == RegexMachine.Step(text, code, old(Abstract()))
    {
      hide Healthy, Runnable;
      StepKeeps(Abstract());
      match mode {
        case Running => StepRun();
        case Iterating => StepIterate();
        case Failing => StepFail();
        case Hitting => StepHit();
      }
    }

    /** The interpreter loop; `total` is a number of steps after which the abstract machine has halted. */
    method Loop(ghost total: nat, ghost start: Config) returns (matched: bool)
      requires Valid() && Good() && Abstract() == start && Steps(Engine(text, code), start, total).Done?
      modifies this, caps, stack
      ensures Valid()
      ensures Steps(Engine(text, code), start, total) == Done(matched, if matched then caps[..] else [])
    {
      hide Healthy, Runnable, RegexMachine.Step;
      ghost var f := Engine(text, code);
      ghost var k: nat := 0;
      while !mode.Halted?
        invariant Valid() && Good() && k <= total && Abstract() == Steps(f, start, k)
        decreases total - k
      {
        assert k < total;
        StepsNext(f, start, k);
        assert f(Abstract()) == RegexMachine.Step(text, code, Abstract());
        Step();
        k := k + 1;
      }
      HaltsOnce(text, code, start, k, total);
      matched := mode.matched;
    }

    lemma StepKeeps(c: Config)
      requires Valid() && Healthy(text, code, groups, c)
      ensures Healthy(text, code, groups, RegexMachine.Step(text, code, c))
    {
      hide Healthy, DepthAt;
      StepHealthy(text, code, groups, c);
    }
  }

  lemma PrevNStep(t: Text, i: nat, n: nat)
    requires i <= |t.units| && n <= CharsBefore(t, i)
    ensures n == 0 ==> PrevN(t, i, n) == i
    ensures n > 0 ==>
      && i > 0 && PrevN(t, i, n) == PrevN(t, Prev(t, i), n - 1)
      && CharsBefore(t, i) == 1 + CharsBefore(t, Prev(t, i))
  {}

  lemma CompiledRuns(t: Text, r: Pattern, sticky: bool, size: nat)
    requires ValidText(t) && WellFormed(r) && Deepest(Program(r, sticky), size)
    ensures Runnable(t, Program(r, sticky), 1 + Groups(r), size)
  {
    hide Program, WellFormed, ValidText, SafeCode, DepthAt;
    ProgramSafe(t, r, sticky);
  }

  lemma StepsNext(f: Machine, c: Config, k: nat)
    ensures Steps(f, c, k + 1) == f(Steps(f, c, k))
  {
    StepsAdd(f, c, k, 1);
    assert Steps(f, Steps(f, c, k), 1) == Steps(f, f(Steps(f, c, k)), 0);
  }

  /**
  Compiles and runs: the loop of the engine ends, with a match exactly when the
  pattern has one at or after i, and then group 0 is the span of the reference
  semantics, which is that of the pattern written with classes and look-arounds only.
  */
  method Execute(t: Text, r: Pattern, sticky: bool, i: nat) returns (error: Option<Error>, found: Option<(nat, nat)>)
    requires ValidText(t) && Shaped(r) && LazyFits(t, r, false) && i <= |t.units| && Boundary(t, i)
    ensures error.None? <==> WithinLimits(r, sticky)
    ensures error.None? ==> found == Span(t, r, sticky, i) == Span(t, Plain(r, t.multiline), sticky, i)
    ensures error.Some? ==> found.None?
  {
    hide WithinLimits, Shaped, LazyFits, ValidText, Boundary, Program, WellFormed, Healthy, Runnable, Span, Deepest,
      Groups, Plain;
    SpanSame(t, r, sticky, i);
    var c := Compile(r, sticky);
    if c.Err? { return Some(c.error), None; }
    CompiledRuns(t, r, sticky, c.stackSize);
    var m := new Matcher(t, c.code, c.groups, c.stackSize, i);
    AlwaysHealthy(t, r, sticky, i, 0);
    ghost var total, result := Halting(t, r, sticky, i);
    var matched := m.Loop(total, Initial(r, i));
    error := None;
    if matched {
      found := if m.caps[0].Some? && m.caps[1].Some? then Some((m.caps[0].value, m.caps[1].value)) else None;
      assert m.caps[..][0] == m.caps[0] && m.caps[..][1] == m.caps[1];
    } else {
      found := None;
    }
  }

  lemma Halting(t: Text, r: Pattern, sticky: bool, i: nat) returns (total: nat, result: Option<Captures>)
    requires Supported(t, r) && i <= |t.units| && Boundary(t, i)
    ensures Steps(Engine(t, Program(r, sticky)), Initial(r, i), total) == Outcome(result)
    ensures Records(result, Span(t, r, sticky, i), 2 * (1 + Groups(r)))
  {
    hide Supported, Steps, Program, Span, Groups, Records;
    MatchCorrect(t, r, sticky, i);
    total, result :|
      && Steps(Engine(t, Program(r, sticky)), Initial(r, i), total) == Outcome(result)
      && Records(result, Span(t, r, sticky, i), 2 * (1 + Groups(r)));
  }

  /** A halted machine stays as it is, so all halting runs agree. */
  lemma {:induction false} HaltsOnce(t: Text, code: Bytecode, c: Config, k: nat, n: nat)
    requires k <= n && Steps(Engine(t, code), c, k).Done?
    ensures Steps(Engine(t, code), c, n) == Steps(Engine(t, code), c, k)
    decreases n - k
  {
    if k < n {
      var f := Engine(t, code);
      StepsNext(f, c, k);
      assert f(Steps(f, c, k)) == RegexMachine.Step(t, code, Steps(f, c, k));
      HaltsOnce(t, code, c, k + 1, n);
    }
  }
}
