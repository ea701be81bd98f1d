/**
The host callback table of quickjs_bridge.c, shared by all isolates of a
process: registration and dispatch as atomic steps that interleave freely. The
table of bytes callbacks follows the same protocol.

A registration hands its index to a function object, which keeps it in 16 bits
(quickjs.c: `magic` of a C function). The table has twice as many slots as that
has non-negative values, so a dispatch through one of the later functions is
refused.
*/
module Bridge {

  const MAX_HOST_FNS: nat := 65536

  type Callback = nat

  /** The values of int16_t that are not negative. */
  const MAGIC_LIMIT: nat := 32768

  /** An int stored in an int16_t and read back. */
  function Narrow(m: int): int {
    (m + MAGIC_LIMIT) % (2 * MAGIC_LIMIT) - MAGIC_LIMIT
  }

  /** What comes back of an index of the table: itself in the lower half, a negative number in the upper one. */
  lemma NarrowExact(m: nat)
    requires m < MAX_HOST_FNS
    ensures Narrow(m) == if m < MAGIC_LIMIT then m else m - MAX_HOST_FNS
    ensures Narrow(m) >= 0 <==> m < MAGIC_LIMIT
  {}

  /** Where an isolate is between two of its atomic steps. */
  datatype Local =
    | Idle
    /** past the first test of the counter */
    | Passed(callback: Callback)
    /** owns a slot and has not written it yet */
    | Owner(callback: Callback, slot: nat)
    /** in a dispatch of the function registered at index, past the load of the counter */
    | Looking(index: nat, magic: int, seen: nat)

  /** What has happened, for the statements below. */
  datatype Event =
    | Took(isolate: nat, slot: nat)
    | Wrote(isolate: nat, slot: nat, callback: Callback)
    | Called(isolate: nat, index: nat, callback: Callback)
    | Refused(isolate: nat, index: nat)

  datatype State = State(count: nat, slots: map<nat, Callback>, locals: seq<Local>, log: seq<Event>)

  /** One atomic step of isolate i. */
  datatype Step =
    | Test(i: nat, callback: Callback)
    | FetchAdd(i: nat)
    | Write(i: nat)
    | Load(i: nat, index: nat)
    | Look(i: nat)

  ghost predicate Init(s: State) {
    s.count == 0 && s.slots == map[] && s.log == [] && forall i :: 0 <= i < |s.locals| ==> s.locals[i] == Idle
  }

  /**
  A dispatch is made through a function object, which exists only once its
  registration is complete.
  */
  ghost predicate Enabled(s: State, step: Step) {
    && step.i < |s.locals|
    && match step
       case Test(i, _) => s.locals[i].Idle?
       case FetchAdd(i) => s.locals[i].Passed?
       case Write(i) => s.locals[i].Owner?
       case Load(i, m) => s.locals[i].Idle? && m in s.slots
       case Look(i) => s.locals[i].Looking?
  }

  /** The state after a step. */
  ghost function After(s: State, step: Step): State
    requires Enabled(s, step)
  {
    match step
    case Test(i, f) =>
      if s.count >= MAX_HOST_FNS then s else s.(locals := s.locals[i := Passed(f)])
    case FetchAdd(i) =>
      if s.count >= MAX_HOST_FNS then s.(count := s.count + 1, locals := s.locals[i := Idle])
      else s.(count := s.count + 1, locals := s.locals[i := Owner(s.locals[i].callback, s.count)],
        log := s.log + [Took(i, s.count)])
    case Write(i) =>
      var k, f := s.locals[i].slot, s.locals[i].callback;
      s.(slots := s.slots[k := f], locals := s.locals[i := Idle], log := s.log + [Wrote(i, k, f)])
    case Load(i, m) =>
      s.(locals := s.locals[i := Looking(m, Narrow(m), s.count)])
    case Look(i) =>
      var index, m := s.locals[i].index, s.locals[i].magic;
      if m < 0 || m >= s.locals[i].seen || m !in s.slots
      then s.(locals := s.locals[i := Idle], log := s.log + [Refused(i, index)])
      else s.(locals := s.locals[i := Idle], log := s.log + [Called(i, index, s.slots[m])])
  }

  /** A run: any number of isolates, any interleaving. */
  ghost predicate Run(run: seq<State>, steps: seq<Step>) {
    && |run| == |steps| + 1 && Init(run[0])
    && forall k :: 0 <= k < |steps| ==> Enabled(run[k], steps[k]) && run[k + 1] == After(run[k], steps[k])
  }

  // ----- the invariant -----

  /** Isolates that have passed the first test. */
  ghost function Pending(ls: seq<Local>): nat {
    if ls == [] then 0 else Pending(ls[..|ls| - 1]) + (if ls[|ls| - 1].Passed? then 1 else 0)
  }

  ghost predicate HasWritten(log: seq<Event>, k: nat, f: Callback) {
    exists e :: 0 <= e < |log| && log[e].Wrote? && log[e].slot == k && log[e].callback == f
  }

  ghost predicate HasTaken(log: seq<Event>, i: nat, k: nat) {
    exists e :: 0 <= e < |log| && log[e] == Took(i, k)
  }

  ghost predicate LooksUp(s: State, l: Local)
    requires l.Looking?
  {
    l.index in s.slots && l.index < l.seen && l.index < MAX_HOST_FNS && l.magic == Narrow(l.index)
  }

  ghost predicate Inv(s: State) {
    && s.count + Pending(s.locals) < MAX_HOST_FNS + |s.locals|
    // a slot that an isolate owns was taken by that isolate, is below both bounds and not yet written
    && (forall i :: 0 <= i < |s.locals| && s.locals[i].Owner? ==>
          var k := s.locals[i].slot; k < s.count && k < MAX_HOST_FNS && k !in s.slots && HasTaken(s.log, i, k))
    && (forall i, j :: 0 <= i < j < |s.locals| && s.locals[i].Owner? && s.locals[j].Owner? ==>
          s.locals[i].slot != s.locals[j].slot)
    // an index that is looked up is complete and inside the table, and its function kept 16 bits of it
    && (forall i :: 0 <= i < |s.locals| && s.locals[i].Looking? ==> LooksUp(s, s.locals[i]))
    // the table holds exactly what has been written
    && (forall k :: k in s.slots ==> k < s.count && k < MAX_HOST_FNS && HasWritten(s.log, k, s.slots[k]))
    && (forall e :: 0 <= e < |s.log| && s.log[e].Wrote? ==>
          s.log[e].slot in s.slots && s.slots[s.log[e].slot] == s.log[e].callback)
    && (forall e :: 0 <= e < |s.log| && s.log[e].Took? ==> s.log[e].slot < s.count)
  }

  /** What the log of a run says. */
  ghost predicate LogOk(log: seq<Event>) {
    // no slot is given out twice, none is written twice, and only by its owner
    && (forall d, e :: 0 <= d < e < |log| && log[d].Took? && log[e].Took? ==> log[d].slot != log[e].slot)
    && (forall d, e :: 0 <= d < e < |log| && log[d].Wrote? && log[e].Wrote? ==> log[d].slot != log[e].slot)
    && (forall e :: 0 <= e < |log| && log[e].Wrote? ==> HasTaken(log[..e], log[e].isolate, log[e].slot))
    // a call goes to what was registered at its index, in the lower half of the table
    && (forall e :: 0 <= e < |log| && log[e].Called? ==>
          log[e].index < MAGIC_LIMIT && HasWritten(log[..e], log[e].index, log[e].callback))
    // only the upper half is refused
    && (forall e :: 0 <= e < |log| && log[e].Refused? ==> MAGIC_LIMIT <= log[e].index < MAX_HOST_FNS)
  }

  lemma {:induction false} PendingUpdate(ls: seq<Local>, i: nat, l: Local)
    requires i < |ls|
    ensures Pending(ls[i := l]) == Pending(ls) - (if ls[i].Passed? then 1 else 0) + (if l.Passed? then 1 else 0)
    decreases |ls|
  {
    var n := |ls| - 1;
    if i < n {
      PendingUpdate(ls[..n], i, l);
      assert ls[i := l][..n] == ls[..n][i := l];
    } else {
      assert ls[i := l][..n] == ls[..n];
    }
  }

  lemma {:induction false} PendingBound(ls: seq<Local>)
    ensures Pending(ls) <= |ls|
    decreases |ls|
  {
    if ls != [] { PendingBound(ls[..|ls| - 1]); }
  }

  lemma {:induction false} PendingIdle(ls: seq<Local>)
    requires forall i :: 0 <= i < |ls| ==> ls[i] == Idle
    ensures Pending(ls) == 0
    decreases |ls|
  {
    if ls != [] { PendingIdle(ls[..|ls| - 1]); }
  }

  lemma WrittenKept(log: seq<Event>, e: Event, k: nat, f: Callback)
    ensures HasWritten(log, k, f) ==> HasWritten(log + [e], k, f)
  {
    if HasWritten(log, k, f) {
      var d :| 0 <= d < |log| && log[d].Wrote? && log[d].slot == k && log[d].callback == f;
      assert (log + [e])[d] == log[d];
    }
  }

  lemma TakenKept(log: seq<Event>, e: Event, i: nat, k: nat)
    ensures HasTaken(log, i, k) ==> HasTaken(log + [e], i, k)
  {
    if HasTaken(log, i, k) {
      var d :| 0 <= d < |log| && log[d] == Took(i, k);
      assert (log + [e])[d] == log[d];
    }
  }

  lemma TakenNow(log: seq<Event>, i: nat, k: nat)
    ensures HasTaken(log + [Took(i, k)], i, k)
  {
    assert (log + [Took(i, k)])[|log|] == Took(i, k);
  }

  lemma InvTest(s: State, i: nat, f: Callback)
    requires Inv(s) && Enabled(s, Test(i, f))
    ensures Inv(After(s, Test(i, f)))
  {
    PendingUpdate(s.locals, i, Passed(f));
    PendingBound(s.locals[i := Passed(f)]);
  }

  lemma InvFetchAdd(s: State, i: nat)
    requires Inv(s) && Enabled(s, FetchAdd(i))
    ensures Inv(After(s, FetchAdd(i)))
  {
    hide HasTaken, HasWritten, Pending;
    var t := After(s, FetchAdd(i));
    if s.count >= MAX_HOST_FNS {
      PendingUpdate(s.locals, i, Idle);
    } else {
      var e := Took(i, s.count);
      PendingUpdate(s.locals, i, Owner(s.locals[i].callback, s.count));
      forall j | 0 <= j < |t.locals| && t.locals[j].Owner? ensures HasTaken(t.log, j, t.locals[j].slot) {
        if j == i { TakenNow(s.log, i, s.count); } else { TakenKept(s.log, e, j, s.locals[j].slot); }
      }
      forall k | k in t.slots ensures HasWritten(t.log, k, t.slots[k]) { WrittenKept(s.log, e, k, s.slots[k]); }
    }
  }

  lemma InvWrite(s: State, i: nat)
    requires Inv(s) && Enabled(s, Write(i))
    ensures Inv(After(s, Write(i)))
  {
    var t := After(s, Write(i));
    var k0, f := s.locals[i].slot, s.locals[i].callback;
    var e := Wrote(i, k0, f);
    PendingUpdate(s.locals, i, Idle);
    forall j | 0 <= j < |t.locals| && t.locals[j].Owner?
      ensures t.locals[j].slot !in t.slots && HasTaken(t.log, j, t.locals[j].slot)
    {
      TakenKept(s.log, e, j, s.locals[j].slot);
    }
    forall k | k in t.slots ensures HasWritten(t.log, k, t.slots[k]) {
      if k == k0 { assert t.log[|s.log|] == e; } else { WrittenKept(s.log, e, k, s.slots[k]); }
    }
  }

  /** A step that touches neither counter nor table. */
  lemma InvLocal(s: State, t: State, i: nat, l: Local, es: seq<Event>)
    requires Inv(s) && i < |s.locals| && !s.locals[i].Owner? && !s.locals[i].Passed? && !l.Owner? && !l.Passed?
    requires t == s.(locals := s.locals[i := l], log := s.log + es) && |es| <= 1
    requires forall e :: 0 <= e < |es| ==> es[e].Called? || es[e].Refused?
    requires l.Looking? ==> LooksUp(s, l)
    ensures Inv(t)
  {
    PendingUpdate(s.locals, i, l);
    if |es| == 0 {
      assert s.log + es == s.log;
    } else {
      assert s.log + es == s.log + [es[0]];
      forall j | 0 <= j < |t.locals| && t.locals[j].Owner? ensures HasTaken(t.log, j, t.locals[j].slot) {
        TakenKept(s.log, es[0], j, s.locals[j].slot);
      }
      forall k | k in t.slots ensures HasWritten(t.log, k, t.slots[k]) { WrittenKept(s.log, es[0], k, s.slots[k]); }
    }
  }

  /** A complete index lies inside the table and below the counter. */
  lemma CompleteInside(s: State, m: nat)
    requires Inv(s) && m in s.slots
    ensures m < s.count && m < MAX_HOST_FNS
  {}

  lemma InvStep(s: State, step: Step)
    requires Inv(s) && Enabled(s, step)
    ensures Inv(After(s, step))
  {
    hide Inv;
    match step {
      case Test(i, f) => InvTest(s, i, f);
      case FetchAdd(i) => InvFetchAdd(s, i);
      case Write(i) => InvWrite(s, i);
      case Load(i, m) =>
        assert s.log + [] == s.log;
        CompleteInside(s, m);
        InvLocal(s, After(s, step), i, Looking(m, Narrow(m), s.count), []);
      case Look(i) =>
        var t := After(s, step);
        InvLocal(s, t, i, Idle, t.log[|s.log|..]);
    }
  }

  /** What a dispatch finds: the function registered at its index, or nothing in the upper half of the table. */
  lemma LookSees(s: State, i: nat)
    requires Inv(s) && Enabled(s, Look(i))
    ensures var m := s.locals[i].index;
      && m in s.slots && m < MAX_HOST_FNS
      && After(s, Look(i)).log == s.log + [if m < MAGIC_LIMIT then Called(i, m, s.slots[m]) else Refused(i, m)]
  {
    assert LooksUp(s, s.locals[i]);
    NarrowExact(s.locals[i].index);
  }

  lemma LogStep(s: State, step: Step)
    requires Inv(s) && LogOk(s.log) && Enabled(s, step)
    ensures LogOk(After(s, step).log)
  {
    var t := After(s, step);
    if step.Look? { LookSees(s, step.i); }
    if t.log != s.log {
      var e := t.log[|s.log|];
      assert t.log == s.log + [e];
      LogGrows(s, e);
    }
  }

  lemma LogGrows(s: State, e: Event)
    requires Inv(s) && LogOk(s.log)
    requires e.Took? ==> e.slot == s.count
    requires e.Wrote? ==> e.slot !in s.slots && HasTaken(s.log, e.isolate, e.slot)
    requires e.Called? ==> e.index < MAGIC_LIMIT && e.index in s.slots && e.callback == s.slots[e.index]
    requires e.Refused? ==> MAGIC_LIMIT <= e.index < MAX_HOST_FNS
    ensures LogOk(s.log + [e])
  {
    hide HasTaken, HasWritten, Pending;
    var t, n := s.log + [e], |s.log|;
    assert t[..n] == s.log;
    forall d | 0 <= d < n ensures t[..d] == s.log[..d] && t[d] == s.log[d] {}
  }

  // ----- every run -----

  lemma {:induction false} Always(run: seq<State>, steps: seq<Step>, k: nat)
    requires Run(run, steps) && k < |run|
    ensures Inv(run[k]) && LogOk(run[k].log) && |run[k].locals| == |run[0].locals|
    decreases k
  {
    hide Inv, LogOk;
    if k == 0 {
      InitInv(run[0]);
    } else {
      Always(run, steps, k - 1);
      assert Enabled(run[k - 1], steps[k - 1]) && run[k - 1 + 1] == After(run[k - 1], steps[k - 1]);
      InvStep(run[k - 1], steps[k - 1]);
      LogStep(run[k - 1], steps[k - 1]);
    }
  }

  lemma InitInv(s: State)
    requires Init(s)
    ensures Inv(s) && LogOk(s.log)
  {
    PendingIdle(s.locals);
  }

  /**
  Over every run: slots are given out once and written once, by the isolate
  that took them; every call reaches the callback registered at its own index, and
  only indices of the upper half of the table are refused; the counter passes its
  limit by less than the number of isolates.
  */
  lemma RegistrationsDistinct(run: seq<State>, steps: seq<Step>, k: nat)
    requires Run(run, steps) && k < |run|
    ensures LogOk(run[k].log) && run[k].count < MAX_HOST_FNS + |run[0].locals|
  {
    Always(run, steps, k);
  }

  lemma SlotKept(s: State, step: Step, m: nat)
    requires Inv(s) && Enabled(s, step) && m in s.slots
    ensures var t := After(s, step); m in t.slots && t.slots[m] == s.slots[m]
  {
    hide Pending, HasTaken, HasWritten, LooksUp;
  }

  lemma {:induction false} SlotsKept(run: seq<State>, steps: seq<Step>, a: nat, b: nat, m: nat)
    requires Run(run, steps) && a <= b < |run| && m in run[a].slots
    ensures m in run[b].slots && run[b].slots[m] == run[a].slots[m]
    decreases b
  {
    if a < b {
      hide Inv, LogOk;
      SlotsKept(run, steps, a, b - 1, m);
      Always(run, steps, b - 1);
      assert Enabled(run[b - 1], steps[b - 1]) && run[b - 1 + 1] == After(run[b - 1], steps[b - 1]);
      SlotKept(run[b - 1], steps[b - 1], m);
    }
  }

  lemma {:induction false} LocalKept(run: seq<State>, steps: seq<Step>, a: nat, b: nat, i: nat)
    requires Run(run, steps) && a <= b < |run| && i < |run[0].locals| && forall k :: a <= k < b ==> steps[k].i != i
    ensures |run[a].locals| == |run[b].locals| == |run[0].locals| && run[b].locals[i] == run[a].locals[i]
    decreases b
  {
    hide Inv, LogOk;
    Always(run, steps, a);
    Always(run, steps, b);
    if a < b {
      LocalKept(run, steps, a, b - 1, i);
      assert Enabled(run[b - 1], steps[b - 1]) && run[b - 1 + 1] == After(run[b - 1], steps[b - 1]);
      assert steps[b - 1].i != i;
    }
  }

  /**
  A dispatch through a function whose registration is complete, whatever the
  others do meanwhile: it calls the callback registered there if and only if the
  index fits the 16 bits that the function keeps of it, and is refused otherwise.
  */
  lemma DispatchExactly(run: seq<State>, steps: seq<Step>, a: nat, b: nat, i: nat, m: nat)
    requires Run(run, steps) && a < b < |steps| && steps[a] == Load(i, m) && steps[b] == Look(i)
    requires forall k :: a < k < b ==> steps[k].i != i
    ensures m in run[a].slots && m < MAX_HOST_FNS
    ensures run[b + 1].log == run[b].log + [Called(i, m, run[a].slots[m])] <==> m < 32768
    ensures run[b + 1].log == run[b].log + [Refused(i, m)] <==> m >= 32768
  {
    hide LogOk;
    Always(run, steps, a);
    Always(run, steps, b);
    assert Enabled(run[a], steps[a]) && run[a + 1] == After(run[a], steps[a]);
    assert Enabled(run[b], steps[b]) && run[b + 1] == After(run[b], steps[b]);
    LocalKept(run, steps, a + 1, b, i);
    SlotsKept(run, steps, a, b, m);
    LookSees(run[b], i);
    var n := |run[b].log|;
    assert run[b + 1].log[n] == if m < MAGIC_LIMIT then Called(i, m, run[a].slots[m]) else Refused(i, m);
  }

  // ----- from the registration to the call -----

  /** How many of the steps are fetch-and-adds. */
  ghost function FetchAdds(steps: seq<Step>): nat {
    if steps == [] then 0
    else FetchAdds(steps[..|steps| - 1]) + (if steps[|steps| - 1].FetchAdd? then 1 else 0)
  }

  /** The counter is the number of fetch-and-adds so far, successful or not: it is never reset. */
  lemma {:induction false} CounterCounts(run: seq<State>, steps: seq<Step>, k: nat)
    requires Run(run, steps) && k < |run|
    ensures run[k].count == FetchAdds(steps[..k])
    decreases k
  {
    if k > 0 {
      CounterCounts(run, steps, k - 1);
      assert Enabled(run[k - 1], steps[k - 1]) && run[k - 1 + 1] == After(run[k - 1], steps[k - 1]);
      assert steps[..k][..k - 1] == steps[..k - 1];
    }
  }

  /** A registration of f that has passed the test fails if and only if the table has been given out by then. */
  lemma TakesSlot(run: seq<State>, steps: seq<Step>, a: nat, b: nat, i: nat, f: Callback)
    requires Run(run, steps) && a < b < |steps| && steps[a] == Test(i, f) && steps[b] == FetchAdd(i)
    requires forall k :: a < k < b ==> steps[k].i != i
    ensures run[a].count < 65536 && i < |run[b + 1].locals|
    ensures run[b + 1].locals[i] ==
      if FetchAdds(steps[..b]) < 65536 then Owner(f, FetchAdds(steps[..b])) else Idle
  {
    hide Inv, LogOk;
    Always(run, steps, a);
    CounterCounts(run, steps, b);
    assert Enabled(run[a], steps[a]) && run[a + 1] == After(run[a], steps[a]);
    assert Enabled(run[b], steps[b]) && run[b + 1] == After(run[b], steps[b]);
    LocalKept(run, steps, a + 1, b, i);
  }

  /**
  qjs_register_host_fn, whatever the others do meanwhile: the callback given to
  it is stored at the index that the counter had.
  */
  lemma CallbackStored(run: seq<State>, steps: seq<Step>, a: nat, b: nat, c: nat, i: nat, f: Callback)
    requires Run(run, steps) && a < b < c < |steps|
    requires steps[a] == Test(i, f) && steps[b] == FetchAdd(i) && steps[c] == Write(i)
    requires forall k :: a < k < c && k != b ==> steps[k].i != i
    ensures var m := FetchAdds(steps[..b]); m < 65536 && m in run[c + 1].slots && run[c + 1].slots[m] == f
  {
    hide Inv, LogOk, FetchAdds;
    TakesSlot(run, steps, a, b, i, f);
    Always(run, steps, 0);
    Always(run, steps, b + 1);
    LocalKept(run, steps, b + 1, c, i);
    assert Enabled(run[c], steps[c]) && run[c + 1] == After(run[c], steps[c]);
  }

  /**
  From end to end: isolate i registers f, and any isolate j dispatches the function
  later. If the index is below 32768, f and nothing else is called.
  */
  lemma RegisteredIsCalled(run: seq<State>, steps: seq<Step>, a: nat, b: nat, c: nat, i: nat, f: Callback,
      d: nat, e: nat, j: nat)
    requires Run(run, steps) && a < b < c < d < e < |steps|
    requires steps[a] == Test(i, f) && steps[b] == FetchAdd(i) && steps[c] == Write(i)
    requires forall k :: a < k < c && k != b ==> steps[k].i != i
    requires steps[d] == Load(j, FetchAdds(steps[..b])) && steps[e] == Look(j)
    requires forall k :: d < k < e ==> steps[k].i != j
    ensures var m := FetchAdds(steps[..b]);
      run[e + 1].log == run[e].log + [if m < 32768 then Called(j, m, f) else Refused(j, m)]
  {
    hide FetchAdds;
    var m := FetchAdds(steps[..b]);
    CallbackStored(run, steps, a, b, c, i, f);
    SlotsKept(run, steps, c + 1, d, m);
    DispatchExactly(run, steps, d, e, j, m);
  }

  // ----- the upper half of the table is reached -----

  /** Goes on from the end of a run. */
  lemma Extend(run: seq<State>, steps: seq<Step>, step: Step)
    requires Run(run, steps) && Enabled(run[|steps|], step)
    ensures Run(run + [After(run[|steps|], step)], steps + [step])
  {
    var run', steps' := run + [After(run[|steps|], step)], steps + [step];
    forall k | 0 <= k < |steps'| ensures Enabled(run'[k], steps'[k]) && run'[k + 1] == After(run'[k], steps'[k]) {
      if k < |steps| { assert run'[k + 1] == run[k + 1]; }
    }
  }

  /** One isolate has completed n registrations, the one at index k of callback k, and is idle. */
  ghost predicate Filled(s: State, n: nat) {
    s.count == n && s.locals == [Idle] && forall k: nat :: k < n ==> k in s.slots && s.slots[k] == k
  }

  lemma {:induction false} FillTable(n: nat) returns (run: seq<State>, steps: seq<Step>)
    requires n <= MAX_HOST_FNS
    ensures Run(run, steps) && Filled(run[|steps|], n)
    decreases n
  {
    if n == 0 {
      run, steps := [State(0, map[], [Idle], [])], [];
    } else {
      run, steps := FillTable(n - 1);
      run, steps := RegisterNext(run, steps, n - 1);
    }
  }

  lemma RegisterNext(run0: seq<State>, steps0: seq<Step>, n: nat) returns (run: seq<State>, steps: seq<Step>)
    requires n < MAX_HOST_FNS && Run(run0, steps0) && Filled(run0[|steps0|], n)
    ensures Run(run, steps) && Filled(run[|steps|], n + 1)
  {
    hide Run;
    LastState(run0, steps0);
    var s := run0[|steps0|];
    var t := After(s, Test(0, n));
    var u := After(t, FetchAdd(0));
    var v := After(u, Write(0));
    Extend(run0, steps0, Test(0, n));
    run, steps := run0 + [t], steps0 + [Test(0, n)];
    Extend(run, steps, FetchAdd(0));
    run, steps := run + [u], steps + [FetchAdd(0)];
    Extend(run, steps, Write(0));
    run, steps := run + [v], steps + [Write(0)];
    assert v.locals == [Idle];
  }

  lemma LastState(run: seq<State>, steps: seq<Step>)
    requires Run(run, steps)
    ensures |run| == |steps| + 1
  {}

  /**
  The registration at every index of the upper half, the first of which is 32768,
  is completed by some run, and dispatching it is refused.
  */
  lemma UpperHalfRefused(m: nat) returns (run: seq<State>, steps: seq<Step>)
    requires MAGIC_LIMIT <= m < MAX_HOST_FNS
    ensures Run(run, steps) && |steps| >= 2 && steps[|steps| - 2] == Load(0, m) && steps[|steps| - 1] == Look(0)
    ensures HasWritten(run[|steps|].log, m, m) && run[|steps|].log == run[|steps| - 1].log + [Refused(0, m)]
  {
    hide LogOk;
    run, steps := FillTable(m + 1);
    var s := run[|steps|];
    Always(run, steps, |steps|);
    Extend(run, steps, Load(0, m));
    var t := After(s, Load(0, m));
    run, steps := run + [t], steps + [Load(0, m)];
    Extend(run, steps, Look(0));
    var u := After(t, Look(0));
    run, steps := run + [u], steps + [Look(0)];
    NarrowExact(m);
    assert HasWritten(s.log, m, s.slots[m]);
    WrittenKept(s.log, Refused(0, m), m, m);
  }
}
