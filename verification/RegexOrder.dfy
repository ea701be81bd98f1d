/**
The order in which positions are tried for the first time. A position that is
tried again fails again, so two lists of positions that agree on their first
occurrences lead to the same match.
*/
module RegexOrder {
  import opened RegexSemantics

  ghost function Members(xs: seq<nat>): set<nat> {
    set x | x in xs
  }

  /** The elements of xs that are not in `seen`, each where it first occurs. */
  ghost function Fresh(seen: set<nat>, xs: seq<nat>): seq<nat>
    decreases |xs|
  {
    if xs == [] then []
    else if xs[0] in seen then Fresh(seen, xs[1..])
    else [xs[0]] + Fresh(seen + {xs[0]}, xs[1..])
  }

  /** The first occurrences. */
  ghost function Distinct(xs: seq<nat>): seq<nat> {
    Fresh({}, xs)
  }

  lemma {:induction false} FreshMembers(seen: set<nat>, xs: seq<nat>, x: nat)
    ensures x in Fresh(seen, xs) <==> x in xs && x !in seen
    decreases |xs|
  {
    if xs != [] {
      assert xs == [xs[0]] + xs[1..];
      if xs[0] in seen {
        FreshMembers(seen, xs[1..], x);
      } else {
        FreshMembers(seen + {xs[0]}, xs[1..], x);
      }
    }
  }

  lemma {:induction false} FreshAppend(seen: set<nat>, xs: seq<nat>, ys: seq<nat>)
    ensures Fresh(seen, xs + ys) == Fresh(seen, xs) + Fresh(seen + Members(xs), ys)
    decreases |xs|
  {
    if xs == [] {
      assert xs + ys == ys && seen + Members(xs) == seen;
    } else {
      assert (xs + ys)[1..] == xs[1..] + ys && xs == [xs[0]] + xs[1..];
      var seen' := seen + {xs[0]};
      FreshAppend(seen', xs[1..], ys);
      assert seen' + Members(xs[1..]) == seen + Members(xs);
      if xs[0] in seen { assert seen' == seen; }
    }
  }

  /** What is fresh depends on the first occurrences only. */
  lemma {:induction false} FreshAgain(seen: set<nat>, before: set<nat>, xs: seq<nat>)
    requires before <= seen
    ensures Fresh(seen, Fresh(before, xs)) == Fresh(seen, xs)
    decreases |xs|
  {
    if xs != [] {
      if xs[0] in before {
        FreshAgain(seen, before, xs[1..]);
      } else {
        var rest := Fresh(before + {xs[0]}, xs[1..]);
        var all := Fresh(before, xs);
        assert all[0] == xs[0] && all[1..] == rest;
        FreshAgain(seen + {xs[0]}, before + {xs[0]}, xs[1..]);
        if xs[0] in seen { assert seen + {xs[0]} == seen; }
      }
    }
  }

  lemma AlikeFresh(seen: set<nat>, xs: seq<nat>, ys: seq<nat>)
    requires Distinct(xs) == Distinct(ys)
    ensures Fresh(seen, xs) == Fresh(seen, ys) && Members(xs) == Members(ys)
  {
    hide Fresh;
    FreshAgain(seen, {}, xs);
    FreshAgain(seen, {}, ys);
    forall x ensures x in xs <==> x in ys {
      FreshMembers({}, xs, x);
      FreshMembers({}, ys, x);
    }
  }

  lemma AlikeFirst(xs: seq<nat>, ys: seq<nat>)
    requires Distinct(xs) == Distinct(ys)
    ensures xs == [] <==> ys == []
    ensures xs != [] ==> xs[0] == ys[0]
  {
    if xs != [] { assert Distinct(xs)[0] == xs[0]; }
    if ys != [] { assert Distinct(ys)[0] == ys[0]; }
  }

  lemma AlikeAppend(xs: seq<nat>, ys: seq<nat>, xs': seq<nat>, ys': seq<nat>)
    requires Distinct(xs) == Distinct(xs') && Distinct(ys) == Distinct(ys')
    ensures Distinct(xs + ys) == Distinct(xs' + ys')
  {
    hide Fresh;
    FreshAppend({}, xs, ys);
    FreshAppend({}, xs', ys');
    AlikeFresh({}, xs, xs');
    AlikeFresh(Members(xs), ys, ys');
    assert {} + Members(xs) == Members(xs);
  }

  lemma {:induction false} AlikeEach(fs: seq<seq<nat>>, gs: seq<seq<nat>>)
    requires |fs| == |gs| && forall j :: 0 <= j < |fs| ==> Distinct(fs[j]) == Distinct(gs[j])
    ensures Distinct(Flatten(fs)) == Distinct(Flatten(gs))
  {
    hide Fresh, Distinct;
    if fs != [] {
      AlikeEach(fs[1..], gs[1..]);
      AlikeAppend(fs[0], Flatten(fs[1..]), gs[0], Flatten(gs[1..]));
    }
  }

  // ----- going on from each position -----

  /** The positions reached from p. */
  type Onward = nat -> seq<nat>

  ghost function Spread(h: Onward, ps: seq<nat>): seq<nat> {
    if ps == [] then [] else h(ps[0]) + Spread(h, ps[1..])
  }

  lemma {:induction false} AlikeFlatten(h: Onward, ps: seq<nat>, fs: seq<seq<nat>>)
    requires |fs| == |ps| && forall j :: 0 <= j < |ps| ==> Distinct(fs[j]) == Distinct(h(ps[j]))
    ensures Distinct(Flatten(fs)) == Distinct(Spread(h, ps))
    decreases |ps|
  {
    hide Distinct;
    if ps != [] {
      AlikeFlatten(h, ps[1..], fs[1..]);
      AlikeAppend(fs[0], Flatten(fs[1..]), h(ps[0]), Spread(h, ps[1..]));
    }
  }

  /** A position that occurs again adds nothing. */
  lemma {:induction false} SpreadFresh(h: Onward, done: set<nat>, seen: set<nat>, ps: seq<nat>)
    requires forall p :: p in done ==> Members(h(p)) <= seen
    ensures Fresh(seen, Spread(h, ps)) == Fresh(seen, Spread(h, Fresh(done, ps)))
    decreases |ps|
  {
    hide Fresh;
    if ps == [] {
      FreshOfNone(done);
    } else {
      var p, rest := ps[0], ps[1..];
      FreshOf(done, ps);
      FreshAppend(seen, h(p), Spread(h, rest));
      if p in done {
        NothingFresh(seen, h(p));
        assert seen + Members(h(p)) == seen;
        SpreadFresh(h, done, seen, rest);
      } else {
        var later := Fresh(done + {p}, rest);
        assert ([p] + later)[1..] == later;
        FreshAppend(seen, h(p), Spread(h, later));
        SpreadFresh(h, done + {p}, seen + Members(h(p)), rest);
      }
    }
  }

  lemma FreshOfNone(seen: set<nat>)
    ensures Fresh(seen, []) == []
  {}

  lemma FreshOf(seen: set<nat>, xs: seq<nat>)
    requires xs != []
    ensures Fresh(seen, xs) == if xs[0] in seen then Fresh(seen, xs[1..]) else [xs[0]] + Fresh(seen + {xs[0]}, xs[1..])
  {}

  lemma {:induction false} NothingFresh(seen: set<nat>, xs: seq<nat>)
    requires Members(xs) <= seen
    ensures Fresh(seen, xs) == []
    decreases |xs|
  {
    if xs != [] {
      assert xs[0] in Members(xs) && Members(xs[1..]) <= Members(xs);
      NothingFresh(seen, xs[1..]);
    }
  }

  /** Two lists alike, and from each position lists alike. */
  lemma AlikeOnward(h: Onward, ps: seq<nat>, fs: seq<seq<nat>>, qs: seq<nat>, gs: seq<seq<nat>>)
    requires |fs| == |ps| && forall j :: 0 <= j < |ps| ==> Distinct(fs[j]) == Distinct(h(ps[j]))
    requires |gs| == |qs| && forall j :: 0 <= j < |qs| ==> Distinct(gs[j]) == Distinct(h(qs[j]))
    requires Distinct(ps) == Distinct(qs)
    ensures Distinct(Flatten(fs)) == Distinct(Flatten(gs))
  {
    hide Fresh, Spread;
    AlikeFlatten(h, ps, fs);
    AlikeFlatten(h, qs, gs);
    SpreadFresh(h, {}, {}, ps);
    SpreadFresh(h, {}, {}, qs);
  }

  /** Lists whose elements have all been seen by then may be left out. */
  lemma {:induction false} LeaveOut(seen: set<nat>, fs: seq<seq<nat>>, gs: seq<seq<nat>>)
    requires |fs| == |gs|
    requires forall j :: 0 <= j < |fs| ==>
      gs[j] == fs[j] || (gs[j] == [] && Members(fs[j]) <= seen + Members(Flatten(fs[..j])))
    ensures Fresh(seen, Flatten(fs)) == Fresh(seen, Flatten(gs))
    decreases |fs|
  {
    hide Fresh;
    if fs != [] {
      var x, y := Flatten(fs[1..]), Flatten(gs[1..]);
      var seen' := seen + Members(fs[0]);
      FreshAppend(seen, fs[0], x);
      forall j | 0 <= j < |fs| - 1
        ensures seen + Members(Flatten(fs[..j + 1])) == seen' + Members(Flatten(fs[1..][..j]))
      {
        assert fs[..j + 1][0] == fs[0] && fs[..j + 1][1..] == fs[1..][..j];
      }
      LeaveOut(seen', fs[1..], gs[1..]);
      if gs[0] == fs[0] {
        FreshAppend(seen, gs[0], y);
      } else {
        assert fs[..0] == [];
        NothingFresh(seen, fs[0]);
        assert seen' == seen && gs[0] + y == y;
      }
    }
  }

  lemma {:induction false} FlattenHas(fs: seq<seq<nat>>, x: nat)
    ensures x in Flatten(fs) <==> exists j :: 0 <= j < |fs| && x in fs[j]
    decreases |fs|
  {
    if fs != [] {
      FlattenHas(fs[1..], x);
      if x in Flatten(fs[1..]) {
        var j :| 0 <= j < |fs| - 1 && x in fs[1..][j];
        assert x in fs[j + 1];
      }
      if j :| 0 <= j < |fs| && x in fs[j] {
        if j > 0 { assert x in fs[1..][j - 1]; }
      }
    }
  }

  /** First occurrences occur once. */
  lemma {:induction false} FreshOnce(seen: set<nat>, xs: seq<nat>)
    ensures forall i, j :: 0 <= i < j < |Fresh(seen, xs)| ==> Fresh(seen, xs)[i] != Fresh(seen, xs)[j]
    decreases |xs|
  {
    if xs != [] {
      if xs[0] in seen {
        FreshOnce(seen, xs[1..]);
      } else {
        var rest := Fresh(seen + {xs[0]}, xs[1..]);
        FreshOnce(seen + {xs[0]}, xs[1..]);
        FreshMembers(seen + {xs[0]}, xs[1..], xs[0]);
        assert Fresh(seen, xs) == [xs[0]] + rest;
      }
    }
  }

  /** Where two different lists part. */
  lemma {:induction false} Part(xs: seq<nat>, ys: seq<nat>) returns (j: nat)
    requires xs != ys
    ensures j <= |xs| && j <= |ys| && xs[..j] == ys[..j] && (j < |xs| || j < |ys|)
    ensures j < |xs| && j < |ys| ==> xs[j] != ys[j]
    decreases |xs|
  {
    j := 0;
    if xs != [] && ys != [] && xs[0] == ys[0] {
      assert xs == [xs[0]] + xs[1..] && ys == [ys[0]] + ys[1..];
      var k := Part(xs[1..], ys[1..]);
      j := k + 1;
      assert xs[..j] == [xs[0]] + xs[1..][..k] && ys[..j] == [ys[0]] + ys[1..][..k];
    }
  }
}
