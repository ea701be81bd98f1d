/**
Canonical ordering and composition (libunicode.c: sort_cc and the composition
loop of unicode_normalize), against section 3.11 of the Unicode Standard. The
combining classes and the primary composites are any functions cc and pair.
*/
module Normalize {

  type Classes = int -> nat
  type Composites = (int, int) -> int

  // ----- canonical ordering -----

  /** D108: the characters at i and i + 1 are a reorderable pair. */
  predicate Reorderable(cc: Classes, s: seq<int>, i: nat) {
    i + 1 < |s| && cc(s[i]) > cc(s[i + 1]) > 0
  }

  /** Exchanges of neighbours, first to last. */
  function Exchange(s: seq<int>, path: seq<nat>): seq<int>
    requires forall k :: 0 <= k < |path| ==> path[k] + 1 < |s|
    decreases |path|
  {
    if path == [] then s
    else
      var t := Exchange(s, path[..|path| - 1]);
      var i := path[|path| - 1];
      if i + 1 < |t| then t[i := t[i + 1]][i + 1 := t[i]] else t
  }

  /** Every exchange is one of a reorderable pair. */
  ghost predicate Legal(cc: Classes, s: seq<int>, path: seq<nat>)
    decreases |path|
  {
    && (forall k :: 0 <= k < |path| ==> path[k] + 1 < |s|)
    && (path != [] ==>
          Legal(cc, s, path[..|path| - 1]) && Reorderable(cc, Exchange(s, path[..|path| - 1]), path[|path| - 1]))
  }

  /** t comes from s by exchanging reorderable pairs. */
  ghost predicate Reordered(cc: Classes, s: seq<int>, path: seq<nat>, t: seq<int>) {
    Legal(cc, s, path) && Exchange(s, path) == t
  }

  /** D109: what the Canonical Ordering Algorithm ends with. */
  ghost predicate Ordered(cc: Classes, s: seq<int>) {
    forall i :: 0 <= i < |s| ==> !Reorderable(cc, s, i)
  }

  lemma ReorderedSelf(cc: Classes, s: seq<int>)
    ensures Reordered(cc, s, [], s)
  {}

  lemma ReorderedStep(cc: Classes, s: seq<int>, path: seq<nat>, t: seq<int>, i: nat)
    requires Reordered(cc, s, path, t) && Reorderable(cc, t, i)
    ensures Reordered(cc, s, path + [i], t[i := t[i + 1]][i + 1 := t[i]])
  {
    ReorderedLength(cc, s, path, t);
    assert (path + [i])[..|path|] == path;
  }

  lemma {:induction false} ReorderedLength(cc: Classes, s: seq<int>, path: seq<nat>, t: seq<int>)
    requires Reordered(cc, s, path, t)
    ensures |t| == |s|
    decreases |path|
  {
    if path != [] { ReorderedLength(cc, s, path[..|path| - 1], Exchange(s, path[..|path| - 1])); }
  }

  /** The exchanges move no starter. */
  lemma {:induction false} StartersStay(cc: Classes, s: seq<int>, path: seq<nat>, t: seq<int>, i: nat)
    requires Reordered(cc, s, path, t) && i < |s|
    ensures |t| == |s| && (cc(s[i]) == 0 || cc(t[i]) == 0 ==> t[i] == s[i])
    decreases |path|
  {
    ReorderedLength(cc, s, path, t);
    if path != [] {
      var u := Exchange(s, path[..|path| - 1]);
      StartersStay(cc, s, path[..|path| - 1], u, i);
      ReorderedLength(cc, s, path[..|path| - 1], u);
    }
  }

  /** Characters of the same class keep their order: their subsequence does not change. */
  function Select(cc: Classes, s: seq<int>, c: nat): seq<int> {
    if s == [] then [] else Select(cc, s[..|s| - 1], c) + (if cc(s[|s| - 1]) == c then [s[|s| - 1]] else [])
  }

  lemma {:induction false} SelectAppend(cc: Classes, s: seq<int>, t: seq<int>, c: nat)
    ensures Select(cc, s + t, c) == Select(cc, s, c) + Select(cc, t, c)
    decreases |t|
  {
    if t == [] {
      assert s + t == s;
    } else {
      var n := |t| - 1;
      SelectAppend(cc, s, t[..n], c);
      assert (s + t)[..|s + t| - 1] == s + t[..n];
    }
  }

  lemma SelectPair(cc: Classes, x: int, y: int, c: nat)
    requires cc(x) != cc(y)
    ensures Select(cc, [x, y], c) == Select(cc, [y, x], c)
  {
    assert [x, y][..1] == [x] && [y, x][..1] == [y];
    assert [x][..0] == [] && [y][..0] == [];
  }

  lemma {:induction false} Stable(cc: Classes, s: seq<int>, path: seq<nat>, t: seq<int>, c: nat)
    requires Reordered(cc, s, path, t)
    ensures Select(cc, t, c) == Select(cc, s, c)
    decreases |path|
  {
    hide Select;
    if path != [] {
      var u, i := Exchange(s, path[..|path| - 1]), path[|path| - 1];
      Stable(cc, s, path[..|path| - 1], u, c);
      StableSwap(cc, u, t, i, c);
    }
  }

  lemma StableSwap(cc: Classes, u: seq<int>, t: seq<int>, i: nat, c: nat)
    requires i + 1 < |u| && cc(u[i]) != cc(u[i + 1]) && t == u[i := u[i + 1]][i + 1 := u[i]]
    ensures Select(cc, t, c) == Select(cc, u, c)
  {
    hide Select;
    assert u == (u[..i] + [u[i], u[i + 1]]) + u[i + 2..];
    assert t == (u[..i] + [u[i + 1], u[i]]) + u[i + 2..];
    SelectAppend(cc, u[..i] + [u[i], u[i + 1]], u[i + 2..], c);
    SelectAppend(cc, u[..i] + [u[i + 1], u[i]], u[i + 2..], c);
    SelectAppend(cc, u[..i], [u[i], u[i + 1]], c);
    SelectAppend(cc, u[..i], [u[i + 1], u[i]], c);
    SelectPair(cc, u[i], u[i + 1], c);
  }

  // ----- sort_cc -----

  /** Non-starters from lo to hi, in order of their classes. */
  ghost predicate RunSorted(cc: Classes, s: seq<int>, lo: nat, hi: nat) {
    && lo <= hi <= |s|
    && (forall i :: lo <= i < hi ==> cc(s[i]) > 0)
    && (forall i, j :: lo <= i < j < hi ==> cc(s[i]) <= cc(s[j]))
  }

  /** The same, but for the character at q, which is not above anything after it. */
  ghost predicate RunBut(cc: Classes, s: seq<int>, lo: nat, hi: nat, q: nat) {
    && lo <= q < hi <= |s|
    && (forall i :: lo <= i < hi ==> cc(s[i]) > 0)
    && (forall i, j :: lo <= i < j < hi && j != q ==> cc(s[i]) <= cc(s[j]))
  }

  /** No reorderable pair within the first m characters. */
  ghost predicate OrderedBelow(cc: Classes, s: seq<int>, m: nat) {
    m <= |s| && forall i :: 0 <= i < m - 1 ==> !Reorderable(cc, s, i)
  }

  /** s with ch at position q: the buffer while a character is moved down through it. */
  function With(s: seq<int>, q: nat, ch: int): seq<int>
    requires q < |s|
  {
    s[q := ch]
  }

  lemma ShiftStep(cc: Classes, s0: seq<int>, path: seq<nat>, s: seq<int>, lo: nat, hi: nat, k: nat, ch: int)
    requires lo <= k && k + 1 < hi <= |s| && Reordered(cc, s0, path, With(s, k + 1, ch))
    requires RunBut(cc, With(s, k + 1, ch), lo, hi, k + 1) && cc(s[k]) > cc(ch)
    ensures var t := s[k + 1 := s[k]];
      Reordered(cc, s0, path + [k], With(t, k, ch)) && RunBut(cc, With(t, k, ch), lo, hi, k)
  {
    hide Reordered;
    var v := With(s, k + 1, ch);
    assert v[k] == s[k] && v[k + 1] == ch;
    assert Reorderable(cc, v, k);
    ReorderedStep(cc, s0, path, v, k);
    var t := s[k + 1 := s[k]];
    assert With(t, k, ch) == v[k := v[k + 1]][k + 1 := v[k]];
    RunStep(cc, v, With(t, k, ch), lo, hi, k);
  }

  lemma RunStep(cc: Classes, v: seq<int>, w: seq<int>, lo: nat, hi: nat, k: nat)
    requires lo <= k && k + 1 < hi <= |v| && RunBut(cc, v, lo, hi, k + 1) && cc(v[k]) > cc(v[k + 1])
    requires w == v[k := v[k + 1]][k + 1 := v[k]]
    ensures RunBut(cc, w, lo, hi, k)
  {}

  lemma RunEnd(cc: Classes, s: seq<int>, lo: nat, hi: nat, q: nat)
    requires RunBut(cc, s, lo, hi, q) && (q == lo || cc(s[q - 1]) <= cc(s[q]))
    ensures RunSorted(cc, s, lo, hi)
  {
    forall i, j | lo <= i < j < hi ensures cc(s[i]) <= cc(s[j]) {
      if j == q && i < q - 1 { assert cc(s[i]) <= cc(s[q - 1]); }
    }
  }

  lemma RunGrows(cc: Classes, s: seq<int>, lo: nat, j: nat)
    requires RunSorted(cc, s, lo, j) && j < |s| && cc(s[j]) > 0
    ensures RunBut(cc, With(s, j, s[j]), lo, j + 1, j) && With(s, j, s[j]) == s
  {}

  /** The innermost loop of sort_cc: moves the character at j down to its place in the run from lo. */
  method InsertMark(cc: Classes, buf: array<int>, lo: nat, j: nat, ghost s0: seq<int>,
      ghost path0: seq<nat>) returns (ghost path: seq<nat>)
    requires lo <= j < buf.Length && RunSorted(cc, buf[..], lo, j) && cc(buf[j]) > 0
    requires Reordered(cc, s0, path0, buf[..])
    modifies buf
    ensures RunSorted(cc, buf[..], lo, j + 1) && Reordered(cc, s0, path, buf[..])
    ensures forall i :: 0 <= i < buf.Length && !(lo <= i <= j) ==> buf[i] == old(buf[i])
  {
    hide Reordered, RunBut, RunSorted, With;
    var ch := buf[j];
    path := path0;
    RunGrows(cc, buf[..], lo, j);
    assert buf[..][j] == ch;
    var k: int := j - 1;
    while k >= lo && cc(buf[k]) > cc(ch)
      invariant lo - 1 <= k < j
      invariant Reordered(cc, s0, path, With(buf[..], k + 1, ch))
      invariant RunBut(cc, With(buf[..], k + 1, ch), lo, j + 1, k + 1)
      invariant forall i :: 0 <= i < buf.Length && !(lo <= i <= j) ==> buf[i] == old(buf[i])
    {
      ghost var s := buf[..];
      ShiftStep(cc, s0, path, s, lo, j + 1, k, ch);
      path := path + [k];
      buf[k + 1] := buf[k];
      assert buf[..] == s[k + 1 := s[k]];
      k := k - 1;
    }
    ghost var s := buf[..];
    buf[k + 1] := ch;
    assert buf[..] == s[k + 1 := ch];
    WithIs(s, k + 1, ch);
    assert k >= lo ==> buf[..][k] == buf[k] && buf[..][k + 1] == ch;
    RunEnd(cc, buf[..], lo, j + 1, k + 1);
  }

  lemma WithIs(s: seq<int>, q: nat, ch: int)
    requires q < |s|
    ensures With(s, q, ch) == s[q := ch]
  {}

  /** The run of non-starters from lo on is put in order; j is where it ends. */
  method SortRun(cc: Classes, buf: array<int>, lo: nat, ghost s0: seq<int>, ghost path0: seq<nat>) returns (j: nat,
      ghost path: seq<nat>)
    requires lo < buf.Length && cc(buf[lo]) > 0 && Reordered(cc, s0, path0, buf[..])
    modifies buf
    ensures lo < j <= buf.Length && RunSorted(cc, buf[..], lo, j) && (j < buf.Length ==> cc(buf[j]) == 0)
    ensures Reordered(cc, s0, path, buf[..])
    ensures forall i :: 0 <= i < buf.Length && !(lo <= i < j) ==> buf[i] == old(buf[i])
  {
    hide Reordered;
    path := path0;
    j := lo + 1;
    while j < buf.Length && cc(buf[j]) != 0
      invariant lo < j <= buf.Length && RunSorted(cc, buf[..], lo, j) && Reordered(cc, s0, path, buf[..])
      invariant forall i :: 0 <= i < buf.Length && !(lo <= i < j) ==> buf[i] == old(buf[i])
    {
      hide RunSorted;
      path := InsertMark(cc, buf, lo, j, s0, path);
      j := j + 1;
    }
  }

  /** A sorted run after an ordered beginning and a starter. */
  lemma OrderedRun(cc: Classes, s: seq<int>, t: seq<int>, lo: nat, j: nat)
    requires OrderedBelow(cc, s, lo) && |t| == |s| && (forall i :: 0 <= i < lo ==> t[i] == s[i])
    requires RunSorted(cc, t, lo, j) && (lo == 0 || (lo <= |s| && cc(s[lo - 1]) == 0))
    ensures OrderedBelow(cc, t, j)
  {
    forall i | 0 <= i < j - 1 ensures !Reorderable(cc, t, i) {
      if i < lo - 1 {
        assert !Reorderable(cc, s, i);
      } else if i >= lo {
        assert cc(t[i]) <= cc(t[i + 1]);
      }
    }
  }

  lemma OrderedStarter(cc: Classes, s: seq<int>, m: nat)
    requires OrderedBelow(cc, s, m) && m < |s| && cc(s[m]) == 0
    ensures OrderedBelow(cc, s, m + 1)
  {}

  /** sort_cc: the Canonical Ordering Algorithm. */
  method SortCC(cc: Classes, buf: array<int>) returns (ghost path: seq<nat>)
    modifies buf
    ensures Reordered(cc, old(buf[..]), path, buf[..]) && Ordered(cc, buf[..])
  {
    hide Reordered, RunSorted, OrderedBelow;
    ghost var s0 := buf[..];
    path := [];
    ReorderedSelf(cc, s0);
    var i := 0;
    OrderedNone(cc, s0);
    while i < buf.Length
      invariant 0 <= i <= buf.Length + 1
      invariant OrderedBelow(cc, buf[..], if i <= buf.Length then i else buf.Length) && Reordered(cc, s0, path, buf[..])
      invariant 0 < i <= buf.Length ==> cc(buf[i - 1]) == 0
    {
      assert buf[..][i] == buf[i];
      if cc(buf[i]) != 0 {
        ghost var s := buf[..];
        assert i > 0 ==> s[i - 1] == buf[i - 1];
        var j;
        j, path := SortRun(cc, buf, i, s0, path);
        OrderedRun(cc, s, buf[..], i, j);
        if j < buf.Length {
          assert buf[..][j] == buf[j];
          OrderedStarter(cc, buf[..], j);
        }
        i := j;
      } else {
        OrderedStarter(cc, buf[..], i);
      }
      i := i + 1;
    }
    OrderedAll(cc, buf[..]);
  }

  lemma OrderedNone(cc: Classes, s: seq<int>)
    ensures OrderedBelow(cc, s, 0)
  {}

  lemma OrderedAll(cc: Classes, s: seq<int>)
    requires OrderedBelow(cc, s, |s|)
    ensures Ordered(cc, s)
  {}

  // ----- canonical composition -----

  /** The last starter of s, or -1. */
  function LastStarter(cc: Classes, s: seq<int>): (p: int)
    ensures -1 <= p < |s|
    ensures p >= 0 ==> cc(s[p]) == 0
    ensures forall i :: p < i < |s| ==> cc(s[i]) > 0
  {
    if s == [] then -1
    else if cc(s[|s| - 1]) == 0 then |s| - 1
    else LastStarter(cc, s[..|s| - 1])
  }

  /** D115: c, which follows s, is blocked from the starter at p. */
  ghost predicate Blocked(cc: Classes, s: seq<int>, p: int, c: int) {
    exists i :: p < i < |s| && 0 <= i && (cc(s[i]) == 0 || cc(s[i]) >= cc(c))
  }

  /** D117: the Canonical Composition Algorithm, with `out` done and `rest` to come. */
  ghost function Composed(cc: Classes, pair: Composites, out: seq<int>, rest: seq<int>): seq<int>
    decreases |rest|
  {
    if rest == [] then out
    else
      var c, p := rest[0], LastStarter(cc, out);
      if p >= 0 && !Blocked(cc, out, p, c) && pair(out[p], c) != 0
      then Composed(cc, pair, out[p := pair(out[p], c)], rest[1..])
      else Composed(cc, pair, out + [c], rest[1..])
  }

  /** Composites are starters. */
  ghost predicate CompositesStart(cc: Classes, pair: Composites) {
    forall x, y :: pair(x, y) != 0 ==> cc(pair(x, y)) == 0
  }

  /** The characters kept after the last starter are in order of their classes, and not above the next one. */
  ghost predicate TailOrdered(cc: Classes, out: seq<int>, rest: seq<int>) {
    && (forall i, j :: LastStarter(cc, out) < i < j < |out| && 0 <= i ==> cc(out[i]) <= cc(out[j]))
    && (out != [] && rest != [] && cc(rest[0]) > 0 ==> cc(out[|out| - 1]) <= cc(rest[0]))
  }

  /** So the last kept character decides whether the next one is blocked. */
  lemma LastDecides(cc: Classes, out: seq<int>, rest: seq<int>)
    requires out != [] && rest != [] && TailOrdered(cc, out, rest)
    ensures var p := LastStarter(cc, out); Blocked(cc, out, p, rest[0]) <==>
      p < |out| - 1 && cc(out[|out| - 1]) >= cc(rest[0])
  {
    var p, n := LastStarter(cc, out), |out| - 1;
    if Blocked(cc, out, p, rest[0]) {
      var i :| p < i < |out| && 0 <= i && (cc(out[i]) == 0 || cc(out[i]) >= cc(rest[0]));
      assert i < n ==> cc(out[i]) <= cc(out[n]);
    }
  }

  lemma LastStarterPush(cc: Classes, out: seq<int>, c: int)
    ensures LastStarter(cc, out + [c]) == if cc(c) == 0 then |out| else LastStarter(cc, out)
  {
    assert (out + [c])[..|out|] == out;
  }

  lemma {:induction false} LastStarterReplace(cc: Classes, out: seq<int>, p: nat, x: int)
    requires p < |out| && p == LastStarter(cc, out) && cc(x) == 0
    ensures LastStarter(cc, out[p := x]) == p
    decreases |out|
  {
    var n := |out| - 1;
    if p < n {
      assert out[p := x][..n] == out[..n][p := x];
      LastStarterReplace(cc, out[..n], p, x);
    }
  }

  /** Keeping a character keeps the order. */
  lemma TailKeep(cc: Classes, s: seq<int>, out: seq<int>, i: nat)
    requires Ordered(cc, s) && i < |s| && TailOrdered(cc, out, s[i..])
    ensures TailOrdered(cc, out + [s[i]], s[i + 1..])
  {
    LastStarterPush(cc, out, s[i]);
    var n := |out|;
    assert s[i..][0] == s[i];
    if i + 1 < |s| {
      assert s[i + 1..][0] == s[i + 1];
      assert !Reorderable(cc, s, i);
    }
    var t := out + [s[i]];
    forall a, b | LastStarter(cc, t) < a < b < |t| && 0 <= a ensures cc(t[a]) <= cc(t[b]) {
      if b == n && a < n - 1 { assert cc(out[a]) <= cc(out[n - 1]); }
    }
  }

  lemma CompositeStarts(cc: Classes, pair: Composites, x: int, y: int)
    requires CompositesStart(cc, pair) && pair(x, y) != 0
    ensures cc(pair(x, y)) == 0
  {}

  /** So does composing one, when it is not blocked. */
  lemma TailCompose(cc: Classes, pair: Composites, s: seq<int>, out: seq<int>, i: nat)
    requires Ordered(cc, s) && CompositesStart(cc, pair) && i < |s| && out != [] && TailOrdered(cc, out, s[i..])
    requires var p := LastStarter(cc, out); p >= 0 && !Blocked(cc, out, p, s[i]) && pair(out[p], s[i]) != 0
    ensures var p := LastStarter(cc, out); TailOrdered(cc, out[p := pair(out[p], s[i])], s[i + 1..])
  {
    var p := LastStarter(cc, out);
    var x := pair(out[p], s[i]);
    CompositeStarts(cc, pair, out[p], s[i]);
    LastStarterReplace(cc, out, p, x);
    assert s[i..] != [] && s[i..][0] == s[i];
    LastDecides(cc, out, s[i..]);
    if i + 1 < |s| {
      assert s[i + 1..][0] == s[i + 1];
      assert !Reorderable(cc, s, i);
    }
  }

  lemma ComposedStep(cc: Classes, pair: Composites, out: seq<int>, s: seq<int>, i: nat)
    requires i < |s|
    ensures var p := LastStarter(cc, out);
      Composed(cc, pair, out, s[i..]) ==
        if p >= 0 && !Blocked(cc, out, p, s[i]) && pair(out[p], s[i]) != 0
        then Composed(cc, pair, out[p := pair(out[p], s[i])], s[i + 1..])
        else Composed(cc, pair, out + [s[i]], s[i + 1..])
  {
    assert s[i..][0] == s[i] && s[i..][1..] == s[i + 1..];
  }

  /** The search back for a starter: -1 when there is none, and whether the last kept character blocks. */
  method FindStarter(cc: Classes, buf: array<int>, n: nat, c: int) returns (p: int, blocked: bool)
    requires 1 <= n <= buf.Length && (forall x :: cc(x) < 256)
    ensures blocked <==> LastStarter(cc, buf[..n]) < n - 1 && cc(buf[n - 1]) >= cc(c)
    ensures !blocked ==> p == LastStarter(cc, buf[..n])
  {
    hide LastStarter;
    ghost var t := buf[..n];
    var last := cc(c);
    p := n - 1;
    while p >= 0
      invariant -1 <= p < n && last == (if p == n - 1 then cc(c) else 256)
      invariant forall i :: p < i < n ==> cc(t[i]) > 0
      invariant p < n - 1 ==> cc(t[n - 1]) < cc(c)
    {
      assert t[p] == buf[p];
      var k := cc(buf[p]);
      if k == 0 { break; }
      if k >= last {
        StarterAt(cc, t, p);
        return p, true;
      }
      last := 256;
      p := p - 1;
    }
    StarterAt(cc, t, p);
    assert t[n - 1] == buf[n - 1];
    blocked := false;
  }

  lemma StarterAt(cc: Classes, s: seq<int>, p: int)
    requires -1 <= p < |s| && (forall i :: p < i < |s| ==> cc(s[i]) > 0)
    ensures p == -1 || cc(s[p]) == 0 ==> LastStarter(cc, s) == p
    ensures p >= 0 && cc(s[p]) > 0 ==> LastStarter(cc, s) < p
  {}

  /** One turn of the composition loop: the character at i is composed with a starter or kept. */
  method ComposeOne(cc: Classes, pair: Composites, buf: array<int>, n: nat, i: nat, ghost s: seq<int>) returns (n': nat)
    requires Ordered(cc, s) && CompositesStart(cc, pair) && (forall x :: cc(x) < 256) && 1 <= n <= i < buf.Length == |s|
    requires buf[i..] == s[i..] && TailOrdered(cc, buf[..n], s[i..])
    modifies buf
    ensures n <= n' <= n + 1 && buf[i + 1..] == s[i + 1..] && TailOrdered(cc, buf[..n'], s[i + 1..])
    ensures Composed(cc, pair, buf[..n'], s[i + 1..]) == Composed(cc, pair, old(buf[..n]), s[i..])
  {
    hide Composed, TailOrdered, Ordered, LastStarter, CompositesStart, Blocked;
    ghost var out := buf[..n];
    assert buf[i] == buf[i..][0] == s[i];
    var p, blocked := FindStarter(cc, buf, n, buf[i]);
    assert out[n - 1] == buf[n - 1] && s[i..] != [] && s[i..][0] == s[i];
    LastDecides(cc, out, s[i..]);
    ComposedStep(cc, pair, out, s, i);
    ghost var rest := buf[i + 1..];
    assert rest == buf[i..][1..] == s[i + 1..];
    n' := n;
    if !blocked && p >= 0 && pair(buf[p], buf[i]) != 0 {
      assert out[p] == buf[p];
      TailCompose(cc, pair, s, out, i);
      buf[p] := pair(buf[p], buf[i]);
      assert buf[..n] == out[p := pair(out[p], s[i])] && buf[i + 1..] == rest;
    } else {
      assert !blocked && 0 <= p ==> out[p] == buf[p];
      TailKeep(cc, s, out, i);
      buf[n] := buf[i];
      assert buf[..n + 1] == out + [s[i]] && buf[i + 1..] == rest;
      n' := n + 1;
    }
  }

  /** The composition loop of unicode_normalize, in place; the first n characters are the result. */
  method Compose(cc: Classes, pair: Composites, buf: array<int>) returns (n: nat)
    requires Ordered(cc, buf[..]) && CompositesStart(cc, pair) && buf.Length >= 1 && (forall x :: cc(x) < 256)
    modifies buf
    ensures n <= buf.Length && buf[..n] == Composed(cc, pair, old(buf[..1]), old(buf[1..]))
  {
    hide Composed, TailOrdered, Ordered, CompositesStart;
    ghost var s := buf[..];
    var i := 1;
    n := 1;
    assert buf[..1] == s[..1] && buf[1..] == s[1..];
    TailStart(cc, s);
    while i < buf.Length
      invariant 1 <= n <= i <= buf.Length == |s| && buf[i..] == s[i..]
      invariant Composed(cc, pair, buf[..n], s[i..]) == Composed(cc, pair, s[..1], s[1..])
      invariant TailOrdered(cc, buf[..n], s[i..])
    {
      n := ComposeOne(cc, pair, buf, n, i, s);
      i := i + 1;
    }
    assert s[i..] == [];
    ComposedEnd(cc, pair, buf[..n]);
  }

  lemma ComposedEnd(cc: Classes, pair: Composites, out: seq<int>)
    ensures Composed(cc, pair, out, []) == out
  {}

  lemma TailStart(cc: Classes, s: seq<int>)
    requires Ordered(cc, s) && |s| >= 1
    ensures TailOrdered(cc, s[..1], s[1..])
  {
    if |s| > 1 { assert !Reorderable(cc, s, 0); }
  }
}
