/**
Operations on character sets (libunicode.c: cr_op, cr_compress, cr_invert,
cr_sort_and_remove_overlap). A set given by sorted bounds is read through the
parity of the number of bounds that are not above a point.
*/
module CharRanges {
  import opened CharSet
  import SortBase
  import Rqsort

  // ----- membership by parity -----

  /** How many bounds are not above c. */
  ghost function Count(s: seq<nat>, c: nat): nat {
    if s == [] then 0 else Count(s[..|s| - 1], c) + (if s[|s| - 1] <= c then 1 else 0)
  }

  ghost predicate Odd(s: seq<nat>, c: nat) {
    Count(s, c) % 2 == 1
  }

  lemma CountPush(s: seq<nat>, x: nat, c: nat)
    ensures Count(s + [x], c) == Count(s, c) + (if x <= c then 1 else 0)
  {
    assert (s + [x])[..|s|] == s;
  }

  lemma {:induction false} CountAll(s: seq<nat>, c: nat)
    requires forall i :: 0 <= i < |s| ==> s[i] <= c
    ensures Count(s, c) == |s|
    decreases |s|
  {
    if s != [] { CountAll(s[..|s| - 1], c); }
  }

  lemma {:induction false} CountNone(s: seq<nat>, c: nat)
    requires forall i :: 0 <= i < |s| ==> s[i] > c
    ensures Count(s, c) == 0
    decreases |s|
  {
    if s != [] { CountNone(s[..|s| - 1], c); }
  }

  lemma {:induction false} CountAppend(s: seq<nat>, t: seq<nat>, c: nat)
    ensures Count(s + t, c) == Count(s, c) + Count(t, c)
    decreases |t|
  {
    if t == [] {
      assert s + t == s;
    } else {
      var n := |t| - 1;
      CountAppend(s, t[..n], c);
      assert s + t == (s + t[..n]) + [t[n]] && t == t[..n] + [t[n]];
      CountPush(s + t[..n], t[n], c);
      CountPush(t[..n], t[n], c);
    }
  }

  /** In a sorted sequence the bounds not above c come first. */
  lemma CountSplit(s: seq<nat>, c: nat, n: nat)
    requires n <= |s| && (forall i :: 0 <= i < n ==> s[i] <= c) && (forall i :: n <= i < |s| ==> s[i] > c)
    ensures Count(s, c) == n
  {
    assert s == s[..n] + s[n..];
    CountAppend(s[..n], s[n..], c);
    CountAll(s[..n], c);
    CountNone(s[n..], c);
  }

  lemma {:induction false} Split(s: seq<nat>, c: nat) returns (n: nat)
    requires Sorted(s)
    ensures n <= |s| && (forall i :: 0 <= i < n ==> s[i] <= c) && (forall i :: n <= i < |s| ==> s[i] > c)
    decreases |s|
  {
    if s == [] {
      n := 0;
    } else if s[|s| - 1] <= c {
      n := |s|;
    } else {
      n := Split(s[..|s| - 1], c);
    }
  }

  /** A point is in the set exactly when an odd number of bounds is not above it. */
  lemma OddIsMember(s: seq<nat>, c: nat)
    requires Sorted(s) && |s| % 2 == 0
    ensures Contains(s, c) <==> Odd(s, c)
  {
    var n := Split(s, c);
    CountSplit(s, c, n);
    if n % 2 == 1 {
      var k := n / 2;
      assert Low(s, k) <= c < High(s, k);
    }
    if Contains(s, c) {
      var k :| 0 <= k < |s| / 2 && Low(s, k) <= c < High(s, k);
      assert s[2 * k] <= c < s[2 * k + 1];
      assert n == 2 * k + 1;
    }
  }

  // ----- cr_op -----

  datatype Op = Union | Inter | Xor

  predicate Apply(op: Op, x: bool, y: bool) {
    match op
    case Union => x || y
    case Inter => x && y
    case Xor => x != y
  }

  /** r holds the combination of the bounds taken so far, all of them not above v. */
  ghost predicate Merged(op: Op, a: seq<nat>, b: seq<nat>, r: seq<nat>, v: nat) {
    && Sorted(r)
    && (forall i :: 0 <= i < |r| ==> r[i] <= v)
    && (forall i :: 0 <= i < |a| ==> a[i] <= v)
    && (forall i :: 0 <= i < |b| ==> b[i] <= v)
    && (forall c: nat :: Odd(r, c) == Apply(op, Odd(a, c), Odd(b, c)))
  }

  lemma MergeStart(op: Op)
    ensures Merged(op, [], [], [], 0)
  {}

  /** Parity of a sequence below and above its largest elements. */
  lemma OddPush(s: seq<nat>, x: nat, v: nat, c: nat)
    requires (forall i :: 0 <= i < |s| ==> s[i] <= v) && v <= x
    ensures c < x ==> Odd(s + [x], c) == Odd(s, c)
    ensures c >= x ==> Odd(s + [x], c) == (|s| % 2 == 0) && Odd(s, c) == (|s| % 2 == 1)
  {
    CountPush(s, x, c);
    if c >= x { CountAll(s, c); }
  }

  lemma OddFull(s: seq<nat>, v: nat, c: nat)
    requires (forall i :: 0 <= i < |s| ==> s[i] <= v) && v <= c
    ensures Odd(s, c) == (|s| % 2 == 1)
  {
    CountAll(s, c);
  }

  /** Takes the bound x from one or both operands. */
  lemma MergeStep(op: Op, a: seq<nat>, b: seq<nat>, r: seq<nat>, v: nat, a': seq<nat>, b': seq<nat>, x: nat)
    requires Merged(op, a, b, r, v) && v <= x
    requires (a' == a + [x] && b' == b) || (a' == a && b' == b + [x]) || (a' == a + [x] && b' == b + [x])
    ensures var inside := Apply(op, |a'| % 2 == 1, |b'| % 2 == 1);
      Merged(op, a', b', if inside != (|r| % 2 == 1) then r + [x] else r, x)
  {
    hide Odd;
    var inside := Apply(op, |a'| % 2 == 1, |b'| % 2 == 1);
    var r' := if inside != (|r| % 2 == 1) then r + [x] else r;
    forall c: nat ensures Odd(r', c) == Apply(op, Odd(a', c), Odd(b', c)) {
      assert Odd(r, c) == Apply(op, Odd(a, c), Odd(b, c));
      OddPush(a, x, v, c);
      OddPush(b, x, v, c);
      OddPush(r, x, v, c);
      if c >= x {
        OddFull(a', x, c);
        OddFull(b', x, c);
        OddFull(r', x, c);
      }
    }
  }

  lemma MergeBounds(op: Op, a: seq<nat>, b: seq<nat>, r: seq<nat>, v: nat)
    requires Merged(op, a, b, r, v)
    requires |a| % 2 == 0 && |b| % 2 == 0
    ensures |r| % 2 == 0 && Sorted(r)
  {
    OddFull(a, v, v);
    OddFull(b, v, v);
    OddFull(r, v, v);
    assert Odd(r, v) == Apply(op, Odd(a, v), Odd(b, v));
  }

  // ----- cr_compress -----

  /** out is the first i bounds of s without empty and touching intervals; what follows is above it. */
  ghost predicate Squeezed(s: seq<nat>, out: seq<nat>, i: nat) {
    && i <= |s| && |out| <= i && |out| % 2 == 0 && i % 2 == 0
    && (forall p, q :: 0 <= p < q < |out| ==> out[p] < out[q])
    && (forall p, q :: 0 <= p < |out| && i <= q < |s| ==> out[p] < s[q])
    && (forall p :: 0 <= p < |out| ==> out[p] in s)
    && (forall c: nat :: Odd(out, c) == Odd(s[..i], c))
  }

  lemma SqueezeStart(s: seq<nat>)
    ensures Squeezed(s, [], 0)
  {}

  lemma OddPair(s: seq<nat>, i: nat, c: nat)
    requires i + 1 < |s| && s[i] == s[i + 1]
    ensures Odd(s[..i + 2], c) == Odd(s[..i], c)
  {
    assert s[..i + 2] == (s[..i] + [s[i]]) + [s[i + 1]];
    CountPush(s[..i] + [s[i]], s[i + 1], c);
    CountPush(s[..i], s[i], c);
  }

  lemma SqueezeEmpty(s: seq<nat>, out: seq<nat>, i: nat)
    requires Squeezed(s, out, i) && i + 1 < |s| && s[i] == s[i + 1]
    ensures Squeezed(s, out, i + 2)
  {
    hide Odd;
    forall c: nat ensures Odd(out, c) == Odd(s[..i + 2], c) { OddPair(s, i, c); }
  }

  /** Of the bounds from i to j + 1 only the outer two count for c. */
  ghost predicate OuterCount(s: seq<nat>, i: nat, j: nat, c: nat)
    requires i <= j && j + 1 < |s|
  {
    var left, right := if s[i] <= c then 1 else 0, if s[j + 1] <= c then 1 else 0;
    Count(s[..j + 2], c) % 2 == (Count(s[..i], c) + left + right) % 2
  }

  /** The intervals from i to j + 1 touch: their inner bounds cancel. */
  ghost predicate Run(s: seq<nat>, i: nat, j: nat) {
    && i <= j && j + 1 < |s| && (j - i) % 2 == 0
    && forall c: nat :: OuterCount(s, i, j, c)
  }

  lemma RunStart(s: seq<nat>, i: nat)
    requires i + 1 < |s|
    ensures Run(s, i, i)
  {
    hide Count;
    forall c: nat ensures OuterCount(s, i, i, c) {
      assert s[..i + 2] == (s[..i] + [s[i]]) + [s[i + 1]];
      CountPush(s[..i] + [s[i]], s[i + 1], c);
      CountPush(s[..i], s[i], c);
    }
  }

  lemma RunStep(s: seq<nat>, i: nat, j: nat)
    requires Run(s, i, j) && j + 3 < |s| && s[j + 1] == s[j + 2]
    ensures Run(s, i, j + 2)
  {
    hide Count;
    var k := j + 2;
    forall c: nat ensures OuterCount(s, i, k, c) {
      assert OuterCount(s, i, j, c);
      assert s[..j + 4] == (s[..j + 2] + [s[j + 2]]) + [s[j + 3]];
      CountPush(s[..j + 2] + [s[j + 2]], s[j + 3], c);
      CountPush(s[..j + 2], s[j + 2], c);
    }
  }

  lemma SqueezeRun(s: seq<nat>, out: seq<nat>, i: nat, j: nat)
    requires Sorted(s) && Squeezed(s, out, i) && Run(s, i, j) && s[i] != s[i + 1]
    requires (j + 3 < |s| ==> s[j + 1] != s[j + 2]) && |s| % 2 == 0
    ensures Squeezed(s, out + [s[i], s[j + 1]], j + 2)
  {
    hide Odd;
    var out' := out + [s[i], s[j + 1]];
    assert s[i] < s[i + 1] <= s[j + 1];
    forall c: nat ensures Odd(out', c) == Odd(s[..j + 2], c) { RunOdd(s, out, i, j, c); }
    forall p, q | 0 <= p < |out'| && j + 2 <= q < |s| ensures out'[p] < s[q] {
      assert s[j + 1] < s[j + 2] <= s[q];
    }
  }

  lemma RunOdd(s: seq<nat>, out: seq<nat>, i: nat, j: nat, c: nat)
    requires Run(s, i, j) && Odd(out, c) == Odd(s[..i], c)
    ensures Odd(out + [s[i], s[j + 1]], c) == Odd(s[..j + 2], c)
  {
    hide Count;
    assert OuterCount(s, i, j, c);
    assert out + [s[i], s[j + 1]] == (out + [s[i]]) + [s[j + 1]];
    CountPush(out + [s[i]], s[j + 1], c);
    CountPush(out, s[i], c);
  }

  /** cr_compress on the bounds themselves, in place. */
  method CompressPoints(s: seq<nat>) returns (r: seq<nat>)
    requires Sorted(s) && |s| % 2 == 0
    ensures |r| % 2 == 0 && (forall p, q :: 0 <= p < q < |r| ==> r[p] < r[q])
    ensures (forall p :: 0 <= p < |r| ==> r[p] in s)
    ensures forall c: nat :: Odd(r, c) == Odd(s, c)
  {
    hide Squeezed, Run, Odd;
    var pt := s;
    var i, k := 0, 0;
    SqueezeStart(s);
    assert pt[..0] == [];
    while i + 1 < |s|
      invariant 0 <= k <= i <= |s| && |pt| == |s| && i % 2 == 0
      invariant pt[i..] == s[i..] && Squeezed(s, pt[..k], i)
    {
      assert pt[i] == pt[i..][0] && pt[i + 1] == pt[i..][1];
      if pt[i] == pt[i + 1] {
        SqueezeEmpty(s, pt[..k], i);
        i := i + 2;
        assert pt[i..] == pt[i - 2..][2..];
      } else {
        pt, k, i := KeepRun(pt, s, k, i);
      }
    }
    r := pt[..k];
    assert s[..i] == s;
    Squeezing(s, r, i);
  }

  lemma Squeezing(s: seq<nat>, out: seq<nat>, i: nat)
    requires Squeezed(s, out, i) && s[..i] == s
    ensures |out| % 2 == 0 && (forall p, q :: 0 <= p < q < |out| ==> out[p] < out[q])
    ensures (forall p :: 0 <= p < |out| ==> out[p] in s) && forall c: nat :: Odd(out, c) == Odd(s, c)
  {}

  /** One run of touching intervals is copied down as one interval. */
  method KeepRun(pt: seq<nat>, ghost s: seq<nat>, k: nat, i: nat) returns (pt': seq<nat>, k': nat, i': nat)
    requires Sorted(s) && |s| % 2 == 0 && k <= i && i + 1 < |s| && |pt| == |s| && i % 2 == 0 && pt[i..] == s[i..]
    requires Squeezed(s, pt[..k], i) && s[i] != s[i + 1]
    ensures k' <= i' <= |s| && |pt'| == |s| && i' % 2 == 0 && i < i'
    ensures pt'[i'..] == s[i'..] && Squeezed(s, pt'[..k'], i')
  {
    hide Squeezed, Run, Odd;
    var j := FindRun(pt, s, i);
    ghost var out := pt[..k];
    SqueezeRun(s, out, i, j);
    assert pt[i] == pt[i..][0] && pt[j + 1] == pt[i..][j + 1 - i];
    pt' := pt[k := pt[i]][k + 1 := pt[j + 1]];
    assert pt'[..k + 2] == out + [s[i], s[j + 1]];
    assert pt'[j + 2..] == pt[i..][j + 2 - i..] == s[j + 2..];
    k', i' := k + 2, j + 2;
  }

  /** The inner loop of cr_compress: the last interval of a run of touching ones. */
  method FindRun(pt: seq<nat>, ghost s: seq<nat>, i: nat) returns (j: nat)
    requires |pt| == |s| && i + 1 < |s| && pt[i..] == s[i..]
    ensures Run(s, i, j) && i <= j && j + 1 < |s| && (j - i) % 2 == 0 && (j + 3 < |s| ==> s[j + 1] != s[j + 2])
  {
    j := i;
    RunStart(s, i);
    while j + 3 < |pt| && pt[j + 1] == pt[j + 2]
      invariant i <= j && j + 1 < |s| && (j - i) % 2 == 0 && Run(s, i, j)
    {
      hide Run;
      assert pt[j + 1] == pt[i..][j + 1 - i] && pt[j + 2] == pt[i..][j + 2 - i];
      RunStep(s, i, j);
      j := j + 2;
    }
    assert j + 3 < |s| ==> pt[j + 1] == pt[i..][j + 1 - i] && pt[j + 2] == pt[i..][j + 2 - i];
  }

  // ----- the class -----

  ghost predicate Bounded(s: seq<nat>) {
    forall i :: 0 <= i < |s| ==> s[i] <= POINT_MAX
  }

  lemma CompressedCanonical(s: seq<nat>, r: seq<nat>)
    requires Sorted(s) && |s| % 2 == 0 && Bounded(s)
    requires |r| % 2 == 0 && (forall p, q :: 0 <= p < q < |r| ==> r[p] < r[q])
    requires (forall p :: 0 <= p < |r| ==> r[p] in s)
    requires forall c: nat :: Odd(r, c) == Odd(s, c)
    ensures Canonical(r) && forall c: nat :: Contains(r, c) <==> Contains(s, c)
  {
    hide Odd, Contains;
    forall c: nat ensures Contains(r, c) <==> Contains(s, c) {
      OddIsMember(r, c);
      OddIsMember(s, c);
    }
  }

  lemma MergedMembers(op: Op, a: seq<nat>, b: seq<nat>, r: seq<nat>, v: nat, c: nat)
    requires Merged(op, a, b, r, v) && Sorted(a) && Sorted(b) && |a| % 2 == 0 && |b| % 2 == 0
    ensures |r| % 2 == 0 && Sorted(r) && (Contains(r, c) <==> Apply(op, Contains(a, c), Contains(b, c)))
  {
    hide Odd, Contains;
    MergeBounds(op, a, b, r, v);
    OddIsMember(a, c);
    OddIsMember(b, c);
    OddIsMember(r, c);
    assert Odd(r, c) == Apply(op, Odd(a, c), Odd(b, c));
  }

  /** Complement within [0, UINT32_MAX). */
  lemma InvertMembers(s: seq<nat>, c: nat)
    requires Sorted(s) && |s| % 2 == 0 && Bounded(s)
    ensures var t := [0] + s + [POINT_MAX];
      Sorted(t) && |t| % 2 == 0 && Bounded(t) && (Contains(t, c) <==> c < POINT_MAX && !Contains(s, c))
  {
    hide Contains, Odd;
    var t := [0] + s + [POINT_MAX];
    assert |t| == |s| + 2;
    InvertSorted(s);
    OddIsMember(t, c);
    OddIsMember(s, c);
    InvertOdd(s, c);
  }

  lemma InvertOdd(s: seq<nat>, c: nat)
    requires Bounded(s) && |s| % 2 == 0
    ensures Odd([0] + s + [POINT_MAX], c) <==> c < POINT_MAX && !Odd(s, c)
  {
    hide Count;
    CountAppend([0] + s, [POINT_MAX], c);
    CountAppend([0], s, c);
    CountOne(0, c);
    CountOne(POINT_MAX, c);
    if c >= POINT_MAX { CountAll(s, c); }
  }

  lemma CountOne(x: nat, c: nat)
    ensures Count([x], c) == if x <= c then 1 else 0
  {
    CountPush([], x, c);
    assert [] + [x] == [x];
  }

  lemma InvertSorted(s: seq<nat>)
    requires Sorted(s) && Bounded(s)
    ensures Sorted([0] + s + [POINT_MAX]) && Bounded([0] + s + [POINT_MAX])
  {}

  /** A set has only one canonical form. */
  lemma {:induction false} CanonicalUnique(s: seq<nat>, t: seq<nat>)
    requires Canonical(s) && Canonical(t) && forall c: nat :: Contains(s, c) <==> Contains(t, c)
    ensures s == t
  {
    hide Contains;
    forall c: nat ensures Odd(s, c) == Odd(t, c) {
      OddIsMember(s, c);
      OddIsMember(t, c);
    }
    SameBounds(s, t);
  }

  /** Strictly increasing bounds are determined by the parities. */
  lemma {:induction false} SameBounds(s: seq<nat>, t: seq<nat>)
    requires (forall i, j :: 0 <= i < j < |s| ==> s[i] < s[j]) && (forall i, j :: 0 <= i < j < |t| ==> t[i] < t[j])
    requires forall c: nat :: Odd(s, c) == Odd(t, c)
    ensures s == t
    decreases |s| + |t|
  {
    hide Odd;
    if s != [] || t != [] {
      LastBound(s, t);
      LastBound(t, s);
      var n, m := |s| - 1, |t| - 1;
      assert s[n] == t[m] by { LastEqual(s, t); }
      forall c: nat ensures Odd(s[..n], c) == Odd(t[..m], c) {
        OddDrop(s, c);
        OddDrop(t, c);
      }
      SameBounds(s[..n], t[..m]);
      assert s == s[..n] + [s[n]] && t == t[..m] + [t[m]];
    }
  }

  lemma OddDrop(s: seq<nat>, c: nat)
    requires s != []
    ensures Odd(s, c) == (Odd(s[..|s| - 1], c) != (s[|s| - 1] <= c))
  {}

  /** If one sequence has bounds, so has the other. */
  lemma LastBound(s: seq<nat>, t: seq<nat>)
    requires (forall i, j :: 0 <= i < j < |s| ==> s[i] < s[j]) && forall c: nat :: Odd(s, c) == Odd(t, c)
    ensures s != [] ==> t != []
  {
    if s != [] {
      CountSplit(s, s[0], 1);
      assert Odd(t, s[0]);
      OddEmpty(s[0]);
    }
  }

  lemma OddEmpty(c: nat)
    ensures !Odd([], c)
  {}

  lemma LastEqual(s: seq<nat>, t: seq<nat>)
    requires (forall i, j :: 0 <= i < j < |s| ==> s[i] < s[j]) && (forall i, j :: 0 <= i < j < |t| ==> t[i] < t[j])
    requires s != [] && t != [] && forall c: nat :: Odd(s, c) == Odd(t, c)
    ensures s[|s| - 1] == t[|t| - 1]
  {
    LastNotAbove(s, t);
    LastNotAbove(t, s);
  }

  lemma LastNotAbove(s: seq<nat>, t: seq<nat>)
    requires (forall i, j :: 0 <= i < j < |s| ==> s[i] < s[j]) && (forall i, j :: 0 <= i < j < |t| ==> t[i] < t[j])
    requires s != [] && t != [] && forall c: nat :: Odd(s, c) == Odd(t, c)
    ensures s[|s| - 1] <= t[|t| - 1]
  {
    hide Odd;
    var x := s[|s| - 1];
    if x > 0 {
      LastFlips(s);
      StableAbove(t, x);
      assert Odd(s, x) == Odd(t, x) && Odd(s, x - 1) == Odd(t, x - 1);
    }
  }

  lemma LastFlips(s: seq<nat>)
    requires (forall i, j :: 0 <= i < j < |s| ==> s[i] < s[j]) && s != [] && s[|s| - 1] > 0
    ensures Odd(s, s[|s| - 1]) != Odd(s, s[|s| - 1] - 1)
  {
    CountSplit(s, s[|s| - 1] - 1, |s| - 1);
    CountSplit(s, s[|s| - 1], |s|);
  }

  lemma StableAbove(t: seq<nat>, x: nat)
    requires (forall i, j :: 0 <= i < j < |t| ==> t[i] < t[j]) && t != [] && x > 0
    ensures x > t[|t| - 1] ==> Odd(t, x) == Odd(t, x - 1)
  {
    if x > t[|t| - 1] {
      CountSplit(t, x - 1, |t|);
      CountSplit(t, x, |t|);
    }
  }

  // ----- cr_sort_and_remove_overlap -----

  type Interval = (nat, nat)

  /** point_cmp: intervals compare by their lower bounds. */
  function PointCmp(x: Interval, y: Interval): int {
    (if x.0 > y.0 then 1 else 0) - (if x.0 < y.0 then 1 else 0)
  }

  lemma PointOrder()
    ensures SortBase.TotalPreorder(PointCmp)
  {}

  function Intervals(pts: seq<nat>): (r: seq<Interval>)
    ensures |r| == |pts| / 2 && forall k :: 0 <= k < |r| ==> r[k] == (Low(pts, k), High(pts, k))
  {
    seq(|pts| / 2, k requires 0 <= k < |pts| / 2 => (Low(pts, k), High(pts, k)))
  }

  /** Membership in some interval, whatever their order. */
  ghost predicate Covers(r: seq<Interval>, c: nat) {
    exists k :: 0 <= k < |r| && r[k].0 <= c < r[k].1
  }

  lemma CoversContains(pts: seq<nat>, c: nat)
    ensures Covers(Intervals(pts), c) <==> Contains(pts, c)
  {
    var r := Intervals(pts);
    if Covers(r, c) {
      var k :| 0 <= k < |r| && r[k].0 <= c < r[k].1;
      assert Low(pts, k) <= c < High(pts, k);
    }
    if Contains(pts, c) {
      var k :| 0 <= k < |pts| / 2 && Low(pts, k) <= c < High(pts, k);
      assert r[k].0 <= c < r[k].1;
    }
  }

  lemma CoversPermuted(r: seq<Interval>, t: seq<Interval>, c: nat)
    requires multiset(r) == multiset(t)
    ensures Covers(r, c) ==> Covers(t, c)
  {
    if Covers(r, c) {
      var k :| 0 <= k < |r| && r[k].0 <= c < r[k].1;
      assert r[k] in multiset(t);
      var m :| 0 <= m < |t| && t[m] == r[k];
    }
  }

  /** No interval has its bounds the wrong way round. */
  ghost predicate Proper(r: seq<Interval>) {
    forall k :: 0 <= k < |r| ==> r[k].0 <= r[k].1
  }

  lemma OrderedPermuted(r: seq<Interval>, t: seq<Interval>)
    requires multiset(r) == multiset(t) && Proper(r)
    ensures Proper(t)
  {
    forall k | 0 <= k < |t| ensures t[k].0 <= t[k].1 {
      assert t[k] in multiset(r);
      var m :| 0 <= m < |r| && r[m] == t[k];
    }
  }

  /** Intervals in increasing order with a gap after each. */
  ghost predicate Gapped(r: seq<Interval>) {
    forall j, k :: 0 <= j < k < |r| ==> r[j].1 < r[k].0
  }

  ghost predicate ByStart(r: seq<Interval>) {
    forall j, k :: 0 <= j < k < |r| ==> r[j].0 <= r[k].0
  }

  /** The interval (x, y) covers what intervals i0 to i of the sorted list cover. */
  ghost predicate Absorbed(r: seq<Interval>, i0: nat, i: nat, x: nat, y: nat) {
    && i0 < i <= |r| && x == r[i0].0 && (Proper(r) ==> x <= y)
    && (forall c: nat :: x <= c < y <==> Covers(r[i0..i], c))
  }

  lemma CoversPush(r: seq<Interval>, v: Interval, c: nat)
    ensures Covers(r + [v], c) <==> Covers(r, c) || v.0 <= c < v.1
  {
    var t := r + [v];
    if Covers(r, c) {
      var k :| 0 <= k < |r| && r[k].0 <= c < r[k].1;
      assert t[k] == r[k];
    }
    if v.0 <= c < v.1 { assert t[|r|] == v; }
    if Covers(t, c) {
      var k :| 0 <= k < |t| && t[k].0 <= c < t[k].1;
      if k < |r| { assert r[k] == t[k]; }
    }
  }

  lemma AbsorbStart(r: seq<Interval>, i: nat)
    requires ByStart(r) && i < |r|
    ensures Absorbed(r, i, i + 1, r[i].0, r[i].1)
  {
    hide Covers;
    var t := r[i..i + 1];
    assert t == [] + [r[i]];
    forall c: nat ensures r[i].0 <= c < r[i].1 <==> Covers(t, c) {
      CoversPush([], r[i], c);
      CoversNothing(c);
    }
  }

  lemma CoversNothing(c: nat)
    ensures !Covers([], c)
  {}

  lemma AbsorbStep(r: seq<Interval>, i0: nat, i: nat, x: nat, y: nat)
    requires ByStart(r) && Absorbed(r, i0, i, x, y) && i < |r| && r[i].0 <= y
    ensures Absorbed(r, i0, i + 1, x, if r[i].1 <= y then y else r[i].1)
  {
    hide Covers;
    var z := if r[i].1 <= y then y else r[i].1;
    var t := r[i0..i + 1];
    assert t == r[i0..i] + [r[i]];
    forall c: nat ensures x <= c < z <==> Covers(t, c) {
      CoversPush(r[i0..i], r[i], c);
      assert x <= c < y <==> Covers(r[i0..i], c);
    }
  }

  /** What the outer loop has written covers what it has read, and ends before what is left. */
  ghost predicate Flattened(r: seq<Interval>, out: seq<Interval>, i: nat) {
    && i <= |r| && |out| <= i && Gapped(out) && (Proper(r) ==> Proper(out))
    && (forall j, k :: 0 <= j < |out| && i <= k < |r| ==> out[j].1 < r[k].0)
    && (forall c: nat :: Covers(out, c) <==> Covers(r[..i], c))
  }

  lemma FlattenStart(r: seq<Interval>)
    ensures Flattened(r, [], 0)
  {
    assert r[..0] == [];
  }

  lemma FlattenStep(r: seq<Interval>, out: seq<Interval>, i0: nat, i: nat, x: nat, y: nat)
    requires ByStart(r) && Flattened(r, out, i0) && Absorbed(r, i0, i, x, y) && (i < |r| ==> r[i].0 > y)
    ensures Flattened(r, out + [(x, y)], i)
  {
    hide Covers;
    assert r[..i] == r[..i0] + r[i0..i];
    forall c: nat ensures Covers(out + [(x, y)], c) <==> Covers(r[..i], c) {
      CoversPush(out, (x, y), c);
      CoversJoin(r[..i0], r[i0..i], c);
      assert Covers(out, c) <==> Covers(r[..i0], c);
      assert x <= c < y <==> Covers(r[i0..i], c);
    }
  }

  lemma CoversJoin(r: seq<Interval>, t: seq<Interval>, c: nat)
    ensures Covers(r + t, c) <==> Covers(r, c) || Covers(t, c)
  {
    var u := r + t;
    if Covers(r, c) {
      var k :| 0 <= k < |r| && r[k].0 <= c < r[k].1;
      assert u[k] == r[k];
    }
    if Covers(t, c) {
      var k :| 0 <= k < |t| && t[k].0 <= c < t[k].1;
      assert u[|r| + k] == t[k];
    }
    if Covers(u, c) {
      var k :| 0 <= k < |u| && u[k].0 <= c < u[k].1;
      if k < |r| { assert r[k] == u[k]; } else { assert t[k - |r|] == u[k]; }
    }
  }

  /** The inner loop: extends the interval from i0 as far as it overlaps or touches. */
  method Absorb(a: array<Interval>, ghost r: seq<Interval>, i0: nat) returns (x: nat, y: nat, i: nat)
    requires a.Length == |r| && i0 < |r| && ByStart(r) && a[i0..] == r[i0..]
    ensures Absorbed(r, i0, i, x, y) && i0 < i <= |r| && (i < |r| ==> r[i].0 > y)
  {
    assert a[i0] == a[i0..][0];
    x, y := a[i0].0, a[i0].1;
    i := i0 + 1;
    AbsorbStart(r, i0);
    while i < a.Length
      invariant i0 < i <= |r| && Absorbed(r, i0, i, x, y)
    {
      hide Absorbed;
      assert a[i] == a[i0..][i - i0];
      var (x1, y1) := a[i];
      if x1 > y { break; }
      AbsorbStep(r, i0, i, x, y);
      if y1 > y { y := y1; }
      i := i + 1;
    }
  }

  /** The merge of the sorted intervals, in place. */
  method Flatten(a: array<Interval>) returns (j: nat)
    requires ByStart(a[..])
    modifies a
    ensures j <= a.Length && Gapped(a[..j]) && (Proper(old(a[..])) ==> Proper(a[..j]))
    ensures forall c: nat :: Covers(a[..j], c) <==> Covers(old(a[..]), c)
  {
    ghost var r := a[..];
    j := 0;
    var i := 0;
    FlattenStart(r);
    assert a[..0] == [] && a[0..] == r[0..];
    while i < a.Length
      invariant 0 <= j <= i <= a.Length == |r| && a[i..] == r[i..]
      invariant Flattened(r, a[..j], i)
    {
      hide Flattened, Absorbed, Covers, ByStart, Proper;
      var x, y, i' := Absorb(a, r, i);
      ghost var out := a[..j];
      FlattenStep(r, out, i, i', x, y);
      ghost var rest := a[i'..];
      assert rest == a[i..][i' - i..];
      a[j] := (x, y);
      assert a[..j + 1] == out + [(x, y)] && a[i'..] == rest;
      j, i := j + 1, i';
    }
    assert r[..i] == r;
  }

  /** The bounds of a list of intervals. */
  function Bounds(r: seq<Interval>): (pts: seq<nat>)
    ensures |pts| == 2 * |r| && forall k :: 0 <= k < |r| ==> r[k] == (Low(pts, k), High(pts, k))
  {
    var pts := seq(2 * |r|, k requires 0 <= k < 2 * |r| => if k % 2 == 0 then r[k / 2].0 else r[k / 2].1);
    assert forall k :: 0 <= k < |r| ==> pts[2 * k] == r[k].0 && pts[2 * k + 1] == r[k].1 by {
      forall k | 0 <= k < |r| ensures pts[2 * k] == r[k].0 && pts[2 * k + 1] == r[k].1 {}
    }
    pts
  }

  lemma BoundsRoundTrip(r: seq<Interval>)
    ensures Intervals(Bounds(r)) == r
  {}

  lemma BoundOf(r: seq<Interval>, pts: seq<nat>, i: nat)
    requires |pts| == 2 * |r| && i < |pts| && forall k :: 0 <= k < |r| ==> r[k] == (Low(pts, k), High(pts, k))
    ensures pts[i] == if i % 2 == 0 then r[i / 2].0 else r[i / 2].1
  {
    var k := i / 2;
    assert r[k] == (Low(pts, k), High(pts, k));
    assert i == 2 * k + i % 2;
  }

  lemma BoundsOrder(r: seq<Interval>, m: nat, n: nat)
    requires Gapped(r) && Proper(r) && m <= n < |r|
    ensures r[m].0 <= r[m].1 && r[n].0 <= r[n].1 && (m < n ==> r[m].1 < r[n].0)
  {}

  /** Merged intervals give sorted bounds; only an interval itself may be empty. */
  lemma GappedSorted(r: seq<Interval>)
    requires Gapped(r) && Proper(r)
    ensures Sorted(Bounds(r))
  {
    var pts := Bounds(r);
    hide Bounds, Gapped, Proper;
    forall i, j | 0 <= i < j < |pts| ensures pts[i] <= pts[j] {
      BoundOf(r, pts, i);
      BoundOf(r, pts, j);
      BoundsOrder(r, i / 2, j / 2);
      assert i / 2 == j / 2 ==> i % 2 == 0 && j % 2 == 1;
    }
  }

  lemma SortedByStart(r: seq<Interval>)
    requires SortBase.Sorted(PointCmp, r, 0, |r|)
    ensures ByStart(r)
  {
    forall j, k | 0 <= j < k < |r| ensures r[j].0 <= r[k].0 {
      assert PointCmp(r[j], r[k]) <= 0;
    }
  }

  class CharRange {
    var points: seq<nat>

    constructor ()
      ensures points == []
    {
      points := [];
    }

    /** cr_compress */
    method Compress()
      requires Sorted(points) && |points| % 2 == 0 && Bounded(points)
      modifies this
      ensures Canonical(points) && forall c: nat :: Contains(points, c) <==> Contains(old(points), c)
    {
      hide Odd, Contains, Canonical;
      var r := CompressPoints(points);
      CompressedCanonical(points, r);
      points := r;
    }

    /** cr_op: adds to an empty set the combination of two sets given by sorted bounds, in canonical form. */
    method Combine(a: seq<nat>, b: seq<nat>, op: Op)
      requires points == [] && Sorted(a) && Sorted(b) && |a| % 2 == 0 && |b| % 2 == 0 && Bounded(a) && Bounded(b)
      modifies this
      ensures Canonical(points)
      ensures op == Union ==> forall c: nat :: Contains(points, c) <==> Contains(a, c) || Contains(b, c)
      ensures op == Inter ==> forall c: nat :: Contains(points, c) <==> Contains(a, c) && Contains(b, c)
      ensures op == Xor ==> forall c: nat :: Contains(points, c) <==> Contains(a, c) != Contains(b, c)
    {
      hide Odd, Contains, Canonical;
      var i, j := 0, 0;
      ghost var v: nat := 0;
      MergeStart(op);
      assert a[..0] == [] && b[..0] == [];
      while i < |a| || j < |b|
        invariant 0 <= i <= |a| && 0 <= j <= |b| && v <= POINT_MAX
        invariant (i < |a| ==> v <= a[i]) && (j < |b| ==> v <= b[j])
        invariant Merged(op, a[..i], b[..j], points, v)
        decreases |a| - i + |b| - j
      {
        hide Merged;
        var i', j', x := NextPoint(a, b, i, j);
        MergeStep(op, a[..i], b[..j], points, v, a[..i'], b[..j'], x);
        var inside := Apply(op, i' % 2 == 1, j' % 2 == 1);
        if inside != (|points| % 2 == 1) {
          points := points + [x];
        }
        i, j, v := i', j', x;
      }
      assert a[..i] == a && b[..j] == b;
      assert Bounded(points) && |points| % 2 == 0 by { MergeBounds(op, a, b, points, v); }
      forall c: nat ensures Contains(points, c) <==> Apply(op, Contains(a, c), Contains(b, c)) {
        MergedMembers(op, a, b, points, v, c);
      }
      Compress();
    }

    /** cr_invert: the complement within [0, UINT32_MAX). */
    method Invert()
      requires Sorted(points) && |points| % 2 == 0 && Bounded(points)
      modifies this
      ensures Canonical(points)
      ensures forall c: nat :: Contains(points, c) <==> c < 0xffff_ffff && !Contains(old(points), c)
    {
      hide Contains, Canonical;
      ghost var s := points;
      InvertMembers(s, 0);
      forall c: nat ensures Contains([0] + s + [POINT_MAX], c) <==>
        c < POINT_MAX && !Contains(s, c) { InvertMembers(s, c); }
      points := [0] + points + [POINT_MAX];
      Compress();
    }

    /** cr_sort_and_remove_overlap: the same set with its intervals in order and apart. */
    method SortAndRemoveOverlap()
      requires |points| % 2 == 0
      modifies this
      ensures |points| % 2 == 0 && Gapped(Intervals(points)) && (Proper(Intervals(old(points))) ==> Sorted(points))
      ensures forall c: nat :: Contains(points, c) <==> Contains(old(points), c)
    {
      hide Contains, Covers, Gapped, Proper, ByStart, Bounds, Intervals, SortBase.TotalPreorder, SortBase.Sorted;
      ghost var s := points;
      var r := Intervals(points);
      var a := new Interval[|r|](i requires 0 <= i < |r| => r[i]);
      assert a[..] == r;
      PointOrder();
      Rqsort.Sort(a, PointCmp);
      ghost var t := a[..];
      if Proper(r) { OrderedPermuted(r, t); }
      SortedByStart(t);
      var j := Flatten(a);
      points := Bounds(a[..j]);
      if Proper(r) { GappedSorted(a[..j]); }
      BoundsRoundTrip(a[..j]);
      forall c: nat ensures Contains(points, c) <==> Contains(s, c) {
        CoversContains(points, c);
        CoversContains(s, c);
        CoversPermuted(r, t, c);
        CoversPermuted(t, r, c);
      }
    }
  }

  /** One more bound from a, from b, or from both when they agree. */
  method NextPoint(a: seq<nat>, b: seq<nat>, i: nat, j: nat) returns (i': nat, j': nat, x: nat)
    requires i <= |a| && j <= |b| && (i < |a| || j < |b|) && Sorted(a) && Sorted(b) && Bounded(a) && Bounded(b)
    ensures i <= i' <= |a| && j <= j' <= |b| && i' + j' > i + j && x <= POINT_MAX
    ensures (i' == i + 1 && i < |a| && x == a[i]) || (i' == i && j' == j + 1 && j < |b| && x == b[j])
    ensures (a[..i'] == a[..i] + [x] && b[..j'] == b[..j]) || (a[..i'] == a[..i] && b[..j'] == b[..j] + [x]) ||
      (a[..i'] == a[..i] + [x] && b[..j'] == b[..j] + [x])
    ensures (i' < |a| ==> x <= a[i']) && (j' < |b| ==> x <= b[j'])
  {
    i', j' := i, j;
    if i < |a| && j < |b| {
      if a[i] < b[j] {
        x, i' := a[i], i + 1;
      } else if a[i] == b[j] {
        x, i', j' := a[i], i + 1, j + 1;
      } else {
        x, j' := b[j], j + 1;
      }
    } else if i < |a| {
      x, i' := a[i], i + 1;
    } else {
      x, j' := b[j], j + 1;
    }
  }

  /** Inverting a canonical set twice gives it back. */
  method InvertTwice(r: CharRange)
    requires Canonical(r.points)
    modifies r
    ensures r.points == old(r.points)
  {
    hide Contains;
    ghost var s := r.points;
    r.Invert();
    r.Invert();
    forall c: nat ensures Contains(r.points, c) <==> Contains(s, c) { MemberBelow(s, c); }
    CanonicalUnique(r.points, s);
  }

  lemma MemberBelow(s: seq<nat>, c: nat)
    requires Canonical(s)
    ensures Contains(s, c) ==> c < POINT_MAX
  {
    if Contains(s, c) {
      var k :| 0 <= k < |s| / 2 && Low(s, k) <= c < High(s, k);
      assert s[2 * k + 1] <= POINT_MAX;
    }
  }
}
