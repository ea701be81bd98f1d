/**
rqsort (cutils.c): quicksort with a three-way partition, an explicit stack of
50 ranges, heapsort when the depth runs out and insertion sort at the end.
*/
module Rqsort {
  import opened SortBase
  import InsertionSort
  import HeapSort
  import opened Partition

  const STACK_SIZE: nat := 50

  /** An entry of the stack: a range still to be sorted. */
  datatype Frame = Frame(base: nat, count: nat, depth: nat)

  // ----- choosing the pivot -----

  /** med3, on positions */
  function Med3<T>(cmp: (T, T) -> int, s: seq<T>, p: nat, q: nat, r: nat): (m: nat)
    requires p < |s| && q < |s| && r < |s|
    ensures m == p || m == q || m == r
  {
    var a, b, c := s[p], s[q], s[r];
    if cmp(a, b) < 0 then
      (if cmp(b, c) < 0 then q else if cmp(a, c) < 0 then r else p)
    else
      (if cmp(b, c) > 0 then q else if cmp(a, c) < 0 then p else r)
  }

  /** The chosen element has one of the others not above and one not below it. */
  lemma MedianOfThree<T(!new)>(cmp: (T, T) -> int, s: seq<T>, p: nat, q: nat, r: nat)
    requires TotalPreorder(cmp) && p < |s| && q < |s| && r < |s|
    ensures var m := Med3(cmp, s, p, q, r);
      || (m == p && ((cmp(s[q], s[p]) <= 0 && cmp(s[p], s[r]) <= 0) || (cmp(s[r], s[p]) <= 0 && cmp(s[p], s[q]) <= 0)))
      || (m == q && ((cmp(s[p], s[q]) <= 0 && cmp(s[q], s[r]) <= 0) || (cmp(s[r], s[q]) <= 0 && cmp(s[q], s[p]) <= 0)))
      || (m == r && ((cmp(s[p], s[r]) <= 0 && cmp(s[r], s[q]) <= 0) || (cmp(s[q], s[r]) <= 0 && cmp(s[r], s[p]) <= 0)))
  {
    hide TotalPreorder;
    Flip(cmp, s[p], s[q]);
    Flip(cmp, s[q], s[r]);
    Flip(cmp, s[p], s[r]);
  }

  /** Moves the median of the elements at 1/4, 1/2 and 3/4 to the front. */
  method PlacePivot<T>(a: array<T>, cmp: (T, T) -> int, lo: nat, n: nat)
    requires lo + n <= a.Length && n > 6
    modifies a
    ensures Rearranged(old(a[..]), a[..], lo, lo + n)
    ensures var m4 := n / 4; a[lo] == old(a[Med3(cmp, a[..], lo + m4, lo + 2 * m4, lo + 3 * m4)])
  {
    hide Rearranged;
    var m4 := n / 4;
    var m := Med3(cmp, a[..], lo + m4, lo + 2 * m4, lo + 3 * m4);
    Swap(a, lo, m, lo, lo + n);
  }

  /** Partitions the n elements from lo on around a median of three. */
  method Split<T(!new)>(a: array<T>, cmp: (T, T) -> int, lo: nat, n: nat) returns (l: nat, g: nat, ghost v: T)
    requires TotalPreorder(cmp) && lo + n <= a.Length && n > 6
    modifies a
    ensures ThreeWay(cmp, a[..], v, lo, l, g, lo + n) && lo <= l < g <= lo + n
    ensures Rearranged(old(a[..]), a[..], lo, lo + n)
  {
    hide Rearranged, ThreeWay, Zones, TotalPreorder;
    ghost var s := a[..];
    PlacePivot(a, cmp, lo, n);
    ghost var t := a[..];
    Flip(cmp, a[lo], a[lo]);
    var lt, i, gt := Scan(a, cmp, lo, lo + n);
    RearrangedThen(s, t, a[..], lo, lo + n);
    t := a[..];
    v := a[lo];
    l, g := Gather(a, cmp, v, lo, lt, i, gt, lo + n);
    RearrangedThen(s, t, a[..], lo, lo + n);
    PartOrder(cmp, a[..], v, lo, l, g, lo + n);
  }

  lemma PartOrder<T>(cmp: (T, T) -> int, s: seq<T>, v: T, lo: nat, l: nat, g: nat, hi: nat)
    requires ThreeWay(cmp, s, v, lo, l, g, hi)
    ensures lo <= l <= g <= hi <= |s|
  {}

  // ----- ranges and cuts -----

  ghost predicate Inside(f: Frame, p: int) {
    f.base < p < f.base + f.count
  }

  ghost predicate Clear(fs: seq<Frame>, p: int) {
    forall k :: 0 <= k < |fs| ==> !Inside(fs[k], p)
  }

  ghost predicate Apart(f: Frame, g: Frame) {
    f.base + f.count <= g.base || g.base + g.count <= f.base
  }

  /** The pending ranges are apart, and every position that is not inside one of them is a cut. */
  ghost predicate Pending<T>(cmp: (T, T) -> int, s: seq<T>, fs: seq<Frame>) {
    && (forall k :: 0 <= k < |fs| ==> fs[k].base + fs[k].count <= |s|)
    && (forall j, k :: 0 <= j < k < |fs| ==> Apart(fs[j], fs[k]))
    && (forall p :: 0 <= p <= |s| && Clear(fs, p) ==> CutAt(cmp, s, p))
  }

  lemma FrameFits<T>(cmp: (T, T) -> int, s: seq<T>, fs: seq<Frame>, f: Frame)
    requires Pending(cmp, s, fs + [f])
    ensures f.base + f.count <= |s|
  {
    assert (fs + [f])[|fs|] == f;
  }

  /** The ends of a pending range are cuts. */
  lemma EndsAreCuts<T>(cmp: (T, T) -> int, s: seq<T>, fs: seq<Frame>, f: Frame)
    requires Pending(cmp, s, fs + [f]) && f.count > 0
    ensures f.base + f.count <= |s| && CutAt(cmp, s, f.base) && CutAt(cmp, s, f.base + f.count)
  {
    var gs := fs + [f];
    FrameFits(cmp, s, fs, f);
    forall k | 0 <= k < |gs| ensures !Inside(gs[k], f.base) && !Inside(gs[k], f.base + f.count) {
      if k < |fs| { assert Apart(gs[k], gs[|fs|]); }
    }
    assert Clear(gs, f.base) && Clear(gs, f.base + f.count);
  }

  lemma ThreeWayCut<T(!new)>(cmp: (T, T) -> int, s: seq<T>, v: T, lo: nat, l: nat, g: nat, hi: nat, p: int)
    requires TotalPreorder(cmp) && ThreeWay(cmp, s, v, lo, l, g, hi) && l <= p <= g && CutAt(cmp, s, lo)
    requires CutAt(cmp, s, hi)
    ensures CutAt(cmp, s, p)
  {
    hide TotalPreorder;
    forall i, j | 0 <= i < p && p <= j < |s| && i < |s| ensures cmp(s[i], s[j]) <= 0 {
      if lo <= i && j < hi {
        Flip(cmp, v, s[i]);
        Chain(cmp, s[i], v, s[j]);
      }
    }
  }

  lemma SortedCut<T>(cmp: (T, T) -> int, s: seq<T>, lo: nat, hi: nat, p: int)
    requires hi <= |s| && Sorted(cmp, s, lo, hi) && lo <= p <= hi && CutAt(cmp, s, lo) && CutAt(cmp, s, hi)
    ensures CutAt(cmp, s, p)
  {}

  /** Sorting a pending range removes it from the list. */
  lemma RangeSorted<T>(cmp: (T, T) -> int, s: seq<T>, t: seq<T>, fs: seq<Frame>, f: Frame)
    requires Pending(cmp, s, fs + [f]) && Rearranged(s, t, f.base, f.base + f.count) && f.base + f.count <= |t|
    requires Sorted(cmp, t, f.base, f.base + f.count)
    ensures Pending(cmp, t, fs)
  {
    hide Rearranged, Sorted, CutAt;
    var gs := fs + [f];
    RearrangedLength(s, t, f.base, f.base + f.count);
    assert forall k :: 0 <= k < |fs| ==> fs[k] == gs[k];
    if f.count > 0 { EndsAreCuts(cmp, s, fs, f); }
    forall p | 0 <= p <= |t| && Clear(fs, p) ensures CutAt(cmp, t, p) {
      if Inside(f, p) {
        CutKept(cmp, s, t, f.base, f.base + f.count, f.base);
        CutKept(cmp, s, t, f.base, f.base + f.count, f.base + f.count);
        SortedCut(cmp, t, f.base, f.base + f.count, p);
      } else {
        assert forall k :: 0 <= k < |gs| ==> !Inside(gs[k], p);
        assert Clear(gs, p);
        CutKept(cmp, s, t, f.base, f.base + f.count, p);
      }
    }
  }

  /** Partitioning a pending range leaves its two outer parts pending. */
  lemma RangeSplit<T(!new)>(cmp: (T, T) -> int, s: seq<T>, t: seq<T>, fs: seq<Frame>, f: Frame, v: T, x: Frame,
      y: Frame)
    requires TotalPreorder(cmp) && Pending(cmp, s, fs + [f]) && Rearranged(s, t, f.base, f.base + f.count)
    requires f.count > 0
    requires x.base == f.base && x.base + x.count <= y.base && y.base + y.count == f.base + f.count
    requires ThreeWay(cmp, t, v, f.base, x.base + x.count, y.base, f.base + f.count)
    ensures Pending(cmp, t, fs + [x, y]) && Pending(cmp, t, fs + [y, x])
  {
    hide Rearranged, ThreeWay, CutAt, TotalPreorder, Pending;
    RangeSplitCuts(cmp, s, t, fs, f, v, x, y);
    RangeSplitApart(cmp, s, t, fs, f, x, y);
    RangeSplitBoth(cmp, t, fs, x, y);
  }

  ghost predicate CutsOutside<T>(cmp: (T, T) -> int, t: seq<T>, fs: seq<Frame>, x: Frame, y: Frame) {
    forall p :: 0 <= p <= |t| && Clear(fs, p) && !Inside(x, p) && !Inside(y, p) ==> CutAt(cmp, t, p)
  }

  ghost predicate ApartFrom<T>(t: seq<T>, fs: seq<Frame>, x: Frame, y: Frame) {
    && (forall k :: 0 <= k < |fs| ==> fs[k].base + fs[k].count <= |t|)
    && (forall j, k :: 0 <= j < k < |fs| ==> Apart(fs[j], fs[k]))
    && (forall k :: 0 <= k < |fs| ==> Apart(fs[k], x) && Apart(fs[k], y))
    && x.base + x.count <= |t| && y.base + y.count <= |t| && Apart(x, y)
  }

  lemma RangeSplitCuts<T(!new)>(cmp: (T, T) -> int, s: seq<T>, t: seq<T>, fs: seq<Frame>, f: Frame, v: T, x: Frame,
      y: Frame)
    requires TotalPreorder(cmp) && Pending(cmp, s, fs + [f]) && Rearranged(s, t, f.base, f.base + f.count)
    requires f.count > 0
    requires x.base == f.base && x.base + x.count <= y.base && y.base + y.count == f.base + f.count
    requires ThreeWay(cmp, t, v, f.base, x.base + x.count, y.base, f.base + f.count)
    ensures CutsOutside(cmp, t, fs, x, y)
  {
    hide Rearranged, ThreeWay, CutAt, TotalPreorder;
    var lo, hi, gs := f.base, f.base + f.count, fs + [f];
    RearrangedLength(s, t, lo, hi);
    EndsAreCuts(cmp, s, fs, f);
    forall p | 0 <= p <= |t| && Clear(fs, p) && !Inside(x, p) && !Inside(y, p) ensures CutAt(cmp, t, p) {
      if Inside(f, p) {
        CutKept(cmp, s, t, lo, hi, lo);
        CutKept(cmp, s, t, lo, hi, hi);
        ThreeWayCut(cmp, t, v, lo, x.base + x.count, y.base, hi, p);
      } else {
        assert forall k :: 0 <= k < |gs| ==> !Inside(gs[k], p);
        assert Clear(gs, p);
        CutKept(cmp, s, t, lo, hi, p);
      }
    }
  }

  lemma RangeSplitApart<T>(cmp: (T, T) -> int, s: seq<T>, t: seq<T>, fs: seq<Frame>, f: Frame, x: Frame, y: Frame)
    requires Pending(cmp, s, fs + [f]) && Rearranged(s, t, f.base, f.base + f.count) && f.count > 0
    requires x.base == f.base && x.base + x.count <= y.base && y.base + y.count == f.base + f.count
    ensures ApartFrom(t, fs, x, y)
  {
    hide Rearranged, CutAt;
    var gs := fs + [f];
    RearrangedLength(s, t, f.base, f.base + f.count);
    assert forall k :: 0 <= k < |fs| ==> fs[k] == gs[k];
    forall k | 0 <= k < |fs| ensures Apart(fs[k], x) && Apart(fs[k], y) {
      assert Apart(gs[k], gs[|fs|]);
    }
  }

  lemma RangeSplitBoth<T>(cmp: (T, T) -> int, t: seq<T>, fs: seq<Frame>, x: Frame, y: Frame)
    requires CutsOutside(cmp, t, fs, x, y) && ApartFrom(t, fs, x, y)
    ensures Pending(cmp, t, fs + [x, y]) && Pending(cmp, t, fs + [y, x])
  {
    hide CutAt;
    OnePending(cmp, t, fs, x, y);
    OnePending(cmp, t, fs, y, x);
  }

  lemma OnePending<T>(cmp: (T, T) -> int, t: seq<T>, fs: seq<Frame>, x: Frame, y: Frame)
    requires CutsOutside(cmp, t, fs, x, y) && ApartFrom(t, fs, x, y)
    ensures Pending(cmp, t, fs + [x, y])
  {
    hide CutAt;
    var gs := fs + [x, y];
    var n := |fs|;
    assert forall k :: 0 <= k < n ==> gs[k] == fs[k];
    assert gs[n] == x && gs[n + 1] == y;
    forall p | 0 <= p <= |t| && Clear(gs, p) ensures CutAt(cmp, t, p) {
      assert !Inside(gs[n], p) && !Inside(gs[n + 1], p);
      assert forall k :: 0 <= k < n ==> !Inside(gs[k], p);
      assert Clear(fs, p);
    }
  }

  // ----- the stack -----

  /** Entry k was pushed at depth k or deeper: what keeps the stack within its bound. */
  ghost predicate Deep(fs: seq<Frame>) {
    forall k :: 0 <= k < |fs| ==> k <= fs[k].depth
  }

  /** Work left: falls with every pop and every partition. */
  ghost function Work(fs: seq<Frame>): nat {
    if fs == [] then 0 else Work(fs[..|fs| - 1]) + 2 * fs[|fs| - 1].count + 1
  }

  lemma WorkPush(fs: seq<Frame>, f: Frame)
    ensures Work(fs + [f]) == Work(fs) + 2 * f.count + 1
  {
    assert (fs + [f])[..|fs|] == fs;
  }

  /**
  One turn of the inner loop: partitions the current range f, pushes the larger
  outer part and goes on with the smaller one.
  */
  method Step<T(!new)>(a: array<T>, cmp: (T, T) -> int, fs: seq<Frame>, f: Frame) returns (gs: seq<Frame>, g: Frame)
    requires TotalPreorder(cmp) && f.count > 6 && Deep(fs) && |fs| < f.depth <= STACK_SIZE
    requires Pending(cmp, a[..], fs + [f])
    modifies a
    ensures Pending(cmp, a[..], gs + [g]) && Rearranged(old(a[..]), a[..], 0, a.Length)
    ensures Deep(gs) && |gs| <= STACK_SIZE && |gs| <= g.depth && g.depth == f.depth && g.count < f.count
    ensures Work(gs) + 2 * g.count < Work(fs) + 2 * f.count
  {
    hide TotalPreorder, Pending, Rearranged, ThreeWay, Work;
    ghost var s := a[..];
    FrameFits(cmp, s, fs, f);
    var l, r;
    ghost var v;
    l, r, v := Split(a, cmp, f.base, f.count);
    RearrangedWider(s, a[..], f.base, f.base + f.count, 0, a.Length);
    var hi := f.base + f.count;
    var x, y := Frame(f.base, l - f.base, f.depth), Frame(r, hi - r, f.depth);
    RangeSplit(cmp, s, a[..], fs, f, v, x, y);
    if x.count > y.count {
      gs, g := fs + [x], y;
      WorkPush(fs, x);
      assert gs + [g] == fs + [x, y];
    } else {
      gs, g := fs + [y], x;
      WorkPush(fs, y);
      assert gs + [g] == fs + [y, x];
    }
  }

  /** The inner loop for one popped range: partitions it down, then sorts what is left of it. */
  method SortTop<T(!new)>(a: array<T>, cmp: (T, T) -> int, fs: seq<Frame>, f: Frame) returns (gs: seq<Frame>)
    requires TotalPreorder(cmp) && Deep(fs) && |fs| <= f.depth && |fs| <= STACK_SIZE && Pending(cmp, a[..], fs + [f])
    modifies a
    ensures Pending(cmp, a[..], gs) && Rearranged(old(a[..]), a[..], 0, a.Length)
    ensures Deep(gs) && |gs| <= STACK_SIZE && Work(gs) < Work(fs + [f])
  {
    hide TotalPreorder, Pending, Rearranged, Work, Deep;
    ghost var s := a[..];
    RearrangedSelf(s, 0, a.Length);
    WorkPush(fs, f);
    gs := fs;
    var g := f;
    while g.count > 6
      invariant Pending(cmp, a[..], gs + [g]) && Rearranged(s, a[..], 0, a.Length)
      invariant Deep(gs) && |gs| <= g.depth && |gs| <= STACK_SIZE && Work(gs) + 2 * g.count <= Work(fs) + 2 * f.count
      decreases g.count
    {
      ghost var t := a[..];
      var h := Frame(g.base, g.count, g.depth + 1);
      if h.depth > STACK_SIZE {
        FrameFits(cmp, t, gs, g);
        HeapSort.Sort(a, cmp, g.base, g.count);
        RangeSorted(cmp, t, a[..], gs, g);
        RearrangedWider(t, a[..], g.base, g.base + g.count, 0, a.Length);
        RearrangedThen(s, t, a[..], 0, a.Length);
        return;
      }
      Deeper(cmp, t, gs, g, h);
      gs, g := Step(a, cmp, gs, h);
      RearrangedThen(s, t, a[..], 0, a.Length);
    }
    ghost var t := a[..];
    FrameFits(cmp, t, gs, g);
    InsertionSort.Sort(a, cmp, g.base, g.count);
    RangeSorted(cmp, t, a[..], gs, g);
    RearrangedWider(t, a[..], g.base, g.base + g.count, 0, a.Length);
    RearrangedThen(s, t, a[..], 0, a.Length);
  }

  /** The depth of a range does not matter for what is pending. */
  lemma Deeper<T>(cmp: (T, T) -> int, s: seq<T>, fs: seq<Frame>, f: Frame, g: Frame)
    requires Pending(cmp, s, fs + [f]) && g.base == f.base && g.count == f.count
    ensures Pending(cmp, s, fs + [g])
  {
    hide CutAt;
    var xs, ys := fs + [f], fs + [g];
    assert forall k :: 0 <= k < |xs| ==> ys[k].base == xs[k].base && ys[k].count == xs[k].count;
    forall j, k | 0 <= j < k < |ys| ensures Apart(ys[j], ys[k]) { assert Apart(xs[j], xs[k]); }
    forall p | 0 <= p <= |s| && Clear(ys, p) ensures CutAt(cmp, s, p) {
      forall k | 0 <= k < |xs| ensures !Inside(xs[k], p) { assert !Inside(ys[k], p); }
      assert Clear(xs, p);
    }
  }

  lemma AllPending<T>(cmp: (T, T) -> int, s: seq<T>)
    ensures Pending(cmp, s, [Frame(0, |s|, 0)])
  {
    forall p | 0 <= p <= |s| && Clear([Frame(0, |s|, 0)], p) ensures CutAt(cmp, s, p) {
      assert !Inside([Frame(0, |s|, 0)][0], p);
    }
  }

  /** When nothing is pending every position is a cut, so the array is sorted. */
  lemma NothingPending<T>(cmp: (T, T) -> int, s: seq<T>)
    requires Pending(cmp, s, [])
    ensures Sorted(cmp, s, 0, |s|)
  {
    forall i, j | 0 <= i < j < |s| ensures cmp(s[i], s[j]) <= 0 {
      assert Clear([], j);
      assert CutAt(cmp, s, j);
    }
  }

  /** rqsort: ends with a sorted permutation, and the stack never holds more than its 50 entries. */
  method Sort<T(!new)>(a: array<T>, cmp: (T, T) -> int)
    requires TotalPreorder(cmp)
    modifies a
    ensures multiset(a[..]) == multiset(old(a[..])) && Sorted(cmp, a[..], 0, a.Length)
  {
    hide TotalPreorder, Pending, Rearranged, Work, Sorted;
    ghost var s := a[..];
    if a.Length < 2 {
      ShortSorted(cmp, s);
      return;
    }
    RearrangedSelf(s, 0, a.Length);
    AllPending(cmp, s);
    var stack := [Frame(0, a.Length, 0)];
    while |stack| > 0
      invariant Pending(cmp, a[..], stack) && Rearranged(s, a[..], 0, a.Length)
      invariant Deep(stack) && |stack| <= STACK_SIZE
      decreases Work(stack)
    {
      ghost var t := a[..];
      var n := |stack| - 1;
      assert stack == stack[..n] + [stack[n]];
      stack := SortTop(a, cmp, stack[..n], stack[n]);
      RearrangedThen(s, t, a[..], 0, a.Length);
    }
    NothingPending(cmp, a[..]);
    RearrangedAll(s, a[..]);
  }

  lemma ShortSorted<T>(cmp: (T, T) -> int, s: seq<T>)
    requires |s| < 2
    ensures Sorted(cmp, s, 0, |s|)
  {}

  lemma RearrangedAll<T>(s: seq<T>, t: seq<T>)
    requires Rearranged(s, t, 0, |s|)
    ensures multiset(s) == multiset(t)
  {
    assert s[0..|s|] == s && t[0..|s|] == t;
  }
}
