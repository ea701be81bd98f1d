/**
The three-way partition of rqsort (cutils.c). While it runs, the elements equal
to the pivot gather at both ends of the range; then they are exchanged into the
middle.
*/
module Partition {
  import opened SortBase

  /** Equal, smaller, not yet seen, greater, equal: the range from lo to hi during the scan. */
  ghost predicate Zones<T>(cmp: (T, T) -> int, s: seq<T>, v: T, lo: nat, lt: nat, i: nat, j: nat, gt: nat, hi: nat) {
    && lo <= lt <= i <= j <= gt <= hi <= |s|
    && (forall k :: lo <= k < lt ==> cmp(v, s[k]) == 0)
    && (forall k :: lt <= k < i ==> cmp(v, s[k]) > 0)
    && (forall k :: j <= k < gt ==> cmp(v, s[k]) < 0)
    && (forall k :: gt <= k < hi ==> cmp(v, s[k]) == 0)
  }

  lemma ZoneOrder<T>(cmp: (T, T) -> int, s: seq<T>, v: T, lo: nat, lt: nat, i: nat, j: nat, gt: nat, hi: nat)
    requires Zones(cmp, s, v, lo, lt, i, j, gt, hi)
    ensures lo <= lt <= i <= j <= gt <= hi <= |s|
  {}

  lemma UpEqual<T>(cmp: (T, T) -> int, s: seq<T>, t: seq<T>, v: T, lo: nat, lt: nat, i: nat, j: nat, gt: nat, hi: nat)
    requires Zones(cmp, s, v, lo, lt, i, j, gt, hi) && i < j && cmp(v, s[i]) == 0 && t == s[lt := s[i]][i := s[lt]]
    ensures Zones(cmp, t, v, lo, lt + 1, i + 1, j, gt, hi)
  {}

  lemma UpSmaller<T>(cmp: (T, T) -> int, s: seq<T>, v: T, lo: nat, lt: nat, i: nat, j: nat, gt: nat, hi: nat)
    requires Zones(cmp, s, v, lo, lt, i, j, gt, hi) && i < j && cmp(v, s[i]) > 0
    ensures Zones(cmp, s, v, lo, lt, i + 1, j, gt, hi)
  {}

  lemma DownEqual<T>(cmp: (T, T) -> int, s: seq<T>, t: seq<T>, v: T, lo: nat, lt: nat, i: nat, j: nat, gt: nat, hi: nat)
    requires Zones(cmp, s, v, lo, lt, i, j + 1, gt, hi) && i < j < gt && cmp(v, s[j]) == 0
    requires t == s[gt - 1 := s[j]][j := s[gt - 1]]
    ensures Zones(cmp, t, v, lo, lt, i, j, gt - 1, hi)
  {}

  lemma DownGreater<T>(cmp: (T, T) -> int, s: seq<T>, v: T, lo: nat, lt: nat, i: nat, j: nat, gt: nat, hi: nat)
    requires Zones(cmp, s, v, lo, lt, i, j + 1, gt, hi) && i < j && cmp(v, s[j]) < 0
    ensures Zones(cmp, s, v, lo, lt, i, j, gt, hi)
  {}

  lemma Crossed<T>(cmp: (T, T) -> int, s: seq<T>, t: seq<T>, v: T, lo: nat, lt: nat, i: nat, j: nat, gt: nat, hi: nat)
    requires Zones(cmp, s, v, lo, lt, i, j + 1, gt, hi) && i < j < gt && cmp(v, s[i]) < 0 && cmp(v, s[j]) > 0
    requires t == s[i := s[j]][j := s[i]]
    ensures Zones(cmp, t, v, lo, lt, i + 1, j, gt, hi)
  {}

  /** One element equal to the pivot goes to the low end. */
  method TakeLow<T>(a: array<T>, ghost cmp: (T, T) -> int, ghost v: T, lo: nat, lt: nat, i: nat, ghost j: nat,
      ghost gt: nat, ghost hi: nat)
    requires hi <= a.Length && Zones(cmp, a[..], v, lo, lt, i, j, gt, hi) && lo < lt && i < j && j <= hi
    requires cmp(v, a[i]) == 0
    modifies a
    ensures Zones(cmp, a[..], v, lo, lt + 1, i + 1, j, gt, hi) && Rearranged(old(a[..]), a[..], lo, hi)
    ensures a[lo] == old(a[lo])
  {
    hide Zones, Rearranged;
    ghost var s := a[..];
    ZoneOrder(cmp, s, v, lo, lt, i, j, gt, hi);
    Swap(a, lt, i, lo, hi);
    UpEqual(cmp, s, a[..], v, lo, lt, i, j, gt, hi);
  }

  /** The first inner loop: from the left, past everything not greater than the pivot. */
  method ScanUp<T>(a: array<T>, cmp: (T, T) -> int, lo: nat, lt0: nat, i0: nat, j: nat, gt: nat,
      hi: nat) returns (lt: nat, i: nat)
    requires lo < hi <= a.Length && Zones(cmp, a[..], a[lo], lo, lt0, i0, j, gt, hi) && lo < lt0 && i0 <= j <= hi
    modifies a
    ensures Zones(cmp, a[..], a[lo], lo, lt, i, j, gt, hi) && Rearranged(old(a[..]), a[..], lo, hi)
    ensures a[lo] == old(a[lo])
    ensures lo < lt && i0 <= i <= j && (i < j ==> cmp(a[lo], a[i]) < 0)
  {
    hide Zones, Rearranged;
    ghost var s, v := a[..], a[lo];
    lt, i := lt0, i0;
    RearrangedSelf(s, lo, hi);
    while i < j && cmp(a[lo], a[i]) >= 0
      invariant lo < lt && i0 <= i <= j && a[lo] == v
      invariant Zones(cmp, a[..], v, lo, lt, i, j, gt, hi) && Rearranged(s, a[..], lo, hi)
    {
      ghost var t := a[..];
      if cmp(a[lo], a[i]) == 0 {
        TakeLow(a, cmp, v, lo, lt, i, j, gt, hi);
        RearrangedThen(s, t, a[..], lo, hi);
        lt := lt + 1;
      } else {
        UpSmaller(cmp, t, v, lo, lt, i, j, gt, hi);
      }
      i := i + 1;
    }
  }

  /** One element equal to the pivot goes to the high end. */
  method TakeHigh<T>(a: array<T>, ghost cmp: (T, T) -> int, ghost v: T, ghost lo: nat, ghost lt: nat, ghost i: nat,
      j: nat, gt: nat, ghost hi: nat)
    requires hi <= a.Length && Zones(cmp, a[..], v, lo, lt, i, j + 1, gt, hi) && lo < lt <= i < j < gt <= hi
    requires cmp(v, a[j]) == 0
    modifies a
    ensures Zones(cmp, a[..], v, lo, lt, i, j, gt - 1, hi) && Rearranged(old(a[..]), a[..], lo, hi)
    ensures a[lo] == old(a[lo]) && a[i] == old(a[i])
  {
    hide Zones, Rearranged;
    ghost var s := a[..];
    Swap(a, gt - 1, j, lo, hi);
    DownEqual(cmp, s, a[..], v, lo, lt, i, j, gt, hi);
  }

  /** The second inner loop: from the right, past everything not smaller than the pivot. */
  method ScanDown<T>(a: array<T>, cmp: (T, T) -> int, lo: nat, lt: nat, i: nat, j0: nat, gt0: nat,
      hi: nat) returns (j: int, gt: nat)
    requires lo < hi <= a.Length && Zones(cmp, a[..], a[lo], lo, lt, i, j0, gt0, hi) && lo < lt && i <= j0 <= hi
    requires i < j0 ==> cmp(a[lo], a[i]) < 0
    modifies a
    ensures i - 1 <= j < j0 && j < gt <= hi && a[lo] == old(a[lo])
    ensures Zones(cmp, a[..], a[lo], lo, lt, i, j + 1, gt, hi) && Rearranged(old(a[..]), a[..], lo, hi)
    ensures (i < j ==> cmp(a[lo], a[i]) < 0 && cmp(a[lo], a[j]) > 0) && (i == j ==> cmp(a[lo], a[i]) < 0)
  {
    hide Zones, Rearranged;
    ghost var s, v := a[..], a[lo];
    j, gt := j0 - 1, gt0;
    RearrangedSelf(s, lo, hi);
    ZoneOrder(cmp, s, v, lo, lt, i, j0, gt, hi);
    while i < j && cmp(a[lo], a[j]) <= 0
      invariant i - 1 <= j < j0 && j < gt <= hi && a[lo] == v && (i < j0 ==> i <= j && cmp(a[lo], a[i]) < 0)
      invariant Zones(cmp, a[..], v, lo, lt, i, j + 1, gt, hi) && Rearranged(s, a[..], lo, hi)
    {
      ghost var t := a[..];
      if cmp(a[lo], a[j]) == 0 {
        ZoneOrder(cmp, t, v, lo, lt, i, j + 1, gt, hi);
        TakeHigh(a, cmp, v, lo, lt, i, j, gt, hi);
        RearrangedThen(s, t, a[..], lo, hi);
        gt := gt - 1;
      } else {
        DownGreater(cmp, t, v, lo, lt, i, j, gt, hi);
      }
      ZoneOrder(cmp, a[..], v, lo, lt, i, j, gt, hi);
      j := j - 1;
    }
  }

  // ----- the scan -----

  /** An element greater than the pivot and one smaller change places. */
  method Cross<T>(a: array<T>, ghost cmp: (T, T) -> int, ghost v: T, ghost lo: nat, ghost lt: nat, i: nat, j: nat,
      ghost gt: nat, ghost hi: nat)
    requires hi <= a.Length && Zones(cmp, a[..], v, lo, lt, i, j + 1, gt, hi) && lo < lt <= i < j < gt <= hi
    requires cmp(v, a[i]) < 0 && cmp(v, a[j]) > 0
    modifies a
    ensures Zones(cmp, a[..], v, lo, lt, i + 1, j, gt, hi) && Rearranged(old(a[..]), a[..], lo, hi)
    ensures a[lo] == old(a[lo])
  {
    hide Zones, Rearranged;
    ghost var s := a[..];
    Swap(a, i, j, lo, hi);
    Crossed(cmp, s, a[..], v, lo, lt, i, j, gt, hi);
  }

  /** Both inner loops, until they meet: nothing is left unseen. */
  method Scan<T>(a: array<T>, cmp: (T, T) -> int, lo: nat, hi: nat) returns (lt: nat, i: nat, gt: nat)
    requires lo < hi <= a.Length && cmp(a[lo], a[lo]) == 0
    modifies a
    ensures lo < lt && Zones(cmp, a[..], a[lo], lo, lt, i, i, gt, hi) && Rearranged(old(a[..]), a[..], lo, hi)
    ensures a[lo] == old(a[lo])
  {
    hide Rearranged;
    ghost var s, v := a[..], a[lo];
    lt, i, gt := lo + 1, lo + 1, hi;
    var j: int := hi;
    RearrangedSelf(s, lo, hi);
    while true
      invariant lo < lt && i <= j <= hi && a[lo] == v
      invariant Zones(cmp, a[..], v, lo, lt, i, j, gt, hi) && Rearranged(s, a[..], lo, hi)
      decreases j - i
    {
      hide Zones;
      ghost var t, i0, j0 := a[..], i, j;
      lt, i := ScanUp(a, cmp, lo, lt, i, j, gt, hi);
      RearrangedThen(s, t, a[..], lo, hi);
      t := a[..];
      j, gt := ScanDown(a, cmp, lo, lt, i, j, gt, hi);
      RearrangedThen(s, t, a[..], lo, hi);
      ZoneOrder(cmp, a[..], v, lo, lt, i, j + 1, gt, hi);
      if i >= j { break; }
      t := a[..];
      Cross(a, cmp, v, lo, lt, i, j, gt, hi);
      RearrangedThen(s, t, a[..], lo, hi);
      i := i + 1;
    }
    Met(cmp, a[..], v, lo, lt, i, j, gt, hi);
  }

  lemma Met<T>(cmp: (T, T) -> int, s: seq<T>, v: T, lo: nat, lt: nat, i: nat, j: int, gt: nat, hi: nat)
    requires i - 1 <= j <= i && Zones(cmp, s, v, lo, lt, i, j + 1, gt, hi) && (i == j ==> cmp(v, s[i]) < 0)
    ensures Zones(cmp, s, v, lo, lt, i, i, gt, hi)
  {}

  // ----- exchanging blocks -----

  /** The m elements from p on and those from q on have changed places. */
  ghost predicate BlocksSwapped<T>(s: seq<T>, t: seq<T>, p: nat, q: nat, m: nat) {
    && p + m <= q && q + m <= |s| == |t|
    && (forall k :: p <= k < p + m ==> t[k] == s[k - p + q])
    && (forall k :: q <= k < q + m ==> t[k] == s[k - q + p])
    && (forall k :: 0 <= k < |s| && !(p <= k < p + m) && !(q <= k < q + m) ==> t[k] == s[k])
  }

  /** swap_block: byte by byte in the source, element by element here. */
  method SwapBlock<T>(a: array<T>, p: nat, q: nat, m: nat, ghost lo: nat, ghost hi: nat)
    requires lo <= p && p + m <= q && q + m <= hi <= a.Length
    modifies a
    ensures BlocksSwapped(old(a[..]), a[..], p, q, m) && Rearranged(old(a[..]), a[..], lo, hi)
  {
    hide Rearranged, BlocksSwapped;
    ghost var s := a[..];
    RearrangedSelf(s, lo, hi);
    BlockStart(s, p, q);
    var i := 0;
    while i < m
      invariant 0 <= i <= m && BlocksSwapped(s, a[..], p, q, i) && Rearranged(s, a[..], lo, hi)
    {
      ghost var t := a[..];
      SwapInBlock(a, p, q, i, lo, hi, s);
      RearrangedThen(s, t, a[..], lo, hi);
      i := i + 1;
    }
  }

  method SwapInBlock<T>(a: array<T>, p: nat, q: nat, i: nat, ghost lo: nat, ghost hi: nat, ghost s: seq<T>)
    requires lo <= p && p + i < q && q + i < hi <= a.Length && BlocksSwapped(s, a[..], p, q, i)
    modifies a
    ensures BlocksSwapped(s, a[..], p, q, i + 1) && Rearranged(old(a[..]), a[..], lo, hi)
  {
    hide Rearranged, BlocksSwapped;
    ghost var t := a[..];
    BlockLength(s, t, p, q, i);
    Swap(a, p + i, q + i, lo, hi);
    BlockStep(s, t, a[..], p, q, i);
  }

  lemma BlockLength<T>(s: seq<T>, t: seq<T>, p: nat, q: nat, i: nat)
    requires BlocksSwapped(s, t, p, q, i)
    ensures |s| == |t|
  {}

  lemma BlockStart<T>(s: seq<T>, p: nat, q: nat)
    requires p <= q <= |s|
    ensures BlocksSwapped(s, s, p, q, 0)
  {}

  lemma BlockStep<T>(s: seq<T>, t: seq<T>, u: seq<T>, p: nat, q: nat, i: nat)
    requires BlocksSwapped(s, t, p, q, i) && p + i < q && q + i < |s| && u == t[p + i := t[q + i]][q + i := t[p + i]]
    ensures BlocksSwapped(s, u, p, q, i + 1)
  {}

  /** Smaller, equal, greater. */
  ghost predicate ThreeWay<T>(cmp: (T, T) -> int, s: seq<T>, v: T, lo: nat, l: nat, g: nat, hi: nat) {
    && lo <= l <= g <= hi <= |s|
    && (forall k :: lo <= k < l ==> cmp(v, s[k]) > 0)
    && (forall k :: l <= k < g ==> cmp(v, s[k]) == 0)
    && (forall k :: g <= k < hi ==> cmp(v, s[k]) < 0)
  }

  /** The left half of the final exchange. */
  ghost predicate LeftDone<T>(cmp: (T, T) -> int, s: seq<T>, v: T, lo: nat, l: nat, i: nat, gt: nat, hi: nat) {
    && lo <= l <= i <= gt <= hi <= |s|
    && (forall k :: lo <= k < l ==> cmp(v, s[k]) > 0)
    && (forall k :: l <= k < i ==> cmp(v, s[k]) == 0)
    && (forall k :: i <= k < gt ==> cmp(v, s[k]) < 0)
    && (forall k :: gt <= k < hi ==> cmp(v, s[k]) == 0)
  }

  lemma LeftSwapped<T>(cmp: (T, T) -> int, s: seq<T>, t: seq<T>, v: T, lo: nat, lt: nat, i: nat, gt: nat, hi: nat,
      m: nat)
    requires Zones(cmp, s, v, lo, lt, i, i, gt, hi) && m == (if lt - lo > i - lt then i - lt else lt - lo)
    requires BlocksSwapped(s, t, lo, i - m, m)
    ensures LeftDone(cmp, t, v, lo, lo + (i - lt), i, gt, hi)
  {}

  lemma RightSwapped<T>(cmp: (T, T) -> int, s: seq<T>, t: seq<T>, v: T, lo: nat, l: nat, i: nat, gt: nat, hi: nat,
      m: nat)
    requires LeftDone(cmp, s, v, lo, l, i, gt, hi) && m == (if hi - gt > gt - i then gt - i else hi - gt)
    requires BlocksSwapped(s, t, i, hi - m, m)
    ensures ThreeWay(cmp, t, v, lo, l, hi - (gt - i), hi)
  {}

  /** The exchange of the equal elements into the middle. */
  method Gather<T>(a: array<T>, ghost cmp: (T, T) -> int, ghost v: T, lo: nat, lt: nat, i: nat, gt: nat,
      hi: nat) returns (l: nat, g: nat)
    requires hi <= a.Length && lo < lt && Zones(cmp, a[..], v, lo, lt, i, i, gt, hi)
    modifies a
    ensures ThreeWay(cmp, a[..], v, lo, l, g, hi) && l < g && Rearranged(old(a[..]), a[..], lo, hi)
  {
    hide Rearranged, BlocksSwapped, LeftDone, ThreeWay, Zones;
    ghost var s := a[..];
    ZoneOrder(cmp, s, v, lo, lt, i, i, gt, hi);
    var m := if lt - lo > i - lt then i - lt else lt - lo;
    SwapBlock(a, lo, i - m, m, lo, hi);
    LeftSwapped(cmp, s, a[..], v, lo, lt, i, gt, hi, m);
    ghost var t := a[..];
    var m' := if hi - gt > gt - i then gt - i else hi - gt;
    SwapBlock(a, i, hi - m', m', lo, hi);
    RightSwapped(cmp, t, a[..], v, lo, lo + (i - lt), i, gt, hi, m');
    RearrangedThen(s, t, a[..], lo, hi);
    l, g := lo + (i - lt), hi - (gt - i);
  }
}
