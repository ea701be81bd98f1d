/** The last stage of rqsort (cutils.c): insertion sort of a short range. */
module InsertionSort {
  import opened SortBase

  /** Sorted, except that the element at p may be too far right: it is not below anything after it. */
  ghost predicate SortedBut<T>(cmp: (T, T) -> int, s: seq<T>, lo: nat, hi: nat, p: nat)
    requires hi <= |s|
  {
    forall i, j :: lo <= i < j < hi && j != p ==> cmp(s[i], s[j]) <= 0
  }

  /** One exchange with the element below. */
  method StepDown<T(!new)>(a: array<T>, cmp: (T, T) -> int, ghost lo: nat, ghost hi: nat, j: nat)
    requires TotalPreorder(cmp) && lo < j < hi <= a.Length && SortedBut(cmp, a[..], lo, hi, j)
    requires cmp(a[j - 1], a[j]) > 0
    modifies a
    ensures Rearranged(old(a[..]), a[..], lo, hi) && SortedBut(cmp, a[..], lo, hi, j - 1)
  {
    hide Rearranged, TotalPreorder, SortedBut;
    ghost var t := a[..];
    Swap(a, j, j - 1, lo, hi);
    SortedStep(cmp, t, a[..], lo, hi, j);
  }

  /** The inner loop: moves the element at p down to its place. */
  method Insert<T(!new)>(a: array<T>, cmp: (T, T) -> int, lo: nat, p: nat)
    requires TotalPreorder(cmp) && lo <= p < a.Length && Sorted(cmp, a[..], lo, p)
    modifies a
    ensures Rearranged(old(a[..]), a[..], lo, p + 1) && Sorted(cmp, a[..], lo, p + 1)
  {
    hide Rearranged, TotalPreorder, Sorted, SortedBut;
    ghost var s := a[..];
    RearrangedSelf(s, lo, p + 1);
    SortedStart(cmp, s, lo, p);
    var j := p;
    while j > lo && cmp(a[j - 1], a[j]) > 0
      invariant lo <= j <= p && Rearranged(s, a[..], lo, p + 1)
      invariant SortedBut(cmp, a[..], lo, p + 1, j)
    {
      ghost var t := a[..];
      StepDown(a, cmp, lo, p + 1, j);
      RearrangedThen(s, t, a[..], lo, p + 1);
      j := j - 1;
    }
    assert j > lo ==> a[..][j - 1] == a[j - 1] && a[..][j] == a[j];
    SortedEnd(cmp, a[..], lo, p + 1, j);
  }

  lemma SortedStart<T>(cmp: (T, T) -> int, s: seq<T>, lo: nat, p: nat)
    requires p < |s| && Sorted(cmp, s, lo, p)
    ensures SortedBut(cmp, s, lo, p + 1, p)
  {}

  lemma SortedStep<T(!new)>(cmp: (T, T) -> int, s: seq<T>, t: seq<T>, lo: nat, hi: nat, p: nat)
    requires TotalPreorder(cmp) && lo < p < hi <= |s| && t == s[p := s[p - 1]][p - 1 := s[p]]
    requires SortedBut(cmp, s, lo, hi, p) && cmp(s[p - 1], s[p]) > 0
    ensures SortedBut(cmp, t, lo, hi, p - 1)
  {
    hide TotalPreorder;
    forall i, j | lo <= i < j < hi && j != p - 1 ensures cmp(t[i], t[j]) <= 0 {
      if i == p - 1 && j == p {
        Flip(cmp, s[p - 1], s[p]);
      }
    }
  }

  lemma SortedEnd<T(!new)>(cmp: (T, T) -> int, s: seq<T>, lo: nat, hi: nat, p: nat)
    requires TotalPreorder(cmp) && lo <= p < hi <= |s| && SortedBut(cmp, s, lo, hi, p)
    requires (p == lo || cmp(s[p - 1], s[p]) <= 0)
    ensures Sorted(cmp, s, lo, hi)
  {
    hide TotalPreorder;
    forall i, j | lo <= i < j < hi ensures cmp(s[i], s[j]) <= 0 {
      if j == p && i < p - 1 {
        Chain(cmp, s[i], s[p - 1], s[p]);
      }
    }
  }

  lemma SortedShort<T>(cmp: (T, T) -> int, s: seq<T>, lo: nat)
    ensures lo <= |s| ==> Sorted(cmp, s, lo, lo)
    ensures lo < |s| ==> Sorted(cmp, s, lo, lo + 1)
  {}

  method Sort<T(!new)>(a: array<T>, cmp: (T, T) -> int, lo: nat, n: nat)
    requires TotalPreorder(cmp) && lo + n <= a.Length
    modifies a
    ensures Rearranged(old(a[..]), a[..], lo, lo + n) && Sorted(cmp, a[..], lo, lo + n)
  {
    hide Rearranged, TotalPreorder, Sorted;
    ghost var s := a[..];
    RearrangedSelf(s, lo, lo + n);
    SortedShort(cmp, s, lo);
    var i := lo + 1;
    while i < lo + n
      invariant lo + 1 <= i && (i <= lo + n || n == 0) && Rearranged(s, a[..], lo, lo + n)
      invariant Sorted(cmp, a[..], lo, if n == 0 then lo else i)
    {
      ghost var t := a[..];
      Insert(a, cmp, lo, i);
      RearrangedWider(t, a[..], lo, i + 1, lo, lo + n);
      RearrangedThen(s, t, a[..], lo, lo + n);
      i := i + 1;
    }
  }
}
