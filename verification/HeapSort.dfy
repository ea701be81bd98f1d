/** heapsortx (cutils.c): the fallback of rqsort, on the n elements from lo on. */
module HeapSort {
  import opened SortBase

  function Parent(k: int): int {
    (k - 1) / 2
  }

  /** Element p of the heap is not below element k. */
  ghost predicate Over<T>(cmp: (T, T) -> int, s: seq<T>, lo: nat, p: int, k: int)
    requires 0 <= p && 0 <= k && lo + p < |s| && lo + k < |s|
  {
    cmp(s[lo + k], s[lo + p]) <= 0
  }

  /** Every element from index `from` on is over its children. */
  ghost predicate Heap<T>(cmp: (T, T) -> int, s: seq<T>, lo: nat, from: nat, n: nat)
    requires lo + n <= |s|
  {
    forall k :: 1 <= k < n && from <= Parent(k) ==> Over(cmp, s, lo, Parent(k), k)
  }

  /** The same but for element r, whose children are at least under its parent. */
  ghost predicate HeapBut<T>(cmp: (T, T) -> int, s: seq<T>, lo: nat, from: nat, n: nat, r: nat)
    requires lo + n <= |s|
  {
    && (forall k :: 1 <= k < n && from <= Parent(k) && Parent(k) != r ==> Over(cmp, s, lo, Parent(k), k))
    && (forall k :: 1 <= k < n && Parent(k) == r && 1 <= r && from <= Parent(r) ==> Over(cmp, s, lo, Parent(r), k))
  }

  /** c is the child of r that is not below its sibling. */
  ghost predicate LargerChild<T>(cmp: (T, T) -> int, s: seq<T>, lo: nat, n: nat, r: nat, c: nat)
    requires lo + n <= |s|
  {
    && (c == 2 * r + 1 || c == 2 * r + 2) && c < n
    && (forall k :: 1 <= k < n && Parent(k) == r ==> Over(cmp, s, lo, c, k))
  }

  lemma ChildStep<T(!new)>(cmp: (T, T) -> int, s: seq<T>, t: seq<T>, lo: nat, from: nat, n: nat, r: nat, c: nat)
    requires TotalPreorder(cmp) && lo + n <= |s| && from <= r < n && LargerChild(cmp, s, lo, n, r, c)
    requires HeapBut(cmp, s, lo, from, n, r)
    requires cmp(s[lo + r], s[lo + c]) <= 0 && t == s[lo + r := s[lo + c]][lo + c := s[lo + r]]
    ensures HeapBut(cmp, t, lo, from, n, c)
  {
    hide TotalPreorder;
    forall k | 1 <= k < n && from <= Parent(k) && Parent(k) != c ensures Over(cmp, t, lo, Parent(k), k) {
      if Parent(k) == r {
        assert Over(cmp, s, lo, c, k);
      } else if k == r {
        assert Parent(c) == r;
        assert Over(cmp, s, lo, Parent(r), c);
      } else {
        assert k != c;
        assert Over(cmp, s, lo, Parent(k), k);
      }
    }
    forall k | 1 <= k < n && Parent(k) == c && 1 <= c && from <= Parent(c) ensures Over(cmp, t, lo, Parent(c), k) {
      assert Over(cmp, s, lo, Parent(k), k);
    }
  }

  lemma ChildEnd<T(!new)>(cmp: (T, T) -> int, s: seq<T>, lo: nat, from: nat, n: nat, r: nat, c: nat)
    requires TotalPreorder(cmp) && lo + n <= |s| && r < n && LargerChild(cmp, s, lo, n, r, c)
    requires HeapBut(cmp, s, lo, from, n, r)
    requires cmp(s[lo + r], s[lo + c]) > 0
    ensures Heap(cmp, s, lo, from, n)
  {
    hide TotalPreorder;
    forall k | 1 <= k < n && from <= Parent(k) ensures Over(cmp, s, lo, Parent(k), k) {
      if Parent(k) == r {
        assert Over(cmp, s, lo, c, k);
        Flip(cmp, s[lo + r], s[lo + c]);
        Chain(cmp, s[lo + k], s[lo + c], s[lo + r]);
      } else {
        assert Over(cmp, s, lo, Parent(k), k);
      }
    }
  }

  lemma NoChild<T>(cmp: (T, T) -> int, s: seq<T>, lo: nat, from: nat, n: nat, r: nat)
    requires lo + n <= |s| && HeapBut(cmp, s, lo, from, n, r) && 2 * r + 1 >= n
    ensures Heap(cmp, s, lo, from, n)
  {
    forall k | 1 <= k < n && from <= Parent(k) ensures Over(cmp, s, lo, Parent(k), k) {
      assert Parent(k) != r;
    }
  }

  /** Picks the child to go on with. */
  method PickChild<T(!new)>(a: array<T>, cmp: (T, T) -> int, lo: nat, n: nat, r: nat) returns (c: nat)
    requires TotalPreorder(cmp) && lo + n <= a.Length && 2 * r + 1 < n
    ensures LargerChild(cmp, a[..], lo, n, r, c)
  {
    hide TotalPreorder;
    c := 2 * r + 1;
    var d := c + 1;
    Flip(cmp, a[lo + c], a[lo + c]);
    if d < n {
      Flip(cmp, a[lo + d], a[lo + d]);
      Flip(cmp, a[lo + c], a[lo + d]);
      if cmp(a[lo + c], a[lo + d]) <= 0 { c := d; }
    }
    forall k | 1 <= k < n && Parent(k) == r ensures Over(cmp, a[..], lo, c, k) {
      assert k == 2 * r + 1 || k == 2 * r + 2;
    }
  }

  method MoveDown<T(!new)>(a: array<T>, cmp: (T, T) -> int, lo: nat, ghost from: nat, n: nat, r: nat, c: nat)
    requires TotalPreorder(cmp) && lo + n <= a.Length && from <= r < n && LargerChild(cmp, a[..], lo, n, r, c)
    requires HeapBut(cmp, a[..], lo, from, n, r)
    requires c < n && cmp(a[lo + r], a[lo + c]) <= 0
    modifies a
    ensures HeapBut(cmp, a[..], lo, from, n, c) && Rearranged(old(a[..]), a[..], lo, lo + n)
  {
    hide TotalPreorder, Rearranged, HeapBut, LargerChild;
    ghost var s := a[..];
    Swap(a, lo + r, lo + c, lo, lo + n);
    ChildStep(cmp, s, a[..], lo, from, n, r, c);
  }

  lemma ChildIndex<T>(cmp: (T, T) -> int, s: seq<T>, lo: nat, n: nat, r: nat, c: nat)
    requires lo + n <= |s| && LargerChild(cmp, s, lo, n, r, c)
    ensures r < c < n
  {}

  /** The inner loop of heapsortx: lets element r sink. */
  method SiftDown<T(!new)>(a: array<T>, cmp: (T, T) -> int, lo: nat, from: nat, n: nat)
    requires TotalPreorder(cmp) && lo + n <= a.Length && from < n && HeapBut(cmp, a[..], lo, from, n, from)
    modifies a
    ensures Heap(cmp, a[..], lo, from, n) && Rearranged(old(a[..]), a[..], lo, lo + n)
  {
    hide TotalPreorder, Rearranged, HeapBut, Heap, LargerChild;
    ghost var s := a[..];
    RearrangedSelf(s, lo, lo + n);
    var r := from;
    while 2 * r + 1 < n
      invariant from <= r < n && HeapBut(cmp, a[..], lo, from, n, r) && Rearranged(s, a[..], lo, lo + n)
    {
      var c := PickChild(a, cmp, lo, n, r);
      ChildIndex(cmp, a[..], lo, n, r, c);
      if cmp(a[lo + r], a[lo + c]) > 0 {
        ChildEnd(cmp, a[..], lo, from, n, r, c);
        return;
      }
      ghost var t := a[..];
      MoveDown(a, cmp, lo, from, n, r, c);
      RearrangedThen(s, t, a[..], lo, lo + n);
      r := c;
    }
    NoChild(cmp, a[..], lo, from, n, r);
  }

  /** The root is over everything. */
  lemma {:induction false} RootOver<T(!new)>(cmp: (T, T) -> int, s: seq<T>, lo: nat, n: nat, k: nat)
    requires TotalPreorder(cmp) && lo + n <= |s| && k < n && Heap(cmp, s, lo, 0, n)
    ensures cmp(s[lo + k], s[lo]) <= 0
    decreases k
  {
    hide TotalPreorder;
    if k == 0 {
      Flip(cmp, s[lo], s[lo]);
    } else {
      RootOver(cmp, s, lo, n, Parent(k));
      assert Over(cmp, s, lo, Parent(k), k);
      Chain(cmp, s[lo + k], s[lo + Parent(k)], s[lo]);
    }
  }

  /** The elements from m on are in place: nothing before any of them is greater. */
  ghost predicate Tail<T>(cmp: (T, T) -> int, s: seq<T>, lo: nat, m: nat, n: nat)
    requires lo + n <= |s|
  {
    forall i, j :: lo <= i < j < lo + n && lo + m <= j ==> cmp(s[i], s[j]) <= 0
  }

  lemma TailKept<T>(cmp: (T, T) -> int, s: seq<T>, t: seq<T>, lo: nat, m: nat, n: nat)
    requires lo + n <= |s| && m <= n && Tail(cmp, s, lo, m, n) && Rearranged(s, t, lo, lo + m)
    ensures |t| == |s| && Tail(cmp, t, lo, m, n)
  {
    hide Rearranged;
    RearrangedLength(s, t, lo, lo + m);
    forall i, j | lo <= i < j < lo + n && lo + m <= j ensures cmp(t[i], t[j]) <= 0 {
      var i' := Before(s, t, lo, lo + m, i);
      var j' := Before(s, t, lo, lo + m, j);
    }
  }

  lemma TailGrows<T(!new)>(cmp: (T, T) -> int, s: seq<T>, t: seq<T>, lo: nat, m: nat, n: nat)
    requires TotalPreorder(cmp) && lo + n <= |s| && m < n && Tail(cmp, s, lo, m + 1, n) && Heap(cmp, s, lo, 0, m + 1)
    requires t == s[lo := s[lo + m]][lo + m := s[lo]]
    ensures Tail(cmp, t, lo, m, n)
  {
    hide TotalPreorder, Heap;
    forall i, j | lo <= i < j < lo + n && lo + m <= j ensures cmp(t[i], t[j]) <= 0 {
      if j == lo + m {
        RootOver(cmp, s, lo, m + 1, if i == lo then m else i - lo);
      }
    }
  }

  /** After the root has left, only the new root may be out of place. */
  lemma HeapShrinks<T>(cmp: (T, T) -> int, s: seq<T>, t: seq<T>, lo: nat, m: nat)
    requires lo + m < |s| && 1 <= m && Heap(cmp, s, lo, 0, m + 1) && t == s[lo := s[lo + m]][lo + m := s[lo]]
    ensures HeapBut(cmp, t, lo, 0, m, 0)
  {
    forall k | 1 <= k < m && 0 <= Parent(k) && Parent(k) != 0 ensures Over(cmp, t, lo, Parent(k), k) {
      assert Over(cmp, s, lo, Parent(k), k);
    }
  }

  method SwapRoot<T(!new)>(a: array<T>, cmp: (T, T) -> int, lo: nat, m: nat, ghost n: nat)
    requires TotalPreorder(cmp) && lo + n <= a.Length && 1 <= m < n && Tail(cmp, a[..], lo, m + 1, n)
    requires Heap(cmp, a[..], lo, 0, m + 1)
    modifies a
    ensures Tail(cmp, a[..], lo, m, n) && HeapBut(cmp, a[..], lo, 0, m, 0) && Rearranged(old(a[..]), a[..], lo, lo + n)
  {
    hide TotalPreorder, Rearranged, HeapBut, Heap, Tail;
    ghost var s := a[..];
    Swap(a, lo, lo + m, lo, lo + n);
    TailGrows(cmp, s, a[..], lo, m, n);
    HeapShrinks(cmp, s, a[..], lo, m);
  }

  /** One turn of the second loop: the root goes to place m. */
  method TakeRoot<T(!new)>(a: array<T>, cmp: (T, T) -> int, lo: nat, m: nat, ghost n: nat)
    requires TotalPreorder(cmp) && lo + n <= a.Length && 1 <= m < n && Tail(cmp, a[..], lo, m + 1, n)
    requires Heap(cmp, a[..], lo, 0, m + 1)
    modifies a
    ensures Tail(cmp, a[..], lo, m, n) && Heap(cmp, a[..], lo, 0, m) && Rearranged(old(a[..]), a[..], lo, lo + n)
  {
    hide TotalPreorder, Rearranged, HeapBut, Heap, Tail;
    ghost var s := a[..];
    SwapRoot(a, cmp, lo, m, n);
    ghost var t := a[..];
    SiftDown(a, cmp, lo, 0, m);
    TailKept(cmp, t, a[..], lo, m, n);
    RearrangedWider(t, a[..], lo, lo + m, lo, lo + n);
    RearrangedThen(s, t, a[..], lo, lo + n);
  }

  lemma HeapStart<T>(cmp: (T, T) -> int, s: seq<T>, lo: nat, n: nat)
    requires lo + n <= |s|
    ensures Heap(cmp, s, lo, n / 2, n) && Tail(cmp, s, lo, n, n)
  {
    assert forall k :: 1 <= k < n ==> Parent(k) < n / 2;
  }

  lemma HeapLower<T>(cmp: (T, T) -> int, s: seq<T>, lo: nat, from: nat, n: nat)
    requires lo + n <= |s| && Heap(cmp, s, lo, from + 1, n)
    ensures HeapBut(cmp, s, lo, from, n, from)
  {}

  lemma TailAll<T>(cmp: (T, T) -> int, s: seq<T>, lo: nat, n: nat)
    requires lo + n <= |s| && Tail(cmp, s, lo, 1, n)
    ensures Sorted(cmp, s, lo, lo + n)
  {}

  /** heapsortx */
  method Sort<T(!new)>(a: array<T>, cmp: (T, T) -> int, lo: nat, n: nat)
    requires TotalPreorder(cmp) && lo + n <= a.Length
    modifies a
    ensures Rearranged(old(a[..]), a[..], lo, lo + n) && Sorted(cmp, a[..], lo, lo + n)
  {
    hide TotalPreorder, Rearranged, HeapBut, Heap, Tail, Sorted;
    ghost var s := a[..];
    RearrangedSelf(s, lo, lo + n);
    HeapStart(cmp, s, lo, n);
    if n > 1 {
      var i := n / 2;
      while i > 0
        invariant 0 <= i < n && Heap(cmp, a[..], lo, i, n) && Rearranged(s, a[..], lo, lo + n)
      {
        i := i - 1;
        ghost var t := a[..];
        HeapLower(cmp, t, lo, i, n);
        SiftDown(a, cmp, lo, i, n);
        RearrangedThen(s, t, a[..], lo, lo + n);
      }
      HeapStart(cmp, a[..], lo, n);
      i := n - 1;
      while i > 0
        invariant 0 <= i < n && Heap(cmp, a[..], lo, 0, i + 1) && Tail(cmp, a[..], lo, i + 1, n)
        invariant Rearranged(s, a[..], lo, lo + n)
      {
        ghost var t := a[..];
        TakeRoot(a, cmp, lo, i, n);
        RearrangedThen(s, t, a[..], lo, lo + n);
        i := i - 1;
      }
    }
    TailShort(cmp, a[..], lo, n);
    TailAll(cmp, a[..], lo, n);
  }

  lemma TailShort<T>(cmp: (T, T) -> int, s: seq<T>, lo: nat, n: nat)
    requires lo + n <= |s|
    ensures n <= 1 ==> Tail(cmp, s, lo, 1, n)
  {}
}
