/**
Orders, rearrangements and cuts: the vocabulary of the sorting routines of
cutils.c. A cut is a position such that nothing before it is greater than
anything after it.
*/
module SortBase {

  /** A comparison function that is a total preorder. */
  ghost predicate TotalPreorder<T(!new)>(cmp: (T, T) -> int) {
    && (forall x, y :: cmp(x, y) < 0 <==> cmp(y, x) > 0)
    && (forall x, y, z :: cmp(x, y) <= 0 && cmp(y, z) <= 0 ==> cmp(x, z) <= 0)
  }

  lemma Flip<T(!new)>(cmp: (T, T) -> int, x: T, y: T)
    requires TotalPreorder(cmp)
    ensures cmp(x, y) < 0 <==> cmp(y, x) > 0
    ensures cmp(x, y) > 0 <==> cmp(y, x) < 0
    ensures cmp(x, y) == 0 <==> cmp(y, x) == 0
  {}

  lemma Chain<T(!new)>(cmp: (T, T) -> int, x: T, y: T, z: T)
    requires TotalPreorder(cmp) && cmp(x, y) <= 0 && cmp(y, z) <= 0
    ensures cmp(x, z) <= 0
  {}

  /** Nothing before p is greater than anything from p on. */
  ghost predicate CutAt<T>(cmp: (T, T) -> int, s: seq<T>, p: int) {
    forall i, j :: 0 <= i < p && p <= j < |s| && i < |s| ==> cmp(s[i], s[j]) <= 0
  }

  ghost predicate Sorted<T>(cmp: (T, T) -> int, s: seq<T>, lo: nat, hi: nat)
    requires hi <= |s|
  {
    forall i, j :: lo <= i < j < hi ==> cmp(s[i], s[j]) <= 0
  }

  /** t is s with the elements from lo up to hi rearranged. */
  ghost predicate Rearranged<T>(s: seq<T>, t: seq<T>, lo: nat, hi: nat) {
    lo <= hi <= |s| == |t| && s[..lo] == t[..lo] && s[hi..] == t[hi..] && multiset(s[lo..hi]) == multiset(t[lo..hi])
  }

  lemma RearrangedSelf<T>(s: seq<T>, lo: nat, hi: nat)
    requires lo <= hi <= |s|
    ensures Rearranged(s, s, lo, hi)
  {}

  lemma RearrangedThen<T>(s: seq<T>, t: seq<T>, u: seq<T>, lo: nat, hi: nat)
    requires Rearranged(s, t, lo, hi) && Rearranged(t, u, lo, hi)
    ensures Rearranged(s, u, lo, hi)
  {}

  /** Rearranging a part is rearranging the whole. */
  lemma RearrangedWider<T>(s: seq<T>, t: seq<T>, lo: nat, hi: nat, lo': nat, hi': nat)
    requires Rearranged(s, t, lo, hi) && lo' <= lo && hi <= hi' <= |s|
    ensures Rearranged(s, t, lo', hi')
  {
    assert s[lo'..hi'] == s[lo'..lo] + s[lo..hi] + s[hi..hi'];
    assert t[lo'..hi'] == t[lo'..lo] + t[lo..hi] + t[hi..hi'];
    assert s[lo'..lo] == s[..lo][lo'..] && t[lo'..lo] == t[..lo][lo'..];
    assert s[hi..hi'] == s[hi..][..hi' - hi] && t[hi..hi'] == t[hi..][..hi' - hi];
    assert s[..lo'] == s[..lo][..lo'] && t[..lo'] == t[..lo][..lo'];
    assert s[hi'..] == s[hi..][hi' - hi..] && t[hi'..] == t[hi..][hi' - hi..];
  }

  lemma RearrangedLength<T>(s: seq<T>, t: seq<T>, lo: nat, hi: nat)
    requires Rearranged(s, t, lo, hi)
    ensures |s| == |t| && hi <= |s|
  {}

  /** Outside the range nothing moved. */
  lemma Outside<T>(s: seq<T>, t: seq<T>, lo: nat, hi: nat, i: nat)
    requires Rearranged(s, t, lo, hi) && i < |s| && (i < lo || hi <= i)
    ensures |t| == |s| && t[i] == s[i]
  {
    if i < lo {
      assert s[..lo][i] == t[..lo][i];
    } else {
      assert s[hi..][i - hi] == t[hi..][i - hi];
    }
  }

  /** What is in the range was in the range. */
  lemma Origin<T>(s: seq<T>, t: seq<T>, lo: nat, hi: nat, i: nat) returns (k: nat)
    requires Rearranged(s, t, lo, hi) && lo <= i < hi
    ensures lo <= k < hi && hi <= |s| == |t| && t[i] == s[k]
  {
    assert t[lo..hi][i - lo] == t[i];
    assert t[i] in multiset(t[lo..hi]);
    assert t[i] in s[lo..hi];
    var m :| 0 <= m < |s[lo..hi]| && s[lo..hi][m] == t[i];
    k := lo + m;
  }

  /** Exchanging two elements of the range. */
  lemma SwapRearranged<T>(s: seq<T>, t: seq<T>, i: nat, j: nat, lo: nat, hi: nat)
    requires lo <= i < hi && lo <= j < hi && hi <= |s| && t == s[i := s[j]][j := s[i]]
    ensures Rearranged(s, t, lo, hi)
  {
    assert t[lo..hi] == s[lo..hi][i - lo := s[j]][j - lo := s[i]];
    SwapMultiset(s[lo..hi], i - lo, j - lo);
    assert s[..lo] == t[..lo] && s[hi..] == t[hi..];
  }

  lemma SwapMultiset<T>(u: seq<T>, i: nat, j: nat)
    requires i < |u| && j < |u|
    ensures multiset(u[i := u[j]][j := u[i]]) == multiset(u)
  {
    var v := u[i := u[j]];
    assert multiset(v) == multiset(u) - multiset{u[i]} + multiset{u[j]};
    assert multiset(v[j := u[i]]) == multiset(v) - multiset{v[j]} + multiset{u[i]};
  }

  /** Rearranging on one side of a cut keeps it. */
  lemma CutKept<T>(cmp: (T, T) -> int, s: seq<T>, t: seq<T>, lo: nat, hi: nat, p: int)
    requires Rearranged(s, t, lo, hi) && CutAt(cmp, s, p) && (p <= lo || hi <= p)
    ensures CutAt(cmp, t, p)
  {
    hide Rearranged;
    RearrangedLength(s, t, lo, hi);
    forall i, j | 0 <= i < p && p <= j < |t| && i < |t| ensures cmp(t[i], t[j]) <= 0 {
      var i' := Before(s, t, lo, hi, i);
      var j' := Before(s, t, lo, hi, j);
    }
  }

  /** Where an element was: inside the range if it is inside, or in the same place. */
  lemma Before<T>(s: seq<T>, t: seq<T>, lo: nat, hi: nat, i: nat) returns (k: nat)
    requires Rearranged(s, t, lo, hi) && i < |t|
    ensures |s| == |t| && k < |s| && t[i] == s[k] && (if lo <= i < hi then lo <= k < hi else k == i)
  {
    hide Rearranged;
    RearrangedLength(s, t, lo, hi);
    if lo <= i < hi {
      k := Origin(s, t, lo, hi, i);
    } else {
      Outside(s, t, lo, hi, i);
      k := i;
    }
  }

  /** The exchange functions: any of them swaps two elements. */
  method Swap<T>(a: array<T>, i: nat, j: nat, ghost lo: nat, ghost hi: nat)
    requires lo <= i < hi && lo <= j < hi && hi <= a.Length
    modifies a
    ensures a[..] == old(a[..])[i := old(a[j])][j := old(a[i])]
    ensures Rearranged(old(a[..]), a[..], lo, hi)
  {
    ghost var s := a[..];
    a[i], a[j] := a[j], a[i];
    assert a[..] == s[i := s[j]][j := s[i]];
    SwapRearranged(s, a[..], i, j, lo, hi);
  }
}
