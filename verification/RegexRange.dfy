/** Character classes: the operands written by re_emit_range and the search the machine does in them. */
module RegexRange {
  import opened CharSet
  import opened RegexSyntax
  import opened RegexMachine

  lemma NarrowBounds(pts: seq<nat>, k: nat)
    requires Canonical(pts) && k < |pts| / 2
    ensures Low(NarrowRanges(pts), k) == Low(pts, k)
    ensures High(NarrowRanges(pts), k) == if High(pts, k) == POINT_MAX then 0xffff else High(pts, k) - 1
    ensures High(pts, k) == POINT_MAX ==> k == |pts| / 2 - 1
    ensures Low(pts, 0) <= Low(pts, k) < High(pts, k)
  {
    assert pts[2 * k] < pts[2 * k + 1];
    assert pts[2 * k + 1] <= pts[|pts| - 1];
  }

  lemma WideBounds(pts: seq<nat>, k: nat)
    requires Canonical(pts) && k < |pts| / 2
    ensures Low(WideRanges(pts), k) == Low(pts, k)
    ensures High(WideRanges(pts), k) == High(pts, k) - 1
  {
    assert pts[2 * k] < pts[2 * k + 1];
  }

  lemma NarrowEnds(pts: seq<nat>)
    requires Canonical(pts) && |pts| >= 2 && LargestBound(pts) <= 0xffff
    ensures var rs := NarrowRanges(pts);
            && rs[0] == Low(pts, 0) && rs[|rs| - 1] == High(rs, |pts| / 2 - 1)
            && (High(pts, |pts| / 2 - 1) < POINT_MAX ==> High(pts, |pts| / 2 - 1) <= 0xffff)
            && Low(pts, |pts| / 2 - 1) <= 0xffff
  {
    assert pts[|pts| - 2] < pts[|pts| - 1];
  }

  lemma NarrowAccepts(pts: seq<nat>, c: nat)
    requires Canonical(pts) && |pts| >= 2 && LargestBound(pts) <= 0xffff && c < POINT_MAX
    ensures RangeAccepts(false, NarrowRanges(pts), c) <==> Contains(pts, c)
  {
    hide NarrowRanges, Canonical, LargestBound, Low, High;
    var rs := NarrowRanges(pts);
    var last := |pts| / 2 - 1;
    NarrowBounds(pts, last);
    NarrowEnds(pts);
    if Contains(pts, c) {
      var k :| 0 <= k < |pts| / 2 && Low(pts, k) <= c < High(pts, k);
      NarrowBounds(pts, k);
      if c < 0xffff || High(pts, k) != POINT_MAX { assert Low(rs, k) <= c <= High(rs, k); }
    }
    if exists k :: 0 <= k < |rs| / 2 && Low(rs, k) <= c <= High(rs, k) {
      var k :| 0 <= k < |rs| / 2 && Low(rs, k) <= c <= High(rs, k);
      NarrowBounds(pts, k);
      assert Low(pts, k) <= c < High(pts, k);
    }
    if c >= 0xffff && rs[|rs| - 1] == 0xffff {
      assert Low(pts, last) <= c < High(pts, last);
    }
  }

  lemma WideAccepts(pts: seq<nat>, c: nat)
    requires Canonical(pts)
    ensures RangeAccepts(true, WideRanges(pts), c) <==> Contains(pts, c)
  {
    var rs := WideRanges(pts);
    forall k: nat | k < |pts| / 2
      ensures Low(rs, k) == Low(pts, k) && High(rs, k) == High(pts, k) - 1
    {
      WideBounds(pts, k);
    }
  }

  /** The instruction written for a canonical class reads exactly its members, whichever form is chosen. */
  lemma RangeInstrReads(pts: seq<nat>, c: nat)
    requires Canonical(pts) && c < POINT_MAX
    ensures Reads(RangeInstr(pts), c) <==> Contains(pts, c)
  {
    if |pts| >= 2 {
      if LargestBound(pts) <= 0xffff { NarrowAccepts(pts, c); } else { WideAccepts(pts, c); }
    }
  }

  /** Bounds as the binary search needs them: intervals in order, none empty. */
  ghost predicate Ordered(rs: seq<nat>) {
    && |rs| % 2 == 0
    && (forall k :: 0 <= k < |rs| / 2 ==> Low(rs, k) <= High(rs, k))
    && (forall j, k :: 0 <= j < k < |rs| / 2 ==> High(rs, j) < Low(rs, k))
  }

  /** Operands that the search can be run on. */
  ghost predicate Searchable(rs: seq<nat>) {
    2 <= |rs| && |rs| / 2 < 65535 && Ordered(rs)
  }

  lemma ClassSearchable(pts: seq<nat>)
    requires Canonical(pts) && |pts| / 2 < 65535
    ensures var i := RangeInstr(pts); i.Char32? || (i.Range? && Searchable(i.ranges))
  {
    if |pts| >= 2 { OperandsFit(pts); }
  }

  /** All operands fit the two or four bytes they are written to, and are ordered. */
  lemma OperandsFit(pts: seq<nat>)
    requires Canonical(pts) && |pts| >= 2
    ensures var i := RangeInstr(pts);
            i.Range? && Ordered(i.ranges) && |i.ranges| == |pts|
            && forall j :: 0 <= j < |i.ranges| ==> i.ranges[j] <= if i.wide then POINT_MAX else 0xffff
  {
    var rs := RangeInstr(pts).ranges;
    forall k: nat | k < |pts| / 2 ensures Low(rs, k) <= High(rs, k) {
      assert pts[2 * k] < pts[2 * k + 1];
      assert pts[2 * k] <= pts[|pts| - 2];
    }
    forall j: nat, k: nat | j < k < |rs| / 2 ensures High(rs, j) < Low(rs, k) {
      assert pts[2 * j] < pts[2 * j + 1] < pts[2 * k] < pts[2 * k + 1];
    }
    forall j | 0 <= j < |rs| ensures rs[j] <= if LargestBound(pts) <= 0xffff then 0xffff else POINT_MAX {
      assert pts[j] <= pts[|pts| - 1];
      assert j < |pts| - 1 ==> pts[j] <= pts[|pts| - 2];
    }
  }

  /**
  The binary search of REOP_range and REOP_range32 on 32-bit unsigned indices:
  neither index ever leaves the operands, so `idx - 1` never wraps.
  */
  method Search(wide: bool, rs: seq<nat>, c: nat) returns (found: bool)
    requires Searchable(rs)
    ensures found <==> RangeAccepts(wide, rs, c)
  {
    ghost var n := |rs| / 2;
    assert Low(rs, 0) == rs[0] && High(rs, n - 1) == rs[|rs| - 1];
    if c < rs[0] {
      assert forall k :: 0 < k < n ==> High(rs, 0) < Low(rs, k);
      return false;
    }
    var high := rs[|rs| - 1];
    if !wide && c >= 0xffff && high == 0xffff { return true; }
    if c > high {
      assert forall k :: 0 <= k < n - 1 ==> High(rs, k) < Low(rs, n - 1);
      return false;
    }
    var lo, hi := 0, |rs| / 2 - 1;
    while lo <= hi
      invariant 0 <= lo <= hi + 1 <= n
      invariant forall k :: 0 <= k < lo ==> High(rs, k) < c
      invariant forall k :: hi < k < n ==> c < Low(rs, k)
      decreases hi - lo
    {
      var mid := (lo + hi) / 2;
      assert rs[2 * mid] == Low(rs, mid) && rs[2 * mid + 1] == High(rs, mid);
      if c < rs[2 * mid] {
        assert mid > 0;
        assert forall k :: mid < k < n ==> High(rs, mid) < Low(rs, k);
        hi := mid - 1;
      } else if c > rs[2 * mid + 1] {
        assert forall k :: 0 <= k < mid ==> High(rs, k) < Low(rs, mid);
        lo := mid + 1;
      } else {
        return true;
      }
    }
    return false;
  }
}
