/** Character sets as sorted interval bounds (CharRange in native/quickjs/libunicode.c). */
module CharSet {

  /** UINT32_MAX */
  const POINT_MAX: nat := 0xffff_ffff

  /** Lower bound of interval k. */
  function Low(pts: seq<nat>, k: nat): nat
    requires k < |pts| / 2
  {
    pts[2 * k]
  }

  /** Upper bound of interval k. */
  function High(pts: seq<nat>, k: nat): nat
    requires k < |pts| / 2
  {
    pts[2 * k + 1]
  }

  /** Membership in the union of the half-open intervals. */
  ghost predicate Contains(pts: seq<nat>, c: nat) {
    exists k :: 0 <= k < |pts| / 2 && Low(pts, k) <= c < High(pts, k)
  }

  ghost predicate Sorted(pts: seq<nat>) {
    forall i, j :: 0 <= i < j < |pts| ==> pts[i] <= pts[j]
  }

  /** Even number of strictly increasing bounds. */
  ghost predicate Canonical(pts: seq<nat>) {
    && |pts| % 2 == 0
    && (forall i, j :: 0 <= i < j < |pts| ==> pts[i] < pts[j])
    && (forall i :: 0 <= i < |pts| ==> pts[i] <= POINT_MAX)
  }
}
