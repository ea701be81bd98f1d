/** Numbers m * 2^e with a natural m and any integer exponent. */
module Dyadic {
  import opened Limb
  import opened Newton

  /** m1 * 2^e1 == m2 * 2^e2 */
  ghost predicate SameValue(m1: int, e1: int, m2: int, e2: int) {
    if e1 >= e2 then m1 * Pow2(e1 - e2) == m2 else m1 == m2 * Pow2(e2 - e1)
  }

  /** The same, on any common exponent. */
  lemma SameScaled(m1: int, e1: int, m2: int, e2: int, f: int)
    requires f <= e1 && f <= e2
    ensures SameValue(m1, e1, m2, e2) <==> m1 * Pow2(e1 - f) == m2 * Pow2(e2 - f)
  {
    hide Pow2;
    if e1 >= e2 {
      Pow2Add(e1 - e2, e2 - f);
      ScaleBoth(m1 * Pow2(e1 - e2), m2, Pow2(e2 - f));
      MulAssoc(m1, Pow2(e1 - e2), Pow2(e2 - f));
    } else {
      Pow2Add(e2 - e1, e1 - f);
      ScaleBoth(m1, m2 * Pow2(e2 - e1), Pow2(e1 - f));
      MulAssoc(m2, Pow2(e2 - e1), Pow2(e1 - f));
    }
  }

  lemma ScaleBoth(x: int, y: int, k: int)
    requires 0 < k
    ensures x == y <==> x * k == y * k
  {
    if x * k == y * k {
      Cancel(x, y, k);
      Cancel(y, x, k);
    }
  }

  lemma SameTransitive(m1: int, e1: int, m2: int, e2: int, m3: int, e3: int)
    requires SameValue(m1, e1, m2, e2) && SameValue(m2, e2, m3, e3)
    ensures SameValue(m1, e1, m3, e3)
  {
    hide SameValue, Pow2;
    var f := if e1 <= e2 && e1 <= e3 then e1 else if e2 <= e3 then e2 else e3;
    SameScaled(m1, e1, m2, e2, f);
    SameScaled(m2, e2, m3, e3, f);
    SameScaled(m1, e1, m3, e3, f);
  }

  /** Shifting both exponents. */
  lemma SameShift(m1: int, e1: int, m2: int, e2: int, d: int)
    requires SameValue(m1, e1, m2, e2)
    ensures SameValue(m1, e1 + d, m2, e2 + d)
  {}

  lemma SameFlip(m1: int, e1: int, m2: int, e2: int)
    requires SameValue(m1, e1, m2, e2)
    ensures SameValue(m2, e2, m1, e1)
  {
    hide SameValue, Pow2;
    var f := if e1 <= e2 then e1 else e2;
    SameScaled(m1, e1, m2, e2, f);
    SameScaled(m2, e2, m1, e1, f);
  }
}
