/**
A result of which the integer part and a sticky bit are known rounds like the
exact one, provided that at least two bits lie below the last place.
*/
module BfSticky {
  import opened Limb
  import opened Newton
  import opened Rounding
  import opened BfRound
  import opened BfNormalize

  /** q with its lowest bit set when something was lost. */
  function Sticky(q: int, lost: bool): int {
    if lost && q % 2 == 0 then q + 1 else q
  }

  /** Against an even number, the sticky integer compares like anything between q and q + 1. */
  lemma StickyCompares(q: int, lost: bool, even: int, x: int)
    requires even % 2 == 0
    requires if lost then x == (if q >= even then 1 else -1) else x == Sign(q - even)
    ensures Sign(Sticky(q, lost) - even) == x
  {}

  lemma EvenMultiple(h: int, k: nat)
    requires k >= 2
    ensures (h * Pow2(k - 1)) % 2 == 0 && h * Pow2(k) == 2 * (h * Pow2(k - 1))
  {
    hide Pow2;
    Pow2Step(k - 2);
    Pow2Step(k - 1);
    Shuffle(h, 2, Pow2(k - 2));
    Shuffle(h, 2, Pow2(k - 1));
    MulComm(2, h * Pow2(k - 2));
  }

  lemma SignTwice(x: int)
    ensures Sign(2 * x) == Sign(x)
  {}

  // ----- quotients -----

  lemma QuotientCompares(a: int, d: int, q: int, rem: int, even: int)
    requires 0 < d && a == q * d + rem && 0 <= rem < d
    ensures Sign(a - even * d) == if rem != 0 then (if q >= even then 1 else -1) else Sign(q - even)
  {
    MulSub(q, even, d);
    if q >= even { MulNonNeg(q - even, d); } else { MulMono(q - even, -1, d); }
    SignScaled(q - even, d);
  }

  lemma StickyRatio(a: int, d: int, q: int, rem: int, k: nat, h: int)
    requires 0 < d && a == q * d + rem && 0 <= rem < d && k >= 2
    ensures Ratio(a, d * Pow2(k))(h) == Ratio(Sticky(q, rem != 0), Pow2(k))(h)
  {
    hide Pow2, Sticky, Sign;
    EvenMultiple(h, k);
    var even := h * Pow2(k - 1);
    QuotientCompares(a, d, q, rem, even);
    StickyCompares(q, rem != 0, even, Sign(a - even * d));
    Shuffle(h, Pow2(k), d);
    MulComm(d, Pow2(k));
    MulAssoc(h, Pow2(k), d);
    MulAssoc(2, even, d);
    SignTwice(a - even * d);
    SignTwice(Sticky(q, rem != 0) - even);
  }

  /** The quotient with a sticky bit rounds to what the exact quotient rounds to. */
  lemma StickyQuotient(mode: Mode, neg: bool, a: int, d: int, q: int, rem: int, k: nat, r: int)
    requires 0 < d && a == q * d + rem && 0 <= rem < d && k >= 2
    ensures RoundsTo(mode, neg, Sticky(q, rem != 0), k, r) <==> IsRounded(mode, neg, Ratio(a, d * Pow2(k)), r)
  {
    hide Pow2, Sticky, Ratio, IsRounded;
    var s := Sticky(q, rem != 0);
    forall h ensures Ratio(a, d * Pow2(k))(h) == Ratio(s, Pow2(k))(h) { StickyRatio(a, d, q, rem, k, h); }
    RoundedAlike(mode, neg, Ratio(a, d * Pow2(k)), Ratio(s, Pow2(k)), r);
  }

  // ----- square roots -----

  /** The square root of num / den. */
  ghost function RootOf(num: int, den: int): Cut {
    h => if h < 0 then 1 else Sign(4 * num - (h * h) * den)
  }

  lemma RootOfCoherent(num: int, den: int)
    requires 0 < den
    ensures Coherent(RootOf(num, den))
  {
    forall h, k | h < k && RootOf(num, den)(h) <= 0 ensures RootOf(num, den)(k) < 0 {
      MulMono(h, k, h);
      MulStrict(h, k, k);
      MulStrict(h * h, k * k, den);
    }
  }

  /** s is the integer part of the root of a / d, lost tells whether there is more. */
  ghost predicate RootPart(a: int, d: int, s: int, lost: bool) {
    0 <= s && (s * s) * d <= a < ((s + 1) * (s + 1)) * d && (lost <==> (s * s) * d != a)
  }

  lemma RootCompares(a: int, d: int, s: int, lost: bool, even: int)
    requires 0 < d && RootPart(a, d, s, lost) && 0 <= even
    ensures Sign(a - (even * even) * d) == if lost then (if s >= even then 1 else -1) else Sign(s - even)
  {
    if even <= s {
      MulMono(even, s, even);
      MulMono(even, s, s);
      MulMono(even * even, s * s, d);
      if even < s {
        MulStrict(even, s, s);
        MulStrict(even * even, s * s, d);
      }
    } else {
      MulMono(s + 1, even, s + 1);
      MulMono(s + 1, even, even);
      MulMono((s + 1) * (s + 1), even * even, d);
    }
  }

  lemma StickyRootOf(a: int, d: int, s: int, lost: bool, k: nat, h: int)
    requires 0 < d && RootPart(a, d, s, lost) && k >= 2
    ensures RootOf(a, d * Pow2(2 * k))(h) == Ratio(Sticky(s, lost), Pow2(k))(h)
  {
    hide Pow2, Sticky, Sign, RootPart;
    EvenMultiple(h, k);
    var even := h * Pow2(k - 1);
    if h < 0 {
      NegativeMultiple(h, Pow2(k), Sticky(s, lost));
      assert 0 <= Sticky(s, lost) by { StickyAtLeast(a, d, s, lost); }
    } else {
      MulNonNeg(h, Pow2(k - 1));
      RootCompares(a, d, s, lost, even);
      StickyCompares(s, lost, even, Sign(a - (even * even) * d));
      SquareOfMultiple(h, k, d);
      SignFour(a - (even * even) * d);
      SignTwice(Sticky(s, lost) - even);
    }
  }

  lemma StickyAtLeast(a: int, d: int, s: int, lost: bool)
    requires RootPart(a, d, s, lost)
    ensures 0 <= Sticky(s, lost)
  {}

  lemma NegativeMultiple(h: int, p: int, s: int)
    requires h < 0 && 0 < p
    ensures 0 <= s ==> Sign(2 * s - h * p) == 1
  {
    MulMono(h, -1, p);
  }

  lemma SignFour(x: int)
    ensures Sign(4 * x) == Sign(x)
  {}

  lemma SquareOfMultiple(h: int, k: nat, d: int)
    requires k >= 1
    ensures (h * h) * (d * Pow2(2 * k)) == 4 * (((h * Pow2(k - 1)) * (h * Pow2(k - 1))) * d)
  {
    hide Pow2;
    var p := Pow2(k - 1);
    Pow2Step(k - 1);
    Pow2Add(k, k);
    assert k + k == 2 * k && Pow2(2 * k) == (2 * p) * (2 * p);
    assert (2 * p) * (2 * p) == 4 * (p * p);
    SquaresTogether(h, p);
    Shuffle(h * h, p * p, d);
    MulComm(d, p * p);
    FourTimes(h * h, d, p * p);
  }

  lemma SquaresTogether(h: int, p: int)
    ensures (h * p) * (h * p) == (h * h) * (p * p)
  {
    MulAssoc(h * p, h, p);
    Shuffle(h, p, h);
    MulAssoc(h * h, p, p);
  }

  lemma FourTimes(x: int, d: int, q: int)
    ensures x * (d * (4 * q)) == 4 * ((x * q) * d)
  {
    Shuffle(d, 4, q);
    Shuffle(x, 4, d * q);
    MulAssoc(x, q, d);
    MulComm(d, q);
  }

  lemma StickyRoot(mode: Mode, neg: bool, a: int, d: int, s: int, lost: bool, k: nat, r: int)
    requires 0 < d && RootPart(a, d, s, lost) && k >= 2
    ensures RoundsTo(mode, neg, Sticky(s, lost), k, r) <==> IsRounded(mode, neg, RootOf(a, d * Pow2(2 * k)), r)
  {
    hide Pow2, Sticky, Ratio, IsRounded, RootOf, RootPart;
    var t := Sticky(s, lost);
    forall h ensures RootOf(a, d * Pow2(2 * k))(h) == Ratio(t, Pow2(k))(h) { StickyRootOf(a, d, s, lost, k, h); }
    RoundedAlike(mode, neg, RootOf(a, d * Pow2(2 * k)), Ratio(t, Pow2(k)), r);
  }
}
