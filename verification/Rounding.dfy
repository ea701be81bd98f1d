/**
Rounding of a positive real number to an integer number of units in the last
place, in the modes of libbf (the rounding attributes of section 4.3 of IEEE
754-2008, plus faithful rounding). The number enters only through the way it
compares with the half-integers.
*/
module Rounding {
  import opened Limb
  import opened Newton

  datatype Mode = RNDN | RNDZ | RNDD | RNDU | RNDNA | RNDA | RNDF

  function Sign(x: int): int {
    if x < 0 then -1 else if x == 0 then 0 else 1
  }

  predicate IsEven(r: int) {
    r % 2 == 0
  }

  /** A real number x, known by the sign of 2x - h for every integer h. */
  type Cut = int -> int

  /** The number num / den. */
  ghost function Ratio(num: int, den: int): Cut {
    h => Sign(2 * num - h * den)
  }

  /** r is x or the next integer towards zero. */
  ghost predicate Down(x: Cut, r: int) {
    x(2 * r) >= 0 && x(2 * r + 2) < 0
  }

  /** r is x or the next integer away from zero. */
  ghost predicate Up(x: Cut, r: int) {
    x(2 * r) <= 0 && x(2 * r - 2) > 0
  }

  /** r is what x of the given sign rounds to. The code rounds to nearest where it is asked to round faithfully. */
  ghost predicate IsRounded(mode: Mode, neg: bool, x: Cut, r: int) {
    match mode
    case RNDZ => Down(x, r)
    case RNDA => Up(x, r)
    case RNDD => if neg then Up(x, r) else Down(x, r)
    case RNDU => if neg then Down(x, r) else Up(x, r)
    case RNDN => x(2 * r - 1) >= 0 && x(2 * r + 1) <= 0 && (x(2 * r - 1) == 0 || x(2 * r + 1) == 0 ==> IsEven(r))
    case RNDNA => x(2 * r - 1) >= 0 && x(2 * r + 1) < 0
    case RNDF => x(2 * r - 1) >= 0 && x(2 * r + 1) < 0
  }

  /** The comparisons of a number: what is above one half-integer is above all lower ones. */
  ghost predicate Coherent(x: Cut) {
    forall h, k :: h < k && x(h) <= 0 ==> x(k) < 0
  }

  lemma RatioCoherent(num: int, den: int)
    requires 0 < den
    ensures Coherent(Ratio(num, den))
  {
    forall h, k | h < k && Ratio(num, den)(h) <= 0 ensures Ratio(num, den)(k) < 0 {
      MulStrict(h, k, den);
    }
  }

  lemma CutOrder(x: Cut, h: int, k: int)
    requires Coherent(x) && x(h) <= 0 <= x(k)
    ensures k <= h && (x(h) < 0 || x(k) > 0 ==> k < h)
  {}

  /** Every mode determines the result. */
  lemma RoundedUnique(mode: Mode, neg: bool, x: Cut, r: int, r': int)
    requires Coherent(x) && IsRounded(mode, neg, x, r) && IsRounded(mode, neg, x, r')
    ensures r == r'
  {
    hide Coherent;
    RoundedOrder(mode, neg, x, r, r');
    RoundedOrder(mode, neg, x, r', r);
  }

  lemma RoundedOrder(mode: Mode, neg: bool, x: Cut, r: int, r': int)
    requires Coherent(x) && IsRounded(mode, neg, x, r) && IsRounded(mode, neg, x, r')
    ensures r' <= r
  {
    hide Coherent;
    var down := mode == RNDZ || (mode == RNDD && !neg) || (mode == RNDU && neg);
    if down {
      CutOrder(x, 2 * r + 2, 2 * r');
    } else if mode == RNDN || mode == RNDNA || mode == RNDF {
      CutOrder(x, 2 * r + 1, 2 * r' - 1);
      assert mode == RNDN && r' == r + 1 ==> x(2 * r + 1) == 0 && IsEven(r) && IsEven(r');
    } else {
      CutOrder(x, 2 * r, 2 * r' - 2);
    }
  }

  /** r is one of the neighbours of x, or x itself: all that is promised of faithful rounding. */
  ghost predicate Faithful(x: Cut, r: int) {
    Down(x, r) || Up(x, r)
  }

  lemma RoundedFaithful(mode: Mode, neg: bool, x: Cut, r: int)
    requires Coherent(x) && IsRounded(mode, neg, x, r)
    ensures Faithful(x, r)
  {
    assert x(2 * r - 1) >= 0 ==> x(2 * r - 2) > 0 by { if x(2 * r - 2) <= 0 { CutOrder(x, 2 * r - 2, 2 * r - 1); } }
    assert x(2 * r + 1) <= 0 ==> x(2 * r + 2) < 0;
  }

  /** Numbers that compare alike round alike. */
  lemma RoundedAlike(mode: Mode, neg: bool, x: Cut, y: Cut, r: int)
    requires forall h :: x(h) == y(h)
    ensures IsRounded(mode, neg, x, r) == IsRounded(mode, neg, y, r)
  {}

  // ----- the decision of bf_get_rnd_add -----

  /** From the first dropped bit, whether any later one is set, and the last kept bit. */
  function RoundUp(mode: Mode, neg: bool, bit1: bool, bit0: bool, odd: bool): bool {
    match mode
    case RNDZ => false
    case RNDN => bit1 && (bit0 || odd)
    case RNDD => neg && (bit1 || bit0)
    case RNDU => !neg && (bit1 || bit0)
    case RNDA => bit1 || bit0
    case RNDNA => bit1
    case RNDF => bit1
  }

  lemma HalfUnits(m: int, q: int, b1: int, low: int, p: int)
    requires m == (2 * q + b1) * p + low && 0 <= low < p && 0 <= b1 <= 1
    ensures var x := Ratio(m, 2 * p);
      && x(2 * q) == (if b1 == 0 && low == 0 then 0 else 1) && x(2 * q + 2) == -1
      && x(2 * q + 1) == (if b1 == 0 then -1 else if low == 0 then 0 else 1)
      && x(2 * q - 1) == 1 && x(2 * q + 3) == -1
  {
    MulAdd(2 * q, b1, p);
    forall d | -1 <= d <= 3 ensures (2 * q + d) * (2 * p) == 2 * ((2 * q) * p) + 2 * (d * p) {
      MulAdd(2 * q, d, 2 * p);
      Shuffle(2 * q, 2, p);
      Shuffle(d, 2, p);
    }
    assert (2 * q - 1) * (2 * p) == 2 * ((2 * q) * p) - 2 * p by { assert (2 * q + -1) * (2 * p) ==
      2 * ((2 * q) * p) + 2 * (-1 * p); }
    assert (2 * q + 3) * (2 * p) == 2 * ((2 * q) * p) + 6 * p;
    assert (2 * q + 2) * (2 * p) == 2 * ((2 * q) * p) + 4 * p;
    assert (2 * q + 1) * (2 * p) == 2 * ((2 * q) * p) + 2 * p;
    assert (2 * q + 0) * (2 * p) == 2 * ((2 * q) * p);
  }

  /** bf_get_rnd_add decides rightly: m counts units of which 2*p make one place. */
  lemma RoundUpExact(mode: Mode, neg: bool, m: int, q: int, b1: int, low: int, p: int)
    requires m == (2 * q + b1) * p + low && 0 <= low < p && 0 <= b1 <= 1
    ensures IsRounded(mode, neg, Ratio(m, 2 * p),
                      q + if RoundUp(mode, neg, b1 == 1, low != 0, q % 2 == 1) then 1 else 0)
  {
    HalfUnits(m, q, b1, low, p);
    var x := Ratio(m, 2 * p);
    if RoundUp(mode, neg, b1 == 1, low != 0, q % 2 == 1) {
      assert 2 * (q + 1) == 2 * q + 2 && 2 * (q + 1) - 1 == 2 * q + 1 && 2 * (q + 1) + 1 == 2 * q + 3 &&
        2 * (q + 1) - 2 == 2 * q;
    } else {
      assert x(2 * q - 2) == 1 by { LowerHalf(m, 2 * p, 2 * q - 1, 2 * q - 2); }
    }
  }

  lemma LowerHalf(m: int, d: int, h: int, k: int)
    requires Ratio(m, d)(h) > 0 && k <= h && 0 <= d
    ensures Ratio(m, d)(k) == 1
  {
    MulMono(k, h, d);
  }
}
