/**
Numbers m * 2^e as real numbers, and how far rounding to nearest moves them:
by at most one part in 2^prec.
*/
module RealValue {
  import opened Limb
  import opened MpBasic
  import opened Rounding
  import opened Dyadic
  import opened BfRound
  import opened BfNormalize
  import opened BfDivide

  // ----- products of reals, by their laws alone -----

  ghost function Times(x: real, y: real): real {
    x * y
  }

  lemma TimesOne(x: real)
    ensures Times(1.0, x) == x && Times(x, 1.0) == x
  {}

  lemma TimesComm(x: real, y: real)
    ensures Times(x, y) == Times(y, x)
  {}

  lemma TimesAssoc(x: real, y: real, z: real)
    ensures Times(x, Times(y, z)) == Times(Times(x, y), z)
  {}

  /** (x*y)*z == (x*z)*y */
  lemma TimesSwap(x: real, y: real, z: real)
    ensures Times(Times(x, y), z) == Times(Times(x, z), y)
  {}

  lemma TimesAdd(x: real, y: real, z: real)
    ensures Times(x + y, z) == Times(x, z) + Times(y, z) && Times(x - y, z) == Times(x, z) - Times(y, z)
  {}

  lemma TimesScale(c: real, x: real, y: real)
    ensures Times(c * x, y) == c * Times(x, y) && Times(x, c * y) == c * Times(x, y)
  {}

  lemma TimesMono(x: real, y: real, z: real)
    requires x <= y && 0.0 <= z
    ensures Times(x, z) <= Times(y, z) && Times(z, x) <= Times(z, y)
  {}

  lemma TimesCancel(x: real, y: real, z: real)
    requires 0.0 < z
    ensures (x < y <==> Times(x, z) < Times(y, z)) && (x == y <==> Times(x, z) == Times(y, z))
  {
    if x < y { assert (y - x) * z > 0.0; }
    if y < x { assert (x - y) * z > 0.0; }
  }

  // ----- powers of two -----

  ghost function Exp2(e: int): (r: real)
    ensures r > 0.0
  {
    if e >= 0 then Pow2(e) as real else 1.0 / (Pow2(-e) as real)
  }

  lemma Exp2Zero()
    ensures Exp2(0) == 1.0
  {
    Pow2Zero();
  }

  lemma Exp2Nat(n: nat)
    ensures Exp2(n) == Pow2(n) as real
  {}

  lemma Exp2Step(e: int)
    ensures Exp2(e + 1) == 2.0 * Exp2(e)
  {
    hide Pow2;
    if e >= 0 {
      Pow2Step(e);
    } else {
      Pow2Step(-e - 1);
      HalfInverse(Pow2(-e - 1) as real);
      if e == -1 { Pow2Zero(); }
    }
  }

  lemma HalfInverse(x: real)
    requires x > 0.0
    ensures 1.0 / x == 2.0 * (1.0 / (2.0 * x))
  {}

  lemma {:induction false} Exp2Add(e: int, n: nat)
    ensures Exp2(e + n) == Times(Exp2(e), Exp2(n))
    decreases n
  {
    hide Exp2, Times;
    if n == 0 {
      Exp2Zero();
      TimesOne(Exp2(e));
    } else {
      Exp2Add(e, n - 1);
      Exp2Step(e + n - 1);
      Exp2Step(n - 1);
      TimesScale(2.0, Exp2(e), Exp2(n - 1));
    }
  }

  lemma Exp2Sum(e: int, f: int)
    ensures Exp2(e + f) == Times(Exp2(e), Exp2(f))
  {
    hide Exp2, Times;
    if f >= 0 {
      Exp2Add(e, f);
    } else {
      Exp2Add(e + f, -f);
      Exp2Add(f, -f);
      Exp2Zero();
      TimesAssoc(Exp2(e + f), Exp2(-f), Exp2(f));
      TimesComm(Exp2(-f), Exp2(f));
      TimesOne(Exp2(e + f));
    }
  }

  lemma Exp2Mono(e: int, f: int)
    requires e <= f
    ensures Exp2(e) <= Exp2(f)
  {
    hide Exp2, Times;
    Exp2Add(e, f - e);
    Exp2Nat(f - e);
    TimesMono(1.0, Exp2(f - e), Exp2(e));
    TimesOne(Exp2(e));
  }

  lemma Exp2Order(e: int, f: int)
    requires Exp2(e) < Exp2(f)
    ensures e < f
  {
    hide Exp2;
    if f <= e { Exp2Mono(f, e); }
  }

  lemma SmallPart(prec: nat)
    requires prec >= 1
    ensures 2.0 * Exp2(0 - prec) <= 1.0
  {
    hide Exp2;
    Exp2Step(0 - prec);
    Exp2Mono(1 - prec, 0);
    Exp2Zero();
  }

  lemma TinyPart(p: nat, n: nat)
    requires p >= n + 2
    ensures 4.0 * Exp2(0 - p) <= Exp2(0 - n)
  {
    hide Exp2;
    Exp2Step(0 - p);
    Exp2Step(1 - p);
    Exp2Mono(2 - p, 0 - n);
  }

  // ----- values -----

  ghost function Value(m: int, e: int): real {
    Times(m as real, Exp2(e))
  }

  lemma CastMul(x: int, y: int)
    ensures (x * y) as real == Times(x as real, y as real)
  {}

  lemma ValueUnit(e: int)
    ensures Value(1, e) == Exp2(e)
  {
    hide Exp2, Times;
    TimesOne(Exp2(e));
  }

  lemma ValueWhole(m: int)
    ensures Value(m, 0) == m as real
  {
    hide Exp2, Times;
    Exp2Zero();
    TimesOne(m as real);
  }

  lemma ValueMove(m: int, e: int, f: int)
    ensures Value(m, e + f) == Times(Value(m, e), Exp2(f))
  {
    hide Exp2, Times;
    Exp2Sum(e, f);
    TimesAssoc(m as real, Exp2(e), Exp2(f));
  }

  lemma ValueScaled(m: int, e: int, n: nat)
    ensures Value(m * Pow2(n), e) == Value(m, e + n)
  {
    hide Exp2, Pow2, Times;
    CastMul(m, Pow2(n));
    Exp2Nat(n);
    ValueMove(m, e, n);
    TimesSwap(m as real, Pow2(n) as real, Exp2(e));
  }

  lemma ValueOrder(m: int, n: int, e: int)
    ensures (m == n <==> Value(m, e) == Value(n, e)) && (m < n <==> Value(m, e) < Value(n, e))
  {
    hide Exp2, Times;
    TimesCancel(m as real, n as real, Exp2(e));
  }

  /** Equal values, by integers and by reals. */
  lemma SameIsValue(m1: int, e1: int, m2: int, e2: int)
    ensures SameValue(m1, e1, m2, e2) <==> Value(m1, e1) == Value(m2, e2)
  {
    hide Pow2, SameValue, Exp2, Value;
    var f := if e1 <= e2 then e1 else e2;
    SameScaled(m1, e1, m2, e2, f);
    ValueScaled(m1, f, e1 - f);
    ValueScaled(m2, f, e2 - f);
    ValueOrder(m1 * Pow2(e1 - f), m2 * Pow2(e2 - f), f);
  }

  lemma ValueProduct(u: int, e: int, d: int, f: int)
    ensures Value(u * d, e + f) == Times(Value(u, e), Value(d, f))
  {
    hide Exp2, Times;
    CastMul(u, d);
    Exp2Sum(e, f);
    FourFactors(u as real, d as real, Exp2(e), Exp2(f));
  }

  lemma FourFactors(u: real, d: real, x: real, y: real)
    ensures Times(Times(u, d), Times(x, y)) == Times(Times(u, x), Times(d, y))
  {
    hide Times;
    TimesAssoc(Times(u, d), x, y);
    TimesSwap(u, d, x);
    TimesAssoc(Times(u, x), d, y);
  }

  /** The range of a number of exponent e. */
  lemma ExponentRange(z: int, g: int, e: int)
    requires HasExponent(z, g, e)
    ensures Exp2(e - 1) <= Value(z, g) < Exp2(e)
  {
    hide Pow2, Exp2, Value;
    ValueScaled(1, g, e - g - 1);
    ValueScaled(1, g, e - g);
    ValueOrder(z, 1 * Pow2(e - g - 1), g);
    ValueOrder(z, 1 * Pow2(e - g), g);
    ValueUnit(e - 1);
    ValueUnit(e);
  }

  lemma QuotientRange(m: int, d: int, t: int, e: int)
    requires RatioExponent(m, d, t, e)
    ensures Value(d, e - 1) <= Value(m, t) < Value(d, e)
  {
    hide Pow2, Exp2, Value;
    if e > t {
      ValueScaled(d, t, e - t - 1);
      ValueScaled(d, t, e - t);
      MulComm(d, Pow2(e - t - 1));
      MulComm(d, Pow2(e - t));
      ValueOrder(m, Pow2(e - t - 1) * d, t);
      ValueOrder(m, Pow2(e - t) * d, t);
    } else {
      ValueScaled(m, e - 1, t - e + 1);
      ValueScaled(m, e, t - e);
      ValueOrder(m * Pow2(t - e + 1), d, e - 1);
      ValueOrder(m * Pow2(t - e), d, e);
    }
  }

  // ----- rounding to nearest -----

  ghost predicate Near(x: real, y: real, tolerance: real) {
    x - tolerance <= y <= x + tolerance
  }

  lemma NearTimes(x: real, y: real, tolerance: real, s: real)
    requires Near(x, y, tolerance) && s >= 0.0
    ensures Near(Times(x, s), Times(y, s), Times(tolerance, s))
  {
    hide Times;
    TimesMono(x - tolerance, y, s);
    TimesMono(y, x + tolerance, s);
    TimesAdd(x, tolerance, s);
  }

  /** Rounding to nearest moves by half a unit at most. */
  lemma NearestHalf(neg: bool, m: int, d: int, u: int)
    requires 0 < d && IsRounded(RNDN, neg, Ratio(m, d), u)
    ensures 2 * m - d <= 2 * (u * d) <= 2 * m + d
  {
    MulAdd(2 * u, 1, d);
    MulSub(2 * u, 1, d);
    MulAssoc(2, u, d);
  }

  lemma ValueNear(x: int, y: int, d: int, e: int)
    requires 2 * x - d <= 2 * y <= 2 * x + d
    ensures Near(Value(x, e), Value(y, e), Value(d, e - 1))
  {
    hide Exp2, Times;
    Exp2Step(e - 1);
    var h := Exp2(e - 1);
    assert 2.0 * (x as real) - d as real <= 2.0 * (y as real) <= 2.0 * (x as real) + d as real;
    NearTimes(2.0 * (x as real), 2.0 * (y as real), d as real, h);
    TimesScale(2.0, x as real, h);
    TimesScale(2.0, y as real, h);
  }

  /** A number with exponent e rounded to nearest at prec bits. */
  lemma NearestClose(neg: bool, z: int, g: int, e: int, prec: nat, u: int)
    requires HasExponent(z, g, e) && RoundsTo(RNDN, neg, z, e - prec - g, u)
    ensures Near(Value(z, g), Value(u, e - prec), Times(Value(z, g), Exp2(0 - prec)))
  {
    hide Pow2, IsRounded, Exp2, HasExponent, Value, Times;
    var k := e - prec - g;
    Exp2Sum(e - 1, 0 - prec);
    ExponentRange(z, g, e);
    TimesMono(Exp2(e - 1), Value(z, g), Exp2(0 - prec));
    if k >= 1 {
      NearestHalf(neg, z, Pow2(k), u);
      ValueNear(z, u * Pow2(k), Pow2(k), g);
      ValueScaled(u, g, k);
      ValueScaled(1, g - 1, k);
      ValueUnit(e - prec - 1);
    } else {
      Pow2Zero();
      DivUnique(z, 1, z, 0);
      ValueScaled(z, e - prec, -k);
    }
  }

  /** A quotient m * 2^t / d with exponent e rounded to nearest at prec bits, times d. */
  lemma NearestQuotient(neg: bool, m: int, d: int, t: int, e: int, prec: nat, u: int)
    requires 0 < d && QuotientRounded(RNDN, neg, m, d, t, e, prec, u)
    ensures Near(Value(m, t), Value(u * d, e - prec), Value(d, e - prec - 1))
  {
    hide Pow2, IsRounded, Exp2, RatioExponent, Value, Ratio, Near;
    var s := t - (e - prec);
    if s >= 0 {
      NearestHalf(neg, m * Pow2(s), d, u);
      ValueNear(m * Pow2(s), u * d, d, e - prec);
      ValueScaled(m, e - prec, s);
    } else {
      MulPos(d, Pow2(-s));
      NearestHalf(neg, m, d * Pow2(-s), u);
      ValueNear(m, u * (d * Pow2(-s)), d * Pow2(-s), t);
      MulAssoc(u, d, Pow2(-s));
      ValueScaled(u * d, t, -s);
      ValueScaled(d, t - 1, -s);
    }
  }

  // ----- the quotient estimated by a reciprocal -----

  /** y is the reciprocal of w, to one part in 2^prec. */
  ghost predicate Inverse(y: real, w: int, prec: nat) {
    Near(1.0, Times(y, w as real), Exp2(0 - prec))
  }

  lemma RatioExponentOf(neg: bool, m: int, d: int, t: int, e: int, prec: nat, u: int)
    requires QuotientRounded(RNDN, neg, m, d, t, e, prec, u)
    ensures RatioExponent(m, d, t, e)
  {}

  lemma PlaceValue(d: int, f: int, e: int)
    ensures Times(Value(d, e), Exp2(f)) == Times(Value(d, f), Exp2(e))
  {
    hide Exp2, Times;
    TimesSwap(d as real, Exp2(e), Exp2(f));
  }

  /** The reciprocal as bf_div rounds it. */
  lemma ReciprocalClose(m: int, f: int, d: int, fd: int, e: int, prec: nat, u: int, w: int)
    requires 0 < d && 0 < w && QuotientRounded(RNDN, false, m, d, f - fd, e, prec, u)
    requires Value(m, f) == 1.0 && Value(d, fd) == w as real
    ensures Inverse(Value(u, e - prec), w, prec) && Times(w as real, Exp2(e - 1)) <= 1.0 < Times(w as real, Exp2(e))
  {
    hide Exp2, Value, Times, QuotientRounded;
    var t, s, w', y, tiny := f - fd, Exp2(fd), w as real, Value(u, e - prec), Exp2(0 - prec);
    NearestQuotient(false, m, d, t, e, prec, u);
    NearTimes(Value(m, t), Value(u * d, e - prec), Value(d, e - prec - 1), s);
    ValueMove(m, t, fd);
    ValueMove(u * d, e - prec, fd);
    ValueProduct(u, e - prec, d, fd);
    PlaceValue(d, fd, e - prec - 1);
    PlaceValue(d, fd, e - 1);
    PlaceValue(d, fd, e);
    RatioExponentOf(false, m, d, t, e, prec, u);
    QuotientRange(m, d, t, e);
    TimesMono(Value(d, e - 1), Value(m, t), s);
    TimesCancel(Value(m, t), Value(d, e), s);
    Exp2Sum(e - 1, 0 - prec);
    TimesAssoc(w', Exp2(e - 1), tiny);
    TimesMono(Times(w', Exp2(e - 1)), 1.0, tiny);
    TimesOne(tiny);
  }

  lemma PartOfWhole(a: real, w: real, n: nat)
    requires a < Times(w, Exp2(n))
    ensures Times(a, Exp2(0 - n)) < w
  {
    hide Exp2, Times;
    Exp2Sum(n, 0 - n);
    Exp2Zero();
    TimesAssoc(w, Exp2(n), Exp2(0 - n));
    TimesCancel(a, Times(w, Exp2(n)), Exp2(0 - n));
    TimesOne(w);
  }

  lemma FirstPart(a: real, small: real, tiny: real, w: real)
    requires 0.0 <= a && 4.0 * tiny <= small && Times(a, small) < w
    ensures Times(a, tiny) <= 0.25 * w
  {
    assert a * (small - 4.0 * tiny) >= 0.0;
    assert a * (small - 4.0 * tiny) == a * small - 4.0 * (a * tiny);
  }

  lemma SecondPart(a: real, small: real, v: real, w: real)
    requires Times(a, small) < w && 0.0 < small <= 1.0 && v <= a + 0.25 * w && 0.0 < w
    ensures Times(v, small) <= 1.25 * w
  {
    assert (a + 0.25 * w - v) * small >= 0.0;
    assert w * (1.0 - small) >= 0.0;
    assert (a + 0.25 * w - v) * small == a * small + 0.25 * (w * small) - v * small;
  }

  /** An estimated quotient q, a times the reciprocal y rounded to n bits, is off by at most one and a half. */
  lemma EstimateClose(a: real, w: real, y: real, q: real, p: nat, n: nat)
    requires 0.0 <= a < Times(w, Exp2(n)) && w > 0.0 && n >= 1 && p >= n + 2
    requires Near(1.0, Times(y, w), Exp2(0 - p)) && Near(Times(a, y), q, Times(Times(a, y), Exp2(0 - n)))
    ensures Near(a, Times(q, w), 1.5 * w)
  {
    hide Exp2, Times;
    var small, tiny, x := Exp2(0 - n), Exp2(0 - p), Times(a, y);
    SmallPart(n);
    PartOfWhole(a, w, n);
    TinyPart(p, n);
    // x*w is a, to a quarter of w
    NearTimes(1.0, Times(y, w), tiny, a);
    TimesOne(a);
    TimesComm(Times(y, w), a);
    TimesAssoc(a, y, w);
    TimesComm(tiny, a);
    FirstPart(a, small, tiny, w);
    // q*w is x*w, to w and a quarter
    NearTimes(x, q, Times(x, small), w);
    TimesSwap(x, small, w);
    SecondPart(a, small, Times(x, w), w);
  }
}
