/**
What rounding is for (section 4.3 of IEEE 754-2008): among the numbers of prec bits
in the exponent range of the flags, the result is the one nearest to the exact value,
or the next one in the direction that the mode asks for. The format is given by
exponent fields alone and says nothing of how the code rounds.
*/
module BfFormat {
  import opened Limb
  import opened MpBasic
  import opened Rounding
  import opened Dyadic
  import opened BfRound
  import opened BfFloat
  import opened BfNormalize
  import opened BfSticky
  import opened BfDivide
  import opened BfSqrt
  import opened BfAdd
  import opened RealValue
  import opened RadixQuotient

  // ----- the format -----

  /**
  The exponents of normal numbers are those that a field of expBits bits holds, with
  the bias 2^(expBits - 1) - 1 and without the first and the last value of the field.
  The libbf exponent e of a number between 2^(e - 1) and 2^e is one more than the
  exponent E of IEEE 754.
  */
  lemma ExponentField(flags: Flags, e: int)
    requires flags.expBits >= 1
    ensures var bias := Pow2(flags.expBits - 1) - 1;
      ExpMin(flags) <= e <= ExpMax(flags) <==> 1 <= (e - 1) + bias <= Pow2(flags.expBits) - 2
  {
    hide Pow2;
    Pow2Step(flags.expBits - 1);
  }

  /** k * 2^q has at most prec bits and is in range; subnormal numbers share the place of the smallest normal ones. */
  ghost predicate Fits(prec: nat, flags: Flags, k: int, q: int)
    requires flags.expBits >= 1
  {
    && 0 < k < Pow2(prec) && Value(k, q) < Exp2(ExpMax(flags))
    && (if flags.subnormal then q >= ExpMin(flags) - prec else Value(k, q) >= Exp2(ExpMin(flags) - 1))
  }

  /** The magnitudes of the format. */
  ghost predicate InFormat(prec: nat, flags: Flags, v: real)
    requires flags.expBits >= 1
  {
    v == 0.0 || exists k, q :: v == Value(k, q) && Fits(prec, flags, k, q)
  }

  /** The magnitude is rounded down, or up; otherwise to nearest. */
  predicate Downward(mode: Mode, neg: bool) {
    mode == RNDZ || (mode == RNDD && !neg) || (mode == RNDU && neg)
  }

  predicate Upward(mode: Mode, neg: bool) {
    mode == RNDA || (mode == RNDD && neg) || (mode == RNDU && !neg)
  }

  function Distance(x: real, y: real): real {
    if x <= y then y - x else x - y
  }

  /** Of all magnitudes of the format, v is the one to round x to. */
  ghost predicate Best(mode: Mode, neg: bool, prec: nat, flags: Flags, x: real, v: real)
    requires flags.expBits >= 1
  {
    if Downward(mode, neg) then v <= x && forall w :: InFormat(prec, flags, w) && w <= x ==> w <= v
    else if Upward(mode, neg) then x <= v && forall w :: InFormat(prec, flags, w) && x <= w ==> v <= w
    else forall w :: InFormat(prec, flags, w) ==> Distance(x, v) <= Distance(x, w)
  }

  // ----- cuts of real numbers -----

  ghost predicate IsCut(x: Cut, y: real) {
    forall h :: x(h) == if 2.0 * y < h as real then -1 else if 2.0 * y == h as real then 0 else 1
  }

  lemma RatioIsCut(m: int, d: int, y: real)
    requires 0 < d && Times(y, d as real) == m as real
    ensures IsCut(Ratio(m, d), y)
  {
    hide Times;
    forall h ensures Ratio(m, d)(h) == if 2.0 * y < h as real then -1 else if 2.0 * y == h as real then 0 else 1 {
      TimesScale(2.0, y, d as real);
      CastMul(h, d);
      assert (2 * m) as real == Times(2.0 * y, d as real) && (h * d) as real == Times(h as real, d as real);
      TimesCancel(2.0 * y, h as real, d as real);
      TimesCancel(h as real, 2.0 * y, d as real);
    }
  }

  /** Where a rounded number lies. */
  lemma RoundedReal(mode: Mode, neg: bool, x: Cut, y: real, u: int)
    requires IsCut(x, y) && IsRounded(mode, neg, x, u)
    ensures Downward(mode, neg) ==> u as real <= y < u as real + 1.0
    ensures Upward(mode, neg) ==> u as real - 1.0 < y <= u as real
    ensures !Downward(mode, neg) && !Upward(mode, neg) ==> u as real - 0.5 <= y <= u as real + 0.5
    ensures u as real - 1.0 < y < u as real + 1.0
  {
    assert (2 * u) as real == 2.0 * (u as real) && (2 * u + 2) as real == 2.0 * (u as real) + 2.0;
    assert (2 * u - 2) as real == 2.0 * (u as real) - 2.0;
    assert (2 * u - 1) as real == 2.0 * (u as real) - 1.0 && (2 * u + 1) as real == 2.0 * (u as real) + 1.0;
  }

  // ----- the grid -----

  /** The exponent of the last place of a number with exponent e. */
  function Place(prec: nat, flags: Flags, e: int): int
    requires flags.expBits >= 1
  {
    e - RoundPrec(prec, flags, e)
  }

  /**
  Rounding happens at prec bits of the number, but never below the last place
  of the smallest normal number; with the radix point flag, at prec bits behind the point.
  */
  lemma PlaceIs(prec: nat, flags: Flags, e: int)
    requires flags.expBits >= 1
    ensures !flags.radixPoint ==>
      Place(prec, flags, e) == (if flags.subnormal && e < ExpMin(flags) then ExpMin(flags) else e) - prec
    ensures flags.radixPoint && prec < PREC_INF ==> Place(prec, flags, e) == 0 - prec
  {}

  /** Numbers of exponent e are rounded and not replaced by zero. */
  ghost predicate NotFlushed(prec: nat, flags: Flags, e: int)
    requires flags.expBits >= 1
  {
    prec >= 1 && !flags.radixPoint && (flags.subnormal || e >= ExpMin(flags))
  }

  /** A number of the format is a multiple of the place, or below all numbers of exponent e. */
  lemma Grid(prec: nat, flags: Flags, e: int, v: real) returns (j: int)
    requires flags.expBits >= 1 && NotFlushed(prec, flags, e) && InFormat(prec, flags, v)
    ensures v == Value(j, Place(prec, flags, e)) || (RoundPrec(prec, flags, e) >= 1 && v < Exp2(e - 1))
  {
    hide Pow2, Value, Exp2, ExpMin, ExpMax;
    var p := Place(prec, flags, e);
    PlaceIs(prec, flags, e);
    j := 0;
    if v == 0.0 {
      ValueZero(p);
    } else {
      var k, q :| v == Value(k, q) && Fits(prec, flags, k, q);
      if q >= p {
        j := k * Pow2(q - p);
        ValueScaled(k, p, q - p);
      } else {
        ValueOrder(k, Pow2(prec), q);
        ValueScaled(1, q, prec);
        ValueUnit(q + prec);
        Exp2Mono(q + prec, e - 1);
      }
    }
  }

  lemma ValueZero(p: int)
    ensures Value(0, p) == 0.0
  {
    hide Exp2;
  }

  /** Comparing a multiple of the place with the number y places. */
  lemma PlaceCompare(j: int, y: real, p: int)
    ensures j as real <= y <==> Value(j, p) <= Times(y, Exp2(p))
    ensures y <= j as real <==> Times(y, Exp2(p)) <= Value(j, p)
  {
    hide Exp2, Times;
    TimesCancel(j as real, y, Exp2(p));
    TimesCancel(y, j as real, Exp2(p));
  }

  /** The exact value x is y places, at least 2^(e - 1) and below 2^e. */
  ghost predicate Scaled(prec: nat, flags: Flags, e: int, x: real, y: real)
    requires flags.expBits >= 1
  {
    x == Times(y, Exp2(Place(prec, flags, e))) && Exp2(e - 1) <= x < Exp2(e)
  }

  /** 2^(e - 1) is a multiple of the place, unless it lies below it. */
  lemma LowestMultiple(prec: nat, flags: Flags, e: int, x: real, y: real) returns (j: int)
    requires flags.expBits >= 1 && Scaled(prec, flags, e, x, y) && RoundPrec(prec, flags, e) >= 1
    ensures Value(j, Place(prec, flags, e)) == Exp2(e - 1) && j as real <= y
  {
    hide Pow2, Value, Exp2, RoundPrec, Times;
    var n := RoundPrec(prec, flags, e) - 1;
    var p := Place(prec, flags, e);
    j := 1 * Pow2(n);
    ValueScaled(1, p, n);
    ValueUnit(e - 1);
    PlaceCompare(j, y, p);
  }

  lemma DownIsBest(prec: nat, flags: Flags, e: int, x: real, y: real, u: int)
    requires flags.expBits >= 1 && NotFlushed(prec, flags, e) && Scaled(prec, flags, e, x, y)
    requires u as real <= y < u as real + 1.0
    ensures Value(u, Place(prec, flags, e)) <= x
    ensures forall w :: InFormat(prec, flags, w) && w <= x ==> w <= Value(u, Place(prec, flags, e))
  {
    hide Value, Exp2, RoundPrec, Times, InFormat;
    var p := Place(prec, flags, e);
    PlaceCompare(u, y, p);
    forall w | InFormat(prec, flags, w) && w <= x ensures w <= Value(u, p) {
      var j := Grid(prec, flags, e, w);
      if w != Value(j, p) { j := LowestMultiple(prec, flags, e, x, y); }
      PlaceCompare(j, y, p);
      ValueOrder(u, j, p);
    }
  }

  lemma UpIsBest(prec: nat, flags: Flags, e: int, x: real, y: real, u: int)
    requires flags.expBits >= 1 && NotFlushed(prec, flags, e) && Scaled(prec, flags, e, x, y)
    requires u as real - 1.0 < y <= u as real
    ensures x <= Value(u, Place(prec, flags, e))
    ensures forall w :: InFormat(prec, flags, w) && x <= w ==> Value(u, Place(prec, flags, e)) <= w
  {
    hide Value, Exp2, RoundPrec, Times, InFormat;
    var p := Place(prec, flags, e);
    PlaceCompare(u, y, p);
    forall w | InFormat(prec, flags, w) && x <= w ensures Value(u, p) <= w {
      var j := Grid(prec, flags, e, w);
      PlaceCompare(j, y, p);
      ValueOrder(j, u, p);
    }
  }

  /** The distance of a multiple of the place. */
  lemma PlaceDistance(j: int, y: real, p: int)
    ensures Distance(Times(y, Exp2(p)), Value(j, p)) == Times(Distance(y, j as real), Exp2(p))
  {
    hide Exp2, Times;
    PlaceCompare(j, y, p);
    TimesAdd(j as real, y, Exp2(p));
    TimesAdd(y, j as real, Exp2(p));
  }

  lemma NearestIsBest(prec: nat, flags: Flags, e: int, x: real, y: real, u: int)
    requires flags.expBits >= 1 && NotFlushed(prec, flags, e) && Scaled(prec, flags, e, x, y)
    requires u as real - 0.5 <= y <= u as real + 0.5
    ensures forall w :: InFormat(prec, flags, w) ==> Distance(x, Value(u, Place(prec, flags, e))) <= Distance(x, w)
  {
    hide Value, Exp2, RoundPrec, Times, InFormat;
    var p := Place(prec, flags, e);
    forall w | InFormat(prec, flags, w) ensures Distance(x, Value(u, p)) <= Distance(x, w) {
      var j := Grid(prec, flags, e, w);
      if w != Value(j, p) { j := LowestMultiple(prec, flags, e, x, y); }
      NearestMultiple(u, j, y, p);
    }
  }

  lemma NearestMultiple(u: int, j: int, y: real, p: int)
    requires u as real - 0.5 <= y <= u as real + 0.5
    ensures var x := Times(y, Exp2(p)); Distance(x, Value(u, p)) <= Distance(x, Value(j, p))
  {
    hide Exp2, Times, Value;
    PlaceDistance(u, y, p);
    PlaceDistance(j, y, p);
    assert j < u ==> j as real <= u as real - 1.0;
    assert u < j ==> u as real + 1.0 <= j as real;
    TimesMono(Distance(y, u as real), Distance(y, j as real), Exp2(p));
  }

  /** Rounding to a multiple of the place is rounding to the format. */
  lemma RoundedIsBest(mode: Mode, neg: bool, cut: Cut, prec: nat, flags: Flags, e: int, x: real, y: real, u: int)
    requires flags.expBits >= 1 && NotFlushed(prec, flags, e) && Scaled(prec, flags, e, x, y)
    requires IsCut(cut, y) && IsRounded(mode, neg, cut, u)
    ensures Best(mode, neg, prec, flags, x, Value(u, Place(prec, flags, e)))
  {
    hide Value, RoundPrec, InFormat, IsCut, IsRounded, Scaled, NotFlushed;
    RoundedReal(mode, neg, cut, y, u);
    if Downward(mode, neg) {
      DownIsBest(prec, flags, e, x, y, u);
    } else if Upward(mode, neg) {
      UpIsBest(prec, flags, e, x, y, u);
    } else {
      NearestIsBest(prec, flags, e, x, y, u);
    }
  }

  // ----- the result is in the format -----

  /** How many places a rounded number has. */
  lemma UnitsRange(prec: nat, flags: Flags, e: int, x: real, y: real, u: int)
    requires flags.expBits >= 1 && Scaled(prec, flags, e, x, y) && u as real - 1.0 < y < u as real + 1.0
    ensures var p := RoundPrec(prec, flags, e); if p >= 1 then Pow2(p - 1) <= u <= Pow2(p) else 0 <= u <= 1
  {
    hide Pow2, Value, Exp2, RoundPrec, Times;
    var p, q := RoundPrec(prec, flags, e), Place(prec, flags, e);
    if p >= 1 {
      var j := LowestMultiple(prec, flags, e, x, y);
      PowerPlaces(p - 1, q);
      PowerPlaces(p, q);
      ValueOrder(j, Pow2(p - 1), q);
      PlaceCompare(Pow2(p), y, q);
    } else {
      Exp2Mono(e, q);
      ValueUnit(q);
      PlaceCompare(1, y, q);
      ValueZero(q);
      PlaceCompare(0, y, q);
    }
  }

  /** A power of two, in places. */
  lemma PowerPlaces(n: nat, q: int)
    ensures Value(Pow2(n), q) == Exp2(q + n)
  {
    hide Pow2, Value, Exp2;
    ValueScaled(1, q, n);
    ValueUnit(q + n);
  }

  lemma ExponentsOrdered(flags: Flags)
    requires flags.expBits >= 3
    ensures ExpMin(flags) < ExpMax(flags)
  {
    Pow2Mono(2, flags.expBits - 1);
    Pow2Values();
  }

  /** Units below 2^prec at the place fit, if their exponent does. */
  lemma UnitsFit(prec: nat, flags: Flags, e: int, u: int)
    requires flags.expBits >= 3 && NotFlushed(prec, flags, e) && e <= ExpMax(flags)
    requires var p := RoundPrec(prec, flags, e); if p >= 1 then Pow2(p - 1) <= u < Pow2(p) else u == 1
    ensures Fits(prec, flags, u, Place(prec, flags, e))
  {
    hide Pow2, Value, Exp2, ExpMin, ExpMax;
    var p, q := RoundPrec(prec, flags, e), Place(prec, flags, e);
    PlaceIs(prec, flags, e);
    ExponentsOrdered(flags);
    if p >= 1 {
      Pow2Mono(p, prec);
      PowerPlaces(p - 1, q);
      PowerPlaces(p, q);
      ValueOrder(u, Pow2(p), q);
      ValueOrder(u, Pow2(p - 1), q);
      Exp2Mono(e, ExpMax(flags));
      if !flags.subnormal { Exp2Mono(ExpMin(flags) - 1, e - 1); }
    } else {
      Pow2Mono(1, prec);
      Pow2Values();
      ValueUnit(q);
      Exp2Step(q);
      Exp2Mono(q + 1, ExpMax(flags));
    }
  }

  /** A power of two fits. */
  lemma PowerFits(prec: nat, flags: Flags, e: int)
    requires flags.expBits >= 3 && prec >= 1 && ExpMin(flags) - prec <= e < ExpMax(flags)
    requires flags.subnormal || e >= ExpMin(flags) - 1
    ensures Fits(prec, flags, 1, e)
  {
    hide Pow2, Value, Exp2, ExpMin, ExpMax;
    Pow2Mono(1, prec);
    Pow2Values();
    ValueUnit(e);
    Exp2Step(e);
    Exp2Mono(e + 1, ExpMax(flags));
    if !flags.subnormal { Exp2Mono(ExpMin(flags) - 1, e); }
  }

  lemma ResultInFormat(prec: nat, flags: Flags, e: int, u: int)
    requires flags.expBits >= 3 && NotFlushed(prec, flags, e)
    requires var p := RoundPrec(prec, flags, e); if p >= 1 then Pow2(p - 1) <= u <= Pow2(p) else 0 <= u <= 1
    requires e <= ExpMax(flags) && (RoundPrec(prec, flags, e) >= 1 && u == Pow2(RoundPrec(prec, flags, e)) ==>
      e < ExpMax(flags))
    ensures InFormat(prec, flags, Value(u, Place(prec, flags, e)))
  {
    hide Pow2, Value, Exp2, ExpMin, ExpMax, Fits;
    var p, q := RoundPrec(prec, flags, e), Place(prec, flags, e);
    if p >= 1 && u == Pow2(p) {
      PowerPlaces(p, q);
      ValueUnit(e);
      PlaceIs(prec, flags, e);
      PowerFits(prec, flags, e);
    } else if u == 0 {
      ValueZero(q);
    } else {
      UnitsFit(prec, flags, e, u);
    }
  }

  // ----- overflow -----

  /** The largest number of the format. */
  ghost function Largest(prec: nat, flags: Flags): real
    requires flags.expBits >= 1
  {
    Value(Pow2(prec) - 1, ExpMax(flags) - prec)
  }

  lemma LargestInFormat(prec: nat, flags: Flags)
    requires flags.expBits >= 3 && prec >= 1 && !flags.radixPoint
    ensures InFormat(prec, flags, Largest(prec, flags)) && Largest(prec, flags) < Exp2(ExpMax(flags))
    ensures forall w :: InFormat(prec, flags, w) ==> w <= Largest(prec, flags)
  {
    hide Pow2, Value, Exp2, ExpMin, ExpMax, Fits, InFormat;
    ExponentsOrdered(flags);
    var m, q := Pow2(prec) - 1, ExpMax(flags) - prec;
    Pow2Step(prec - 1);
    UnitsFit(prec, flags, ExpMax(flags), m);
    assert InFormat(prec, flags, Value(m, q)) by { FitsInFormat(prec, flags, m, q); }
    PowerPlaces(prec, q);
    ValueOrder(m, Pow2(prec), q);
    forall w | InFormat(prec, flags, w) ensures w <= Value(m, q) { BelowLargest(prec, flags, w); }
  }

  lemma FitsInFormat(prec: nat, flags: Flags, k: int, q: int)
    requires flags.expBits >= 1 && Fits(prec, flags, k, q)
    ensures InFormat(prec, flags, Value(k, q))
  {}

  lemma BelowLargest(prec: nat, flags: Flags, w: real)
    requires flags.expBits >= 1 && prec >= 1 && InFormat(prec, flags, w)
    ensures w <= Largest(prec, flags)
  {
    hide Pow2, Value, Exp2, ExpMin, ExpMax;
    var m, top := Pow2(prec) - 1, ExpMax(flags) - prec;
    PowerPlaces(prec, top);
    if w == 0.0 {
      ValueZero(top);
      ValueOrder(m, 0, top);
    } else {
      var k, q :| w == Value(k, q) && Fits(prec, flags, k, q);
      if q >= top {
        ValueScaled(k, top, q - top);
        ValueOrder(k * Pow2(q - top), Pow2(prec), top);
        ValueOrder(m, k * Pow2(q - top), top);
      } else {
        ValueOrder(m, k, q);
        ValueScaled(m, q, top - q);
        MulMono(1, Pow2(top - q), m);
        MulComm(Pow2(top - q), m);
        ValueOrder(m * Pow2(top - q), m, q);
      }
    }
  }

  /** Halfway between the largest number and the next one that prec bits would hold. */
  ghost function Midpoint(prec: nat, flags: Flags): real
    requires flags.expBits >= 1
  {
    Value(2 * Pow2(prec) - 1, ExpMax(flags) - prec - 1)
  }

  /** From which value on a result overflows. */
  ghost predicate Overflows(mode: Mode, neg: bool, prec: nat, flags: Flags, x: real)
    requires flags.expBits >= 1
  {
    if Downward(mode, neg) then x >= Exp2(ExpMax(flags))
    else if Upward(mode, neg) then x > Largest(prec, flags)
    else x >= Midpoint(prec, flags)
  }

  lemma Thresholds(prec: nat, flags: Flags)
    requires flags.expBits >= 1 && prec >= 1
    ensures Exp2(ExpMax(flags) - 1) <= Largest(prec, flags) < Midpoint(prec, flags) < Exp2(ExpMax(flags))
  {
    hide Pow2, Value, Exp2, ExpMax;
    var n, q := Pow2(prec), ExpMax(flags) - prec;
    Pow2Step(prec - 1);
    PowerPlaces(prec - 1, q);
    ValueOrder(n - 1, Pow2(prec - 1), q);
    Doubled(n - 1, q);
    Doubled(n, q);
    ValueOrder(2 * (n - 1), 2 * n - 1, q - 1);
    ValueOrder(2 * n - 1, 2 * n, q - 1);
    PowerPlaces(prec, q);
  }

  lemma Doubled(m: int, q: int)
    ensures Value(2 * m, q - 1) == Value(m, q)
  {
    hide Value;
    ValueScaled(m, q - 1, 1);
    Pow2Values();
    MulComm(m, 2);
  }

  /** The units of the largest exponent that fill a further place. */
  lemma FullUnits(mode: Mode, neg: bool, cut: Cut, y: real, n: int, u: int)
    requires IsCut(cut, y) && IsRounded(mode, neg, cut, u) && n % 2 == 0 && y < n as real
    ensures u >= n <==>
      && !Downward(mode, neg)
      && (if Upward(mode, neg) then y > (n - 1) as real else 2.0 * y >= (2 * n - 1) as real)
  {
    RoundedReal(mode, neg, cut, y, u);
    assert cut(2 * u + 1) == 0 <==> 2.0 * y == (2 * u + 1) as real;
    assert u < n ==> u as real <= (n - 1) as real;
    assert u > n ==> u as real >= (n + 1) as real;
  }

  /** The rounded number exceeds the range if and only if the exact value reaches the threshold of the mode. */
  lemma OverflowsExactly(mode: Mode, neg: bool, cut: Cut, prec: nat, flags: Flags, e: int, x: real, y: real, u: int)
    requires flags.expBits >= 3 && NotFlushed(prec, flags, e) && Scaled(prec, flags, e, x, y)
    requires IsCut(cut, y) && IsRounded(mode, neg, cut, u)
    ensures var p := RoundPrec(prec, flags, e);
      p >= 1 && RoundedExponent(e, p, u) > ExpMax(flags) <==> Overflows(mode, neg, prec, flags, x)
  {
    hide Pow2, Value, Exp2, ExpMin, ExpMax, IsCut, IsRounded, Times;
    var p, top := RoundPrec(prec, flags, e), ExpMax(flags);
    ExponentsOrdered(flags);
    Thresholds(prec, flags);
    if e > top {
      Exp2Mono(top, e - 1);
    } else if e < top {
      Exp2Mono(e, top - 1);
    } else {
      var n, q := Pow2(prec), top - prec;
      Pow2Step(prec - 1);
      PowerPlaces(prec, q);
      PlaceCompare(n, y, q);
      PlaceCompare(n - 1, y, q);
      Doubled(n, q);
      HalfPlace(n, y, q);
      FullUnits(mode, neg, cut, y, n, u);
    }
  }

  lemma HalfPlace(n: int, y: real, q: int)
    ensures 2.0 * y >= (2 * n - 1) as real <==> Times(y, Exp2(q)) >= Value(2 * n - 1, q - 1)
  {
    hide Exp2, Times;
    Exp2Step(q - 1);
    TimesScale(2.0, y, Exp2(q - 1));
    PlaceCompare(2 * n - 1, 2.0 * y, q - 1);
  }

  // ----- what operations leave -----

  /** The exact value, and the cut of it that the result is a rounding of. */
  ghost predicate RoundingOf(r: BigFloat, cut: Cut, prec: nat, flags: Flags, st: Status, e: int, x: real, y: real,
      units: int, exact: bool)
    requires flags.expBits >= 1
    reads r, r.tab
  {
    && Scaled(prec, flags, e, x, y) && IsCut(cut, y) && IsRounded(flags.mode, r.sign, cut, units)
    && (exact <==> Value(units, Place(prec, flags, e)) == x)
    && r.Outcome(prec, flags, NO_STATUS, st, e, units, exact)
  }

  lemma EqualsValue(r: BigFloat, m: int, f: int)
    requires r.Equals(m, f)
    ensures ValueOf(r) == Value(m, f)
  {
    hide Val, Pow2, Value, SameValue;
    SameIsValue(Val(r.tab[..]), r.expn - r.tab.Length * LIMB_BITS, m, f);
  }

  lemma ZeroValue(r: BigFloat)
    requires r.IsZero()
    ensures ValueOf(r) == 0.0
  {
    hide Val, Value;
    assert r.tab[..] == [];
    ValEmpty();
    ValueZero(r.expn - r.tab.Length * LIMB_BITS);
  }

  /** The result in the three cases that are left when nothing is flushed to zero. */
  lemma OutcomeCases(r: BigFloat, prec: nat, flags: Flags, st: Status, e: int, units: int, exact: bool)
    requires flags.expBits >= 1 && NotFlushed(prec, flags, e) && r.Outcome(prec, flags, NO_STATUS, st, e, units, exact)
    ensures var p := RoundPrec(prec, flags, e);
      && (st.overflow <==> p >= 1 && RoundedExponent(e, p, units) > ExpMax(flags))
      && (st.overflow ==> r.Overflowed(prec, flags))
      && (!st.overflow ==> ValueOf(r) == Value(units, Place(prec, flags, e)))
      && !st.invalid && !st.divideZero
      && (st.inexact <==> st.overflow || p <= 0 || flags.mode == RNDF || !exact)
  {
    hide Val, Pow2, Value, ExpMax, ExpMin, SameValue, NormalForm, BigFloat.Overflowed, RoundPrec;
    var p := RoundPrec(prec, flags, e);
    if p <= 0 {
      ValueZero(e - p);
      if units == 0 { ZeroValue(r); } else { EqualsValue(r, units, e - p); }
    } else if RoundedExponent(e, p, units) <= ExpMax(flags) {
      EqualsValue(r, units, e - p);
    }
  }

  lemma InRangeThen(prec: nat, flags: Flags, e: int, u: int)
    requires flags.expBits >= 3 && NotFlushed(prec, flags, e)
    requires var p := RoundPrec(prec, flags, e); p >= 1 ==> RoundedExponent(e, p, u) <= ExpMax(flags)
    ensures e <= ExpMax(flags)
    ensures var p := RoundPrec(prec, flags, e); p >= 1 && u == Pow2(p) ==> e < ExpMax(flags)
  {
    hide ExpMax, Pow2;
    ExponentsOrdered(flags);
  }

  /**
  An operation that does not overflow leaves the best number of the format, and it
  overflows from the threshold of the mode on: rounding to nearest or away from the
  origin gives infinity, and the other modes the largest number.
  */
  lemma ResultIsBest(r: BigFloat, cut: Cut, prec: nat, flags: Flags, st: Status, e: int, x: real, y: real,
      units: int, exact: bool)
    requires flags.expBits >= 3 && NotFlushed(prec, flags, e) && prec != PREC_INF
    requires RoundingOf(r, cut, prec, flags, st, e, x, y, units, exact)
    ensures !st.overflow ==> InFormat(prec, flags, ValueOf(r)) && Best(flags.mode, r.sign, prec, flags, x, ValueOf(r))
    ensures st.overflow <==> Overflows(flags.mode, r.sign, prec, flags, x)
    ensures st.overflow ==>
      if Upward(flags.mode, r.sign) || flags.mode == RNDN || flags.mode == RNDNA then r.IsInf()
      else ValueOf(r) == Largest(prec, flags)
  {
    hide Val, Pow2, Value, ExpMax, ExpMin, SameValue, NormalForm, RoundPrec, InFormat, Best, IsCut, IsRounded,
      Scaled, NotFlushed, BigFloat.Outcome, Overflows;
    OutcomeCases(r, prec, flags, st, e, units, exact);
    OverflowsExactly(flags.mode, r.sign, cut, prec, flags, e, x, y, units);
    if st.overflow {
      if !OverflowsToInf(flags.mode, r.sign) { EqualsValue(r, Pow2(prec) - 1, ExpMax(flags) - prec); }
    } else {
      RoundedReal(flags.mode, r.sign, cut, y, units);
      UnitsRange(prec, flags, e, x, y, units);
      RoundedIsBest(flags.mode, r.sign, cut, prec, flags, e, x, y, units);
      InRangeThen(prec, flags, e, units);
      ResultInFormat(prec, flags, e, units);
    }
  }

  /** No result without places is exact. */
  lemma NoPlacesInexact(prec: nat, flags: Flags, e: int, x: real, y: real, u: int)
    requires flags.expBits >= 1 && Scaled(prec, flags, e, x, y) && RoundPrec(prec, flags, e) <= 0 && 0 <= u <= 1
    ensures Value(u, Place(prec, flags, e)) != x
  {
    hide Value, Exp2, RoundPrec, Times;
    var q := Place(prec, flags, e);
    Exp2Mono(e, q);
    ValueUnit(q);
    ValueZero(q);
  }

  /** What an operation with the exact value x leaves: the number, and what the status tells. */
  ghost predicate RoundedFrom(r: BigFloat, prec: nat, flags: Flags, st: Status, x: real)
    requires flags.expBits >= 1
    reads r, r.tab
  {
    && (st.overflow <==> Overflows(flags.mode, r.sign, prec, flags, x))
    && (if !st.overflow then InFormat(prec, flags, ValueOf(r)) && Best(flags.mode, r.sign, prec, flags, x, ValueOf(r))
        else if Upward(flags.mode, r.sign) || flags.mode == RNDN || flags.mode == RNDNA then r.IsInf()
        else ValueOf(r) == Largest(prec, flags))
    && (st.inexact <==> st.overflow || flags.mode == RNDF || ValueOf(r) != x)
    && !st.invalid && !st.divideZero
  }

  lemma RoundsFrom(r: BigFloat, cut: Cut, prec: nat, flags: Flags, st: Status, e: int, x: real, y: real,
      units: int, exact: bool)
    requires flags.expBits >= 3 && NotFlushed(prec, flags, e) && prec != PREC_INF
    requires RoundingOf(r, cut, prec, flags, st, e, x, y, units, exact)
    ensures RoundedFrom(r, prec, flags, st, x)
  {
    hide Val, Pow2, Value, ExpMax, ExpMin, RoundPrec, InFormat, Best, IsCut, IsRounded, Scaled, NotFlushed,
      BigFloat.Outcome, Overflows, Largest;
    ResultIsBest(r, cut, prec, flags, st, e, x, y, units, exact);
    OutcomeCases(r, prec, flags, st, e, units, exact);
    RoundedReal(flags.mode, r.sign, cut, y, units);
    UnitsRange(prec, flags, e, x, y, units);
    if RoundPrec(prec, flags, e) <= 0 { NoPlacesInexact(prec, flags, e, x, y, units); }
  }

  /** x in places of 2^q. */
  lemma InPlaces(x: real, q: int) returns (y: real)
    ensures y == Times(x, Exp2(-q)) && x == Times(y, Exp2(q))
  {
    hide Exp2, Times;
    y := Times(x, Exp2(-q));
    Exp2Sum(-q, q);
    Exp2Zero();
    TimesAssoc(x, Exp2(-q), Exp2(q));
    TimesOne(x);
  }

  // ----- sums and products -----

  lemma WholeRounded(mode: Mode, neg: bool, u: int)
    ensures IsRounded(mode, neg, Ratio(u, 1), u)
  {}

  lemma SumCut(mode: Mode, neg: bool, z: int, k: int, y: real, u: int) returns (cut: Cut)
    requires RoundsTo(mode, neg, z, k, u) && y == Value(z, -k)
    ensures IsCut(cut, y) && IsRounded(mode, neg, cut, u)
  {
    hide Exp2, Times, IsCut, Ratio, IsRounded, Pow2;
    if k >= 1 {
      cut := Ratio(z, Pow2(k));
      ValueMove(z, -k, k);
      ValueWhole(z);
      Exp2Nat(k);
      RatioIsCut(z, Pow2(k), y);
    } else {
      cut := Ratio(u, 1);
      Pow2Zero();
      DivUnique(z, 1, z, 0);
      ValueScaled(z, 0, -k);
      ValueWhole(u);
      TimesOne(y);
      RatioIsCut(u, 1, y);
      WholeRounded(mode, neg, u);
    }
  }

  /** bf_add_internal and bf_mul: z * 2^g rounded to the format. */
  lemma SumIsBest(r: BigFloat, z: int, g: int, prec: nat, flags: Flags, st: Status, e: int, units: int)
    requires flags.expBits >= 3 && NotFlushed(prec, flags, e) && prec != PREC_INF
    requires SumRounded(flags.mode, r.sign, z, g, e, RoundPrec(prec, flags, e), units)
    requires r.Outcome(prec, flags, NO_STATUS, st, e, units, SameValue(units, e - RoundPrec(prec, flags, e), z, g))
    ensures RoundedFrom(r, prec, flags, st, Value(z, g))
  {
    hide Val, Pow2, Exp2, Value, RoundPrec, IsCut, IsRounded, NotFlushed, BigFloat.Outcome, Times, HasExponent,
      SameValue, RoundsTo, RoundedFrom;
    var q, x := Place(prec, flags, e), Value(z, g);
    var y := InPlaces(x, q);
    ValueMove(z, g, -q);
    var cut := SumCut(flags.mode, r.sign, z, q - g, y, units);
    ExponentRange(z, g, e);
    SameIsValue(units, q, z, g);
    RoundsFrom(r, cut, prec, flags, st, e, x, y, units, SameValue(units, q, z, g));
  }

  // ----- quotients -----

  /** y is m * 2^s / d, so its cut is the one that bf_div rounds. */
  lemma QuotientCut(m: int, d: int, s: int, y: real)
    requires 0 < d && Times(y, d as real) == Value(m, s)
    ensures IsCut(RatioAt(m, d, s), y)
  {
    hide Exp2, Times, IsCut, Ratio, Pow2, Value;
    if s >= 0 {
      ValueScaled(m, 0, s);
      ValueWhole(m * Pow2(s));
      RatioIsCut(m * Pow2(s), d, y);
    } else {
      MulPos(d, Pow2(-s));
      CastMul(d, Pow2(-s));
      Exp2Nat(-s);
      TimesAssoc(y, d as real, Exp2(-s));
      ValueMove(m, s, -s);
      ValueWhole(m);
      RatioIsCut(m, d * Pow2(-s), y);
    }
  }

  /** A multiple of the place is the exact quotient. */
  lemma QuotientExact(m: int, d: int, s: int, y: real, u: int)
    requires 0 < d && Times(y, d as real) == Value(m, s)
    ensures RatioIs(m, d, s, u) <==> y == u as real
  {
    hide Exp2, Times, Pow2, Value;
    TimesCancel(y, u as real, d as real);
    CastMul(u, d);
    ValueWhole(u * d);
    if s >= 0 {
      ValueScaled(m, 0, s);
      ValueOrder(m * Pow2(s), u * d, 0);
    } else {
      MulAssoc(u, d, Pow2(-s));
      ValueScaled(u * d, s, -s);
      ValueOrder(m, (u * d) * Pow2(-s), s);
    }
  }

  /** x is at least 2^(e - 1) and below 2^e when x * d is so in terms of d. */
  lemma QuotientBetween(m: int, d: int, t: int, e: int, x: real)
    requires 0 < d && RatioExponent(m, d, t, e) && Times(x, d as real) == Value(m, t)
    ensures Exp2(e - 1) <= x < Exp2(e)
  {
    hide Exp2, Times, RatioExponent;
    QuotientRange(m, d, t, e);
    TimesComm(d as real, Exp2(e - 1));
    TimesComm(d as real, Exp2(e));
    TimesCancel(x, Exp2(e - 1), d as real);
    TimesCancel(x, Exp2(e), d as real);
  }

  /** __bf_div: x = m * 2^t / d rounded to the format. */
  lemma QuotientIsBest(r: BigFloat, m: int, d: int, t: int, prec: nat, flags: Flags, st: Status, e: int, units: int,
      x: real)
    requires flags.expBits >= 3 && NotFlushed(prec, flags, e) && prec != PREC_INF
    requires 0 < d && Times(x, d as real) == Value(m, t)
    requires QuotientRounded(flags.mode, r.sign, m, d, t, e, RoundPrec(prec, flags, e), units)
    requires r.Outcome(prec, flags, NO_STATUS, st, e, units, RatioIs(m, d, t - (e - RoundPrec(prec, flags, e)), units))
    ensures RoundedFrom(r, prec, flags, st, x)
  {
    hide Val, Pow2, Exp2, Value, RoundPrec, IsCut, IsRounded, NotFlushed, BigFloat.Outcome, Times, RatioIs, RatioAt,
      RatioExponent, RoundedFrom;
    var q := Place(prec, flags, e);
    var y := InPlaces(x, q);
    TimesSwap(x, Exp2(-q), d as real);
    ValueMove(m, t, -q);
    QuotientCut(m, d, t - q, y);
    QuotientExact(m, d, t - q, y, units);
    QuotientBetween(m, d, t, e, x);
    PlaceCompare(units, y, q);
    RoundsFrom(r, RatioAt(m, d, t - q), prec, flags, st, e, x, y, units, RatioIs(m, d, t - q, units));
  }

  // ----- roots -----

  lemma SquareOrder(x: real, y: real)
    requires 0.0 <= x && 0.0 <= y
    ensures (x < y <==> Times(x, x) < Times(y, y)) && (x == y <==> Times(x, x) == Times(y, y))
  {
    SquareStrict(x, y);
    SquareStrict(y, x);
  }

  lemma SquareStrict(x: real, y: real)
    requires 0.0 <= x && 0.0 <= y
    ensures x < y ==> Times(x, x) < Times(y, y)
  {
    hide Times;
    if x < y {
      TimesMono(x, y, x);
      TimesCancel(x, y, y);
    }
  }

  lemma TimesNonNegative(x: real, y: real)
    requires 0.0 <= x && 0.0 <= y
    ensures 0.0 <= Times(x, y)
  {}

  lemma RootIsCut(num: int, den: int, y: real)
    requires 0 < den && 0.0 <= y && Times(Times(y, y), den as real) == num as real
    ensures IsCut(RootOf(num, den), y)
  {
    hide Times;
    forall h ensures RootOf(num, den)(h) == if 2.0 * y < h as real then -1 else if 2.0 * y == h as real then 0 else 1 {
      if h >= 0 { RootCompare(num, den, y, h); }
    }
  }

  lemma RootCompare(num: int, den: int, y: real, h: int)
    requires 0 < den && 0.0 <= y && 0 <= h && Times(Times(y, y), den as real) == num as real
    ensures Sign(4 * num - (h * h) * den) == if 2.0 * y < h as real then -1 else if 2.0 * y == h as real then 0 else 1
  {
    hide Times;
    var a, b, d := 2.0 * y, h as real, den as real;
    SquareOrder(a, b);
    SquareOrder(b, a);
    TimesScale(2.0, y, 2.0 * y);
    TimesScale(2.0, y, y);
    TimesScale(4.0, Times(y, y), d);
    CastMul(h, h);
    CastMul(h * h, den);
    TimesCancel(Times(a, a), Times(b, b), d);
    TimesCancel(Times(b, b), Times(a, a), d);
    assert (4 * num) as real == 4.0 * (num as real);
  }

  lemma RootCut(m: int, s: int, y: real)
    requires 0.0 <= y && Times(y, y) == Value(m, s)
    ensures IsCut(RootAt(m, s), y)
  {
    hide Exp2, Times, IsCut, RootOf, Pow2, Value;
    if s >= 0 {
      ValueScaled(m, 0, s);
      ValueWhole(m * Pow2(s));
      TimesOne(Times(y, y));
      RootIsCut(m * Pow2(s), 1, y);
    } else {
      Exp2Nat(-s);
      ValueMove(m, s, -s);
      ValueWhole(m);
      RootIsCut(m, Pow2(-s), y);
    }
  }

  lemma RootExact(m: int, s: int, y: real, u: int)
    requires 0.0 <= y && 0 <= u && Times(y, y) == Value(m, s)
    ensures RootIs(m, s, u) <==> y == u as real
  {
    hide Exp2, Times, Pow2, Value;
    SquareOrder(y, u as real);
    CastMul(u, u);
    ValueWhole(u * u);
    if s >= 0 {
      ValueScaled(m, 0, s);
      ValueOrder(m * Pow2(s), u * u, 0);
    } else {
      ValueScaled(u * u, s, -s);
      ValueOrder(m, (u * u) * Pow2(-s), s);
    }
  }

  lemma RootBetween(m: int, f: int, e: int, x: real)
    requires RootExponent(m, f, e) && 0.0 <= x && Times(x, x) == Value(m, f)
    ensures Exp2(e - 1) <= x < Exp2(e)
  {
    hide Exp2, Times, HasExponent, Value;
    var n := if HasExponent(m, f, 2 * e) then 2 * e else 2 * e - 1;
    ExponentRange(m, f, n);
    Exp2Mono(2 * e - 2, n - 1);
    Exp2Mono(n, 2 * e);
    Exp2Sum(e - 1, e - 1);
    Exp2Sum(e, e);
    SquareOrder(x, Exp2(e - 1));
    SquareOrder(x, Exp2(e));
  }

  /** bf_sqrt: x, the square root of m * 2^f, rounded to the format. */
  lemma RootIsBest(r: BigFloat, m: int, f: int, prec: nat, flags: Flags, st: Status, e: int, units: int, x: real)
    requires flags.expBits >= 3 && NotFlushed(prec, flags, e) && prec != PREC_INF
    requires 0.0 <= x && Times(x, x) == Value(m, f) && !r.sign
    requires RootRounded(flags.mode, m, f, e, RoundPrec(prec, flags, e), units)
    requires r.Outcome(prec, flags, NO_STATUS, st, e, units, RootIs(m, f - 2 * (e - RoundPrec(prec, flags, e)), units))
    ensures RoundedFrom(r, prec, flags, st, x)
  {
    hide Val, Pow2, Exp2, Value, RoundPrec, IsCut, IsRounded, NotFlushed, BigFloat.Outcome, Times, RootIs, RootAt,
      RootExponent, RoundedFrom;
    var q := Place(prec, flags, e);
    var y := InPlaces(x, q);
    FourFactors(x, x, Exp2(-q), Exp2(-q));
    Exp2Sum(-q, -q);
    ValueMove(m, f, -q - q);
    TimesNonNegative(x, Exp2(-q));
    RootCut(m, f - 2 * q, y);
    RoundedReal(flags.mode, r.sign, RootAt(m, f - 2 * q), y, units);
    RootExact(m, f - 2 * q, y, units);
    RootBetween(m, f, e, x);
    PlaceCompare(units, y, q);
    RoundsFrom(r, RootAt(m, f - 2 * q), prec, flags, st, e, x, y, units, RootIs(m, f - 2 * q, units));
  }
}
