/**
The division inside bf_integer_to_radix_rec (libbf.c): a quotient estimated from
a rounded reciprocal, off by at most two, then corrected.
*/
module RadixQuotient {
  import opened Limb
  import opened MpBasic
  import opened BfBits
  import opened Rounding
  import opened Dyadic
  import opened BfRound
  import opened BfFloat
  import opened BfNormalize
  import opened BfDivide
  import opened BfAdd
  import opened BfExact
  import opened BfMul
  import opened RealValue

  /** BF_RNDN with the default exponent range. */
  const NEAR: Flags := Flags(RNDN, false, false, LIMB_BITS - 3)

  /** The flags of bf_rint, towards zero. */
  const RINT: Flags := Flags(RNDZ, false, true, LIMB_BITS - 3)

  lemma SameRange()
    ensures ExpMax(NEAR) == ExpMax(RINT) == ExpMax(EXACT) && ExpMin(NEAR) == ExpMin(RINT) == ExpMin(EXACT)
  {
    hide Pow2;
  }

  /** The magnitude of a number, as a real. */
  ghost function ValueOf(a: BigFloat): real
    reads a, a.tab
  {
    Value(Val(a.tab[..]), a.expn - a.tab.Length * LIMB_BITS)
  }

  lemma IntegerValue(a: BigFloat, x: int)
    requires Represents(a, x) && x != 0
    ensures ValueOf(a) == Abs(x) as real
  {
    hide Val, Pow2, B, Value, SameValue;
    SameIsValue(Val(a.tab[..]), a.expn - a.tab.Length * LIMB_BITS, Abs(x), 0);
    ValueWhole(Abs(x));
  }

  // ----- comparison -----

  lemma PaddedValue(t: seq<nat>, n: nat, e: int)
    requires |t| <= n
    ensures Value(Padded(t, n), e - n * LIMB_BITS) == Value(Val(t), e - |t| * LIMB_BITS)
  {
    hide Val, Pow2, B, Value;
    MulMono(|t|, n, LIMB_BITS);
    ValueScaled(Val(t), e - n * LIMB_BITS, n * LIMB_BITS - |t| * LIMB_BITS);
  }

  lemma ByExponent(a: BigFloat, b: BigFloat)
    requires Operand(a) && Operand(b) && a.expn < b.expn
    ensures ValueOf(a) < ValueOf(b)
  {
    hide Val, Pow, Pow2, B, Value, NormalForm, HasExponent, Exp2;
    OperandExponent(a);
    OperandExponent(b);
    ExponentRange(Val(a.tab[..]), a.expn - a.tab.Length * LIMB_BITS, a.expn);
    ExponentRange(Val(b.tab[..]), b.expn - b.tab.Length * LIMB_BITS, b.expn);
    Exp2Mono(a.expn, b.expn - 1);
  }

  lemma OperandExponent(a: BigFloat)
    requires Operand(a)
    ensures HasExponent(Val(a.tab[..]), a.expn - a.tab.Length * LIMB_BITS, a.expn)
  {
    hide Val, Pow, Pow2, B, NormalForm;
    NormalParts(a.tab[..]);
    PowBits(a.tab.Length);
    MulMono(1, a.tab.Length, LIMB_BITS);
    Pow2Step(a.tab.Length * LIMB_BITS - 1);
  }

  /** bf_cmpu compares the magnitudes of a non-negative integer and a positive one. */
  method Compare(a: BigFloat, b: BigFloat, ghost x: int, ghost y: int) returns (c: int)
    requires Represents(a, x) && Represents(b, y) && 0 <= x && 0 < y
    ensures c >= 0 <==> x >= y
  {
    hide Val, Pow, Pow2, B, Value, NormalForm, Padded, EXP_ZERO, EXP_INF, EXP_NAN, SameValue, Operand;
    ValidInteger(a, x);
    ValidInteger(b, y);
    c := CmpU(a, b);
    if x != 0 {
      CompareMagnitudes(a, b, x, y, c);
    }
  }

  lemma ValidInteger(a: BigFloat, x: int)
    requires Represents(a, x)
    ensures IsLimbs(a.tab[..]) && (x == 0 ==> a.expn == EXP_ZERO) && (x != 0 ==> a.expn > EXP_ZERO && Operand(a))
  {
    hide Val, Pow, Pow2, B, NormalForm, EXP_ZERO, EXP_INF, EXP_NAN;
    ValidLimbs(a);
  }

  lemma CompareMagnitudes(a: BigFloat, b: BigFloat, x: int, y: int, c: int)
    requires Represents(a, x) && Represents(b, y) && 0 < x && 0 < y && Operand(a) && Operand(b)
    requires (a.expn < b.expn ==> c == -1) && (a.expn > b.expn ==> c == 1)
    requires a.expn == b.expn ==> var n := Max(a.tab.Length, b.tab.Length);
      c == Sign(Padded(a.tab[..], n) - Padded(b.tab[..], n))
    ensures c >= 0 <==> x >= y
  {
    hide Val, Pow, Pow2, B, Value, Padded, Represents, Operand;
    IntegerValue(a, x);
    IntegerValue(b, y);
    if a.expn < b.expn {
      ByExponent(a, b);
    } else if a.expn > b.expn {
      ByExponent(b, a);
    } else {
      var n := Max(a.tab.Length, b.tab.Length);
      PaddedValue(a.tab[..], n, a.expn);
      PaddedValue(b.tab[..], n, b.expn);
      ValueOrder(Padded(a.tab[..], n), Padded(b.tab[..], n), a.expn - n * LIMB_BITS);
    }
  }

  // ----- rounding to an integer -----

  /** Rounding towards zero drops the low bits. */
  lemma TowardsZero(neg: bool, m: int, k: int, u: int)
    requires RoundsTo(RNDZ, neg, m, k, u)
    ensures u == Units(m, k)
  {
    hide Pow2;
    if k >= 1 {
      var d := Pow2(k);
      MulAssoc(2, u, d);
      MulAdd(2 * u, 2, d);
      DivUnique(m, d, u, m - u * d);
    }
  }

  /** The whole part of a number. */
  lemma WholePart(m: int, f: int)
    ensures var n := Units(m, -f); n as real <= Value(m, f) < (n + 1) as real
  {
    hide Pow2, Value;
    var n := Units(m, -f);
    ValueWhole(n);
    ValueWhole(n + 1);
    if f < 0 {
      DivMod(m, Pow2(-f));
      ValueScaled(n, f, -f);
      ValueScaled(n + 1, f, -f);
      MulAdd(n, 1, Pow2(-f));
      ValueOrder(m, n * Pow2(-f), f);
      ValueOrder(m, (n + 1) * Pow2(-f), f);
    } else if f == 0 {
      Pow2Zero();
      DivUnique(m, 1, m, 0);
    } else {
      ValueScaled(m, 0, f);
    }
  }

  lemma SmallHasNoUnits(v: int, n: nat, e: int)
    requires 0 <= v < Pow(n) && e <= 0
    ensures Units(v, n * LIMB_BITS - e) == 0
  {
    hide Pow, Pow2;
    MulNonNeg(n, LIMB_BITS);
    AboveAll(v, n * LIMB_BITS - e, n);
  }

  /** bf_rint towards zero, for a number that is not negative. */
  method Rint(r: BigFloat) returns (ghost n: int)
    requires r.IsZero() || (Operand(r) && !r.sign && r.expn <= MAX_BITS + LIMB_BITS)
    modifies r, r.tab
    ensures r.tab == old(r.tab) || fresh(r.tab)
    ensures n >= 0 && Represents(r, n) && (old(r.IsZero()) ==> n == 0)
    ensures (!old(r.IsZero()) ==> n as real <= old(ValueOf(r)) < (n + 1) as real)
  {
    hide Val, Pow, Pow2, B, Value, SameValue, MAX_BITS, NormalForm, EXP_ZERO, EXP_INF, EXP_NAN, RoundsTo,
      BigFloat.Outcome, ExpMax, ExpMin, IsLimbs, PREC_INF;
    n := 0;
    Ranges();
    SameRange();
    if r.tab.Length != 0 {
      NormalParts(r.tab[..]);
      OperandExponent(r);
      ghost var m, l, e := Val(r.tab[..]), r.tab.Length, r.expn;
      var st;
      ghost var units;
      assert r.tab[..][l - 1] == r.tab[l - 1];
      st, units := r.Round(0, RINT, NO_STATUS);
      n := units;
      TowardsZero(false, m, l * LIMB_BITS - e, units);
      WholePart(m, e - l * LIMB_BITS);
      if e <= 0 { SmallHasNoUnits(m, l, e); }
      RintOutcome(r, st, m, l, e, units);
    } else {
      NormalLength(r.tab[..]);
    }
  }

  lemma RintOutcome(r: BigFloat, st: Status, m: int, l: nat, e: int, units: int)
    requires r.Outcome(0, RINT, NO_STATUS, st, e, units, Unchanged(m, l, e, units, e - RoundPrec(0, RINT, e)))
    requires e <= MAX_BITS + LIMB_BITS && !r.sign
    requires (e <= 0 ==> units == 0) && units as real <= Value(m, e - l * LIMB_BITS) < (units + 1) as real
    requires (e > 0 ==> HasExponent(m, e - l * LIMB_BITS, e))
    ensures units >= 0 && Represents(r, units)
  {
    hide Val, Pow, Pow2, B, Value, SameValue, MAX_BITS, NormalForm, EXP_ZERO, EXP_INF, EXP_NAN, ExpMax, ExpMin,
      PREC_INF, HasExponent;
    Ranges();
    SameRange();
    if e > 0 {
      ExponentRange(m, e - l * LIMB_BITS, e);
      Exp2Mono(0, e - 1);
      Exp2Zero();
      assert RoundPrec(0, RINT, e) == e;
    }
  }

  // ----- the reciprocal -----

  /** b is the reciprocal of w, to one part in 2^prec. */
  ghost predicate InverseOf(b: BigFloat, w: int, prec: nat)
    reads b, b.tab
  {
    Operand(b) && !b.sign && Inverse(ValueOf(b), w, prec)
  }

  /** A rounded result well inside the exponent range. */
  lemma RoundedOutcome(r: BigFloat, st: Status, prec: int, e: int, units: int, exact: bool)
    requires r.Outcome(prec, NEAR, NO_STATUS, st, e, units, exact) && prec >= 1 && ExpMin(EXACT) <= e < ExpMax(EXACT)
    ensures Operand(r) && ValueOf(r) == Value(units, e - prec) && RoundPrec(prec, NEAR, e) == prec
  {
    hide Val, Pow, Pow2, B, Value, SameValue, NormalForm, EXP_ZERO, EXP_INF, EXP_NAN, ExpMax, ExpMin, PREC_INF,
      MAX_BITS;
    Ranges();
    SameRange();
    assert RoundPrec(prec, NEAR, e) == prec;
    SameIsValue(Val(r.tab[..]), r.expn - r.tab.Length * LIMB_BITS, units, e - prec);
  }

  lemma PlainPrecision(prec: int, e: int)
    ensures RoundPrec(prec, NEAR, e) == prec
  {
    hide Pow2;
  }

  /** The exponent of 1 / w. */
  lemma ReciprocalExponent(w: int, l: nat, e: int)
    requires 1 <= w < Pow2(l) && Times(w as real, Exp2(e - 1)) <= 1.0 < Times(w as real, Exp2(e))
    ensures -(l as int) < e <= 1
  {
    hide Pow2, Exp2, Times;
    TimesMono(1.0, w as real, Exp2(e - 1));
    TimesOne(Exp2(e - 1));
    Exp2Zero();
    if e - 1 > 0 { Exp2Step(0); Exp2Mono(1, e - 1); }
    Exp2Nat(l);
    TimesMono(w as real, Exp2(l), Exp2(e));
    Exp2Sum(l, e);
    if l + e <= 0 { Exp2Mono(l + e, 0); }
  }

  /** bf_div of 1 by the power: the reciprocal, rounded to nearest. */
  method Reciprocal(p: BigFloat, prec: nat, ghost w: int, ghost l: nat) returns (inv: BigFloat)
    requires Represents(p, w) && 1 <= w < Pow2(l) && l <= MAX_BITS && prec >= 1
    ensures fresh(inv) && fresh(inv.tab) && InverseOf(inv, w, prec)
  {
    hide Val, Pow, Pow2, B, Value, SameValue, NormalForm, EXP_ZERO, EXP_INF, EXP_NAN, ExpMax, ExpMin, PREC_INF,
      MAX_BITS, QuotientRounded, RatioIs, BigFloat.Outcome, Inverse, Times, Exp2, RoundPrec, Represents, ValueOf;
    Ranges();
    Base();
    var one := SetSmall(1, false);
    inv := new BigFloat();
    OneParts(one, 1);
    OneParts(p, w);
    var st;
    ghost var e, units;
    st, e, units := Div(inv, one, p, prec, NEAR);
    ghost var m, f, d, fd := Val(one.tab[..]), one.expn - one.tab.Length * LIMB_BITS, Val(p.tab[..]),
        p.expn - p.tab.Length * LIMB_BITS;
    PlainPrecision(prec, e);
    ReciprocalClose(m, f, d, fd, e, prec, units, w);
    ReciprocalExponent(w, l, e);
    RoundedOutcome(inv, st, prec, e, units, RatioIs(m, d, f - fd - (e - prec), units));
    assert fresh(inv.tab);
  }

  lemma OneParts(a: BigFloat, x: int)
    requires Represents(a, x) && x > 0
    ensures Operand(a) && !a.sign && Val(a.tab[..]) > 0
    ensures Value(Val(a.tab[..]), a.expn - a.tab.Length * LIMB_BITS) == x as real && a.IsNormal()
  {
    hide Val, Pow, Pow2, B, Value, NormalForm, SameValue, EXP_ZERO, EXP_INF, EXP_NAN;
    IntegerValue(a, x);
    ValidLimbs(a);
  }

  // ----- the estimate -----

  /** The product of x and the reciprocal y of w is within a factor of two of x / w. */
  lemma ProductRange(x: real, y: real, w: real, l: nat, p: nat)
    requires 1.0 <= x < Exp2(l) && 1.0 <= w < Exp2(l) && p >= 1 && Near(1.0, Times(y, w), Exp2(0 - p))
    ensures Exp2(0 - l - 1) < Times(x, y) < Exp2(l + 1)
  {
    hide Exp2, Times;
    SmallPart(p);
    var v := Times(x, y);
    TimesAssoc(x, y, w);
    TimesMono(Times(y, w), 1.5, x);
    TimesMono(0.5, Times(y, w), x);
    TimesScale(0.5, 1.0, x);
    TimesScale(1.5, 1.0, x);
    TimesOne(x);
    TimesComm(x, 1.5);
    TimesComm(x, 0.5);
    assert 0.5 * x <= Times(v, w) <= 1.5 * x;
    Exp2Step(l);
    Exp2Step(0 - l - 1);
    PositiveProduct(v, w);
    TimesMono(1.0, w, v);
    TimesOne(v);
    assert v <= 1.5 * x;
    // v * 2^l > v * w >= 1/2
    TimesMono(w, Exp2(l), v);
    Exp2Sum(0 - l - 1, l);
    if v <= Exp2(0 - l - 1) { HalfBound(v, w, l); }
  }

  lemma PositiveProduct(v: real, w: real)
    requires Times(v, w) > 0.0 && w > 0.0
    ensures v > 0.0
  {
    if v <= 0.0 { TimesMono(v, 0.0, w); }
  }

  lemma HalfBound(v: real, w: real, l: nat)
    requires 0.0 < v <= Exp2(0 - l - 1) && 1.0 <= w < Exp2(l)
    ensures Times(v, w) < 0.5
  {
    hide Exp2, Times;
    TimesCancel(w, Exp2(l), v);
    TimesComm(v, w);
    TimesMono(v, Exp2(0 - l - 1), Exp2(l));
    TimesComm(v, Exp2(l));
    Exp2Sum(0 - l - 1, l);
    Exp2Step(-1);
    Exp2Zero();
  }

  /** The whole part of an estimate is off by at most two. */
  lemma EstimateWhole(x: int, w: int, q: real, n: int)
    requires Near(x as real, Times(q, w as real), 1.5 * (w as real)) && n as real <= q < (n + 1) as real && w >= 1
    ensures -2 * w < x - n * w < 3 * w
  {
    hide Times;
    TimesMono(n as real, q, w as real);
    TimesCancel(q, (n + 1) as real, w as real);
    CastMul(n, w);
    CastMul(n + 1, w);
    MulAdd(n, 1, w);
  }

  /** The value of a rounded number is within a factor of two of the exact one. */
  lemma RoundedRange(v: real, u: real, prec: nat)
    requires prec >= 1 && v > 0.0 && Near(v, u, Times(v, Exp2(0 - prec)))
    ensures u <= 1.5 * v
  {
    hide Exp2, Times;
    SmallPart(prec);
    TimesMono(Exp2(0 - prec), 0.5, v);
    TimesScale(0.5, v, 1.0);
    TimesOne(v);
  }

  /** The exponent of a number of bounded value. */
  lemma ExponentBelow(a: BigFloat, l: int)
    requires Operand(a) && ValueOf(a) < Exp2(l)
    ensures a.expn <= l
  {
    hide Exp2, Value, Operand, HasExponent, Val;
    OperandExponent(a);
    ExponentRange(Val(a.tab[..]), a.expn - a.tab.Length * LIMB_BITS, a.expn);
    Exp2Order(a.expn - 1, l);
  }

  /** What bf_mul leaves of a positive integer times the reciprocal. */
  lemma ScaledCorrect(q: BigFloat, st: Status, z: int, g: int, e: int, units: int, prec: nat, x: real, y: real, w: real,
      p: nat, l: nat)
    requires SumRounded(RNDN, false, z, g, e, RoundPrec(prec, NEAR, e), units)
    requires q.Outcome(prec, NEAR, NO_STATUS, st, e, units, SameValue(units, e - RoundPrec(prec, NEAR, e), z, g))
    requires Value(z, g) == Times(x, y) && 1.0 <= x < Exp2(l) && 1.0 <= w < Exp2(l)
    requires Near(1.0, Times(y, w), Exp2(0 - p)) && p >= 1 && prec >= 1 && l <= MAX_BITS
    ensures Operand(q) && q.expn <= l + 2 && Near(Value(z, g), ValueOf(q), Times(Value(z, g), Exp2(0 - prec)))
  {
    hide Val, Pow, Pow2, B, Value, SameValue, NormalForm, EXP_ZERO, EXP_INF, EXP_NAN, ExpMax, ExpMin, PREC_INF,
      MAX_BITS, BigFloat.Outcome, Times, Exp2, RoundPrec, HasExponent, RoundsTo, Near;
    Ranges();
    PlainPrecision(prec, e);
    NearestClose(false, z, g, e, prec, units);
    ExponentRange(z, g, e);
    ProductRange(x, y, w, l, p);
    Exp2Order(e - 1, l + 1);
    Exp2Order(0 - l - 1, e);
    RoundedOutcome(q, st, prec, e, units, SameValue(units, e - prec, z, g));
    RoundedRange(Value(z, g), ValueOf(q), prec);
    Exp2Step(l + 1);
    ExponentBelow(q, l + 2);
  }

  /** bf_mul of an integer by the reciprocal, rounded to nearest at prec bits. */
  method ScaledByInverse(a: BigFloat, inv: BigFloat, prec: nat, ghost x: int, ghost w: int, ghost p: nat,
      ghost l: nat) returns (q: BigFloat)
    requires Represents(a, x) && 0 <= x < Pow2(l) && 1 <= w < Pow2(l) && l <= MAX_BITS && InverseOf(inv, w, p) && p >= 1
    requires prec >= 1
    ensures fresh(q) && fresh(q.tab) && (x == 0 ==> q.IsZero())
    ensures x > 0 ==> Operand(q) && !q.sign && q.expn <= l + 2
    ensures x > 0 ==> var v := Times(x as real, ValueOf(inv)); Near(v, ValueOf(q), Times(v, Exp2(0 - prec)))
  {
    hide Val, Pow, Pow2, B, Value, SameValue, NormalForm, EXP_ZERO, EXP_INF, EXP_NAN, MAX_BITS, BigFloat.Outcome, Times,
      Exp2, RoundPrec, SumRounded, Factor, Kept, Near;
    Exponents();
    ValidLimbs(inv);
    q := new BigFloat();
    var st;
    ghost var e, units;
    st, e, units := BfMul.Mul(q, a, inv, prec, NEAR);
    if x != 0 {
      OneParts(a, x);
      ghost var m, f, d, g := Val(a.tab[..]), a.expn - a.tab.Length * LIMB_BITS, Val(inv.tab[..]),
          inv.expn - inv.tab.Length * LIMB_BITS;
      FactorWhole(RNDN, prec, a.tab[..]);
      FactorWhole(RNDN, prec, inv.tab[..]);
      MulAdd(a.tab.Length, inv.tab.Length, LIMB_BITS);
      ValueProduct(m, f, d, g);
      Exp2Nat(l);
      ScaledCorrect(q, st, m * d, f + g, e, units, prec, x as real, ValueOf(inv), w as real, p, l);
    }
  }

  /** The quotient of x by w, estimated, is off by at most two. */
  method Estimate(a: BigFloat, inv: BigFloat, prec: nat, ghost x: int, ghost w: int, ghost p: nat,
      ghost l: nat) returns (q: BigFloat, ghost n: int)
    requires Represents(a, x) && 0 <= x < Pow2(l) && 1 <= w < Pow2(l) && l <= MAX_BITS && InverseOf(inv, w, p)
    requires p >= prec + 2 && prec >= 1
    requires x < w * Pow2(prec)
    ensures fresh(q) && fresh(q.tab) && n >= 0 && Represents(q, n) && -2 * w < x - n * w < 3 * w
  {
    hide Val, Pow, Pow2, B, Value, SameValue, EXP_INF, EXP_NAN, MAX_BITS, Times, Exp2, Near, Operand, ValueOf;
    q := ScaledByInverse(a, inv, prec, x, w, p, l);
    ghost var u := ValueOf(q);
    Ranges();
    if x > 0 { OperandLength(q); }
    n := Rint(q);
    if x > 0 {
      CastMul(w, Pow2(prec));
      Exp2Nat(prec);
      EstimateClose(x as real, w as real, ValueOf(inv), u, p, prec);
      EstimateWhole(x, w, u, n);
    }
  }

  lemma OperandLength(q: BigFloat)
    requires Operand(q)
    ensures !q.IsZero()
  {
    NormalLength(q.tab[..]);
  }

  // ----- the correction -----

  /** The first loop: the remainder is brought up to zero, in at most two turns. */
  method RaiseRemainder(r0: BigFloat, p: BigFloat, ghost x: int, ghost w: int, ghost l: nat) returns (r: BigFloat,
      add: int)
    requires Represents(r0, x) && Represents(p, w) && 1 <= w < Pow2(l) && -2 * w < x < 3 * w
    requires l + 2 < MAX_BITS + LIMB_BITS
    ensures -2 <= add <= 0 && x - add * w >= 0 && (add == 0 || x - add * w < w) && Represents(r, x - add * w)
    ensures (r == r0 || (fresh(r) && fresh(r.tab)))
  {
    hide Pow2, Represents, MAX_BITS, Val;
    r, add := r0, 0;
    Pow2Step(l);
    Pow2Step(l + 1);
    IsNegative(r, x);
    while r.sign && r.tab.Length != 0
      invariant -2 <= add <= 0 && Represents(r, x - add * w) && (r.sign && r.tab.Length != 0 <==> x - add * w < 0)
      invariant (r == r0 || (fresh(r) && fresh(r.tab)))
      invariant add < 0 ==> x - add * w < w
      invariant add == -2 ==> x - add * w >= 0
      decreases add + 2
    {
      r := AddExact(r, p, false, x - add * w, w, l + 2);
      MulSub(add, 1, w);
      add := add - 1;
      IsNegative(r, x - add * w);
    }
  }

  lemma IsNegative(r: BigFloat, x: int)
    requires Represents(r, x)
    ensures r.sign && r.tab.Length != 0 <==> x < 0
  {
    NormalLength(r.tab[..]);
  }

  /** The second loop: it is brought down below the divisor, in at most two turns. */
  method LowerRemainder(r0: BigFloat, p: BigFloat, add0: int, ghost x: int, ghost w: int,
      ghost l: nat) returns (r: BigFloat, add: int)
    requires Represents(r0, x) && Represents(p, w) && 1 <= w < Pow2(l) && 0 <= x < 3 * w && l + 2 < MAX_BITS + LIMB_BITS
    ensures add0 <= add <= add0 + 2 && 0 <= x - (add - add0) * w < w && Represents(r, x - (add - add0) * w)
    ensures (r == r0 || (fresh(r) && fresh(r.tab)))
    ensures x < w ==> add == add0
  {
    hide Pow2, Represents, MAX_BITS, Val;
    r, add := r0, add0;
    Pow2Step(l);
    Pow2Step(l + 1);
    ghost var k := 0;
    var c := Compare(r, p, x, w);
    while c >= 0
      invariant 0 <= k <= 2 && add == add0 + k && 0 <= x - k * w < (3 - k) * w && Represents(r, x - k * w)
      invariant (r == r0 || (fresh(r) && fresh(r.tab)))
      invariant c >= 0 <==> x - k * w >= w
      invariant k > 0 ==> x >= w
      decreases 3 - k
    {
      r := AddExact(r, p, true, x - k * w, w, l + 2);
      MulAdd(k, 1, w);
      MulSub(3 - k, 1, w);
      k := k + 1;
      add := add + 1;
      c := Compare(r, p, x - k * w, w);
    }
  }

  /** The quotient and the remainder of x by w, from the estimate. */
  method Divide(a: BigFloat, p: BigFloat, inv: BigFloat, prec: nat, ghost x: int, ghost w: int, ghost pi: nat,
      ghost l: nat) returns (q: BigFloat, r: BigFloat)
    requires Represents(a, x) && Represents(p, w) && 0 <= x < Pow2(l) && 1 <= w < Pow2(l) && l <= MAX_BITS
    requires InverseOf(inv, w, pi) && pi >= prec + 2 && prec >= 1
    requires x < w * Pow2(prec)
    ensures fresh(q) && fresh(q.tab) && fresh(r) && fresh(r.tab) && Represents(q, x / w) && Represents(r, x % w)
  {
    hide Pow2, Represents, MAX_BITS, Val, InverseOf, B;
    Base();
    ghost var n;
    q, n := Estimate(a, inv, prec, x, w, pi, l);
    Pow2Step(l);
    Pow2Step(l + 1);
    MulNonNeg(n, w);
    r := MulExact(q, p, n, w, l + 2);
    r := AddExact(a, r, true, x, n * w, l + 2);
    var add;
    r, add := RaiseRemainder(r, p, x - n * w, w, l);
    ghost var low := add;
    r, add := LowerRemainder(r, p, add, x - n * w - low * w, w, l);
    MulAdd(n, low, w);
    MulAdd(n + low, add - low, w);
    DivUnique(x, w, n + add, x - (n + add) * w);
    if add != 0 {
      var d := SetSmall(if add < 0 then -add else add, add < 0);
      QuotientSmall(n, w, x, l);
      q := AddExact(q, d, false, n, add, l + 2);
    }
  }

  lemma QuotientSmall(n: int, w: int, x: int, l: nat)
    requires 0 <= n && 1 <= w < Pow2(l) && x < Pow2(l) && -2 * w < x - n * w
    ensures n < Pow2(l + 2) && 2 < Pow2(l + 2)
  {
    hide Pow2;
    Pow2Step(l);
    Pow2Step(l + 1);
    MulMono(1, w, n);
  }
}
