/**
The operands, the precision and the flags determine the result of an operation
bit for bit: the exact result rounds to one number only, and a number has one
normal form.
*/
module BfDetermined {
  import opened Limb
  import opened MpBasic
  import opened Rounding
  import opened Dyadic
  import opened BfRound
  import opened BfFloat
  import opened BfNormalize
  import opened BfSticky
  import opened BfDivide
  import opened BfSqrt
  import opened BfAlign
  import opened BfAdd
  import opened RealValue

  /** The same sign, exponent and limbs. */
  ghost predicate Identical(r: BigFloat, r': BigFloat)
    reads r, r.tab, r', r'.tab
  {
    r.sign == r'.sign && r.expn == r'.expn && r.tab[..] == r'.tab[..]
  }

  // ----- the normal form -----

  lemma SameExponent(z: int, g: int, e: int, z': int, g': int, e': int)
    requires HasExponent(z, g, e) && HasExponent(z', g', e') && Value(z, g) == Value(z', g')
    ensures e == e'
  {
    hide HasExponent, Value, Exp2;
    ExponentRange(z, g, e);
    ExponentRange(z', g', e');
    Exp2Order(e - 1, e');
    Exp2Order(e' - 1, e);
  }

  /** Fewer limbs of the same value leave a zero limb at the low end of the longer number. */
  lemma LongerHasZero(t: seq<nat>, u: seq<nat>, e: int)
    requires NormalForm(t) && NormalForm(u) && Value(Val(t), e - |t| * LIMB_BITS) == Value(Val(u), e - |u| * LIMB_BITS)
    ensures |u| <= |t|
  {
    hide Val, Pow, Pow2, B, Value;
    if |t| < |u| {
      var n := |u| - |t|;
      MulSub(|u|, |t|, LIMB_BITS);
      MulMono(1, n, LIMB_BITS);
      ValueScaled(Val(t), e - |u| * LIMB_BITS, n * LIMB_BITS);
      ValueOrder(Val(t) * Pow2(n * LIMB_BITS), Val(u), e - |u| * LIMB_BITS);
      WhollyBelow(Val(t), n * LIMB_BITS);
      ValLow(u);
      BaseUp(u[0], Val(u[1..]));
      Base();
      DivUnique(u[0], B, 0, u[0]);
    }
  }

  /** A value has one normal form. */
  lemma NormalUnique(t: seq<nat>, e: int, u: seq<nat>, e': int)
    requires NormalForm(t) && NormalForm(u) && Value(Val(t), e - |t| * LIMB_BITS) == Value(Val(u), e' - |u| * LIMB_BITS)
    ensures e == e' && t == u
  {
    hide Val, Pow, Pow2, B, Value, NormalForm, HasExponent;
    NormalExponent(t, e);
    NormalExponent(u, e');
    SameExponent(Val(t), e - |t| * LIMB_BITS, e, Val(u), e' - |u| * LIMB_BITS, e');
    LongerHasZero(t, u, e);
    LongerHasZero(u, t, e);
    ValueOrder(Val(t), Val(u), e - |t| * LIMB_BITS);
    NormalParts(t);
    NormalParts(u);
    ValInjective(t, u);
  }

  lemma EqualsUnique(r: BigFloat, r': BigFloat, m: int, f: int)
    requires r.IsNormal() && r'.IsNormal() && r.Equals(m, f) && r'.Equals(m, f) && r.sign == r'.sign
    ensures Identical(r, r')
  {
    hide Val, Pow, Pow2, B, Value, NormalForm, SameValue;
    SameIsValue(Val(r.tab[..]), r.expn - r.tab.Length * LIMB_BITS, m, f);
    SameIsValue(Val(r'.tab[..]), r'.expn - r'.tab.Length * LIMB_BITS, m, f);
    NormalUnique(r.tab[..], r.expn, r'.tab[..], r'.expn);
  }

  /** Outcome leaves nothing open. */
  lemma OutcomeUnique(r: BigFloat, r': BigFloat, prec1: int, flags: Flags, st: Status, st': Status, e: int, units: int,
      exact: bool)
    requires flags.expBits >= 1 && r.sign == r'.sign
    requires r.Outcome(prec1, flags, NO_STATUS, st, e, units, exact)
    requires r'.Outcome(prec1, flags, NO_STATUS, st', e, units, exact)
    ensures st == st' && Identical(r, r')
  {
    hide Val, Pow, Pow2, B, NormalForm, SameValue, RoundPrec, RoundedExponent, EXP_INF, EXP_ZERO, ExpMax, ExpMin,
      PREC_INF;
    assert r.tab.Length == 0 && r'.tab.Length == 0 ==> r.tab[..] == r'.tab[..];
    var prec := RoundPrec(prec1, flags, e);
    if prec <= 0 {
      if units != 0 { EqualsUnique(r, r', units, e - prec); }
    } else {
      var top := RoundedExponent(e, prec, units);
      if !(top < ExpMin(flags) && !flags.subnormal) {
        if top <= ExpMax(flags) {
          EqualsUnique(r, r', units, e - prec);
        } else if !(prec1 == PREC_INF || OverflowsToInf(flags.mode, r.sign)) {
          EqualsUnique(r, r', Pow2(prec1) - 1, ExpMax(flags) - prec1);
        }
      }
    }
  }

  // ----- quotients -----

  lemma QuotientUnique(mode: Mode, neg: bool, m: int, d: int, t: int, prec: int, flags: Flags, e: int, units: int,
      e': int, units': int)
    requires 0 < d && flags.expBits >= 1
    requires QuotientRounded(mode, neg, m, d, t, e, RoundPrec(prec, flags, e), units)
    requires QuotientRounded(mode, neg, m, d, t, e', RoundPrec(prec, flags, e'), units')
    ensures e == e' && units == units'
  {
    hide Pow2, RoundPrec, IsRounded, RatioExponent, Value, Exp2, Times, Coherent;
    QuotientRange(m, d, t, e);
    QuotientRange(m, d, t, e');
    PlaceOrder(d, e - 1, e');
    PlaceOrder(d, e' - 1, e);
    var s := t - (e - RoundPrec(prec, flags, e));
    if s >= 0 {
      RatioCoherent(m * Pow2(s), d);
    } else {
      MulPos(d, Pow2(-s));
      RatioCoherent(m, d * Pow2(-s));
    }
    RoundedUnique(mode, neg, RatioAt(m, d, s), units, units');
  }

  lemma PlaceOrder(d: int, e: int, f: int)
    requires 0 < d && Value(d, e) < Value(d, f)
    ensures e < f
  {
    hide Exp2, Times;
    if f <= e {
      Exp2Mono(f, e);
      TimesMono(Exp2(f), Exp2(e), d as real);
    }
  }

  /** __bf_div leaves one result only. */
  lemma OneQuotient(r: BigFloat, r': BigFloat, m: int, d: int, t: int, prec: int, flags: Flags,
      st: Status, e: int, units: int, st': Status, e': int, units': int)
    requires 0 < d && flags.expBits >= 1 && r.sign == r'.sign
    requires QuotientRounded(flags.mode, r.sign, m, d, t, e, RoundPrec(prec, flags, e), units)
    requires r.Outcome(prec, flags, NO_STATUS, st, e, units, RatioIs(m, d, t - (e - RoundPrec(prec, flags, e)), units))
    requires QuotientRounded(flags.mode, r'.sign, m, d, t, e', RoundPrec(prec, flags, e'), units')
    requires r'.Outcome(prec, flags, NO_STATUS, st', e', units',
                        RatioIs(m, d, t - (e' - RoundPrec(prec, flags, e')), units'))
    ensures st == st' && Identical(r, r')
  {
    hide QuotientRounded, RatioIs, RoundPrec, BigFloat.Outcome;
    QuotientUnique(flags.mode, r.sign, m, d, t, prec, flags, e, units, e', units');
    OutcomeUnique(r, r', prec, flags, st, st', e, units, RatioIs(m, d, t - (e - RoundPrec(prec, flags, e)), units));
  }

  // ----- roots -----

  lemma RootRoundedUnique(mode: Mode, m: int, f: int, prec: int, flags: Flags, e: int, units: int, e': int, units': int)
    requires flags.expBits >= 1
    requires RootRounded(mode, m, f, e, RoundPrec(prec, flags, e), units)
    requires RootRounded(mode, m, f, e', RoundPrec(prec, flags, e'), units')
    ensures e == e' && units == units'
  {
    hide Pow2, RoundPrec, IsRounded, Coherent, HasExponent, RootOf;
    var x := if HasExponent(m, f, 2 * e) then 2 * e else 2 * e - 1;
    var y := if HasExponent(m, f, 2 * e') then 2 * e' else 2 * e' - 1;
    SameExponent(m, f, x, m, f, y);
    var s := f - 2 * (e - RoundPrec(prec, flags, e));
    if s >= 0 { RootOfCoherent(m * Pow2(s), 1); } else { RootOfCoherent(m, Pow2(-s)); }
    RoundedUnique(mode, false, RootAt(m, s), units, units');
  }

  /** bf_sqrt leaves one result only. */
  lemma OneRoot(r: BigFloat, r': BigFloat, m: int, f: int, prec: int, flags: Flags,
      st: Status, e: int, units: int, st': Status, e': int, units': int)
    requires flags.expBits >= 1 && r.sign == r'.sign
    requires RootRounded(flags.mode, m, f, e, RoundPrec(prec, flags, e), units)
    requires r.Outcome(prec, flags, NO_STATUS, st, e, units, RootIs(m, f - 2 * (e - RoundPrec(prec, flags, e)), units))
    requires RootRounded(flags.mode, m, f, e', RoundPrec(prec, flags, e'), units')
    requires r'.Outcome(prec, flags, NO_STATUS, st', e', units',
                        RootIs(m, f - 2 * (e' - RoundPrec(prec, flags, e')), units'))
    ensures st == st' && Identical(r, r')
  {
    hide RootRounded, RootIs, RoundPrec, BigFloat.Outcome;
    RootRoundedUnique(flags.mode, m, f, prec, flags, e, units, e', units');
    OutcomeUnique(r, r', prec, flags, st, st', e, units, RootIs(m, f - 2 * (e - RoundPrec(prec, flags, e)), units));
  }

  // ----- sums and products -----

  lemma SumUnique(mode: Mode, neg: bool, z: int, g: int, prec: int, flags: Flags, e: int, units: int, e': int,
      units': int)
    requires flags.expBits >= 1
    requires SumRounded(mode, neg, z, g, e, RoundPrec(prec, flags, e), units)
    requires SumRounded(mode, neg, z, g, e', RoundPrec(prec, flags, e'), units')
    ensures e == e' && units == units'
  {
    hide Pow2, RoundPrec, IsRounded, Coherent, HasExponent;
    SameExponent(z, g, e, z, g, e');
    var k := e - RoundPrec(prec, flags, e) - g;
    if k >= 1 {
      RatioCoherent(z, Pow2(k));
      RoundedUnique(mode, neg, Ratio(z, Pow2(k)), units, units');
    }
  }

  /** bf_add_internal and bf_mul leave one result only. */
  lemma OneSum(r: BigFloat, r': BigFloat, z: int, g: int, prec: int, flags: Flags,
      st: Status, e: int, units: int, st': Status, e': int, units': int)
    requires flags.expBits >= 1 && r.sign == r'.sign
    requires SumRounded(flags.mode, r.sign, z, g, e, RoundPrec(prec, flags, e), units)
    requires r.Outcome(prec, flags, NO_STATUS, st, e, units, SameValue(units, e - RoundPrec(prec, flags, e), z, g))
    requires SumRounded(flags.mode, r'.sign, z, g, e', RoundPrec(prec, flags, e'), units')
    requires r'.Outcome(prec, flags, NO_STATUS, st', e', units',
                        SameValue(units', e' - RoundPrec(prec, flags, e'), z, g))
    ensures st == st' && Identical(r, r')
  {
    hide SumRounded, SameValue, RoundPrec, BigFloat.Outcome;
    SumUnique(flags.mode, r.sign, z, g, prec, flags, e, units, e', units');
    OutcomeUnique(r, r', prec, flags, st, st', e, units, SameValue(units, e - RoundPrec(prec, flags, e), z, g));
  }
}
