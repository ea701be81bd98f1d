/**
The floating point numbers of libbf.c: sign, exponent and a mantissa of limbs
with the top bit set, standing for mantissa * 2^(expn - bits of the mantissa).
*/
module BfFloat {
  import opened Limb
  import opened MpBasic
  import opened MpDigit
  import opened MpDivide
  import opened Newton
  import opened BfBits
  import opened Rounding
  import opened Dyadic
  import opened BfRound

  const EXP_NAN: int := B / 2 - 1
  const EXP_INF: int := EXP_NAN - 1
  const EXP_ZERO: int := -(B / 2)

  const PREC_MAX: int := Pow2(LIMB_BITS - 2) - 2
  const PREC_INF: int := PREC_MAX + 1

  datatype Flags = Flags(mode: Mode, subnormal: bool, radixPoint: bool, expBits: nat)

  datatype Status = Status(invalid: bool, divideZero: bool, overflow: bool, underflow: bool, inexact: bool)

  const NO_STATUS: Status := Status(false, false, false, false, false)
  const OVERFLOW: Status := Status(false, false, true, false, true)

  function ExpMax(flags: Flags): int
    requires flags.expBits >= 1
  {
    Pow2(flags.expBits - 1)
  }

  function ExpMin(flags: Flags): int
    requires flags.expBits >= 1
  {
    3 - ExpMax(flags)
  }

  /** The number of bits to round to: relative to the radix point, restricted for subnormal results, or as given. */
  function RoundPrec(prec: int, flags: Flags, expn: int): int
    requires flags.expBits >= 1
  {
    if flags.radixPoint then
      if prec != PREC_INF then expn + prec else prec
    else if expn < ExpMin(flags) && flags.subnormal then prec - (ExpMin(flags) - expn)
    else prec
  }

  /** units * 2^e is the mantissa m of l limbs with exponent expn, exactly. */
  ghost predicate Unchanged(m: int, l: nat, expn: int, units: int, e: int) {
    SameValue(units, e, m, expn - l * LIMB_BITS)
  }

  /** Nothing changes exactly when no set bit lies below the last place. */
  lemma UnchangedIff(m: nat, l: nat, expn: int, prec: int, add: bool)
    requires var k := l * LIMB_BITS - prec; add ==> k >= 1 && m % Pow2(k) != 0
    ensures var k := l * LIMB_BITS - prec;
      Unchanged(m, l, expn, Units(m, k) + (if add then 1 else 0), expn - prec) <==> k <= 0 || m % Pow2(k) == 0
  {
    hide Pow2, SameValue;
    var k := l * LIMB_BITS - prec;
    var units := Units(m, k) + if add then 1 else 0;
    if k >= 1 {
      SameScaled(units, expn - prec, m, expn - l * LIMB_BITS, expn - l * LIMB_BITS);
      Pow2Zero();
      DivMod(m, Pow2(k));
      if units * Pow2(k) == m { DivUnique(m, Pow2(k), units, 0); }
    } else {
      SameScaled(units, expn - prec, m, expn - l * LIMB_BITS, expn - prec);
      Pow2Zero();
      if k == 0 { DivUnique(m, 1, m, 0); }
    }
  }

  /** The exponent after rounding to prec bits: one more when the units fill a further place. */
  function RoundedExponent(e: int, prec: int, units: int): int
    requires prec >= 0
  {
    if units >= Pow2(prec) then e + 1 else e
  }

  /** The mantissa carried out of its top limb exactly when the units fill a further place. */
  lemma CarriedOut(t: seq<nat>, bump: nat, units: int, prec: int)
    requires NormalForm(t) && bump <= 1 && prec >= 1 && SameValue(Val(t), bump - |t| * LIMB_BITS, units, -prec)
    ensures bump == 1 <==> units >= Pow2(prec)
  {
    hide Val, Pow, Pow2, B, SameValue, MpDigit.Normalised;
    NormalisedValue(t);
    PowBits(|t|);
    MulMono(1, |t|, LIMB_BITS);
    CarriedUnits(Val(t), |t| * LIMB_BITS, bump, units, prec);
  }

  lemma CarriedUnits(v: int, n: int, bump: nat, units: int, prec: int)
    requires n >= 1 && v < Pow2(n) <= 2 * v && bump <= 1 && prec >= 1 && SameValue(v, bump - n, units, -prec)
    ensures bump == 1 <==> units >= Pow2(prec)
  {
    hide Pow2, SameValue;
    var h := if bump - n <= -prec then bump - n else -prec;
    SameScaled(v, bump - n, units, -prec, h);
    Pow2Add(prec, -prec - h);
    if bump == 1 {
      Pow2Step(n - 1);
      Pow2Add(n - 1, 1 - n - h);
      MulMono(Pow2(n - 1), v, Pow2(1 - n - h));
      Cancel(Pow2(prec), units, Pow2(-prec - h));
    } else {
      Pow2Add(n, -n - h);
      MulStrict(v, Pow2(n), Pow2(-n - h));
      CancelStrict(units, Pow2(prec), Pow2(-prec - h));
    }
  }

  class BigFloat {
    var sign: bool
    var expn: int
    var tab: array<nat>

    constructor ()
      ensures IsZero() && !sign && fresh(tab)
    {
      sign, expn := false, EXP_ZERO;
      tab := new nat[0];
    }

    ghost predicate IsZero()
      reads this
    {
      expn == EXP_ZERO && tab.Length == 0
    }

    ghost predicate IsInf()
      reads this
    {
      expn == EXP_INF && tab.Length == 0
    }

    ghost predicate IsNaN()
      reads this
    {
      expn == EXP_NAN && tab.Length == 0
    }

    /** A finite non-zero number in the form that every operation leaves it in. */
    ghost predicate IsNormal()
      reads this, tab
    {
      NormalForm(tab[..])
    }

    /** The magnitude is m * 2^e. */
    ghost predicate Equals(m: int, e: int)
      reads this, tab
    {
      SameValue(Val(tab[..]), expn - tab.Length * LIMB_BITS, m, e)
    }

    method SetZero(s: bool)
      modifies this
      ensures IsZero() && sign == s && fresh(tab)
    {
      sign, expn := s, EXP_ZERO;
      tab := new nat[0];
    }

    method SetInf(s: bool)
      modifies this
      ensures IsInf() && sign == s && fresh(tab)
    {
      sign, expn := s, EXP_INF;
      tab := new nat[0];
    }

    method SetNaN()
      modifies this
      ensures IsNaN() && fresh(tab)
    {
      sign, expn := false, EXP_NAN;
      tab := new nat[0];
    }

    /** __bf_round when the precision is not positive: one unit of the last place, or nothing. */
    method RoundBelow(prec: int, add: bool)
      requires prec <= 0
      modifies this
      ensures sign == old(sign) && fresh(tab)
      ensures if add then IsNormal() && Equals(1, old(expn) - prec) else IsZero()
    {
      hide Val, Pow, Pow2, B, SameValue;
      if add {
        Base();
        tab := new nat[1];
        tab[0] := B / 2;
        expn := expn + 1 - prec;
        assert tab[..] == [B / 2];
        ValOne(B / 2);
        HalfLimb(expn - LIMB_BITS);
      } else {
        SetZero(sign);
      }
    }

    /** bf_set_overflow: infinity, or the largest number of prec bits, as the mode asks. */
    method SetOverflow(s: bool, prec: int, flags: Flags)
      requires flags.expBits >= 1 && (prec >= 1 || prec == PREC_INF || OverflowsToInf(flags.mode, s))
      modifies this
      ensures sign == s && fresh(tab)
      ensures
        if prec == PREC_INF || OverflowsToInf(flags.mode, s) then IsInf()
        else IsNormal() && Equals(Pow2(prec) - 1, ExpMax(flags) - prec)
    {
      hide Val, Pow, Pow2, B, SameValue, NormalForm;
      if prec == PREC_INF || OverflowsToInf(flags.mode, s) {
        SetInf(s);
      } else {
        Base();
        var l := (prec + LIMB_BITS - 1) / LIMB_BITS;
        LimbsFor(prec);
        tab := new nat[l];
        tab[0] := B - Pow2((-prec) % LIMB_BITS);
        var i := 1;
        while i < l
          invariant 1 <= i <= l && tab[0] == B - Pow2((-prec) % LIMB_BITS)
          invariant forall j :: 1 <= j < i ==> tab[j] == B - 1
          modifies tab
        {
          tab[i] := B - 1;
          i := i + 1;
        }
        expn, sign := ExpMax(flags), s;
        LargestMantissa(tab[..], prec);
        SameShift(Val(tab[..]), -(l * LIMB_BITS), Pow2(prec) - 1, -prec, expn);
      }
    }

    /** Whether the mantissa is to be raised by one unit of the last of prec places. */
    method Decide(prec: int, mode: Mode) returns (add: bool, inexact: bool, ghost units: int)
      requires tab.Length >= 1 && IsLimbs(tab[..])
      ensures units == Units(Val(tab[..]), tab.Length * LIMB_BITS - prec) + if add then 1 else 0
      ensures RoundsTo(mode, sign, Val(tab[..]), tab.Length * LIMB_BITS - prec, units)
      ensures add ==> tab.Length * LIMB_BITS - prec >= 1
      ensures prec <= 0 ==> units == if add then 1 else 0
      ensures inexact <==> mode == RNDF || !Unchanged(Val(tab[..]), tab.Length, expn, units, expn - prec)
    {
      hide Val, Pow, Pow2, B, IsLimbs, RoundsTo, Unchanged, Units;
      add, inexact := GetRndAdd(tab, prec, mode, sign);
      ghost var k := tab.Length * LIMB_BITS - prec;
      units := Units(Val(tab[..]), k) + if add then 1 else 0;
      UnchangedIff(Val(tab[..]), tab.Length, expn, prec, add);
      if prec <= 0 { NoUnits(tab[..], prec); }
    }

    /** The middle of __bf_round: the mantissa rounded to prec places, units of them. */
    method Place(prec: int, add: bool, ghost units: int)
      requires tab.Length >= 1 && IsLimbs(tab[..]) && Normalised(tab[tab.Length - 1]) && prec >= 1
      requires add ==> tab.Length * LIMB_BITS - prec >= 1
      requires units == Units(Val(tab[..]), tab.Length * LIMB_BITS - prec) + if add then 1 else 0
      modifies this, tab
      ensures sign == old(sign) && fresh(tab) && tab.Length >= 1 && expn == RoundedExponent(old(expn), prec, units)
      ensures IsNormal() && Equals(units, old(expn) - prec)
    {
      hide Val, Pow, Pow2, B, SameValue, NormalForm, IsLimbs, MpDigit.Normalised, Units;
      var b, bump := RoundMantissa(tab, prec, add);
      SameShift(Val(b[..]), bump - b.Length * LIMB_BITS, units, -prec, expn);
      NormalLength(b[..]);
      CarriedOut(b[..], bump, units, prec);
      tab, expn := b, expn + bump;
    }

    /** The end of __bf_round: the exponent may be too small or too large. */
    method CheckRange(prec1: int, flags: Flags, ret: Status) returns (st: Status)
      requires flags.expBits >= 1 && (expn > ExpMax(flags) ==> prec1 >= 1 || OverflowsToInf(flags.mode, sign))
      modifies this
      ensures sign == old(sign)
      ensures
        if old(expn) < ExpMin(flags) && !flags.subnormal then
          IsZero() && fresh(tab) && st == ret.(underflow := true, inexact := true)
        else if old(expn) > ExpMax(flags) then
          Overflowed(prec1, flags) && fresh(tab) && st == NO_STATUS.(overflow := true, inexact := true)
        else
          tab == old(tab) && expn == old(expn) && st ==
            ret.(underflow := ret.underflow || (expn < ExpMin(flags) && ret.inexact))
    {
      hide Val, Pow, Pow2, B, SameValue, NormalForm;
      st := ret;
      if expn < ExpMin(flags) {
        if flags.subnormal {
          if st.inexact { st := st.(underflow := true); }
        } else {
          SetZero(sign);
          return st.(underflow := true, inexact := true);
        }
      }
      if expn > ExpMax(flags) {
        Base();
        SetOverflow(sign, prec1, flags);
        return OVERFLOW;
      }
    }

    /** A result of __bf_round that neither overflowed nor underflowed. */
    ghost predicate InRange(flags: Flags, units: int, e: int)
      requires flags.expBits >= 1
      reads this, tab
    {
      IsNormal() && Equals(units, e) && expn <= ExpMax(flags) && (expn >= ExpMin(flags) || flags.subnormal)
    }

    /** What bf_set_overflow leaves. */
    ghost predicate Overflowed(prec1: int, flags: Flags)
      requires flags.expBits >= 1
      reads this, tab
    {
      if prec1 == PREC_INF || OverflowsToInf(flags.mode, sign) then IsInf()
      else prec1 >= 1 && IsNormal() && Equals(Pow2(prec1) - 1, ExpMax(flags) - prec1)
    }

    /**
    What becomes of a rounded number with exponent top and a value of units places:
    underflow, overflow or itself.
    */
    ghost predicate Settled(prec1: int, flags: Flags, ret: Status, st: Status, top: int, units: int, place: int)
      requires flags.expBits >= 1
      reads this, tab
    {
      if top < ExpMin(flags) && !flags.subnormal then IsZero() && st == ret.(underflow := true, inexact := true)
      else if top > ExpMax(flags) then Overflowed(prec1, flags) && st == NO_STATUS.(overflow := true, inexact := true)
      else
        && InRange(flags, units, place) && expn == top
        && st == ret.(underflow := ret.underflow || (top < ExpMin(flags) && ret.inexact))
    }

    /** __bf_round at a positive precision, once the rounding is decided. */
    method RoundDecided(prec: int, add: bool, prec1: int, flags: Flags, ret: Status,
        ghost units: int) returns (st: Status)
      requires flags.expBits >= 1 && tab.Length >= 1 && IsLimbs(tab[..]) && Normalised(tab[tab.Length - 1]) && prec >= 1
      requires prec1 >= 1 || expn < ExpMax(flags) || OverflowsToInf(flags.mode, sign)
      requires add ==> tab.Length * LIMB_BITS - prec >= 1
      requires units == Units(Val(tab[..]), tab.Length * LIMB_BITS - prec) + if add then 1 else 0
      modifies this, tab
      ensures sign == old(sign) && fresh(tab)
      ensures Settled(prec1, flags, ret, st, RoundedExponent(old(expn), prec, units), units, old(expn) - prec)
    {
      hide Val, Pow, Pow2, B, SameValue, NormalForm, IsLimbs, MpDigit.Normalised, Units, Overflowed;
      Place(prec, add, units);
      st := CheckRange(prec1, flags, ret);
    }

    /**
    What a number of magnitude at least 2^(e - 1) and below 2^e becomes when
    rounded to prec1 bits, its rounded value being units places of 2^(e - prec)
    each; exact tells whether nothing was lost.
    */
    ghost predicate Outcome(prec1: int, flags: Flags, ret: Status, st: Status, e: int, units: int, exact: bool)
      requires flags.expBits >= 1
      reads this, tab
    {
      var prec := RoundPrec(prec1, flags, e);
      if prec <= 0 then
        && st == ret.(underflow := true, inexact := true)
        && (if units == 0 then IsZero() else units == 1 && IsNormal() && Equals(units, e - prec))
      else
        Settled(prec1, flags, ret.(inexact := ret.inexact || flags.mode == RNDF || !exact), st,
                RoundedExponent(e, prec, units), units, e - prec)
    }

    /** __bf_round: rounds a finite non-zero number. */
    method Round(prec1: int, flags: Flags, ret: Status) returns (st: Status, ghost units: int)
      requires flags.expBits >= 1 && tab.Length >= 1 && IsLimbs(tab[..]) && Normalised(tab[tab.Length - 1])
      requires prec1 >= 1 || (flags.radixPoint && (expn < ExpMax(flags) || OverflowsToInf(flags.mode, sign)))
      modifies this, tab
      ensures sign == old(sign) && fresh(tab)
      ensures var prec := RoundPrec(prec1, flags, old(expn));
        && RoundsTo(flags.mode, old(sign), old(Val(tab[..])), old(tab.Length) * LIMB_BITS - prec, units)
        && Outcome(prec1, flags, ret, st, old(expn), units,
                   Unchanged(old(Val(tab[..])), old(tab.Length), old(expn), units, old(expn) - prec))
    {
      hide Val, Pow, Pow2, B, SameValue, NormalForm, IsLimbs, MpDigit.Normalised, RoundsTo, Unchanged, Units, RoundPrec,
        Settled;
      var prec := RoundPrec(prec1, flags, expn);
      var add, inexact;
      add, inexact, units := Decide(prec, flags.mode);
      st := ret.(inexact := ret.inexact || inexact);
      if prec <= 0 {
        RoundBelow(prec, add);
        return st.(underflow := true, inexact := true), units;
      }
      st := RoundDecided(prec, add, prec1, flags, st, units);
    }
  }

  lemma NormalLength(t: seq<nat>)
    ensures NormalForm(t) ==> |t| >= 1
  {}

  predicate OverflowsToInf(mode: Mode, neg: bool) {
    mode == RNDN || mode == RNDNA || mode == RNDA || (mode == RNDD && neg) || (mode == RNDU && !neg)
  }

  /**
  The choice of bf_set_overflow is that of the mode: with an unlimited exponent, a
  number above the largest one of prec bits by more than half a place would be
  rounded up out of the range just when the result is infinite. Faithful rounding
  never leaves the range.
  */
  lemma OverflowsLikeRounding(mode: Mode, neg: bool, x: Cut, prec: nat)
    requires Coherent(x) && x(2 * Pow2(prec) - 1) > 0 && x(2 * Pow2(prec)) < 0
    ensures mode != RNDF ==> (OverflowsToInf(mode, neg) <==> IsRounded(mode, neg, x, Pow2(prec)))
    ensures !OverflowsToInf(RNDF, neg)
  {
    hide Coherent, Pow2;
    var u := Pow2(prec);
    assert x(2 * u + 1) < 0 by { CutFalls(x, 2 * u, 2 * u + 1); }
    assert x(2 * u - 2) > 0 by { if x(2 * u - 2) <= 0 { CutOrder(x, 2 * u - 2, 2 * u - 1); } }
  }

  lemma CutFalls(x: Cut, h: int, k: int)
    requires Coherent(x) && h < k && x(h) <= 0
    ensures x(k) < 0
  {}

  lemma LimbsFor(prec: int)
    requires prec >= 1
    ensures var l := (prec + LIMB_BITS - 1) / LIMB_BITS; l >= 1 && (-prec) % LIMB_BITS == l * LIMB_BITS - prec
    ensures Pow2((-prec) % LIMB_BITS) < B
  {
    hide Pow2, B;
    var l := (prec + LIMB_BITS - 1) / LIMB_BITS;
    DivMod(prec + LIMB_BITS - 1, LIMB_BITS);
    assert l >= 1 by { if l <= 0 { MulMono(l, 0, LIMB_BITS); } }
    DivUnique(-prec, LIMB_BITS, -l, l * LIMB_BITS - prec);
    BitFits((-prec) % LIMB_BITS);
  }

  lemma {:induction false} AllSet(t: seq<nat>)
    requires forall j :: 0 <= j < |t| ==> t[j] == B - 1
    ensures Val(t) == Pow(|t|) - 1
    decreases |t|
  {
    hide Val, Pow, B;
    if t == [] {
      ValEmpty();
      PowZero();
    } else {
      var n := |t| - 1;
      ValHigh(t);
      AllSet(t[..n]);
      PowStep(n);
      MulSub(B, 1, Pow(n));
    }
  }

  /** prec bits set and nothing below them. */
  lemma LargestMantissa(t: seq<nat>, prec: int)
    requires prec >= 1 && |t| == (prec + LIMB_BITS - 1) / LIMB_BITS && |t| >= 1
    requires t[0] == B - Pow2((-prec) % LIMB_BITS) && forall j :: 1 <= j < |t| ==> t[j] == B - 1
    ensures NormalForm(t) && SameValue(Val(t), -(|t| * LIMB_BITS), Pow2(prec) - 1, -prec)
  {
    hide Val, Pow, Pow2, B, SameValue, NormalForm;
    LimbsFor(prec);
    LargestSum(t, Pow2((-prec) % LIMB_BITS));
    LargestValue(Val(t), |t|, prec, (-prec) % LIMB_BITS);
    TopOfLargest(t, prec);
  }

  lemma LargestSum(t: seq<nat>, s: int)
    requires |t| >= 1 && t[0] == B - s && forall j :: 1 <= j < |t| ==> t[j] == B - 1
    ensures Val(t) == Pow(|t|) - s
  {
    hide Val, Pow, B;
    ValLow(t);
    AllSet(t[1..]);
    PowStep(|t| - 1);
    MulSub(Pow(|t| - 1), 1, B);
  }

  lemma LargestValue(v: int, l: nat, prec: int, p: nat)
    requires 0 <= prec && l * LIMB_BITS == prec + p && v == Pow(l) - Pow2(p)
    ensures SameValue(v, -(l * LIMB_BITS), Pow2(prec) - 1, -prec)
  {
    hide Pow, Pow2, SameValue;
    PowBits(l);
    Pow2Add(prec, p);
    MulSub(Pow2(prec), 1, Pow2(p));
    SameScaled(v, -(prec + p), Pow2(prec) - 1, -prec, -(prec + p));
    Pow2Zero();
  }

  lemma TopOfLargest(t: seq<nat>, prec: int)
    requires prec >= 1 && |t| == (prec + LIMB_BITS - 1) / LIMB_BITS && |t| >= 1
    requires t[0] == B - Pow2((-prec) % LIMB_BITS) && forall j :: 1 <= j < |t| ==> t[j] == B - 1
    ensures NormalForm(t)
  {
    hide Pow2, B;
    Base();
    LimbsFor(prec);
    var p := (-prec) % LIMB_BITS;
    Pow2Mono(p, LIMB_BITS - 1);
  }

  lemma NoUnits(t: seq<nat>, prec: int)
    requires prec <= 0 && IsLimbs(t)
    ensures Units(Val(t), |t| * LIMB_BITS - prec) == 0
  {
    hide Val, Pow, Pow2, B, IsLimbs;
    ValBound(t);
    MulNonNeg(|t|, LIMB_BITS);
    AboveAll(Val(t), |t| * LIMB_BITS - prec, |t|);
  }

  lemma HalfLimb(e: int)
    ensures SameValue(B / 2, e, 1, e + LIMB_BITS - 1)
  {
    hide Pow2, SameValue;
    Base();
    SameScaled(B / 2, e, 1, e + LIMB_BITS - 1, e);
    Pow2Zero();
  }
}
