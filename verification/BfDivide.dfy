/** Correctly rounded division (libbf.c: __bf_div). */
module BfDivide {
  import opened Limb
  import opened MpBasic
  import opened MpDigit
  import opened MpDivide
  import opened MpReciprocal
  import opened MpDivNorm
  import opened Newton
  import opened BfBits
  import opened Rounding
  import opened Dyadic
  import opened BfRound
  import opened BfFloat
  import opened BfNormalize
  import opened BfSticky

  /** The number m * 2^t / d. */
  ghost function RatioAt(m: int, d: int, t: int): Cut {
    if t >= 0 then Ratio(m * Pow2(t), d) else Ratio(m, d * Pow2(-t))
  }

  /** m * 2^t / d is at least 2^(e - 1) and below 2^e. */
  ghost predicate RatioExponent(m: int, d: int, t: int, e: int) {
    if e > t then Pow2(e - t - 1) * d <= m < Pow2(e - t) * d else d <= m * Pow2(t - e + 1) && m * Pow2(t - e) < d
  }

  lemma RatioAtScaled(mode: Mode, neg: bool, m: int, d: int, w: nat, k: nat, r: int)
    requires IsRounded(mode, neg, Ratio(m * Pow2(w), d * Pow2(k)), r)
    ensures IsRounded(mode, neg, RatioAt(m, d, w - k), r)
  {
    hide *;
    var x, y := Ratio(m * Pow2(w), d * Pow2(k)), RatioAt(m, d, w - k);
    forall h ensures x(h) == y(h) { RatioAtSame(m, d, w, k, h); }
    RoundedAlike(mode, neg, x, y, r);
  }

  lemma RatioAtSame(m: int, d: int, w: nat, k: nat, h: int)
    ensures Ratio(m * Pow2(w), d * Pow2(k))(h) == RatioAt(m, d, w - k)(h)
  {
    hide Pow2, Ratio;
    if w >= k {
      PowerSplit(w, k);
      FactorOut(m, Pow2(w - k), Pow2(k), Pow2(w));
      RatioScaled(m * Pow2(w - k), d, Pow2(k), h);
    } else {
      PowerSplit(k, w);
      FactorOut(d, Pow2(k - w), Pow2(w), Pow2(k));
      RatioScaled(m, d * Pow2(k - w), Pow2(w), h);
    }
  }

  lemma PowerSplit(w: nat, k: nat)
    requires k <= w
    ensures Pow2(w) == Pow2(w - k) * Pow2(k)
  {
    hide Pow2;
    Pow2Add(w - k, k);
  }

  lemma FactorOut(m: int, x: int, y: int, z: int)
    requires z == x * y
    ensures m * z == (m * x) * y
  {
    MulAssoc(m, x, y);
  }

  lemma RatioExponentScaled(m: int, d: int, w: nat, t: int, e: int)
    requires 0 < d && RatioExponent(m * Pow2(w), d, t - w, e) && e > t - w
    ensures RatioExponent(m, d, t, e)
  {
    hide Pow2;
    var u := e - t;
    if u > 0 {
      Pow2Add(u - 1, w);
      Pow2Add(u, w);
      Shuffle(Pow2(u - 1), Pow2(w), d);
      Shuffle(Pow2(u), Pow2(w), d);
      Cancel(Pow2(u - 1) * d, m, Pow2(w));
      CancelStrict(m, Pow2(u) * d, Pow2(w));
    } else {
      Pow2Add(1 - u, u + w - 1);
      Pow2Add(-u, u + w);
      MulAssoc(m, Pow2(1 - u), Pow2(u + w - 1));
      MulAssoc(m, Pow2(-u), Pow2(u + w));
      Cancel(d, m * Pow2(1 - u), Pow2(u + w - 1));
      CancelStrict(m * Pow2(-u), d, Pow2(u + w));
    }
  }

  /** The sticky integer part has the exponent of the exact quotient. */
  lemma StickyExponent(a: int, d: int, q: int, rem: int, f: int, e: int)
    requires 0 < d && a == q * d + rem && 0 <= rem < d && 2 <= q && HasExponent(Sticky(q, rem != 0), f, e)
    ensures RatioExponent(a, d, f, e) && HasExponent(q, f, e)
  {
    hide Pow2;
    var n := e - f;
    StickySameBits(q, rem != 0, n);
    MulMono(Pow2(n - 1), q, d);
    MulMono(q + 1, Pow2(n), d);
    MulAdd(q, 1, d);
  }

  lemma StickySameBits(q: int, lost: bool, n: nat)
    requires n >= 1 && 2 <= q && Pow2(n - 1) <= Sticky(q, lost) < Pow2(n)
    ensures Pow2(n - 1) <= q < Pow2(n)
  {
    hide Pow2;
    if n >= 2 {
      Pow2Step(n - 2);
    } else {
      Pow2Zero();
      Pow2Step(0);
    }
  }

  /** r.tab[0] |= 1 */
  method SetLowBit(t: array<nat>)
    requires t.Length >= 1 && IsLimbs(t[..])
    modifies t
    ensures IsLimbs(t[..]) && Val(t[..]) == Sticky(old(Val(t[..])), true)
  {
    hide Val, Pow, B;
    Base();
    ghost var x: seq<nat> := t[..];
    ValLow(x);
    if t[0] % 2 == 0 { t[0] := t[0] + 1; }
    ghost var y: seq<nat> := t[..];
    ValLow(y);
    assert y[1..] == x[1..];
    LowestBit(x[0], B, Val(x[1..]));
  }

  lemma LowestBit(x: int, b: int, rest: int)
    requires b % 2 == 0
    ensures (x + b * rest) % 2 == x % 2
  {
    var m := b / 2;
    assert b == 2 * m;
    MulAssoc(2, m, rest);
  }

  /** The limbs of a below zeros, na in all. */
  method Extend(a: array<nat>, na: nat) returns (t: array<nat>)
    requires a.Length <= na && IsLimbs(a[..])
    ensures fresh(t) && t.Length == na && IsLimbs(t[..]) && Val(t[..]) == Val(a[..]) * Pow(na - a.Length)
    ensures a.Length >= 1 ==> t[na - 1] == a[a.Length - 1]
  {
    hide Val, Pow, B, IsLimbs;
    var d := na - a.Length;
    t := new nat[na];
    Clear(t, 0, d);
    ghost var z: seq<nat> := t[0..0 + d];
    Copy(t, d, a, 0, a.Length);
    assert a[0..0 + a.Length] == a[..];
    assert t[..] == z + a[..];
    ValAppend(z, a[..]);
    LimbsAppend(z, a[..]);
    if a.Length >= 1 { assert t[..][na - 1] == a[..][a.Length - 1]; }
  }

  /** The integer kernel of __bf_div: n + 1 limbs of quotient and a sticky bit. */
  method QuotientLimbs(a: array<nat>, b: array<nat>, n: nat) returns (t: array<nat>, ghost q: nat, ghost rem: nat)
    requires 1 <= b.Length && IsLimbs(a[..]) && IsLimbs(b[..]) && Normalised(b[b.Length - 1]) && a.Length <= n
    ensures fresh(t) && t.Length == n + 1 && IsLimbs(t[..]) && Val(t[..]) == Sticky(q, rem != 0)
    ensures Val(a[..]) * Pow(n + b.Length - a.Length) == q * Val(b[..]) + rem && rem < Val(b[..])
  {
    hide Val, Pow, B, IsLimbs, Sticky;
    var nb := b.Length;
    var u := Extend(a, n + nb);
    t := new nat[n + 1];
    assert u[0..0 + (n + nb)] == u[..] && b[0..0 + nb] == b[..];
    DivNorm(t, u, 0, n + nb, b, 0, nb);
    assert t[..n + nb - nb + 1] == t[..] == t[0..0 + (n + nb - nb + 1)];
    q, rem := Val(t[..]), Val(u[0..0 + nb]);
    var lost := ScanNonZero(u, 0, nb);
    NotSticky(q);
    if lost { SetLowBit(t); }
  }

  lemma NotSticky(q: int)
    ensures Sticky(q, false) == q
  {}

  /** m * 2^t / d is the whole number u. */
  ghost predicate RatioIs(m: int, d: int, t: int, u: int) {
    if t >= 0 then m * Pow2(t) == u * d else m == u * (d * Pow2(-t))
  }

  /** Nothing is lost exactly when the quotient is a multiple of the place. */
  lemma StickyLossless(a: int, d: int, q: int, rem: int, k: nat, u: int)
    requires 0 < d && a == q * d + rem && 0 <= rem < d && k >= 2
    ensures u * Pow2(k) == Sticky(q, rem != 0) <==> a == u * (d * Pow2(k))
  {
    hide Pow2;
    EvenMultiple(u, k);
    Shuffle(u, d, Pow2(k));
    if a == u * (d * Pow2(k)) {
      DivUnique(a, d, u * Pow2(k), 0);
      DivUnique(a, d, q, rem);
    }
  }

  lemma RatioIsScaled(m: int, d: int, w: nat, k: nat, u: int)
    ensures m * Pow2(w) == u * (d * Pow2(k)) <==> RatioIs(m, d, w - k, u)
  {
    hide Pow2;
    if w >= k {
      PowerSplit(w, k);
      FactorOut(m, Pow2(w - k), Pow2(k), Pow2(w));
      CommonFactor(m * Pow2(w), m * Pow2(w - k), u, d * Pow2(k), d, Pow2(k));
    } else {
      PowerSplit(k, w);
      FactorOut(d, Pow2(k - w), Pow2(w), Pow2(k));
      CommonFactor(m * Pow2(w), m, u, d * Pow2(k), d * Pow2(k - w), Pow2(w));
    }
  }

  lemma CommonFactor(n: int, m: int, u: int, c: int, d: int, y: int)
    requires 0 < y && n == m * y && c == d * y
    ensures n == u * c <==> m == u * d
  {
    MulAssoc(u, d, y);
    ScaleBoth(m, u * d, y);
  }

  /** The quotient has at least n limbs worth of bits. */
  lemma QuotientBits(a: nat, d: nat, q: nat, rem: nat, n: nat, nb: nat)
    requires n >= 1 && a == q * d + rem && rem < d < Pow(nb) && Pow(n + nb) <= 2 * a
    ensures Pow2(n * LIMB_BITS - 1) <= q && q >= 2
  {
    hide Pow, Pow2, B;
    PowAdd(n, nb);
    PowBits(n);
    MulMono(1, n, LIMB_BITS);
    Pow2Step(n * LIMB_BITS - 1);
    Pow2Mono(1, n * LIMB_BITS - 1);
    Pow2Values();
    MulAdd(q, 1, d);
    MulMono(d, Pow(nb), q + 1);
    var h := Pow2(n * LIMB_BITS - 1);
    MulAssoc(2, h, Pow(nb));
    CancelStrict(h, q + 1, Pow(nb));
  }

  lemma EnoughBits(q: int, f: int, e: int, n: nat, prec: int)
    requires n >= 1 && HasExponent(q, f, e) && prec + 2 <= n * LIMB_BITS
    requires Pow2(n * LIMB_BITS - 1) <= q
    ensures e - f >= prec + 2
  {
    hide Pow2;
    MulMono(1, n, LIMB_BITS);
    if e - f <= n * LIMB_BITS - 1 { Pow2Mono(e - f, n * LIMB_BITS - 1); }
  }

  lemma LimbsEnough(prec: int)
    requires prec >= 1
    ensures var l := (prec + 2 + LIMB_BITS - 1) / LIMB_BITS; l >= 1 && prec + 2 <= l * LIMB_BITS
  {
    var l := (prec + 2 + LIMB_BITS - 1) / LIMB_BITS;
    DivMod(prec + 2 + LIMB_BITS - 1, LIMB_BITS);
    if l <= 0 { MulMono(l, 0, LIMB_BITS); }
  }

  lemma ExponentAbove(m: int, f: int, e: int)
    requires HasExponent(m, f, e)
    ensures e > f
  {}

  /** A finite non-zero operand. */
  ghost predicate Operand(a: BigFloat)
    reads a, a.tab
  {
    a.IsNormal() && EXP_ZERO < a.expn < EXP_INF
  }

  ghost predicate Valid(a: BigFloat)
    reads a, a.tab
  {
    a.IsZero() || a.IsInf() || a.IsNaN() || Operand(a)
  }

  /** The exact quotient rounded once: what __bf_div promises. */
  ghost predicate QuotientRounded(mode: Mode, neg: bool, m: int, d: int, t: int, e: int, prec: int, units: int) {
    RatioExponent(m, d, t, e) && IsRounded(mode, neg, RatioAt(m, d, t - (e - prec)), units)
  }

  /** From the sticky kernel to the exact quotient: w bits were appended to m, k bits lie below the last place. */
  lemma QuotientCorrect(mode: Mode, neg: bool, m: int, d: int, w: nat, q: int, rem: int, f: int, e: int, prec: int,
      units: int)
    requires 0 < d && m * Pow2(w) == q * d + rem && 0 <= rem < d && 2 <= q && e - f >= prec + 2
    requires HasExponent(Sticky(q, rem != 0), f, e) && RoundsTo(mode, neg, Sticky(q, rem != 0), e - prec - f, units)
    ensures QuotientRounded(mode, neg, m, d, f + w, e, prec, units)
    ensures SameValue(units, e - prec, Sticky(q, rem != 0), f) <==> RatioIs(m, d, f + w - (e - prec), units)
  {
    hide Pow2, Sticky, IsRounded, RoundsTo, HasExponent, RatioAt, RatioIs, SameValue, RatioExponent;
    var k, a := e - prec - f, m * Pow2(w);
    StickyExponent(a, d, q, rem, f, e);
    assert e > f by { ExponentAbove(q, f, e); }
    RatioExponentScaled(m, d, w, f + w, e);
    StickyQuotient(mode, neg, a, d, q, rem, k, units);
    RatioAtScaled(mode, neg, m, d, w, k, units);
    SameScaled(units, e - prec, Sticky(q, rem != 0), f, f);
    Pow2Zero();
    StickyLossless(a, d, q, rem, k, units);
    RatioIsScaled(m, d, w, k, units);
    assert f + w - (e - prec) == w - k;
  }

  /** The scale of the operands and of the quotient kernel agree. */
  lemma QuotientScale(ea: int, eb: int, la: nat, lb: nat, n: nat)
    requires la <= n + lb
    ensures var w := (n + lb - la) * LIMB_BITS;
      && w >= 0 && Pow(n + lb - la) == Pow2(w)
      && (ea - eb + LIMB_BITS - (n + 1) * LIMB_BITS) + w == (ea - la * LIMB_BITS) - (eb - lb * LIMB_BITS)
  {
    hide Pow, Pow2;
    PowBits(n + lb - la);
    MulNonNeg(n + lb - la, LIMB_BITS);
    MulSub(n + lb, la, LIMB_BITS);
    MulAdd(n, lb, LIMB_BITS);
    MulAdd(n, 1, LIMB_BITS);
  }

  lemma NormalParts(t: seq<nat>)
    requires NormalForm(t)
    ensures |t| >= 1 && IsLimbs(t) && Normalised(t[|t| - 1]) && 0 < Val(t) < Pow(|t|) <= 2 * Val(t)
  {
    hide Val, Pow, B;
    NormalisedValue(t);
  }

  /** RoundPrec never asks for more than the given precision away from the radix point. */
  lemma PrecAtMost(prec: int, flags: Flags, e: int)
    requires flags.expBits >= 1 && !flags.radixPoint
    ensures RoundPrec(prec, flags, e) <= prec
  {
    hide Pow2;
  }

  /** __bf_div for finite non-zero operands. */
  method DivFinite(r: BigFloat, a: BigFloat, b: BigFloat, sign: bool, prec: int, flags: Flags) returns (st: Status,
      ghost e: int, ghost units: int)
    requires r != a && r != b && a.IsNormal() && b.IsNormal() && prec >= 1 && flags.expBits >= 1 && !flags.radixPoint
    modifies r
    ensures r.sign == sign && fresh(r.tab)
    ensures var m, d, p := Val(a.tab[..]), Val(b.tab[..]), RoundPrec(prec, flags, e);
      var t := (a.expn - a.tab.Length * LIMB_BITS) - (b.expn - b.tab.Length * LIMB_BITS);
      && QuotientRounded(flags.mode, sign, m, d, t, e, p, units)
      && r.Outcome(prec, flags, NO_STATUS, st, e, units, RatioIs(m, d, t - (e - p), units))
  {
    hide Val, Pow, Pow2, B, IsLimbs, HasExponent, RoundsTo, MpDigit.Normalised, BigFloat.Outcome, SameValue, RoundPrec,
      Sticky, QuotientRounded, RatioIs, NormalForm;
    var la, nb := a.tab.Length, b.tab.Length;
    NormalParts(a.tab[..]);
    NormalParts(b.tab[..]);
    assert b.tab[..][nb - 1] == b.tab[nb - 1];
    var precl := (prec + 2 + LIMB_BITS - 1) / LIMB_BITS;
    LimbsEnough(prec);
    var n := if la > precl then la else precl;
    var q;
    ghost var quo, rem;
    q, quo, rem := QuotientLimbs(a.tab, b.tab, n);
    ghost var m, d, w := Val(a.tab[..]), Val(b.tab[..]), (n + nb - la) * LIMB_BITS;
    QuotientScale(a.expn, b.expn, la, nb, n);
    DividendBig(m, la, n + nb);
    QuotientBits(m * Pow(n + nb - la), d, quo, rem, n, nb);
    r.tab, r.expn, r.sign := q, a.expn - b.expn + LIMB_BITS, sign;
    StickyPositive(quo, rem != 0);
    st, e, units := NormalizeAndRound(r, prec, flags);
    ghost var f := a.expn - b.expn + LIMB_BITS - (n + 1) * LIMB_BITS;
    StickyExponent(m * Pow(n + nb - la), d, quo, rem, f, e);
    MulMono(precl, n, LIMB_BITS);
    EnoughBits(quo, f, e, n, prec);
    PrecAtMost(prec, flags, e);
    QuotientCorrect(flags.mode, sign, m, d, w, quo, rem, f, e, RoundPrec(prec, flags, e), units);
  }

  lemma DividendBig(m: int, la: nat, na: nat)
    requires la <= na && Pow(la) <= 2 * m
    ensures Pow(na) <= 2 * (m * Pow(na - la))
  {
    hide Pow, B;
    PowAdd(la, na - la);
    MulMono(Pow(la), 2 * m, Pow(na - la));
    MulAssoc(2, m, Pow(na - la));
  }

  lemma StickyPositive(q: int, lost: bool)
    requires 0 < q
    ensures 0 < Sticky(q, lost)
  {}

  const INVALID: Status := Status(true, false, false, false, false)
  const DIVIDE_ZERO: Status := Status(false, true, false, false, false)

  lemma Exponents()
    ensures EXP_ZERO < EXP_INF < EXP_NAN
  {
    hide Pow2;
    Base();
  }

  /** __bf_div: the special values, and otherwise the exact quotient rounded once. */
  method Div(r: BigFloat, a: BigFloat, b: BigFloat, prec: int, flags: Flags) returns (st: Status, ghost e: int,
      ghost units: int)
    requires r != a && r != b && Valid(a) && Valid(b) && prec >= 1 && flags.expBits >= 1 && !flags.radixPoint
    modifies r
    ensures fresh(r.tab)
    ensures a.IsNaN() || b.IsNaN() ==> r.IsNaN() && st == NO_STATUS
    ensures (a.IsInf() && b.IsInf()) || (a.IsZero() && b.IsZero()) ==> r.IsNaN() && st == NO_STATUS.(invalid := true)
    ensures a.IsInf() && (b.IsZero() || Operand(b)) ==> r.IsInf() && r.sign == (a.sign != b.sign) && st == NO_STATUS
    ensures (a.IsZero() && (b.IsInf() || Operand(b))) || (Operand(a) && b.IsInf()) ==>
      r.IsZero() && r.sign == (a.sign != b.sign) && st == NO_STATUS
    ensures Operand(a) && b.IsZero() ==>
      r.IsInf() && r.sign == (a.sign != b.sign) && st == NO_STATUS.(divideZero := true)
    ensures Operand(a) && Operand(b) ==>
      var m, d, p := Val(a.tab[..]), Val(b.tab[..]), RoundPrec(prec, flags, e);
      var t := (a.expn - a.tab.Length * LIMB_BITS) - (b.expn - b.tab.Length * LIMB_BITS);
      && r.sign == (a.sign != b.sign)
      && QuotientRounded(flags.mode, r.sign, m, d, t, e, p, units)
      && r.Outcome(prec, flags, NO_STATUS, st, e, units, RatioIs(m, d, t - (e - p), units))
  {
    hide Val, Pow, Pow2, B, BigFloat.Outcome, RoundPrec, QuotientRounded, RatioIs, NormalForm, EXP_ZERO, EXP_INF,
      EXP_NAN;
    Exponents();
    NormalLength(a.tab[..]);
    NormalLength(b.tab[..]);
    var sign := a.sign != b.sign;
    st, e, units := NO_STATUS, 0, 0;
    if a.expn >= EXP_INF || b.expn >= EXP_INF {
      if a.expn == EXP_NAN || b.expn == EXP_NAN {
        r.SetNaN();
      } else if a.expn == EXP_INF && b.expn == EXP_INF {
        r.SetNaN();
        st := INVALID;
      } else if a.expn == EXP_INF {
        r.SetInf(sign);
      } else {
        r.SetZero(sign);
      }
    } else if a.expn == EXP_ZERO {
      if b.expn == EXP_ZERO {
        r.SetNaN();
        st := INVALID;
      } else {
        r.SetZero(sign);
      }
    } else if b.expn == EXP_ZERO {
      r.SetInf(sign);
      st := DIVIDE_ZERO;
    } else {
      st, e, units := DivFinite(r, a, b, sign, prec, flags);
    }
  }
}
