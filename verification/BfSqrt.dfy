/** Correctly rounded square root (libbf.c: bf_sqrt). */
module BfSqrt {
  import opened Limb
  import opened MpBasic
  import opened MpDigit
  import opened MpDivide
  import opened MpReciprocal
  import opened MpLarge
  import opened MpSqrt
  import opened MpKaratsuba
  import opened Newton
  import opened BfBits
  import opened Rounding
  import opened Dyadic
  import opened BfRound
  import opened BfFloat
  import opened BfNormalize
  import opened BfSticky
  import opened BfDivide

  /** The square root of m * 2^t. */
  ghost function RootAt(m: int, t: int): Cut {
    if t >= 0 then RootOf(m * Pow2(t), 1) else RootOf(m, Pow2(-t))
  }

  /** The square root of m * 2^t is the whole number u. */
  ghost predicate RootIs(m: int, t: int, u: int) {
    if t >= 0 then m * Pow2(t) == u * u else m == (u * u) * Pow2(-t)
  }

  /** The square root of m * 2^f is at least 2^(e - 1) and below 2^e. */
  ghost predicate RootExponent(m: int, f: int, e: int) {
    HasExponent(m, f, 2 * e) || HasExponent(m, f, 2 * e - 1)
  }

  ghost function Num(m: int, g: int): int {
    if g >= 0 then m * Pow2(g) else m
  }

  ghost function Den(g: int): int {
    if g >= 0 then 1 else Pow2(-g)
  }

  lemma RootScaled(num: int, den: int, c: int, h: int)
    requires 0 < c
    ensures RootOf(num * c, den * c)(h) == RootOf(num, den)(h)
  {
    if h >= 0 {
      MulAssoc(4, num, c);
      MulAssoc(h * h, den, c);
      MulSub(4 * num, (h * h) * den, c);
      SignScaled(4 * num - (h * h) * den, c);
    }
  }

  lemma RootAtSame(m: int, g: int, k: nat, h: int)
    ensures RootOf(Num(m, g), Den(g) * Pow2(k))(h) == RootAt(m, g - k)(h)
  {
    hide Pow2, RootOf;
    if g < 0 {
      Pow2Add(-g, k);
    } else if g >= k {
      PowerSplit(g, k);
      FactorOut(m, Pow2(g - k), Pow2(k), Pow2(g));
      RootScaled(m * Pow2(g - k), 1, Pow2(k), h);
    } else {
      PowerSplit(k, g);
      RootScaled(m, Pow2(k - g), Pow2(g), h);
    }
  }

  lemma RootAtScaled(mode: Mode, neg: bool, m: int, g: int, k: nat, r: int)
    requires IsRounded(mode, neg, RootOf(Num(m, g), Den(g) * Pow2(k)), r)
    ensures IsRounded(mode, neg, RootAt(m, g - k), r)
  {
    hide *;
    var x, y := RootOf(Num(m, g), Den(g) * Pow2(k)), RootAt(m, g - k);
    forall h ensures x(h) == y(h) { RootAtSame(m, g, k, h); }
    RoundedAlike(mode, neg, x, y, r);
  }

  lemma RootIsScaled(m: int, g: int, k: nat, u: int)
    ensures Num(m, g) == (u * u) * (Den(g) * Pow2(k)) <==> RootIs(m, g - k, u)
  {
    hide Pow2;
    if g < 0 {
      Pow2Add(-g, k);
    } else if g >= k {
      PowerSplit(g, k);
      FactorOut(m, Pow2(g - k), Pow2(k), Pow2(g));
      CommonFactor(m * Pow2(g), m * Pow2(g - k), u * u, Pow2(k), 1, Pow2(k));
    } else {
      PowerSplit(k, g);
      CommonFactor(m * Pow2(g), m, u * u, Pow2(k), Pow2(k - g), Pow2(g));
    }
  }

  /** Nothing is lost exactly when the root is a multiple of the place. */
  lemma StickyRootLossless(a: int, d: int, s: int, lost: bool, k: nat, u: int)
    requires 0 < d && RootPart(a, d, s, lost) && k >= 2 && 0 <= u
    ensures u * Pow2(k) == Sticky(s, lost) <==> a == (u * u) * (d * Pow2(2 * k))
  {
    hide Pow2, RootPart;
    EvenMultiple(u, k);
    var t := u * Pow2(k);
    MulNonNeg(u, Pow2(k));
    SquarePlaces(u, k, d);
    RootCompares(a, d, s, lost, t);
  }

  lemma SquarePlaces(u: int, k: nat, d: int)
    ensures (u * u) * (d * Pow2(2 * k)) == ((u * Pow2(k)) * (u * Pow2(k))) * d
  {
    hide Pow2;
    Pow2Add(k, k);
    assert k + k == 2 * k;
    SquaresTogether(u, Pow2(k));
    MulComm(d, Pow2(2 * k));
    MulAssoc(u * u, Pow2(2 * k), d);
  }

  /** The integer part of the root of num / den from the root of the integer part. */
  lemma RootOfFloor(num: int, den: int, a: int, lost: bool, s: int, r: int)
    requires 0 < den && a * den <= num < (a + 1) * den && (lost <==> num != a * den) && Root(a, s, r)
    ensures RootPart(num, den, s, lost || r != 0)
  {
    RootIsFloor(a, s, r);
    MulMono(s * s, a, den);
    MulMono(a + 1, (s + 1) * (s + 1), den);
    if r != 0 { MulStrict(s * s, a, den); }
  }

  // ----- the integer kernel -----

  /** a is the integer part of m * 2^g. */
  ghost predicate FloorOf(m: int, g: int, a: int, lost: bool) {
    a * Den(g) <= Num(m, g) < (a + 1) * Den(g) && (lost <==> Num(m, g) != a * Den(g))
  }

  lemma FloorShift(m: int, g: int, a0: int, lost: bool, a1: int, bit: int)
    requires FloorOf(m, g, a0, lost) && a0 == a1 * 2 + bit && 0 <= bit <= 1
    ensures FloorOf(m, g - 1, a1, lost || bit != 0)
  {
    hide Pow2;
    if g >= 1 {
      Pow2Step(g - 1);
      Shuffle(m, 2, Pow2(g - 1));
    } else {
      Pow2Step(-g);
      Pow2Zero();
      var d := Pow2(-g);
      MulAdd(a1 * 2, bit, d);
      Shuffle(a1, 2, d);
      MulAdd(a0, 1, d);
      MulAdd(a1, 1, 2 * d);
      if bit == 0 { assert bit * d == 0; } else { assert bit * d == d; }
    }
  }

  /** The n highest limbs of a, with zeros below when a is shorter; tells whether anything but zeros was left out. */
  method TopLimbs(a: array<nat>, n: nat) returns (t: array<nat>, lost: bool)
    requires IsLimbs(a[..]) && a.Length >= 1 && n >= 1
    ensures fresh(t) && t.Length == n && IsLimbs(t[..]) && t[n - 1] == a[a.Length - 1]
    ensures FloorOf(Val(a[..]), (n - a.Length) * LIMB_BITS, Val(t[..]), lost)
  {
    hide Val, Pow, Pow2, B, IsLimbs, FloorOf;
    var la := a.Length;
    if la <= n {
      t := Extend(a, n);
      lost := false;
      FloorExact(Val(a[..]), n - la);
    } else {
      t := new nat[n];
      Copy(t, 0, a, la - n, n);
      ghost var x: seq<nat> := a[..];
      assert t[..] == t[0..0 + n] == x[la - n..la] == x[la - n..];
      LimbsSlice(x, la - n, la);
      LimbsSlice(x, 0, la - n);
      assert x[0..la - n] == x[..la - n] == a[0..0 + (la - n)];
      lost := ScanNonZero(a, 0, la - n);
      FloorTop(x, la - n, lost);
      MulSub(n, la, LIMB_BITS);
    }
  }

  lemma FloorExact(m: int, k: nat)
    ensures FloorOf(m, k * LIMB_BITS, m * Pow(k), false)
  {
    hide Pow, Pow2;
    PowBits(k);
    MulNonNeg(k, LIMB_BITS);
  }

  lemma FloorTop(x: seq<nat>, k: nat, lost: bool)
    requires 1 <= k <= |x| && IsLimbs(x[..k]) && (lost <==> Val(x[..k]) != 0)
    ensures FloorOf(Val(x), -(k * LIMB_BITS), Val(x[k..]), lost)
  {
    hide Val, Pow, Pow2, B, IsLimbs;
    ValSplit(x, k);
    ValBound(x[..k]);
    PowBits(k);
    MulPos(k, LIMB_BITS);
    MulAdd(Val(x[k..]), 1, Pow(k));
  }

  /** A value of at least B^n/4 has at least a quarter in its top limb. */
  lemma TopQuarter(s: seq<nat>)
    requires |s| >= 1 && IsLimbs(s) && Pow(|s|) <= 4 * Val(s)
    ensures B <= 4 * s[|s| - 1]
  {
    hide Val, Pow, B;
    var n := |s| - 1;
    BaseFour();
    ValHigh(s);
    ValBound(s[..n]);
    PowStep(n);
    QuarterTop(s[n], Val(s[..n]), Pow(n), B);
  }

  lemma BaseFour()
    ensures B % 4 == 0 && B > 0
  {
    hide Pow2;
    Base();
    Pow2Step(LIMB_BITS - 2);
  }

  lemma QuarterTop(top: int, low: int, p: int, base: int)
    requires base * p <= 4 * (low + top * p) && low < p && 0 < p && base % 4 == 0
    ensures base <= 4 * top
  {
    if 4 * top <= base - 4 {
      MulMono(4 * top, base - 4, p);
      MulSub(base, 4, p);
      MulAssoc(4, top, p);
    }
  }

  lemma HalfIsQuarter(a0: int, a1: int, bit: int, p: int)
    requires p <= 2 * a0 && a0 == a1 * 2 + bit && 0 <= bit <= 1 && p % 4 == 0
    ensures p <= 4 * a1
  {}

  lemma PowFour(n: nat)
    requires n >= 1
    ensures Pow(n) % 4 == 0 && Pow(n) % 2 == 0
  {
    hide Pow, B;
    BaseFour();
    PowStep(n - 1);
    var m := B / 4;
    assert B == 4 * m;
    MulAssoc(4, m, Pow(n - 1));
  }

  /** The integer kernel of bf_sqrt: n limbs of root and a sticky bit, for the root of m * 2^g. */
  method RootLimbs(a: array<nat>, odd: bool, n: nat) returns (t: array<nat>, ghost s: nat, ghost lost: bool)
    requires IsLimbs(a[..]) && a.Length >= 1 && Normalised(a[a.Length - 1]) && n >= 1
    ensures fresh(t) && t.Length == n && IsLimbs(t[..]) && Normalised(t[n - 1]) && Val(t[..]) == Sticky(s, lost)
    ensures var g := (2 * n - a.Length) * LIMB_BITS - (if odd then 1 else 0);
      RootPart(Num(Val(a[..]), g), Den(g), s, lost)
  {
    hide Val, Pow, Pow2, B, IsLimbs, FloorOf, Sticky, RootPart, Root, Num, Den, MpDigit.Normalised;
    Base();
    var u, left := TopLimbs(a, 2 * n);
    ghost var m, g0 := Val(a[..]), (2 * n - a.Length) * LIMB_BITS;
    assert u[..][2 * n - 1] == u[2 * n - 1];
    NormalisedValue(u[..]);
    PowFour(2 * n);
    ghost var a0 := Val(u[..]);
    var bit := 0;
    assert u[0..0 + 2 * n] == u[..];
    if odd {
      bit := ShiftOne(u);
      FloorShift(m, g0, a0, left, Val(u[..]), bit);
      HalfIsQuarter(a0, Val(u[..]), bit, Pow(2 * n));
    }
    ghost var a1, g := Val(u[..]), g0 - (if odd then 1 else 0);
    TopQuarter(u[..]);
    ValBound(u[..]);
    assert u[..][2 * n - 1] == u[2 * n - 1] && u[..2 * n] == u[..] == u[0..0 + 2 * n];
    t := new nat[n];
    SqrtRem(t, u, n);
    assert t[..n] == t[..] == t[0..0 + n] && u[..n + 1] == u[0..0 + (n + 1)];
    s := Val(t[..]);
    ghost var rem := Val(u[..n + 1]);
    KernelRoot(m, g, a1, left || bit != 0, s, rem);
    var rest := ScanNonZero(u, 0, n + 1);
    lost := (left || bit != 0) || rest;
    PowAdd(n, n);
    assert n + n == 2 * n;
    PowFour(n);
    RootTop(t[..], a1, rem, Pow(n));
    NotSticky(s);
    if bit != 0 || rest || left {
      SetLowBit(t);
      StickyMore(s);
      TopNormalised(t[..]);
      assert t[..][n - 1] == t[n - 1];
    }
  }

  lemma StickyMore(s: int)
    ensures s <= Sticky(s, true)
  {}

  /** mp_shr by one bit in place. */
  method ShiftOne(u: array<nat>) returns (bit: nat)
    requires IsLimbs(u[..])
    modifies u
    ensures IsLimbs(u[..]) && bit <= 1 && old(Val(u[..])) == Val(u[..]) * 2 + bit
  {
    hide Val, Pow, Pow2, B, IsLimbs;
    Base();
    assert u[0..0 + u.Length] == u[..];
    assert Pow2(1) == 2 by { Pow2Values(); }
    bit := Shr(u, 0, u, 0, u.Length, 1, 0);
    assert u[0..0 + u.Length] == u[..];
  }

  lemma KernelRoot(m: int, g: int, a: int, lost: bool, s: int, r: int)
    requires FloorOf(m, g, a, lost) && Root(a, s, r)
    ensures RootPart(Num(m, g), Den(g), s, lost || r != 0)
  {
    hide Pow2, Root, RootPart;
    RootOfFloor(Num(m, g), Den(g), a, lost, s, r);
  }

  /** The root fills its n limbs. */
  lemma RootTop(t: seq<nat>, a: int, r: int, p: int)
    requires |t| >= 1 && IsLimbs(t) && Root(a, Val(t), r) && p == Pow(|t|) && p % 2 == 0 && p * p <= 4 * a < 4 * (p * p)
    ensures Normalised(t[|t| - 1]) && p <= 2 * Val(t)
  {
    hide *;
    RootNormalised(a, Val(t), r, p);
    TopNormalised(t);
  }

  // ----- bf_sqrt -----

  lemma RoundedNonNegative(mode: Mode, neg: bool, m: int, d: int, r: int)
    requires 0 <= m && 0 < d && IsRounded(mode, neg, Ratio(m, d), r)
    ensures 0 <= r
  {
    if r < 0 {
      MulMono(2 * r + 2, 0, d);
      MulMono(2 * r + 1, -1, d);
      MulMono(2 * r, -2, d);
    }
  }

  lemma RootLimbsEnough(prec: int)
    requires prec >= 1
    ensures var n := (2 * (prec + 2) + 2 * LIMB_BITS - 1) / (2 * LIMB_BITS); n >= 1 && prec + 2 <= n * LIMB_BITS
  {
    var d := 2 * LIMB_BITS;
    var x := 2 * (prec + 2) + d - 1;
    var n := x / d;
    DivMod(x, d);
    if n <= 0 { MulMono(n, 0, d); }
    Shuffle(n, 2, LIMB_BITS);
  }

  /** A number in normal form has the exponent that it says. */
  lemma NormalExponent(t: seq<nat>, e: int)
    requires NormalForm(t)
    ensures HasExponent(Val(t), e - |t| * LIMB_BITS, e)
  {
    hide Val, Pow, Pow2, B, NormalForm;
    NormalParts(t);
    Pow2Zero();
    ExponentOf(Val(t), |t|, 0, e);
  }

  /** The exact square root of m * 2^f rounded once: what bf_sqrt promises. */
  ghost predicate RootRounded(mode: Mode, m: int, f: int, e: int, prec: int, units: int) {
    RootExponent(m, f, e) && IsRounded(mode, false, RootAt(m, f - 2 * (e - prec)), units)
  }

  lemma RootCorrect(mode: Mode, m: int, g: int, s: int, lost: bool, k: nat, f: int, e: int, prec: int, units: int)
    requires RootPart(Num(m, g), Den(g), s, lost) && RoundsTo(mode, false, Sticky(s, lost), k, units) && k >= 2
    requires g - 2 * k == f - 2 * (e - prec)
    ensures IsRounded(mode, false, RootAt(m, f - 2 * (e - prec)), units)
    ensures units * Pow2(k) == Sticky(s, lost) <==> RootIs(m, f - 2 * (e - prec), units)
  {
    hide Pow2, Sticky, IsRounded, RootPart, RootAt, RootIs, Num, Ratio, RootOf;
    assert 0 < Den(g) by { hide Pow2; }
    StickyAtLeast(Num(m, g), Den(g), s, lost);
    StickyRoot(mode, false, Num(m, g), Den(g), s, lost, k, units);
    RoundedNonNegative(mode, false, Sticky(s, lost), Pow2(k), units);
    RootAtScaled(mode, false, m, g, 2 * k, units);
    StickyRootLossless(Num(m, g), Den(g), s, lost, k, units);
    RootIsScaled(m, g, 2 * k, units);
  }

  lemma RootScale(ea: int, la: nat, n: nat, p: int)
    ensures var e := (ea + 1) / 2; var g := (2 * n - la) * LIMB_BITS - (if ea % 2 == 1 then 1 else 0);
      g - 2 * (n * LIMB_BITS - p) == (ea - la * LIMB_BITS) - 2 * (e - p)
  {
    MulSub(2 * n, la, LIMB_BITS);
    MulAssoc(2, n, LIMB_BITS);
  }

  /** bf_sqrt of a finite positive number. */
  method SqrtFinite(r: BigFloat, a: BigFloat, prec: int, flags: Flags) returns (st: Status, ghost e: int,
      ghost units: int)
    requires r != a && a.IsNormal() && prec >= 1 && flags.expBits >= 1 && !flags.radixPoint
    modifies r
    ensures !r.sign && fresh(r.tab)
    ensures var m, f, p := Val(a.tab[..]), a.expn - a.tab.Length * LIMB_BITS, RoundPrec(prec, flags, e);
      && RootRounded(flags.mode, m, f, e, p, units)
      && r.Outcome(prec, flags, NO_STATUS, st, e, units, RootIs(m, f - 2 * (e - p), units))
  {
    hide Val, Pow, Pow2, B, IsLimbs, HasExponent, RoundsTo, MpDigit.Normalised, BigFloat.Outcome, SameValue, RoundPrec,
      Sticky, RootPart, RootIs, NormalForm, IsRounded, Num, Den, RootAt;
    var la := a.tab.Length;
    NormalParts(a.tab[..]);
    NormalExponent(a.tab[..], a.expn);
    assert a.tab[..][la - 1] == a.tab[la - 1];
    var n := (2 * (prec + 2) + 2 * LIMB_BITS - 1) / (2 * LIMB_BITS);
    RootLimbsEnough(prec);
    var t;
    ghost var s, lost;
    t, s, lost := RootLimbs(a.tab, a.expn % 2 == 1, n);
    r.tab, r.expn, r.sign := t, (a.expn + 1) / 2, false;
    e := (a.expn + 1) / 2;
    st, units := r.Round(prec, flags, NO_STATUS);
    ghost var m, f, p := Val(a.tab[..]), a.expn - la * LIMB_BITS, RoundPrec(prec, flags, e);
    PrecAtMost(prec, flags, e);
    RootScale(a.expn, la, n, p);
    ghost var k := n * LIMB_BITS - p;
    RootCorrect(flags.mode, m, (2 * n - la) * LIMB_BITS - (if a.expn % 2 == 1 then 1 else 0), s, lost, k, f,
                e, p, units);
    SameScaled(units, e - p, Sticky(s, lost), e - n * LIMB_BITS, e - n * LIMB_BITS);
    Pow2Zero();
  }

  /** bf_sqrt: the special values, and otherwise the exact root rounded once. */
  method Sqrt(r: BigFloat, a: BigFloat, prec: int, flags: Flags) returns (st: Status, ghost e: int, ghost units: int)
    requires r != a && Valid(a) && prec >= 1 && flags.expBits >= 1 && !flags.radixPoint
    modifies r
    ensures a.IsNaN() ==> r.IsNaN() && st == NO_STATUS
    ensures a.IsZero() ==> r.IsZero() && r.sign == a.sign && st == NO_STATUS
    ensures a.IsInf() && !a.sign ==> r.IsInf() && !r.sign && st == NO_STATUS
    ensures (a.IsInf() || Operand(a)) && a.sign ==> r.IsNaN() && st == NO_STATUS.(invalid := true)
    ensures Operand(a) && !a.sign ==>
      var m, f, p := Val(a.tab[..]), a.expn - a.tab.Length * LIMB_BITS, RoundPrec(prec, flags, e);
      && !r.sign && RootRounded(flags.mode, m, f, e, p, units)
      && r.Outcome(prec, flags, NO_STATUS, st, e, units, RootIs(m, f - 2 * (e - p), units))
  {
    hide Val, Pow, Pow2, B, BigFloat.Outcome, RoundPrec, RootRounded, RootIs, NormalForm, EXP_ZERO, EXP_INF, EXP_NAN;
    Exponents();
    NormalLength(a.tab[..]);
    st, e, units := NO_STATUS, 0, 0;
    if a.tab.Length == 0 {
      if a.expn == EXP_NAN {
        r.SetNaN();
      } else if a.expn == EXP_INF && a.sign {
        r.SetNaN();
        st := INVALID;
      } else if a.expn == EXP_INF {
        r.SetInf(a.sign);
      } else {
        r.SetZero(a.sign);
      }
    } else if a.sign {
      r.SetNaN();
      st := INVALID;
    } else {
      st, e, units := SqrtFinite(r, a, prec, flags);
    }
  }
}
