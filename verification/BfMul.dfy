/** Multiplication of floating point numbers (libbf.c: bf_mul). */
module BfMul {
  import opened Limb
  import opened MpBasic
  import opened MpReciprocal
  import opened Rounding
  import opened Dyadic
  import opened BfRound
  import opened BfFloat
  import opened BfNormalize
  import opened BfDivide
  import opened BfAdd
  import opened BfExact

  /** The high limbs of an operand that enter the product: all of them, except for faithful rounding. */
  function Kept(mode: Mode, prec: int, len: nat): int {
    var precl := (prec + 2 + LIMB_BITS - 1) / LIMB_BITS;
    if mode == RNDF && precl < len then precl else len
  }

  lemma KeptRange(mode: Mode, prec: int, len: nat)
    requires prec >= 1 && len >= 1
    ensures 1 <= Kept(mode, prec, len) <= len
  {
    LimbsEnough(prec);
  }

  /** The mantissa that enters the product. */
  ghost function Factor(mode: Mode, prec: int, t: seq<nat>): (v: nat)
    requires prec >= 1 && |t| >= 1
  {
    KeptRange(mode, prec, |t|);
    Val(t[|t| - Kept(mode, prec, |t|)..])
  }

  lemma FactorWhole(mode: Mode, prec: int, t: seq<nat>)
    requires prec >= 1 && |t| >= 1 && mode != RNDF
    ensures Factor(mode, prec, t) == Val(t) && Kept(mode, prec, |t|) == |t|
  {
    assert t[0..] == t;
  }

  /** The high limbs of a normal number are not zero. */
  lemma FactorPositive(mode: Mode, prec: int, t: seq<nat>)
    requires prec >= 1 && NormalForm(t)
    ensures Factor(mode, prec, t) > 0
  {
    hide Val, Pow, B, Kept;
    KeptRange(mode, prec, |t|);
    ghost var u: seq<nat> := t[|t| - Kept(mode, prec, |t|)..];
    Base();
    assert u[|u| - 1] == t[|t| - 1];
    ValNonZero(u);
  }

  /** Finite non-zero operands: the exact product of the mantissas kept, rounded once. */
  method MulFinite(r: BigFloat, a: BigFloat, b: BigFloat, sign: bool, prec: int, flags: Flags) returns (st: Status,
      ghost e: int, ghost units: int)
    requires r != a && r != b && a.IsNormal() && b.IsNormal() && prec >= 1 && flags.expBits >= 1 && !flags.radixPoint
    modifies r
    ensures r.sign == sign && fresh(r.tab) && a.tab.Length >= 1 && b.tab.Length >= 1
    ensures var la, lb, p := Kept(flags.mode, prec, a.tab.Length), Kept(flags.mode, prec, b.tab.Length),
      RoundPrec(prec, flags, e);
      var z, g := Factor(flags.mode, prec, a.tab[..]) * Factor(flags.mode, prec, b.tab[..]),
        a.expn + b.expn - (la + lb) * LIMB_BITS;
      SumRounded(flags.mode, sign, z, g, e, p, units) &&
        r.Outcome(prec, flags, NO_STATUS, st, e, units, SameValue(units, e - p, z, g))
  {
    hide Val, Pow, Pow2, B, IsLimbs, HasExponent, RoundsTo, BigFloat.Outcome, SameValue, RoundPrec, NormalForm, Kept;
    NormalParts(a.tab[..]);
    NormalParts(b.tab[..]);
    KeptRange(flags.mode, prec, a.tab.Length);
    KeptRange(flags.mode, prec, b.tab.Length);
    FactorPositive(flags.mode, prec, a.tab[..]);
    FactorPositive(flags.mode, prec, b.tab[..]);
    var la: nat, lb: nat := Kept(flags.mode, prec, a.tab.Length), Kept(flags.mode, prec, b.tab.Length);
    var t := Product(a.tab, la, b.tab, lb);
    MulPos(Factor(flags.mode, prec, a.tab[..]), Factor(flags.mode, prec, b.tab[..]));
    r.sign, r.expn, r.tab := sign, a.expn + b.expn, t;
    st, e, units := NormalizeAndRound(r, prec, flags);
  }

  /** The product of the la high limbs of a and the lb high limbs of b. */
  method Product(a: array<nat>, la: nat, b: array<nat>, lb: nat) returns (t: array<nat>)
    requires IsLimbs(a[..]) && IsLimbs(b[..]) && 1 <= la <= a.Length && 1 <= lb <= b.Length
    ensures fresh(t) && t.Length == la + lb && IsLimbs(t[..])
    ensures Val(t[..]) == Val(a[..][a.Length - la..]) * Val(b[..][b.Length - lb..])
  {
    hide Val, Pow, B, IsLimbs;
    t := new nat[la + lb];
    ghost var x: seq<nat>, y: seq<nat> := a[..], b[..];
    var p, q := a.Length - la, b.Length - lb;
    LimbsSlice(x, p, p + la);
    LimbsSlice(y, q, q + lb);
    assert a[p..p + la] == x[p..p + la] == x[p..] && b[q..q + lb] == y[q..q + lb] == y[q..];
    MpBasic.Mul(t, 0, a, p, la, b, q, lb);
    assert t[0..0 + la + lb] == t[..];
  }

  /** bf_mul: the special values, and otherwise the exact product rounded once. */
  method Mul(r: BigFloat, a1: BigFloat, b1: BigFloat, prec: int, flags: Flags) returns (st: Status, ghost e: int,
      ghost units: int)
    requires r != a1 && r != b1 && Valid(a1) && Valid(b1) && prec >= 1 && flags.expBits >= 1 && !flags.radixPoint
    modifies r
    ensures fresh(r.tab)
    ensures a1.IsNaN() || b1.IsNaN() ==> r.IsNaN() && st == NO_STATUS
    ensures (a1.IsInf() && b1.IsZero()) || (a1.IsZero() && b1.IsInf()) ==>
      r.IsNaN() && st == NO_STATUS.(invalid := true)
    ensures (a1.IsInf() && (b1.IsInf() || Operand(b1))) || (Operand(a1) && b1.IsInf()) ==>
      r.IsInf() && r.sign == (a1.sign != b1.sign) && st == NO_STATUS
    ensures (a1.IsZero() && IsFinite(b1)) || (IsFinite(a1) && b1.IsZero()) ==>
      r.IsZero() && r.sign == (a1.sign != b1.sign) && st == NO_STATUS
    ensures Operand(a1) && Operand(b1) ==>
      && a1.tab.Length >= 1 && b1.tab.Length >= 1 && r.sign == (a1.sign != b1.sign)
      && var la, lb, p := Kept(flags.mode, prec, a1.tab.Length), Kept(flags.mode, prec, b1.tab.Length),
        RoundPrec(prec, flags, e);
         var z, g := Factor(flags.mode, prec, a1.tab[..]) * Factor(flags.mode, prec, b1.tab[..]),
           a1.expn + b1.expn - (la + lb) * LIMB_BITS;
         SumRounded(flags.mode, r.sign, z, g, e, p, units) &&
           r.Outcome(prec, flags, NO_STATUS, st, e, units, SameValue(units, e - p, z, g))
  {
    hide Val, Pow, Pow2, B, BigFloat.Outcome, RoundPrec, SumRounded, NormalForm, SameValue, Factor, Kept, EXP_ZERO,
      EXP_INF, EXP_NAN;
    Exponents();
    ValidLimbs(a1);
    ValidLimbs(b1);
    var a, b := a1, b1;
    if a.tab.Length < b.tab.Length { a, b := b, a; }
    var sign := a.sign != b.sign;
    st, e, units := NO_STATUS, 0, 0;
    if b.tab.Length == 0 {
      if a.expn == EXP_NAN || b.expn == EXP_NAN {
        r.SetNaN();
      } else if a.expn == EXP_INF || b.expn == EXP_INF {
        if (a.expn == EXP_INF && b.expn == EXP_ZERO) || (a.expn == EXP_ZERO && b.expn == EXP_INF) {
          r.SetNaN();
          st := INVALID;
        } else {
          r.SetInf(sign);
        }
      } else {
        r.SetZero(sign);
      }
    } else {
      st, e, units := MulFinite(r, a, b, sign, prec, flags);
      MulComm(Factor(flags.mode, prec, a.tab[..]), Factor(flags.mode, prec, b.tab[..]));
    }
  }

  // ----- exact products -----

  lemma SameProduct(m: int, f: int, n: int, g: int, x: int, y: int)
    requires SameValue(m, f, x, 0) && SameValue(n, g, y, 0)
    ensures SameValue(m * n, f + g, x * y, 0)
  {
    hide Pow2, SameValue;
    var h := if f <= g then if f <= 0 then f else 0 else if g <= 0 then g else 0;
    SameScaled(m, f, x, 0, h);
    SameScaled(n, g, y, 0, h);
    SameScaled(m * n, f + g, x * y, 0, 2 * h);
    Pow2Add(f - h, g - h);
    Pow2Add(0 - h, 0 - h);
    FourFactors(m, n, Pow2(f - h), Pow2(g - h));
    FourFactors(x, y, Pow2(0 - h), Pow2(0 - h));
  }

  lemma FourFactors(m: int, n: int, p: int, q: int)
    ensures (m * n) * (p * q) == (m * p) * (n * q)
  {
    MulAssoc(m * n, p, q);
    Rotate(m, n, p);
    MulAssoc(m * p, n, q);
  }

  lemma AbsProduct(x: int, y: int)
    ensures Abs(x * y) == Abs(x) * Abs(y) && (x != 0 && y != 0 ==> x * y != 0 && ((x * y < 0) <==> (x < 0) != (y < 0)))
    ensures (x == 0 || y == 0 ==> x * y == 0)
  {
    if x != 0 && y != 0 {
      MulPos(Abs(x), Abs(y));
      if x < 0 { MulSub(0, x, Abs(y)); }
      if y < 0 { MulSub(0, y, x); }
    }
  }

  /** bf_mul at unlimited precision, into a number of its own. */
  method MulExact(a: BigFloat, b: BigFloat, ghost x: int, ghost y: int, ghost l: nat) returns (r: BigFloat)
    requires Represents(a, x) && Represents(b, y) && Abs(x * y) < Pow2(l) && l <= MAX_BITS + LIMB_BITS
    ensures fresh(r) && fresh(r.tab) && Represents(r, x * y)
  {
    hide Val, Pow, Pow2, B, SameValue, PREC_INF, MAX_BITS, NormalForm, SumRounded, BigFloat.Outcome, RoundPrec, ExpMax,
      ExpMin, EXP_ZERO, EXP_INF, EXP_NAN, Factor, Kept;
    Ranges();
    Exponents();
    r := new BigFloat();
    var st;
    ghost var e, units;
    st, e, units := Mul(r, a, b, PREC_INF, EXACT);
    AbsProduct(x, y);
    if x != 0 && y != 0 {
      ghost var fa, fb := a.expn - a.tab.Length * LIMB_BITS, b.expn - b.tab.Length * LIMB_BITS;
      IntegerPlace(a.tab[..], fa, Abs(x));
      IntegerPlace(b.tab[..], fb, Abs(y));
      FactorWhole(RNDZ, PREC_INF, a.tab[..]);
      FactorWhole(RNDZ, PREC_INF, b.tab[..]);
      MulAdd(a.tab.Length, b.tab.Length, LIMB_BITS);
      SameProduct(Val(a.tab[..]), fa, Val(b.tab[..]), fb, Abs(x), Abs(y));
      ExactOutcome(r, st, Val(a.tab[..]) * Val(b.tab[..]), fa + fb, e, units, Abs(x * y), l);
    }
  }
}
