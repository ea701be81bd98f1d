/**
Integers held as floating point numbers, and the operations at unlimited
precision, which lose nothing: what libbf.c relies on where it passes
BF_PREC_INF.
*/
module BfExact {
  import opened Limb
  import opened MpBasic
  import opened Newton
  import opened Rounding
  import opened Dyadic
  import opened BfRound
  import opened BfFloat
  import opened BfNormalize
  import opened BfDivide
  import opened BfAlign
  import opened BfAdd

  /** BF_RNDZ with the default exponent range. */
  const EXACT: Flags := Flags(RNDZ, false, false, LIMB_BITS - 3)

  /** Integers below 2^MAX_BITS are far from overflow. */
  const MAX_BITS: int := Pow2(LIMB_BITS - 4) - 2 * LIMB_BITS

  ghost predicate Represents(a: BigFloat, x: int)
    reads a, a.tab
  {
    if x == 0 then a.IsZero() else Operand(a) && a.sign == (x < 0) && a.Equals(Abs(x), 0)
  }

  lemma Ranges()
    ensures MAX_BITS >= 1 && PREC_INF >= MAX_BITS + 3 * LIMB_BITS && ExpMax(EXACT) == MAX_BITS + 2 * LIMB_BITS
    ensures ExpMin(EXACT) == 3 - MAX_BITS - 2 * LIMB_BITS
    ensures EXP_ZERO < ExpMin(EXACT) < 1 && ExpMax(EXACT) < EXP_INF
  {
    hide Pow2;
    Base();
    Pow2Step(LIMB_BITS - 4);
    Pow2Step(LIMB_BITS - 3);
    Pow2Step(LIMB_BITS - 2);
    Pow2Mono(28, LIMB_BITS - 4);
    PowLarge();
  }

  lemma PowLarge()
    ensures Pow2(28) == 0x1000_0000
  {
    hide Pow2;
    Pow2Values();
    Pow2Add(8, 4);
    Pow2Add(16, 12);
  }

  // ----- exactness -----

  /** An integer has no bits a whole limb below the radix point. */
  lemma IntegerPlace(t: seq<nat>, f: int, m: int)
    requires NormalForm(t) && SameValue(Val(t), f, m, 0)
    ensures f + LIMB_BITS > 0
  {
    hide Val, Pow2, B, Pow;
    if f + LIMB_BITS <= 0 {
      Base();
      WhollyBelow(m, -f);
      ValLow(t);
      BaseUp(t[0], Val(t[1..]));
      DivUnique(t[0], B, 0, t[0]);
    }
  }

  /** The exponent of an integer. */
  lemma IntegerExponent(z: int, g: int, e: int, n: int, l: nat)
    requires HasExponent(z, g, e) && SameValue(z, g, n, 0) && n < Pow2(l)
    ensures 1 <= e <= l && 1 <= n
  {
    hide Pow2;
    if g >= 0 {
      Pow2Add(e - g - 1, g);
      MulMono(Pow2(e - g - 1), z, Pow2(g));
      if e - 1 >= l { Pow2Mono(l, e - 1); }
    } else {
      if n <= 0 { MulMono(n, 0, Pow2(-g)); }
      Pow2Add(l, -g);
      MulStrict(n, Pow2(l), Pow2(-g));
      MulMono(1, n, Pow2(-g));
      if e - g - 1 >= l - g { Pow2Mono(l - g, e - g - 1); }
      if e <= 0 { Pow2Mono(e - g, -g); }
    }
  }

  /** At unlimited precision an integer rounds to itself. */
  lemma ExactUnits(mode: Mode, neg: bool, z: int, g: int, e: int, n: int, units: int)
    requires SameValue(z, g, n, 0) && e - PREC_INF - g <= 0 && RoundsTo(mode, neg, z, e - PREC_INF - g, units)
    ensures SameValue(units, e - PREC_INF, n, 0)
  {
    hide Pow2, SameValue, PREC_INF;
    var k := PREC_INF + g - e;
    Pow2Zero();
    DivUnique(z, 1, z, 0);
    SameScaled(units, e - PREC_INF, z, g, e - PREC_INF);
    SameTransitive(units, e - PREC_INF, z, g, n, 0);
  }

  /** An integer rounded at unlimited precision. */
  lemma ExactOutcome(r: BigFloat, st: Status, z: int, g: int, e: int, units: int, n: int, l: nat)
    requires SumRounded(RNDZ, r.sign, z, g, e, RoundPrec(PREC_INF, EXACT, e), units) && SameValue(z, g, n, 0)
    requires g > -2 * LIMB_BITS
    requires r.Outcome(PREC_INF, EXACT, NO_STATUS, st, e, units,
                       SameValue(units, e - RoundPrec(PREC_INF, EXACT, e), z, g))
    requires n < Pow2(l) && l <= MAX_BITS + LIMB_BITS
    ensures Operand(r) && r.Equals(n, 0) && n >= 1 && st == NO_STATUS
  {
    hide Pow2, SameValue, PREC_INF, MAX_BITS, EXP_ZERO, EXP_INF, RoundsTo, ExpMax, ExpMin, NormalForm, HasExponent;
    Ranges();
    IntegerExponent(z, g, e, n, l);
    assert RoundPrec(PREC_INF, EXACT, e) == PREC_INF;
    ExactUnits(RNDZ, r.sign, z, g, e, n, units);
    SameFlip(z, g, n, 0);
    SameFlip(units, e - PREC_INF, n, 0);
    SameTransitive(units, e - PREC_INF, n, 0, z, g);
    SameTransitive(Val(r.tab[..]), r.expn - r.tab.Length * LIMB_BITS, units, e - PREC_INF, n, 0);
  }

  // ----- sums of integers -----

  /** x in units of 2^g, given its magnitude in units of 2^f. */
  lemma InUnits(m: int, f: int, x: int, g: int)
    requires SameValue(m, f, x, 0) && g <= f
    ensures if g >= 0 then m * Pow2(f - g) * Pow2(g) == x else m * Pow2(f - g) == x * Pow2(-g)
  {
    hide Pow2, SameValue;
    if g >= 0 {
      SameScaled(m, f, x, 0, 0);
      Pow2Add(f - g, g);
      MulAssoc(m, Pow2(f - g), Pow2(g));
      Pow2Zero();
    } else {
      SameScaled(m, f, x, 0, g);
    }
  }

  ghost function Signed(neg: bool, m: int): int {
    if neg then -m else m
  }

  lemma SignedScaled(neg: bool, m: int, c: int)
    ensures Signed(neg, m) * c == Signed(neg, m * c)
  {
    if neg { MulSub(0, m, c); }
  }

  lemma SumInUnits(u: int, v: int, x: int, y: int, g: int)
    requires if g >= 0 then u * Pow2(g) == x && v * Pow2(g) == y else u == x * Pow2(-g) && v == y * Pow2(-g)
    ensures SameValue(u + v, g, x + y, 0)
  {
    hide Pow2;
    if g >= 0 { MulAdd(u, v, Pow2(g)); } else { MulAdd(x, y, Pow2(-g)); }
  }

  lemma MagnitudeSame(z: int, g: int, n: int)
    requires SameValue(z, g, n, 0)
    ensures SameValue(Abs(z), g, Abs(n), 0) && (z == 0 <==> n == 0) && (z < 0 <==> n < 0)
  {
    hide Pow2;
    if g >= 0 {
      MagnitudeScaled(z, Pow2(g));
    } else {
      MagnitudeScaled(n, Pow2(-g));
    }
  }

  lemma MagnitudeScaled(z: int, c: int)
    requires 0 < c
    ensures Abs(z * c) == Abs(z) * c && (z * c == 0 <==> z == 0) && (z * c < 0 <==> z < 0)
  {
    if z > 0 { MulPos(z, c); } else if z < 0 { MulPos(-z, c); MulSub(0, z, c); }
  }

  /** The exact sum of two integers is the sum of the integers. */
  lemma SignedSumExact(ma: int, fa: int, mb: int, fb: int, x: int, y: int)
    requires SameValue(ma, fa, Abs(x), 0) && SameValue(mb, fb, Abs(y), 0)
    ensures var z := SignedSum(x < 0, ma, fa, y < 0, mb, fb); SameValue(z, Lower(fa, fb), x + y, 0)
  {
    hide Pow2, SameValue;
    var g := Lower(fa, fb);
    var u, v := ma * Pow2(fa - g), mb * Pow2(fb - g);
    InUnits(ma, fa, Abs(x), g);
    InUnits(mb, fb, Abs(y), g);
    var su, sv := Signed(x < 0, u), Signed(y < 0, v);
    if g >= 0 {
      SignedScaled(x < 0, u, Pow2(g));
      SignedScaled(y < 0, v, Pow2(g));
    } else {
      SignedScaled(x < 0, Abs(x), Pow2(-g));
      SignedScaled(y < 0, Abs(y), Pow2(-g));
    }
    SumInUnits(su, sv, x, y, g);
  }

  /** bf_add, or bf_sub when negate is set, at unlimited precision, into a number of its own. */
  method AddExact(a: BigFloat, b: BigFloat, negate: bool, ghost x: int, ghost y: int,
      ghost l: nat) returns (r: BigFloat)
    requires Represents(a, x) && Represents(b, y) && Abs(x) < Pow2(l) && Abs(y) < Pow2(l) && l < MAX_BITS + LIMB_BITS
    ensures fresh(r) && fresh(r.tab) && Represents(r, x + Signed(negate, y))
  {
    hide Val, Pow, Pow2, B, SameValue, PREC_INF, MAX_BITS, NormalForm, SumRounded, BigFloat.Outcome, SignedSum,
      RoundPrec, ExpMax, ExpMin, EXP_ZERO, EXP_INF, EXP_NAN;
    Ranges();
    Exponents();
    r := new BigFloat();
    var st;
    ghost var e, units;
    ghost var fa, fb, y' := a.expn - a.tab.Length * LIMB_BITS, b.expn - b.tab.Length * LIMB_BITS, Signed(negate, y);
    st, e, units := BfAdd.Add(r, a, b, PREC_INF, EXACT, negate);
    Pow2Step(l);
    if x == 0 && y == 0 {
    } else if y == 0 {
      IntegerPlace(a.tab[..], fa, Abs(x));
      ExactOutcome(r, st, Val(a.tab[..]), fa, e, units, Abs(x), l);
    } else if x == 0 {
      IntegerPlace(b.tab[..], fb, Abs(y));
      ExactOutcome(r, st, Val(b.tab[..]), fb, e, units, Abs(y), l);
    } else {
      IntegerPlace(a.tab[..], fa, Abs(x));
      IntegerPlace(b.tab[..], fb, Abs(y));
      ghost var z := SignedSum(x < 0, Val(a.tab[..]), fa, y' < 0, Val(b.tab[..]), fb);
      SignedSumExact(Val(a.tab[..]), fa, Val(b.tab[..]), fb, x, y');
      MagnitudeSame(z, Lower(fa, fb), x + y');
      if z != 0 {
        ExactOutcome(r, st, Abs(z), Lower(fa, fb), e, units, Abs(x + y'), l + 1);
      }
    }
  }

  /** bf_set_ui and bf_set_si, for a magnitude of one limb. */
  method SetSmall(v: nat, neg: bool) returns (r: BigFloat)
    requires v < B
    ensures fresh(r) && fresh(r.tab) && Represents(r, if neg then -(v as int) else v)
  {
    hide Val, Pow, Pow2, B, SameValue, NormalForm, EXP_ZERO, EXP_INF, MAX_BITS, ExpMax, ExpMin, Clz;
    r := new BigFloat();
    if v != 0 {
      var c := Clz(v);
      r.tab := new nat[1];
      r.tab[0] := v * Pow2(c);
      r.sign, r.expn := neg, LIMB_BITS - c;
      ClzExact(v);
      assert r.tab[..] == [v * Pow2(c)];
      SmallMantissa(v, c);
      Ranges();
      SmallExponents();
    }
  }

  lemma SmallExponents()
    ensures EXP_ZERO < 0 && LIMB_BITS < EXP_INF
  {
    hide Pow2;
    Base();
  }

  lemma SmallMantissa(v: nat, c: nat)
    requires 0 < v && c < LIMB_BITS && B <= 2 * (v * Pow2(c)) && v * Pow2(c) < B
    ensures NormalForm([v * Pow2(c)]) && SameValue(Val([v * Pow2(c)]), 0 - c, v, 0)
  {
    hide Val, Pow, Pow2, B, SameValue;
    ValOne(v * Pow2(c));
    SameScaled(v * Pow2(c), 0 - c, v, 0, 0 - c);
    Pow2Zero();
    MulPos(v, Pow2(c));
  }
}
