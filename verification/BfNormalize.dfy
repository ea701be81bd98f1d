/**
Bringing a number to normal form and rounding it (libbf.c:
bf_normalize_and_round), and the rounding of a number of which only a part and
a sticky bit are known.
*/
module BfNormalize {
  import opened Limb
  import opened MpBasic
  import opened MpDigit
  import opened MpReciprocal
  import opened MpLarge
  import opened Newton
  import opened BfBits
  import opened Rounding
  import opened Dyadic
  import opened BfRound
  import opened BfFloat

  // ----- scaling -----

  /** A whole number rounds to itself. */
  lemma WholeRounds(mode: Mode, neg: bool, n: int, d: int, r: int)
    requires 0 < d
    ensures IsRounded(mode, neg, Ratio(n * d, d), r) <==> r == n
  {
    forall h ensures Ratio(n * d, d)(h) == Sign(2 * n - h) {
      MulSub(2 * n, h, d);
      MulAssoc(2, n, d);
      SignScaled(2 * n - h, d);
    }
  }

  lemma SignScaled(x: int, d: int)
    requires 0 < d
    ensures Sign(x * d) == Sign(x)
  {
    if x > 0 { MulPos(x, d); } else if x < 0 { MulPos(-x, d); }
  }

  lemma RatioScaled(num: int, den: int, c: int, h: int)
    requires 0 < c
    ensures Ratio(num * c, den * c)(h) == Ratio(num, den)(h)
  {
    MulAssoc(2, num, c);
    MulAssoc(h, den, c);
    MulSub(2 * num, h * den, c);
    SignScaled(2 * num - h * den, c);
  }

  /** Shifting a mantissa left shifts the place to round at. */
  lemma RoundsScaled(mode: Mode, neg: bool, m: int, k: int, s: nat, r: int)
    requires RoundsTo(mode, neg, m * Pow2(s), k + s, r)
    ensures RoundsTo(mode, neg, m, k, r)
  {
    hide Pow2, IsRounded, Ratio;
    if k >= 1 {
      Pow2Add(k, s);
      forall h ensures Ratio(m * Pow2(s), Pow2(k + s))(h) == Ratio(m, Pow2(k))(h) {
        RatioScaled(m, Pow2(k), Pow2(s), h);
      }
      RoundedAlike(mode, neg, Ratio(m * Pow2(s), Pow2(k + s)), Ratio(m, Pow2(k)), r);
    } else if k + s >= 1 {
      Pow2Add(-k, k + s);
      MulAssoc(m, Pow2(-k), Pow2(k + s));
      WholeRounds(mode, neg, m * Pow2(-k), Pow2(k + s), r);
      if k == 0 { Pow2Zero(); DivUnique(m, 1, m, 0); }
    } else {
      WholeUnits(m, k, s);
    }
  }

  lemma WholeUnits(m: int, k: int, s: nat)
    requires k + s <= 0
    ensures Units(m * Pow2(s), k + s) == Units(m, k)
  {
    hide Pow2;
    Pow2Zero();
    Pow2Add(s, -(k + s));
    MulAssoc(m, Pow2(s), Pow2(-(k + s)));
    DivUnique(m, 1, m, 0);
    DivUnique(m * Pow2(s), 1, m * Pow2(s), 0);
  }

  // ----- leading zeros -----

  /** clz of a limb that is not zero */
  function Clz(v: nat): (s: nat)
    requires 0 < v < B
    decreases B - v
  {
    if 2 * v >= B then 0 else 1 + Clz(2 * v)
  }

  lemma {:induction false} ClzExact(v: nat)
    requires 0 < v < B
    ensures Clz(v) < LIMB_BITS && B <= 2 * (v * Pow2(Clz(v))) && v * Pow2(Clz(v)) < B
    decreases B - v
  {
    hide B, Pow2;
    Base();
    if 2 * v >= B {
      Pow2Zero();
    } else {
      ClzExact(2 * v);
      var s := Clz(2 * v);
      Pow2Step(s);
      MulAssoc(v, 2, Pow2(s));
      assert v * Pow2(s + 1) == (2 * v) * Pow2(s);
      if s + 1 >= LIMB_BITS {
        assert Pow2(LIMB_BITS) == B;
        Pow2Mono(LIMB_BITS, s + 1);
        MulMono(1, v, Pow2(s + 1));
      }
    }
  }

  // ----- normalisation -----

  /** One limb of a left shift: the low bits of a and the high bits of the limb below. */
  function ShiftedWord(a: nat, v: nat, shift: nat): int
    requires shift < LIMB_BITS && B > 0
  {
    (a * Pow2(shift)) % B + v / Pow2(LIMB_BITS - shift)
  }

  lemma ShiftedWordExact(a: nat, v: nat, shift: nat)
    requires shift < LIMB_BITS && a < B && v < B
    ensures B > 0 && var c := Pow2(LIMB_BITS - shift);
      0 <= ShiftedWord(a, v, shift) < B && 0 <= v / c && 0 <= a / c
      && ShiftedWord(a, v, shift) + (a / c) * B == a * Pow2(shift) + v / c
  {
    hide B, Pow2;
    Base();
    BaseSplit(shift);
    ShiftedFields(a, v, Pow2(shift), Pow2(LIMB_BITS - shift), B);
  }

  lemma ShiftedFields(a: int, v: int, s: int, c: int, base: int)
    requires 0 < s && 0 < c && base == c * s && 0 <= a < base && 0 <= v < base
    ensures 0 <= (a * s) % base + v / c < base && 0 <= v / c && 0 <= a / c
    ensures (a * s) % base + v / c + (a / c) * base == a * s + v / c
  {
    DivMod(a, c);
    DivMod(v, c);
    MulAdd((a / c) * c, a % c, s);
    MulAssoc(a / c, c, s);
    MulMono(a % c + 1, c, s);
    MulAdd(a % c, 1, s);
    MulNonNeg(a % c, s);
    DivUnique(a * s, base, a / c, (a % c) * s);
    if v / c >= s { MulMono(s, v / c, c); MulComm(s, c); }
    if v / c < 0 { MulMono(v / c, -1, c); }
    if a / c < 0 { MulMono(a / c, -1, c); }
  }

  lemma ShiftLeftStep(done: seq<nat>, x: seq<nat>, i: nat, k: int, w: nat, c: int, s: int)
    requires |done| == i < |x| && Val(done) + k * Pow(i) == Val(x[..i]) * s && w + c * B == x[i] * s + k
    ensures Val(done + [w]) + c * Pow(i + 1) == Val(x[..i + 1]) * s
  {
    hide Val, Pow, B;
    ValPush(done, w);
    PrefixPush(x, i);
    PowStep(i);
    CarryStep(Val(done), k, Pow(i), Val(x[..i]) * s, w, c, B, x[i] * s);
    MulAdd(Val(x[..i]), x[i] * Pow(i), s);
    Rotate(x[i], Pow(i), s);
  }

  /** Shifts all limbs left; nothing is shifted out. */
  method ShiftLeft(a: array<nat>, shift: nat)
    requires shift < LIMB_BITS && IsLimbs(a[..]) && Val(a[..]) * Pow2(shift) < Pow(a.Length)
    modifies a
    ensures IsLimbs(a[..]) && Val(a[..]) == old(Val(a[..])) * Pow2(shift)
  {
    hide Val, Pow, Pow2, B, ShiftedWord;
    Base();
    ghost var x: seq<nat>, n := a[..], a.Length;
    ghost var c := Pow2(LIMB_BITS - shift);
    var v: nat := 0;
    var i := 0;
    ValEmpty();
    PowZero();
    DivUnique(0, c, 0, 0);
    ghost var k := 0;
    assert a[..0] == [] && x[..0] == [];
    while i < a.Length
      invariant 0 <= i <= a.Length == n && v < B && k == v / c && 0 <= k
      invariant forall j :: i <= j < n ==> a[j] == x[j]
      invariant IsLimbs(a[..i])
      invariant Val(a[..i]) + k * Pow(i) == Val(x[..i]) * Pow2(shift)
    {
      var b := a[i];
      ShiftedWordExact(b, v, shift);
      var w := ShiftedWord(b, v, shift);
      ghost var done: seq<nat> := a[..i];
      ShiftLeftStep(done, x, i, k, w, b / c, Pow2(shift));
      a[i] := w;
      assert a[..i + 1] == done + [w];
      k := b / c;
      v := b;
      i := i + 1;
    }
    assert a[..i] == a[..] && x[..i] == x;
    if k > 0 { MulMono(1, k, Pow(n)); }
  }

  /** m * 2^f is at least 2^(e - 1) and below 2^e. */
  ghost predicate HasExponent(m: int, f: int, e: int) {
    e - f >= 1 && Pow2(e - f - 1) <= m < Pow2(e - f)
  }

  /** The limbs below the leading zero limbs of r. */
  method DropLeading(a: array<nat>) returns (l: nat)
    ensures l <= a.Length && Val(a[..l]) == Val(a[..]) && (l > 0 ==> a[l - 1] != 0) && (l == 0 <==> Val(a[..]) == 0)
  {
    hide Val, Pow;
    l := a.Length;
    assert a[..l] == a[..];
    while l > 0 && a[l - 1] == 0
      invariant l <= a.Length && Val(a[..l]) == Val(a[..])
    {
      ValHigh(a[..l]);
      assert a[..l][..l - 1] == a[..l - 1] && a[..l][l - 1] == a[l - 1];
      l := l - 1;
    }
    ValNonZero(a[..l]);
    assert l > 0 ==> a[..l][l - 1] != 0;
  }

  lemma ExponentOf(m: int, l: nat, s: nat, e: int)
    requires 1 <= l && s < LIMB_BITS && Pow(l) <= 2 * (m * Pow2(s)) && m * Pow2(s) < Pow(l)
    ensures HasExponent(m, e - l * LIMB_BITS + s, e)
  {
    hide Pow, Pow2;
    PowBits(l);
    var n := l * LIMB_BITS;
    MulMono(1, l, LIMB_BITS);
    Pow2Add(n - 1 - s, s);
    Pow2Step(n - 1);
    Pow2Add(n - s, s);
    Cancel(Pow2(n - 1 - s), m, Pow2(s));
    CancelStrict(m, Pow2(n - s), Pow2(s));
    assert e - (e - n + s) == n - s;
  }

  lemma LosslessScaled(units: int, g: int, m: int, s: nat, f: int)
    ensures SameValue(units, g, m * Pow2(s), f - s) <==> SameValue(units, g, m, f)
  {
    hide Pow2, SameValue;
    var h := if g <= f - s then g else f - s;
    SameScaled(units, g, m * Pow2(s), f - s, h);
    SameScaled(units, g, m, f, h);
    Pow2Add(s, f - s - h);
    MulAssoc(m, Pow2(s), Pow2(f - s - h));
  }

  /**
  The first half of bf_normalize_and_round, for a number that is not zero: the top
  bit of the mantissa becomes set.
  */
  method Normalize(r: BigFloat, l: nat) returns (ghost s: nat)
    requires IsLimbs(r.tab[..]) && 1 <= l <= r.tab.Length && r.tab[l - 1] != 0 && Val(r.tab[..l]) == Val(r.tab[..])
    modifies r
    ensures r.sign == old(r.sign) && fresh(r.tab) && r.tab.Length >= 1 && IsLimbs(r.tab[..])
    ensures Normalised(r.tab[r.tab.Length - 1])
    ensures Val(r.tab[..]) == old(Val(r.tab[..])) * Pow2(s)
    ensures r.expn - r.tab.Length * LIMB_BITS == old(r.expn - r.tab.Length * LIMB_BITS) - s
    ensures HasExponent(old(Val(r.tab[..])), old(r.expn - r.tab.Length * LIMB_BITS), r.expn)
  {
    hide Val, Pow, Pow2, B, IsLimbs, HasExponent, Clz;
    var len := r.tab.Length;
    ghost var m := Val(r.tab[..]);
    var t := new nat[l];
    Copy(t, 0, r.tab, 0, l);
    assert t[0..0 + l] == t[..] && r.tab[0..0 + l] == r.tab[..l] && r.tab[..][0..l] == r.tab[..l];
    LimbsSlice(r.tab[..], 0, l);
    LimbAt(t[..], l - 1);
    assert t[..][l - 1] == t[l - 1] == r.tab[l - 1];
    var shift := Clz(t[l - 1]);
    ClzExact(t[l - 1]);
    BaseDivisible(shift);
    TopShifted(t[..], Pow2(shift));
    if shift != 0 {
      ShiftLeft(t, shift);
    } else {
      Pow2Zero();
    }
    s := shift;
    MulSub(len, l, LIMB_BITS);
    r.expn := r.expn - (len - l) * LIMB_BITS - shift;
    r.tab := t;
    TopNormalised(t[..]);
    ExponentOf(m, l, shift, r.expn);
  }

  /** Shifting by the leading zeros of the top limb leaves a value of at least half of B^n, and below it. */
  lemma TopShifted(t: seq<nat>, c: nat)
    requires |t| >= 1 && IsLimbs(t) && 0 < c && B <= 2 * (t[|t| - 1] * c) && t[|t| - 1] * c < B && B % c == 0
    ensures Pow(|t|) <= 2 * (Val(t) * c) && Val(t) * c < Pow(|t|)
  {
    hide Val, Pow, B;
    var n := |t| - 1;
    ValHigh(t);
    ValBound(t[..n]);
    PowStep(n);
    TopShiftedRange(Val(t), Val(t[..n]), t[n], c, Pow(n), B);
  }

  lemma TopShiftedRange(v: int, low: int, top: int, c: int, p: int, b: int)
    requires v == low + top * p && 0 <= low < p && 0 < c && b <= 2 * (top * c) && top * c < b && b % c == 0
    ensures b * p <= 2 * (v * c) && v * c < b * p
  {
    MulAdd(low, top * p, c);
    Rotate(top, p, c);
    MulNonNeg(low, c);
    MulMono(b, 2 * (top * c), p);
    MulAssoc(2, top * c, p);
    // top*c + c <= b, since c divides b
    var d := b / c;
    DivMod(b, c);
    assert top + 1 <= d by { if top >= d { MulMono(d, top, c); } }
    MulMono(top + 1, d, c);
    MulAdd(top, 1, c);
    MulMono(top * c + c, b, p);
    MulAdd(top * c, c, p);
    MulStrict(low, p, c);
  }

  lemma BaseDivisible(s: nat)
    requires s <= LIMB_BITS
    ensures B % Pow2(s) == 0
  {
    hide Pow2, B;
    BaseSplit(s);
    DivUnique(B, Pow2(s), Pow2(LIMB_BITS - s), 0);
  }

  /**
  bf_normalize_and_round: the magnitude m * 2^f of r, with no demand on its
  leading bits, becomes 0 or is rounded to prec1 bits.
  */
  method NormalizeAndRound(r: BigFloat, prec1: int, flags: Flags) returns (st: Status, ghost e: int, ghost units: int)
    requires flags.expBits >= 1 && prec1 >= 1 && IsLimbs(r.tab[..])
    modifies r
    ensures r.sign == old(r.sign) && fresh(r.tab)
    ensures old(Val(r.tab[..])) == 0 ==> r.IsZero() && st == NO_STATUS
    ensures old(Val(r.tab[..])) != 0 ==>
      var m, f, prec := old(Val(r.tab[..])), old(r.expn - r.tab.Length * LIMB_BITS), RoundPrec(prec1, flags, e);
      && HasExponent(m, f, e)
      && RoundsTo(flags.mode, r.sign, m, e - prec - f, units)
      && r.Outcome(prec1, flags, NO_STATUS, st, e, units, SameValue(units, e - prec, m, f))
  {
    hide Val, Pow, Pow2, B, IsLimbs, HasExponent, RoundsTo, MpDigit.Normalised, BigFloat.Outcome, SameValue, RoundPrec;
    var l := DropLeading(r.tab);
    if l == 0 {
      r.SetZero(r.sign);
      return NO_STATUS, 0, 0;
    }
    ghost var m, f := Val(r.tab[..]), r.expn - r.tab.Length * LIMB_BITS;
    ghost var s := Normalize(r, l);
    e := r.expn;
    ghost var prec, n := RoundPrec(prec1, flags, e), r.tab.Length * LIMB_BITS;
    st, units := r.Round(prec1, flags, NO_STATUS);
    assert n - prec == (e - prec - f) + s;
    RoundsScaled(flags.mode, r.sign, m, e - prec - f, s, units);
    LosslessScaled(units, e - prec, m, s, f);
  }
}
