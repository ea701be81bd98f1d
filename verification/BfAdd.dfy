/** Correctly rounded addition and subtraction (libbf.c: bf_cmpu, bf_add_internal). */
module BfAdd {
  import opened Limb
  import opened MpBasic
  import opened MpReciprocal
  import opened MpLarge
  import opened Newton
  import opened BfBits
  import opened Rounding
  import opened Dyadic
  import opened BfRound
  import opened BfFloat
  import opened BfNormalize
  import opened BfSticky
  import opened BfDivide
  import opened BfAlign
  import opened BfCancel
  import opened BfCarry

  // ----- rounding the truncated sum -----

  /** Shifting a mantissa right by zeros, the other way round. */
  lemma RoundsScaledUp(mode: Mode, neg: bool, m: int, k: int, s: nat, r: int)
    requires RoundsTo(mode, neg, m, k, r)
    ensures RoundsTo(mode, neg, m * Pow2(s), k + s, r)
  {
    hide Pow2, IsRounded, Ratio;
    if k >= 1 {
      Pow2Add(k, s);
      forall h ensures Ratio(m * Pow2(s), Pow2(k + s))(h) == Ratio(m, Pow2(k))(h) {
        RatioScaled(m, Pow2(k), Pow2(s), h);
      }
      RoundedAlike(mode, neg, Ratio(m * Pow2(s), Pow2(k + s)), Ratio(m, Pow2(k)), r);
    } else if k + s >= 1 {
      Pow2Add(-k, k + s);
      MulAssoc(m, Pow2(-k), Pow2(k + s));
      WholeRounds(mode, neg, m * Pow2(-k), Pow2(k + s), r);
      if k == 0 { Pow2Zero(); DivUnique(m, 1, m, 0); }
    } else {
      WholeUnits(m, k, s);
    }
  }

  lemma ExponentScaled(m: int, f: int, e: int, s: nat)
    ensures HasExponent(m * Pow2(s), f - s, e) && e - f >= 1 ==> HasExponent(m, f, e)
    ensures HasExponent(m, f, e) ==> HasExponent(m * Pow2(s), f - s, e)
  {
    hide Pow2;
    var n := e - f;
    if n >= 1 {
      Pow2Add(n - 1, s);
      Pow2Add(n, s);
      if Pow2(n - 1) <= m < Pow2(n) {
        MulMono(Pow2(n - 1), m, Pow2(s));
        MulStrict(m, Pow2(n), Pow2(s));
      }
      if Pow2(n - 1 + s) <= m * Pow2(s) < Pow2(n + s) {
        Cancel(Pow2(n - 1), m, Pow2(s));
        CancelStrict(m, Pow2(n), Pow2(s));
      }
    }
  }

  /** The exponent of a number from that of its high part. */
  lemma ExponentOfHigh(z: int, q: int, rem: int, w: nat, f: int, e: int)
    requires HasExponent(q, f, e) && z == q * Pow2(w) + rem && 0 <= rem < Pow2(w)
    ensures HasExponent(z, f - w, e)
  {
    hide Pow2;
    var n := e - f;
    Pow2Add(n - 1, w);
    Pow2Add(n, w);
    MulMono(Pow2(n - 1), q, Pow2(w));
    MulMono(q + 1, Pow2(n), Pow2(w));
    MulAdd(q, 1, Pow2(w));
  }

  /** Truncation with a sticky bit rounds like the whole, if it is exact or keeps two bits below the last place. */
  lemma TruncatedRounds(mode: Mode, neg: bool, z: int, q: int, rem: int, w: nat, f: int, e: int, prec: int, units: int)
    requires z == q * Pow2(w) + rem && 0 <= rem < Pow2(w) && 0 < q && (rem != 0 ==> 2 <= q && e - f >= prec + 2)
    requires HasExponent(Sticky(q, rem != 0), f, e) && RoundsTo(mode, neg, Sticky(q, rem != 0), e - prec - f, units)
    ensures HasExponent(z, f - w, e) && RoundsTo(mode, neg, z, e - prec - (f - w), units)
    ensures SameValue(units, e - prec, Sticky(q, rem != 0), f) <==> SameValue(units, e - prec, z, f - w)
  {
    hide Pow2, Sticky, IsRounded, HasExponent, SameValue, Ratio;
    var k := e - prec - f;
    NotSticky(q);
    if rem == 0 {
      ExponentScaled(q, f, e, w);
      RoundsScaledUp(mode, neg, q, k, w, units);
      LosslessScaled(units, e - prec, q, w, f);
    } else {
      StickyExponent(z, Pow2(w), q, rem, f, e);
      ExponentOfHigh(z, q, rem, w, f, e);
      StickyQuotient(mode, neg, z, Pow2(w), q, rem, k, units);
      Pow2Add(w, k);
      SameScaled(units, e - prec, Sticky(q, true), f, f);
      Pow2Zero();
      StickyLossless(z, Pow2(w), q, rem, k, units);
      SameScaled(units, e - prec, z, f - w, f - w);
      assert e - prec - (f - w) == w + k;
    }
  }

  // ----- comparing magnitudes -----

  /** The mantissa as n limbs, zeros below. */
  ghost function Padded(t: seq<nat>, n: nat): int
    requires |t| <= n
  {
    MulMono(|t|, n, LIMB_BITS);
    Aligned(t, 0, n)
  }

  lemma PaddedValue(t: seq<nat>, n: nat)
    requires |t| <= n
    ensures Padded(t, n) == Val(t) * Pow(n - |t|)
  {
    hide Val, Pow, Pow2;
    MulMono(|t|, n, LIMB_BITS);
    PowBits(n - |t|);
    MulSub(n, |t|, LIMB_BITS);
  }

  lemma PaddedLimb(t: seq<nat>, n: nat, i: nat)
    requires |t| <= n && IsLimbs(t)
    ensures GetLimbZ(t, |t| - n + i) == LimbOf(Padded(t, n), i)
  {
    hide B, Pow, Pow2, Aligned, IsLimbs, LimbOf, GetBits;
    MulMono(|t|, n, LIMB_BITS);
    LimbIsBits(t, |t| - n + i);
    AlignedLimb(t, 0, n, i);
  }

  lemma PaddedBound(t: seq<nat>, n: nat)
    requires |t| <= n && IsLimbs(t)
    ensures 0 <= Padded(t, n) < Pow(n)
  {
    hide Val, B, Pow, Pow2, Aligned, IsLimbs;
    MulMono(|t|, n, LIMB_BITS);
    AlignedBound(t, 0, n);
    PowBits(n);
  }

  function Max(x: nat, y: nat): nat {
    if x > y then x else y
  }

  /** bf_cmpu for equal exponents: limb by limb from the top. */
  method CmpMantissa(a: array<nat>, b: array<nat>) returns (c: int)
    requires IsLimbs(a[..]) && IsLimbs(b[..])
    ensures var n := Max(a.Length, b.Length); c == Sign(Padded(a[..], n) - Padded(b[..], n))
  {
    hide B, Pow, Pow2, Padded, IsLimbs, LimbOf, GetLimbZ, Prefix;
    var n := Max(a.Length, b.Length);
    ghost var x, y := Padded(a[..], n), Padded(b[..], n);
    PaddedBound(a[..], n);
    PaddedBound(b[..], n);
    PrefixEnds(x, n);
    PrefixEnds(y, n);
    var i: nat := n;
    while i > 0
      invariant i <= n && Prefix(x, n, n - i) == Prefix(y, n, n - i)
    {
      i := i - 1;
      PaddedLimb(a[..], n, i);
      PaddedLimb(b[..], n, i);
      var v1, v2 := GetLimbZ(a[..], a.Length - n + i), GetLimbZ(b[..], b.Length - n + i);
      PrefixStep(x, n, n - i - 1);
      PrefixStep(y, n, n - i - 1);
      if v1 != v2 {
        c := if v1 < v2 then -1 else 1;
        if x < y { PrefixOrder(y, x, n, n - i); } else if y < x { PrefixOrder(x, y, n, n - i); }
        return;
      }
    }
    c := 0;
  }

  /** bf_cmpu */
  method CmpU(a: BigFloat, b: BigFloat) returns (c: int)
    requires IsLimbs(a.tab[..]) && IsLimbs(b.tab[..])
    ensures a.expn < b.expn ==> c == -1
    ensures a.expn > b.expn ==> c == 1
    ensures a.expn == b.expn ==> var n := Max(a.tab.Length, b.tab.Length);
      c == Sign(Padded(a.tab[..], n) - Padded(b.tab[..], n))
  {
    if a.expn != b.expn {
      return if a.expn < b.expn then -1 else 1;
    }
    c := CmpMantissa(a.tab, b.tab);
  }

  // ----- the sum of two finite numbers -----

  /** How far the mantissas reach together, in limbs below the top of a. */
  function TotalLength(la: nat, lb: nat, d: nat): nat {
    TotalPositive(d);
    var m := lb + (d + LIMB_BITS - 1) / LIMB_BITS;
    if la > m then la else m
  }

  lemma TotalPositive(d: nat)
    ensures 0 <= (d + LIMB_BITS - 1) / LIMB_BITS
  {
    var x := d + LIMB_BITS - 1;
    var m := x / LIMB_BITS;
    DivMod(x, LIMB_BITS);
    if m < 0 { MulMono(m, -1, LIMB_BITS); }
  }

  lemma TotalFits(la: nat, lb: nat, d: nat)
    ensures var n := TotalLength(la, lb, d);
      la <= n && lb <= n && la * LIMB_BITS + 0 <= n * LIMB_BITS && lb * LIMB_BITS + d <= n * LIMB_BITS && (d == 0 ==>
        n == Max(la, lb))
  {
    var x := d + LIMB_BITS - 1;
    var m := x / LIMB_BITS;
    DivMod(x, LIMB_BITS);
    if m < 0 { MulMono(m, -1, LIMB_BITS); }
    if d == 0 { DivUnique(x, LIMB_BITS, 0, x); }
    var n := TotalLength(la, lb, d);
    MulMono(la, n, LIMB_BITS);
    MulMono(lb + m, n, LIMB_BITS);
    MulAdd(lb, m, LIMB_BITS);
  }

  /** The exact sum or difference of the mantissas, b shifted down by d bits, in units of the lowest limb. */
  ghost function AlignedSum(a: seq<nat>, b: seq<nat>, d: nat, sub: bool): int {
    TotalFits(|a|, |b|, d);
    var n := TotalLength(|a|, |b|, d);
    Combine(Aligned(a, 0, n), Aligned(b, d, n), sub)
  }

  /** The operands as numbers of n limbs: a is at least half of B^n, b below its shifted bound. */
  lemma OperandRange(a: seq<nat>, b: seq<nat>, d: nat, n: nat)
    requires NormalForm(a) && NormalForm(b) && |a| <= n && |a| * LIMB_BITS + 0 <= n * LIMB_BITS
    requires |b| * LIMB_BITS + d <= n * LIMB_BITS
    ensures var x, y := Aligned(a, 0, n), Aligned(b, d, n);
      Pow(n) <= 2 * x && x < Pow(n) && 0 < y < Pow(n) && y < Pow2(n * LIMB_BITS - d) && n * LIMB_BITS - d >= 0
  {
    hide Val, Pow, Pow2, B, IsLimbs, Aligned, NormalForm;
    NormalParts(a);
    NormalParts(b);
    AlignedBound(a, 0, n);
    AlignedBound(b, d, n);
    PowBits(n);
    Pow2Mono(n * LIMB_BITS - d, n * LIMB_BITS);
    DividendBig(Val(a), |a|, n);
    PaddedValue(a, n);
    AlignedPositive(b, d, n);
  }

  lemma AlignedPositive(t: seq<nat>, d: int, n: nat)
    requires |t| * LIMB_BITS + d <= n * LIMB_BITS && 0 < Val(t)
    ensures 0 < Aligned(t, d, n)
  {
    hide Val, Pow2;
    MulPos(Val(t), Pow2(n * LIMB_BITS - |t| * LIMB_BITS - d));
  }

  /** Exponents two or more apart cancel at most one bit. */
  lemma FarApart(x: int, y: int, d: nat, n: nat)
    requires d >= 2 && n * LIMB_BITS - d >= 0 && Pow(n) <= 2 * x && y < Pow2(n * LIMB_BITS - d)
    ensures Pow(n) <= (x - y) * Pow2(1 + 1)
  {
    hide Pow, Pow2;
    PowBits(n);
    var m := n * LIMB_BITS;
    Pow2Mono(m - d, m - 2);
    Pow2Step(m - 2);
    Pow2Step(m - 1);
    Pow2Zero();
    Pow2Step(0);
    Pow2Step(1);
  }

  /** cancelled_bits in bf_add_internal: a bound on the leading zeros of the result. */
  method CancelledBits(a: array<nat>, b: array<nat>, d: nat, sub: bool, ghost n: nat) returns (c: nat)
    requires NormalForm(a[..]) && NormalForm(b[..]) && a.Length <= n && a.Length * LIMB_BITS + 0 <= n * LIMB_BITS
    requires b.Length * LIMB_BITS + d <= n * LIMB_BITS
    requires sub ==> Aligned(b[..], d, n) < Aligned(a[..], 0, n)
    ensures Pow(n) <= Combine(Aligned(a[..], 0, n), Aligned(b[..], d, n), sub) * Pow2(c + 1)
  {
    hide Val, Pow, Pow2, B, IsLimbs, Aligned, NormalForm;
    ghost var x, y := Aligned(a[..], 0, n), Aligned(b[..], d, n);
    OperandRange(a[..], b[..], d, n);
    if sub {
      if d <= 1 {
        NormalParts(a[..]);
        NormalParts(b[..]);
        c := CountCancelled(a, b, d, n, x, y);
      } else {
        c := 1;
        FarApart(x, y, d, n);
      }
    } else {
      c := 0;
      assert Pow2(1) == 2 by { Pow2Values(); }
    }
  }

  /** The limbs that bf_add_internal keeps: all of them, or enough for prec + 2 bits after the cancelled ones. */
  lemma KeptLimbs(c: nat, prec: int, n: nat, len: nat)
    requires prec >= 1 && n >= 1
    requires len == (var l := (c + prec + 2 + LIMB_BITS - 1) / LIMB_BITS; if 0 <= l < n then l else n)
    ensures 1 <= len <= n && (len < n ==> c + prec + 2 <= len * LIMB_BITS)
  {
    var x := c + prec + 2 + LIMB_BITS - 1;
    var q := x / LIMB_BITS;
    DivMod(x, LIMB_BITS);
    if q <= 0 { MulMono(q, 0, LIMB_BITS); }
  }

  /** They hold at least prec + 2 bits of the result. */
  lemma KeptBits(z: int, n: nat, len: nat, c: nat, prec: int)
    requires 1 <= len <= n && Pow(n) <= z * Pow2(c + 1) && prec >= 1 && c + prec + 2 <= len * LIMB_BITS
    ensures Pow2(prec + 1) <= z / Pow(n - len)
  {
    hide Pow, Pow2, B;
    var w := n - len;
    PowBits(n);
    PowBits(w);
    MulSub(n, len, LIMB_BITS);
    MulNonNeg(w, LIMB_BITS);
    var m := n * LIMB_BITS - (c + 1);
    Pow2Add(m, c + 1);
    Cancel(Pow2(m), z, Pow2(c + 1));
    Pow2Mono(prec + 1 + w * LIMB_BITS, m);
    Pow2Add(prec + 1, w * LIMB_BITS);
    DivMod(z, Pow(w));
    if z / Pow(w) < Pow2(prec + 1) {
      MulMono(z / Pow(w) + 1, Pow2(prec + 1), Pow(w));
      MulAdd(z / Pow(w), 1, Pow(w));
    }
  }

  /** Both loops of bf_add_internal: the high limbs of the sum, a sticky bit, and a limb for the carry. */
  method SumLimbs(a: array<nat>, b: array<nat>, d: nat, sub: bool, n: nat, len: nat) returns (t: array<nat>)
    requires IsLimbs(a[..]) && IsLimbs(b[..]) && a.Length * LIMB_BITS + 0 <= n * LIMB_BITS
    requires b.Length * LIMB_BITS + d <= n * LIMB_BITS && 1 <= len <= n
    requires 0 <= Aligned(a[..], 0, n) < Pow(n) && 0 <= Aligned(b[..], d, n) < Pow(n)
    requires sub ==> Aligned(b[..], d, n) <= Aligned(a[..], 0, n)
    ensures fresh(t) && IsLimbs(t[..]) && len <= t.Length <= len + 1
    ensures var z := Combine(Aligned(a[..], 0, n), Aligned(b[..], d, n), sub);
      Val(t[..]) == Sticky(z / Pow(n - len), z % Pow(n - len) != 0)
  {
    hide Val, Pow, Pow2, B, IsLimbs, Aligned, Combine, Sticky, CarryInto;
    Base();
    ghost var x, y := Aligned(a[..], 0, n), Aligned(b[..], d, n);
    ghost var z, p := Combine(x, y, sub), Pow(n - len);
    var c, lost := LowPart(a, b, d, sub, n, len);
    t, c := HighPart(a, b, d, sub, n, len, c);
    LastCarry(x, y, sub, n, len, c);
    CarrySmall(x, y, sub, n, c);
    ghost var q := z / p;
    NotSticky(Val(t[..]));
    if lost { SetLowBit(t); }
    StickyPlus(q % Pow(len), (if sub then 0 else c) * Pow(len), lost, len, if sub then 0 else c);
    if !sub && c != 0 {
      var u := new nat[len + 1];
      Copy(u, 0, t, 0, len);
      u[len] := 1;
      assert t[0..0 + len] == t[..] && u[..] == t[..] + [1];
      ValPush(t[..], 1);
      OneLimb(1);
      LimbsAppend(t[..], [1]);
      t := u;
    }
  }

  lemma StickyPlus(q: int, m: int, lost: bool, len: nat, c: int)
    requires len >= 1 && m == c * Pow(len)
    ensures Sticky(q, lost) + m == Sticky(q + m, lost)
  {
    hide Pow, B, Sticky;
    EvenPower(len, c);
    StickyEven(q, m, lost);
  }

  lemma StickyEven(q: int, m: int, lost: bool)
    requires m % 2 == 0
    ensures Sticky(q, lost) + m == Sticky(q + m, lost)
  {}

  lemma EvenPower(len: nat, c: int)
    requires len >= 1
    ensures (c * Pow(len)) % 2 == 0
  {
    hide Pow, B;
    Base();
    PowStep(len - 1);
    EvenProduct2(B, Pow(len - 1), c);
  }

  lemma EvenProduct2(b: int, p: int, c: int)
    requires b % 2 == 0
    ensures (c * (b * p)) % 2 == 0
  {
    var m := b / 2;
    assert b == 2 * m;
    MulAssoc(2, m, p);
    Shuffle(c, 2, m * p);
    MulAssoc(2, c, m * p);
  }

  /** The sum or difference of a > b rounded once, in units of 2^f where f is the place of the lowest limb. */
  method AddFinite(r: BigFloat, a: BigFloat, b: BigFloat, sign: bool, sub: bool, prec: int,
      flags: Flags) returns (st: Status, ghost e: int, ghost units: int)
    requires r != a && r != b && NormalForm(a.tab[..]) && NormalForm(b.tab[..]) && a.expn >= b.expn
    requires prec >= 1 && flags.expBits >= 1 && !flags.radixPoint
    requires sub && a.expn == b.expn ==> var n := Max(a.tab.Length, b.tab.Length);
      Padded(b.tab[..], n) < Padded(a.tab[..], n)
    modifies r
    ensures r.sign == sign && fresh(r.tab)
    ensures var d := a.expn - b.expn;
      var z, f, p := AlignedSum(a.tab[..], b.tab[..], d, sub),
        a.expn - TotalLength(a.tab.Length, b.tab.Length, d) * LIMB_BITS, RoundPrec(prec, flags, e);
      && HasExponent(z, f, e) && RoundsTo(flags.mode, sign, z, e - p - f, units)
      && r.Outcome(prec, flags, NO_STATUS, st, e, units, SameValue(units, e - p, z, f))
  {
    hide Val, Pow, Pow2, B, IsLimbs, Aligned, Combine, Sticky, NormalForm, HasExponent, RoundsTo, BigFloat.Outcome,
      SameValue, RoundPrec, Padded, TotalLength;
    var d := a.expn - b.expn;
    var n := TotalLength(a.tab.Length, b.tab.Length, d);
    TotalFits(a.tab.Length, b.tab.Length, d);
    ghost var x, y := Aligned(a.tab[..], 0, n), Aligned(b.tab[..], d, n);
    NormalParts(a.tab[..]);
    NormalParts(b.tab[..]);
    OperandRange(a.tab[..], b.tab[..], d, n);
    LargerFirst(a.tab[..], b.tab[..], d, n, sub);
    ghost var z := Combine(x, y, sub);
    var c := CancelledBits(a.tab, b.tab, d, sub, n);
    var precl := (c + prec + 2 + LIMB_BITS - 1) / LIMB_BITS;
    var len := if 0 <= precl < n then precl else n;
    KeptLimbs(c, prec, n, len);
    var t := SumLimbs(a.tab, b.tab, d, sub, n, len);
    ghost var w := (n - len) * LIMB_BITS;
    ghost var q, rem := z / Pow(n - len), z % Pow(n - len);
    r.sign, r.expn, r.tab := sign, a.expn + (t.Length - len) * LIMB_BITS, t;
    SumFacts(z, n, len, c, prec);
    StickyPositive(q, rem != 0);
    st, e, units := NormalizeAndRound(r, prec, flags);
    ghost var f := a.expn - len * LIMB_BITS;
    MulSub(t.Length, len, LIMB_BITS);
    MulSub(n, len, LIMB_BITS);
    PrecAtMost(prec, flags, e);
    if rem != 0 { EnoughSum(q, rem != 0, f, e, prec); }
    TruncatedRounds(flags.mode, sign, z, q, rem, w, f, e, RoundPrec(prec, flags, e), units);
  }

  /** A larger exponent or a larger mantissa makes a larger number. */
  lemma LargerFirst(a: seq<nat>, b: seq<nat>, d: nat, n: nat, sub: bool)
    requires |a| <= n && |b| <= n && |a| * LIMB_BITS + 0 <= n * LIMB_BITS && |b| * LIMB_BITS + d <= n * LIMB_BITS
    requires n * LIMB_BITS - d >= 0 && Pow(n) <= 2 * Aligned(a, 0, n) && Aligned(b, d, n) < Pow2(n * LIMB_BITS - d)
    requires sub && d == 0 ==> n == Max(|a|, |b|) && Padded(b, n) < Padded(a, n)
    ensures sub ==> Aligned(b, d, n) < Aligned(a, 0, n)
  {
    hide Val, Pow, Pow2, B, Aligned;
    if d >= 1 {
      PowBits(n);
      Pow2Mono(n * LIMB_BITS - d, n * LIMB_BITS - 1);
      Pow2Step(n * LIMB_BITS - 1);
    }
  }

  lemma SumFacts(z: int, n: nat, len: nat, c: nat, prec: int)
    requires 1 <= len <= n && prec >= 1 && Pow(n) <= z * Pow2(c + 1) && (len < n ==> c + prec + 2 <= len * LIMB_BITS)
    ensures var q, rem, w := z / Pow(n - len), z % Pow(n - len), (n - len) * LIMB_BITS;
      w >= 0 && z == q * Pow2(w) + rem && 0 <= rem < Pow2(w) && 0 < q && (rem != 0 ==> Pow2(prec + 1) <= q)
  {
    hide Pow, Pow2, B;
    PowBits(n - len);
    MulNonNeg(n - len, LIMB_BITS);
    DivMod(z, Pow(n - len));
    if len < n {
      KeptBits(z, n, len, c, prec);
    } else {
      PowZero();
      DivUnique(z, 1, z, 0);
      if z <= 0 { MulMono(z, 0, Pow2(c + 1)); }
    }
  }

  lemma EnoughSum(q: int, lost: bool, f: int, e: int, prec: int)
    requires prec >= 1 && Pow2(prec + 1) <= q && HasExponent(Sticky(q, lost), f, e)
    ensures 2 <= q && e - f >= prec + 2
  {
    hide Pow2;
    Pow2Mono(1, prec + 1);
    Pow2Values();
    StickySameBits(q, lost, e - f);
    if e - f <= prec + 1 { Pow2Mono(e - f, prec + 1); }
  }

  // ----- bf_add_internal -----

  function Lower(x: int, y: int): int {
    if x < y then x else y
  }

  /** ma * 2^fa plus or minus mb * 2^fb, in units of the lower of the two places. */
  ghost function ExactSum(ma: int, fa: int, mb: int, fb: int, sub: bool): int {
    var g := Lower(fa, fb);
    Combine(ma * Pow2(fa - g), mb * Pow2(fb - g), sub)
  }

  lemma CombineScaled(x: int, y: int, sub: bool, c: int)
    ensures Combine(x * c, y * c, sub) == Combine(x, y, sub) * c
  {
    if sub { MulSub(x, y, c); } else { MulAdd(x, y, c); }
  }

  lemma NaturalSum(a: seq<nat>, b: seq<nat>, ea: int, eb: int, sub: bool)
    requires ea >= eb
    ensures var d := ea - eb;
      var fa, fb, f := ea - |a| * LIMB_BITS, eb - |b| * LIMB_BITS, ea - TotalLength(|a|, |b|, d) * LIMB_BITS;
      f <= Lower(fa, fb) && AlignedSum(a, b, d, sub) == ExactSum(Val(a), fa, Val(b), fb, sub) * Pow2(Lower(fa, fb) - f)
  {
    hide Val, Pow, Pow2, Combine, Aligned, TotalLength;
    var d := ea - eb;
    var n := TotalLength(|a|, |b|, d);
    var fa, fb, f := ea - |a| * LIMB_BITS, eb - |b| * LIMB_BITS, ea - n * LIMB_BITS;
    TotalFits(|a|, |b|, d);
    var g := Lower(fa, fb);
    AlignedNatural(a, 0, n, fa - g, g - f);
    AlignedNatural(b, d, n, fb - g, g - f);
    CombineScaled(Val(a) * Pow2(fa - g), Val(b) * Pow2(fb - g), sub, Pow2(g - f));
  }

  lemma AlignedNatural(t: seq<nat>, d: int, n: nat, u: nat, v: nat)
    requires |t| * LIMB_BITS + d <= n * LIMB_BITS && n * LIMB_BITS - |t| * LIMB_BITS - d == u + v
    ensures Aligned(t, d, n) == (Val(t) * Pow2(u)) * Pow2(v)
  {
    hide Val, Pow2;
    Pow2Add(u, v);
    FactorOut(Val(t), Pow2(u), Pow2(v), Pow2(u + v));
  }

  /** z * 2^g rounded once to the places of prec bits. */
  ghost predicate SumRounded(mode: Mode, neg: bool, z: int, g: int, e: int, prec: int, units: int) {
    HasExponent(z, g, e) && RoundsTo(mode, neg, z, e - prec - g, units)
  }

  lemma SumUnits(mode: Mode, neg: bool, z: int, g: int, f: int, e: int, prec: int, units: int)
    requires f <= g && SumRounded(mode, neg, z * Pow2(g - f), f, e, prec, units)
    ensures SumRounded(mode, neg, z, g, e, prec, units)
    ensures SameValue(units, e - prec, z * Pow2(g - f), f) <==> SameValue(units, e - prec, z, g)
  {
    hide Pow2, RoundsTo, SameValue, HasExponent;
    var s := g - f;
    PlacesLeft(z, s, f, e);
    ExponentScaled(z, g, e, s);
    RoundsScaled(mode, neg, z, e - prec - g, s, units);
    LosslessScaled(units, e - prec, z, s, g);
  }

  lemma PlacesLeft(z: int, s: nat, f: int, e: int)
    requires HasExponent(z * Pow2(s), f, e)
    ensures e - f - s >= 1
  {
    hide Pow2;
    if z <= 0 { MulMono(z, 0, Pow2(s)); }
    MulMono(1, z, Pow2(s));
    if e - f <= s { Pow2Mono(e - f, s); }
  }

  /** Finite operands, the larger first: the exact result rounded once. */
  method AddOrdered(r: BigFloat, a: BigFloat, b: BigFloat, sign: bool, sub: bool, prec: int,
      flags: Flags) returns (st: Status, ghost e: int, ghost units: int)
    requires r != a && r != b && NormalForm(a.tab[..]) && NormalForm(b.tab[..]) && a.expn >= b.expn
    requires prec >= 1 && flags.expBits >= 1 && !flags.radixPoint
    requires sub && a.expn == b.expn ==> var n := Max(a.tab.Length, b.tab.Length);
      Padded(b.tab[..], n) < Padded(a.tab[..], n)
    modifies r
    ensures r.sign == sign && fresh(r.tab)
    ensures var fa, fb, p := a.expn - a.tab.Length * LIMB_BITS, b.expn - b.tab.Length * LIMB_BITS,
      RoundPrec(prec, flags, e);
      var z, g := ExactSum(Val(a.tab[..]), fa, Val(b.tab[..]), fb, sub), Lower(fa, fb);
      SumRounded(flags.mode, sign, z, g, e, p, units) &&
        r.Outcome(prec, flags, NO_STATUS, st, e, units, SameValue(units, e - p, z, g))
  {
    hide Val, Pow, Pow2, B, AlignedSum, ExactSum, NormalForm, HasExponent, RoundsTo, BigFloat.Outcome, SameValue,
      RoundPrec, Padded, TotalLength;
    st, e, units := AddFinite(r, a, b, sign, sub, prec, flags);
    ghost var fa, fb, p := a.expn - a.tab.Length * LIMB_BITS, b.expn - b.tab.Length * LIMB_BITS,
      RoundPrec(prec, flags, e);
    ghost var f := a.expn - TotalLength(a.tab.Length, b.tab.Length, a.expn - b.expn) * LIMB_BITS;
    NaturalSum(a.tab[..], b.tab[..], a.expn, b.expn, sub);
    SumUnits(flags.mode, sign, ExactSum(Val(a.tab[..]), fa, Val(b.tab[..]), fb, sub), Lower(fa, fb), f, e, p, units);
  }

  /** The sum of two numbers given by sign and magnitude. */
  ghost function SignedSum(sa: bool, ma: int, fa: int, sb: bool, mb: int, fb: int): int {
    var g := Lower(fa, fb);
    (if sa then -(ma * Pow2(fa - g)) else ma * Pow2(fa - g)) + (if sb then -(mb * Pow2(fb - g)) else mb * Pow2(fb - g))
  }

  ghost function Abs(x: int): int {
    if x < 0 then -x else x
  }

  lemma SignedSumOrdered(sa: bool, ma: int, fa: int, sb: bool, mb: int, fb: int)
    ensures SignedSum(sa, ma, fa, sb, mb, fb) == (if sa then -1 else 1) * ExactSum(ma, fa, mb, fb, sa != sb)
    ensures SignedSum(sa, ma, fa, sb, mb, fb) == (if sb then -1 else 1) * ExactSum(mb, fb, ma, fa, sa != sb)
  {
    hide Pow2;
  }

  lemma SumPositive(mode: Mode, neg: bool, z: int, g: int, e: int, prec: int, units: int)
    requires SumRounded(mode, neg, z, g, e, prec, units)
    ensures z > 0
  {}

  /** Equal exponents and equal mantissas, of whatever length, are equal magnitudes. */
  lemma EqualMagnitudes(a: seq<nat>, b: seq<nat>, e: int)
    requires var n := Max(|a|, |b|); Padded(a, n) == Padded(b, n)
    ensures ExactSum(Val(a), e - |a| * LIMB_BITS, Val(b), e - |b| * LIMB_BITS, true) == 0
  {
    hide Val, Pow, Pow2, Combine, AlignedSum, Aligned, TotalLength;
    NaturalSum(a, b, e, e, true);
    TotalFits(|a|, |b|, 0);
    var fa, fb, f := e - |a| * LIMB_BITS, e - |b| * LIMB_BITS, e - TotalLength(|a|, |b|, 0) * LIMB_BITS;
    var z := ExactSum(Val(a), fa, Val(b), fb, true);
    assert AlignedSum(a, b, 0, true) == 0 by { AlignedEqual(a, b); }
    SameFactor(z, 0, Pow2(Lower(fa, fb) - f));
  }

  lemma AlignedEqual(a: seq<nat>, b: seq<nat>)
    requires var n := Max(|a|, |b|); Padded(a, n) == Padded(b, n)
    ensures AlignedSum(a, b, 0, true) == 0
  {
    hide Aligned, TotalLength;
    TotalFits(|a|, |b|, 0);
  }

  /** The signed sum of two finite numbers that do not cancel, c telling which is larger. */
  method AddCompared(r: BigFloat, a: BigFloat, b: BigFloat, sa: bool, sb: bool, c: int, prec: int,
      flags: Flags) returns (st: Status, ghost e: int, ghost units: int)
    requires r != a && r != b && NormalForm(a.tab[..]) && NormalForm(b.tab[..]) && prec >= 1 && flags.expBits >= 1
    requires !flags.radixPoint
    requires (c < 0 ==> a.expn <= b.expn) && (c >= 0 ==> a.expn >= b.expn) && (c == 0 ==> sa == sb)
    requires a.expn == b.expn ==> var n := Max(a.tab.Length, b.tab.Length);
      c == Sign(Padded(a.tab[..], n) - Padded(b.tab[..], n))
    modifies r
    ensures fresh(r.tab)
    ensures var fa, fb, p := a.expn - a.tab.Length * LIMB_BITS, b.expn - b.tab.Length * LIMB_BITS,
      RoundPrec(prec, flags, e);
      var z, g := SignedSum(sa, Val(a.tab[..]), fa, sb, Val(b.tab[..]), fb), Lower(fa, fb);
      && z != 0 && r.sign == (z < 0) && SumRounded(flags.mode, r.sign, Abs(z), g, e, p, units)
      && r.Outcome(prec, flags, NO_STATUS, st, e, units, SameValue(units, e - p, Abs(z), g))
  {
    hide Val, Pow, Pow2, B, BigFloat.Outcome, RoundPrec, SumRounded, NormalForm, SignedSum, ExactSum, Padded, SameValue;
    var x, y := if c < 0 then b else a, if c < 0 then a else b;
    var sign := if c < 0 then sb else sa;
    st, e, units := AddOrdered(r, x, y, sign, sa != sb, prec, flags);
    ghost var fa, fb := a.expn - a.tab.Length * LIMB_BITS, b.expn - b.tab.Length * LIMB_BITS;
    SignedSumOrdered(sa, Val(a.tab[..]), fa, sb, Val(b.tab[..]), fb);
    ghost var fx, fy := x.expn - x.tab.Length * LIMB_BITS, y.expn - y.tab.Length * LIMB_BITS;
    ghost var sum := ExactSum(Val(x.tab[..]), fx, Val(y.tab[..]), fy, sa != sb);
    SumPositive(flags.mode, sign, sum, Lower(fx, fy), e, RoundPrec(prec, flags, e), units);
  }

  /** Copies a, with another sign, and rounds it. */
  method RoundCopy(r: BigFloat, a: BigFloat, sign: bool, prec: int, flags: Flags) returns (st: Status, ghost e: int,
      ghost units: int)
    requires r != a && IsLimbs(a.tab[..]) && prec >= 1 && flags.expBits >= 1 && !flags.radixPoint
    modifies r
    ensures r.sign == sign && fresh(r.tab)
    ensures Val(a.tab[..]) == 0 ==> r.IsZero() && st == NO_STATUS
    ensures Val(a.tab[..]) != 0 ==> var m, f, p := Val(a.tab[..]), a.expn - a.tab.Length * LIMB_BITS,
      RoundPrec(prec, flags, e);
      SumRounded(flags.mode, sign, m, f, e, p, units) &&
        r.Outcome(prec, flags, NO_STATUS, st, e, units, SameValue(units, e - p, m, f))
  {
    hide Val, Pow, Pow2, B, IsLimbs, HasExponent, RoundsTo, BigFloat.Outcome, SameValue, RoundPrec;
    var t := new nat[a.tab.Length];
    Copy(t, 0, a.tab, 0, a.tab.Length);
    assert t[0..0 + a.tab.Length] == t[..] && a.tab[0..0 + a.tab.Length] == a.tab[..];
    r.sign, r.expn, r.tab := sign, a.expn, t;
    st, e, units := NormalizeAndRound(r, prec, flags);
  }

  ghost predicate IsFinite(a: BigFloat)
    reads a, a.tab
  {
    a.IsZero() || Operand(a)
  }

  /**
  bf_add_internal: a + b, or a - b when negate is set. The special values, a
  zero of the sign that the mode asks for when the operands cancel, and
  otherwise the exact result rounded once.
  */
  method Add(r: BigFloat, a: BigFloat, b: BigFloat, prec: int, flags: Flags, negate: bool) returns (st: Status,
      ghost e: int, ghost units: int)
    requires r != a && r != b && Valid(a) && Valid(b) && prec >= 1 && flags.expBits >= 1 && !flags.radixPoint
    modifies r
    ensures fresh(r.tab)
    ensures a.IsNaN() || b.IsNaN() ==> r.IsNaN() && st == NO_STATUS
    ensures a.IsInf() && b.IsInf() ==>
      if a.sign == (b.sign != negate) then r.IsInf() && r.sign == a.sign && st == NO_STATUS
      else r.IsNaN() && st == NO_STATUS.(invalid := true)
    ensures a.IsInf() && IsFinite(b) ==> r.IsInf() && r.sign == a.sign && st == NO_STATUS
    ensures IsFinite(a) && b.IsInf() ==> r.IsInf() && r.sign == (b.sign != negate) && st == NO_STATUS
    ensures a.IsZero() && b.IsZero() ==>
      && r.IsZero() && st == NO_STATUS
      && r.sign == if a.sign == (b.sign != negate) then a.sign else flags.mode == RNDD
    ensures Operand(a) && b.IsZero() ==> var m, f, p := Val(a.tab[..]), a.expn - a.tab.Length * LIMB_BITS,
      RoundPrec(prec, flags, e);
      r.sign == a.sign && SumRounded(flags.mode, r.sign, m, f, e, p, units) &&
        r.Outcome(prec, flags, NO_STATUS, st, e, units, SameValue(units, e - p, m, f))
    ensures a.IsZero() && Operand(b) ==> var m, f, p := Val(b.tab[..]), b.expn - b.tab.Length * LIMB_BITS,
      RoundPrec(prec, flags, e);
      r.sign == (b.sign != negate) && SumRounded(flags.mode, r.sign, m, f, e, p, units) &&
        r.Outcome(prec, flags, NO_STATUS, st, e, units, SameValue(units, e - p, m, f))
    ensures Operand(a) && Operand(b) ==>
      var fa, fb, p := a.expn - a.tab.Length * LIMB_BITS, b.expn - b.tab.Length * LIMB_BITS, RoundPrec(prec, flags, e);
      var z, g := SignedSum(a.sign, Val(a.tab[..]), fa, b.sign != negate, Val(b.tab[..]), fb), Lower(fa, fb);
      if z == 0 then r.IsZero() && r.sign == (flags.mode == RNDD) && st == NO_STATUS
      else
        && r.sign == (z < 0) && SumRounded(flags.mode, r.sign, Abs(z), g, e, p, units)
        && r.Outcome(prec, flags, NO_STATUS, st, e, units, SameValue(units, e - p, Abs(z), g))
  {
    hide Val, Pow, Pow2, B, BigFloat.Outcome, RoundPrec, SumRounded, NormalForm, SignedSum, ExactSum, Padded, SameValue,
      EXP_ZERO, EXP_INF, EXP_NAN;
    Exponents();
    ValidLimbs(a);
    ValidLimbs(b);
    var sa, sb := a.sign, b.sign != negate;
    var sub := sa != sb;
    st, e, units := NO_STATUS, 0, 0;
    assert a.tab.Length == 0 && b.tab.Length == 0 ==> a.tab[..] == b.tab[..];
    var c := CmpU(a, b);
    var x, y := if c < 0 then b else a, if c < 0 then a else b;
    var sign := if c < 0 then sb else sa;
    if c == 0 && sub && x.expn < EXP_INF {
      r.SetZero(flags.mode == RNDD);
      if Operand(a) {
        EqualMagnitudes(a.tab[..], b.tab[..], a.expn);
        ghost var fa, fb := a.expn - a.tab.Length * LIMB_BITS, b.expn - b.tab.Length * LIMB_BITS;
        SignedSumOrdered(sa, Val(a.tab[..]), fa, sb, Val(b.tab[..]), fb);
      }
    } else if x.tab.Length == 0 || y.tab.Length == 0 {
      if x.expn >= EXP_INF {
        if x.expn == EXP_NAN {
          r.SetNaN();
        } else if y.expn == EXP_INF && sub {
          r.SetNaN();
          st := INVALID;
        } else {
          r.SetInf(sign);
        }
      } else {
        st, e, units := RoundCopy(r, x, sign, prec, flags);
      }
    } else {
      st, e, units := AddCompared(r, a, b, sa, sb, c, prec, flags);
    }
  }

  lemma ValidLimbs(a: BigFloat)
    requires Valid(a)
    ensures IsLimbs(a.tab[..]) && (Operand(a) <==> a.tab.Length >= 1) && (Operand(a) ==> Val(a.tab[..]) > 0)
    ensures (a.tab.Length == 0 ==> Val(a.tab[..]) == 0)
  {
    hide Val, Pow, Pow2, B, NormalForm;
    if Operand(a) { NormalParts(a.tab[..]); } else { ValEmpty(); }
  }
}
