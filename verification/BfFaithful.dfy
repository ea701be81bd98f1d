/**
Faithful rounding of products (libbf.c: bf_mul with BF_RNDF). Only the high limbs
of the operands are multiplied, enough for prec + 2 bits. The result is one of the
two neighbours of the exact product for all operands exactly when there is at
least one bit more: when prec + 2 is not a multiple of the limb size, or the result
is subnormal and has fewer than prec places.
*/
module BfFaithful {
  import opened Limb
  import opened MpBasic
  import opened MpReciprocal
  import opened MpLarge
  import opened Newton
  import opened BfBits
  import opened Rounding
  import opened BfRound
  import opened BfFloat
  import opened BfDivide
  import opened BfAdd
  import opened BfMul

  // ----- the operands and what is kept of them -----

  /** The bits of an operand that are left out. */
  ghost function LeftOut(prec: int, t: seq<nat>): (p: nat)
    requires prec >= 1 && |t| >= 1
  {
    KeptRange(RNDF, prec, |t|);
    MulNonNeg(|t| - Kept(RNDF, prec, |t|), LIMB_BITS);
    (|t| - Kept(RNDF, prec, |t|)) * LIMB_BITS
  }

  /**
  What bf_mul makes of the mantissas at the precision prec: their kept parts
  multiplied and rounded to places bits, fewer than prec for a subnormal result.
  */
  ghost predicate TruncatedTo(t: seq<nat>, u: seq<nat>, prec: int, places: int, g: int, e: int, units: int)
    requires prec >= 1 && |t| >= 1 && |u| >= 1
  {
    SumRounded(RNDF, false, Factor(RNDF, prec, t) * Factor(RNDF, prec, u), g, e, places, units)
  }

  /** units places of 2^k of the truncated product are a neighbour of the exact product. */
  ghost predicate ProductFaithful(t: seq<nat>, u: seq<nat>, prec: int, k: int, units: int)
    requires prec >= 1 && |t| >= 1 && |u| >= 1
  {
    var w, z := LeftOut(prec, t) + LeftOut(prec, u), Val(t) * Val(u);
    if k + w >= 1 then Faithful(Ratio(z, Pow2(k + w)), units) else units == Units(z, k + w)
  }

  /** An operand is its kept part and something below it. */
  lemma Parts(prec: int, t: seq<nat>)
    requires prec >= 1 && NormalForm(t)
    ensures var f, p := Factor(RNDF, prec, t), Pow2(LeftOut(prec, t)); f * p <= Val(t) < (f + 1) * p
    ensures LeftOut(prec, t) == 0 ==> Factor(RNDF, prec, t) == Val(t)
  {
    hide Val, Pow, Pow2, Kept, IsLimbs, MpDigit.Normalised;
    KeptRange(RNDF, prec, |t|);
    var l := |t| - Kept(RNDF, prec, |t|);
    PowBits(l);
    ValSplit(t, l);
    LimbsSlice(t, 0, l);
    assert t[0..l] == t[..l];
    ValBound(t[..l]);
    MulAdd(Factor(RNDF, prec, t), 1, Pow(l));
    if LeftOut(prec, t) == 0 {
      if l > 0 { MulPos(l, LIMB_BITS); }
      assert t[0..] == t;
    }
  }

  /** A truncated operand keeps `kept` limbs, the first of them normalised; the other one has no more. */
  lemma KeptBelow(prec: int, t: seq<nat>)
    requires prec >= 1 && NormalForm(t)
    ensures var f, n := Factor(RNDF, prec, t), (prec + 2 + LIMB_BITS - 1) / LIMB_BITS;
      n >= 1 && 1 <= f && (LeftOut(prec, t) > 0 ==> Pow(n) <= 2 * f)
  {
    hide Val, Pow, Pow2, IsLimbs, B;
    LimbsEnough(prec);
    KeptRange(RNDF, prec, |t|);
    FactorPositive(RNDF, prec, t);
    var l := |t| - Kept(RNDF, prec, |t|);
    var s: seq<nat> := t[l..];
    if LeftOut(prec, t) > 0 {
      LimbsSlice(t, l, |t|);
      assert t[l..|t|] == s && s[|s| - 1] == t[|t| - 1];
      MpDivide.NormalisedValue(s);
    }
  }

  // ----- enough bits -----

  lemma BitsToSpare(prec: int)
    requires prec >= 1
    ensures var n := (prec + 2 + LIMB_BITS - 1) / LIMB_BITS;
      n >= 1 && n * LIMB_BITS >= prec + 2 && (n * LIMB_BITS == prec + 2 <==> (prec + 2) % LIMB_BITS == 0)
  {
    var n := (prec + 2 + LIMB_BITS - 1) / LIMB_BITS;
    LimbsEnough(prec);
    DivMod(prec + 2 + LIMB_BITS - 1, LIMB_BITS);
    DivMod(prec + 2, LIMB_BITS);
    if n * LIMB_BITS == prec + 2 { DivUnique(prec + 2, LIMB_BITS, n, 0); }
    if (prec + 2) % LIMB_BITS == 0 {
      var m := (prec + 2) / LIMB_BITS;
      DivUnique(prec + 2 + LIMB_BITS - 1, LIMB_BITS, m, LIMB_BITS - 1);
    }
  }

  /** A product that exceeds its truncation by less than half a place. */
  lemma NearbyFaithful(z: int, k: nat, units: int, w: nat, exact: int)
    requires k >= 1 && IsRounded(RNDF, false, Ratio(z, Pow2(k)), units)
    requires z * Pow2(w) <= exact && 2 * exact < 2 * (z * Pow2(w)) + Pow2(k + w)
    ensures Faithful(Ratio(exact, Pow2(k + w)), units)
  {
    hide Pow2;
    Pow2Add(k, w);
    NearbyCore(z, Pow2(k), Pow2(w), Pow2(k + w), units, exact);
  }

  lemma NearbyCore(z: int, p: int, c: int, m: int, u: int, exact: int)
    requires 0 < p && 0 < c && m == p * c && z * c <= exact && 2 * exact < 2 * (z * c) + m
    requires Sign(2 * z - (2 * u - 1) * p) >= 0 && Sign(2 * z - (2 * u + 1) * p) < 0
    ensures Faithful(Ratio(exact, m), u)
  {
    MulMono((2 * u - 1) * p, 2 * z, c);
    MulStrict(2 * z, (2 * u + 1) * p, c);
    MulAssoc(2 * u - 1, p, c);
    MulAssoc(2 * u + 1, p, c);
    MulAssoc(2, z, c);
    MulAdd(2 * u, 1, m);
    MulSub(2 * u, 1, m);
    MulAdd(2 * u, 2, m);
    MulSub(2 * u, 2, m);
    MulPos(p, c);
  }

  /** Against a truncated factor a of at least prec + 3 bits, the other one is small in terms of the place. */
  lemma SmallError(a: int, u: int, bits: nat, prec: int, n: int, k: int)
    requires bits >= prec + 3 && k == n - prec && 1 <= n && 1 <= a && 1 <= u && a * u < Pow2(n)
    requires Pow2(bits) <= 2 * a
    ensures k >= 2 && 4 * (u + 1) <= Pow2(k)
  {
    hide Pow2;
    SmallCore(a, u, Pow2(bits), Pow2(n));
    Pow2Step(n);
    if n + 1 <= bits { Pow2Mono(n + 1, bits); }
    Pow2Add(n + 1 - bits, bits);
    CancelStrict(u, Pow2(n + 1 - bits), Pow2(bits));
    Pow2Mono(n + 1 - bits, k - 2);
    Pow2Step(k - 2);
    Pow2Step(k - 1);
  }

  lemma SmallCore(a: int, u: int, p: int, q: int)
    requires 0 < p <= 2 * a && 1 <= u && a * u < q
    ensures u * p < 2 * q && p < 2 * q
  {
    MulMono(p, 2 * a, u);
    MulAssoc(2, a, u);
    MulMono(1, u, p);
    MulComm(u, p);
  }

  lemma ProductAbove(a: int, p: int, t: int, u: int, q: int, v: int)
    requires 0 < p && 0 < q && 1 <= a && 1 <= u && a * p <= t < (a + 1) * p && u * q <= v < (u + 1) * q
    ensures (a * u) * (p * q) <= t * v < (a * u + a + u + 1) * (p * q)
    ensures t == a * p ==> t * v < (a * u + a) * (p * q)
    ensures v == u * q ==> t * v < (a * u + u) * (p * q)
  {
    FourFactors(a, u, p, q);
    FourFactors(a + 1, u + 1, p, q);
    FourFactors(a, u + 1, p, q);
    FourFactors(a + 1, u, p, q);
    MulAdd(a, 1, u + 1);
    MulAdd(u, 1, a);
    MulAdd(a, 1, u);
    MulPos(a, p);
    MulPos(u, q);
    MulMono(a * p, t, u * q);
    MulMono(u * q, v, t);
    MulStrict(t, (a + 1) * p, u * q);
    MulStrict(v, (u + 1) * q, a * p);
    MulStrict(v, (u + 1) * q, t);
    MulStrict(t, (a + 1) * p, (u + 1) * q);
  }

  /** With at least three bits more than there are places the truncated product is close enough. */
  lemma EnoughIsFaithful(t: seq<nat>, u: seq<nat>, prec: int, places: int, g: int, e: int, units: int)
    requires prec >= 1 && places <= prec && NormalForm(t) && NormalForm(u)
    requires places < prec || (prec + 2) % LIMB_BITS != 0
    requires TruncatedTo(t, u, prec, places, g, e, units)
    ensures ProductFaithful(t, u, prec, e - places - g, units)
  {
    NormalLength(t);
    NormalLength(u);
    hide Val, Pow, Pow2, NormalForm, LeftOut, Factor, Faithful, IsRounded, Ratio, Coherent;
    var a, f, p, q := Factor(RNDF, prec, t), Factor(RNDF, prec, u), LeftOut(prec, t), LeftOut(prec, u);
    var k, n := e - places - g, (prec + 2 + LIMB_BITS - 1) / LIMB_BITS;
    Parts(prec, t);
    Parts(prec, u);
    KeptBelow(prec, t);
    KeptBelow(prec, u);
    if p == 0 && q == 0 {
      if k >= 1 {
        RatioCoherent(a * f, Pow2(k));
        RoundedFaithful(RNDF, false, Ratio(a * f, Pow2(k)), units);
      }
    } else {
      BitsToSpare(prec);
      PowBits(n);
      if p > 0 { SmallError(a, f, n * LIMB_BITS, places, e - g, k); }
      if q > 0 { MulComm(a, f); SmallError(f, a, n * LIMB_BITS, places, e - g, k); }
      Pow2Zero();
      CloseProduct(a, p, Val(t), f, q, Val(u), k);
      NearbyFaithful(a * f, k, units, p + q, Val(t) * Val(u));
    }
  }

  lemma CloseProduct(a: int, p: nat, t: int, f: int, q: nat, u: int, k: nat)
    requires 1 <= a && 1 <= f && a * Pow2(p) <= t < (a + 1) * Pow2(p) && f * Pow2(q) <= u < (f + 1) * Pow2(q)
    requires (p == 0 ==> t == a * Pow2(p)) && (q == 0 ==> u == f * Pow2(q)) && p + q > 0
    requires (p > 0 ==> 4 * (f + 1) <= Pow2(k)) && (q > 0 ==> 4 * (a + 1) <= Pow2(k))
    ensures var c := Pow2(p + q); (a * f) * c <= t * u && 2 * (t * u) < 2 * ((a * f) * c) + Pow2(k + (p + q))
  {
    hide Pow2;
    Pow2Add(p, q);
    Pow2Add(k, p + q);
    var c := Pow2(p + q);
    ProductAbove(a, Pow2(p), t, f, Pow2(q), u);
    var more := if p == 0 then a else if q == 0 then f else a + f + 1;
    MulAdd(a * f, more, c);
    MulMono(2 * more, Pow2(k), c);
    MulAssoc(2, more, c);
    assert a * f + a + f + 1 == a * f + (a + f + 1);
  }

  // ----- operands on which it fails -----

  /** The n limbs of v. */
  lemma {:induction false} LimbsOf(v: nat, n: nat) returns (s: seq<nat>)
    requires v < Pow(n)
    ensures |s| == n && IsLimbs(s) && Val(s) == v
    decreases n
  {
    hide Val, Pow, B;
    Base();
    if n == 0 {
      PowZero();
      ValEmpty();
      s := [];
    } else {
      PowStep(n - 1);
      DivMod(v, B);
      MulComm(B, Pow(n - 1));
      CancelStrict(v / B, Pow(n - 1), B);
      if v / B < 0 { MulMono(v / B, -1, B); }
      var high := LimbsOf(v / B, n - 1);
      s := [v % B] + high;
      ValLow(s);
      assert s[1..] == high;
      MulComm(B, v / B);
    }
  }

  /** v in n limbs on top of a limb of ones. */
  lemma OverOnes(v: nat, n: nat, prec: int) returns (t: seq<nat>)
    requires n >= 1 && v < Pow(n) <= 2 * v && prec >= 1 && (prec + 2 + LIMB_BITS - 1) / LIMB_BITS == n
    ensures NormalForm(t) && Val(t) == (B - 1) + B * v && Factor(RNDF, prec, t) == v && LeftOut(prec, t) == LIMB_BITS
  {
    hide Val, Pow, B, IsLimbs;
    Base();
    var s := LimbsOf(v, n);
    t := [B - 1] + s;
    assert t[1..] == s;
    ValLow(t);
    TopNormalised(s);
    OneLimb(B - 1);
    LimbsAppend([B - 1], s);
    assert t[|t| - 1] == s[n - 1] && t[|t| - n..] == s;
  }

  /** The two factors and their product, truncated and exact, in powers of p = 2^bits; b is the base of limbs. */
  lemma TrapArithmetic(p: int, h: int, b: int)
    requires p == 2 * h && h >= 0x8000_0000 && b >= 0x1_0000_0000
    ensures var z, exact := (p - 8) * (h + 1), ((b - 1) + b * (p - 8)) * ((b - 1) + b * (h + 1));
      && z == h * p - 3 * p - 8 && 2 * exact > (h - 2) * (2 * p) * (b * b)
  {
    var x, y := p - 7, h + 2;
    MulAdd(1, p - 8, b);
    MulAdd(1, h + 1, b);
    assert (b - 1) + b * (p - 8) == b * x - 1 && (b - 1) + b * (h + 1) == b * y - 1;
    MulSub(p, 8, h + 1);
    MulAdd(h, 1, p);
    TrapExact(p, h, b, x, y);
  }

  lemma TrapExact(p: int, h: int, b: int, x: int, y: int)
    requires p == 2 * h && h >= 0x8000_0000 && b >= 0x1_0000_0000 && x == p - 7 && y == h + 2
    ensures 2 * ((b * x - 1) * (b * y - 1)) > (h - 2) * (2 * p) * (b * b)
  {
    MulSub(b * x, 1, b * y - 1);
    MulSub(b * y, 1, b * x);
    FourFactors(b, b, x, y);
    // (b*x - 1)*(b*y - 1) == (x*y)*(b*b) - b*x - b*y + 1
    MulComm(b * x, b * y);
    assert (b * x) * (b * y) == (x * y) * (b * b) by { FourFactors(b, x, b, y); MulComm(b * b, x * y); }
    MulSub(p, 7, h + 2);
    MulAdd(h, 2, p);
    assert x * y == h * p + 2 * p - 7 * h - 14;
    MulSub(h, 2, 2 * p);
    Shuffle(h, 2, p);
    assert (h - 2) * (2 * p) == 2 * (h * p) - 4 * p;
    // 2*x*y - ((h - 2)*2*p) == p - 28
    MulSub(2 * (x * y), (h - 2) * (2 * p), b * b);
    MulAssoc(2, x * y, b * b);
    MulAssoc(p - 28, b, b);
    MulAdd(x, y, b);
    MulMono(2 * (x + y), (p - 28) * b, b) by { MulMono(0x1_0000_0000, b, p - 28); }
  }

  /** What the code makes of the truncated product. */
  lemma TrapRounds(bits: nat, p: int, h: int, z: int)
    requires bits >= 32 && p == Pow2(bits) && h == Pow2(bits - 1) && z == h * p - 3 * p - 8
    ensures SumRounded(RNDF, false, z, 0, 2 * bits - 1, bits - 2, h / 2 - 2) && h == 2 * Pow2(bits - 2) && p == 2 * h
    ensures h >= 0x8000_0000
  {
    hide Pow2;
    Pow2Step(bits - 1);
    Pow2Step(bits - 2);
    Pow2Mono(32, bits);
    Pow2Values();
    Pow2Add(bits - 1, bits);
    Pow2Add(bits - 1, bits - 1);
    Pow2Step(bits);
    Shuffle(h, 2, h);
    MulMono(0x8000_0000, h, p);
    hide Ratio;
    TrapNearest(p, h, z);
    assert 2 * bits - 1 - (bits - 2) == bits + 1;
  }

  lemma TrapNearest(p: int, h: int, z: int)
    requires p == 2 * h && h >= 0x8000_0000 && h % 2 == 0 && z == h * p - 3 * p - 8
    ensures IsRounded(RNDF, false, Ratio(z, 2 * p), h / 2 - 2)
  {
    var u := h / 2 - 2;
    assert 2 * u - 1 == h - 5 && 2 * u + 1 == h - 3;
    MulSub(h, 5, 2 * p);
    MulSub(h, 3, 2 * p);
    Shuffle(h, 2, p);
  }

  lemma TooFar(exact: int, m: int, h: int)
    requires h % 2 == 0 && 0 < m && 2 * exact > (h - 2) * m
    ensures !Faithful(Ratio(exact, m), h / 2 - 2)
  {
    var u := h / 2 - 2;
    assert 2 * u + 2 == h - 2 && 2 * u == h - 4;
    MulSub(h - 2, 2, m);
  }

  /** One limb more than what is kept on both sides: the result misses the exact product by more than a place. */
  lemma TruncationFails(prec: int) returns (t: seq<nat>, u: seq<nat>, e: int, units: int)
    requires prec >= 1 && (prec + 2) % LIMB_BITS == 0
    ensures NormalForm(t) && NormalForm(u)
    ensures TruncatedTo(t, u, prec, prec, 0, e, units)
    ensures !ProductFaithful(t, u, prec, e - prec, units)
  {
    hide Val, Pow, Pow2, B, NormalForm, Factor, LeftOut, Faithful, Ratio, SumRounded;
    Base();
    BitsToSpare(prec);
    var n, bits := (prec + 2 + LIMB_BITS - 1) / LIMB_BITS, prec + 2;
    PowBits(n);
    MulMono(1, n, LIMB_BITS);
    var p: int, h: int := Pow2(bits), Pow2(bits - 1);
    TrapRounds(bits, p, h, h * p - 3 * p - 8);
    t := OverOnes(p - 8, n, prec);
    u := OverOnes(h + 1, n, prec);
    e, units := 2 * bits - 1, h / 2 - 2;
    TrapProduct(t, u, prec, bits, p, h);
  }

  lemma TrapProduct(t: seq<nat>, u: seq<nat>, prec: int, bits: nat, p: int, h: int)
    requires prec >= 1 && bits == prec + 2 && p == Pow2(bits) && p == 2 * h && h >= 0x8000_0000 && h % 2 == 0
    requires NormalForm(t) && Val(t) == (B - 1) + B * (p - 8)
    requires Factor(RNDF, prec, t) == p - 8 && LeftOut(prec, t) == LIMB_BITS
    requires NormalForm(u) && Val(u) == (B - 1) + B * (h + 1)
    requires Factor(RNDF, prec, u) == h + 1 && LeftOut(prec, u) == LIMB_BITS
    requires SumRounded(RNDF, false, h * p - 3 * p - 8, 0, 2 * bits - 1, prec, h / 2 - 2)
    ensures TruncatedTo(t, u, prec, prec, 0, 2 * bits - 1, h / 2 - 2)
    ensures !ProductFaithful(t, u, prec, 2 * bits - 1 - prec, h / 2 - 2)
  {
    hide Val, Pow, Pow2, B, NormalForm, Factor, LeftOut, Faithful, Ratio, SumRounded;
    Base();
    NormalLength(t);
    NormalLength(u);
    TrapArithmetic(p, h, B);
    TrapScale(bits);
    MulAssoc(h - 2, 2 * p, B * B);
    var w := bits + 1 + (LIMB_BITS + LIMB_BITS);
    TooFar(Val(t) * Val(u), Pow2(w), h);
    assert 2 * bits - 1 - prec + (LIMB_BITS + LIMB_BITS) == w;
  }

  lemma TrapScale(bits: nat)
    ensures Pow2(bits + 1 + (LIMB_BITS + LIMB_BITS)) == (2 * Pow2(bits)) * (B * B)
  {
    hide Pow2, B;
    BfAlign.BasePow2();
    Pow2Step(bits);
    Pow2Add(LIMB_BITS, LIMB_BITS);
    Pow2Add(bits + 1, LIMB_BITS + LIMB_BITS);
  }

  /**
  bf_mul rounds every product faithfully to the places that the result has if and
  only if these are fewer than prec, or prec + 2 is not a multiple of the limb size.
  */
  lemma FaithfulExactly(prec: int, places: int)
    requires prec >= 1 && places <= prec
    ensures
      (forall t, u, g, e, units :: NormalForm(t) && NormalForm(u) && TruncatedTo(t, u, prec, places, g, e, units) ==>
         ProductFaithful(t, u, prec, e - places - g, units))
      <==> places < prec || (prec + 2) % LIMB_BITS != 0
  {
    hide TruncatedTo, ProductFaithful, IsLimbs, MpDigit.Normalised;
    if places < prec || (prec + 2) % LIMB_BITS != 0 {
      forall t, u, g, e, units | NormalForm(t) && NormalForm(u) && TruncatedTo(t, u, prec, places, g, e, units)
        ensures ProductFaithful(t, u, prec, e - places - g, units)
      {
        EnoughIsFaithful(t, u, prec, places, g, e, units);
      }
    } else {
      var t, u, e, units := TruncationFails(prec);
      assert e - prec - 0 == e - prec;
    }
  }
}
