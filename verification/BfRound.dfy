/**
Rounding of a mantissa held in limbs (libbf.c: bf_get_rnd_add and the body of
__bf_round). The mantissa m of l limbs stands for m * 2^(-l*LIMB_BITS), a
number between 1/2 and 1 when its top bit is set.
*/
module BfRound {
  import opened Limb
  import opened MpBasic
  import opened MpDigit
  import opened MpDivide
  import opened MpReciprocal
  import opened MpLarge
  import opened Newton
  import opened BfBits
  import opened Rounding
  import opened Dyadic

  /** The units of the last of prec places below which k bits of the mantissa m lie. */
  ghost function Units(m: int, k: int): int {
    if k >= 0 then m / Pow2(k) else m * Pow2(-k)
  }

  /** r is the mantissa m, of which k bits lie below the last place, rounded to that place. */
  ghost predicate RoundsTo(mode: Mode, neg: bool, m: int, k: int, r: int) {
    if k >= 1 then IsRounded(mode, neg, Ratio(m, Pow2(k)), r) else r == Units(m, k)
  }

  /** m in terms of the bits around the last place. */
  lemma BitsAround(m: nat, k: nat)
    requires k >= 1
    ensures var p := Pow2(k - 1); var q := m / Pow2(k);
      m == (2 * q + Bit(m, k - 1)) * p + m % p && 0 <= m % p < p && 0 <= Bit(m, k - 1) <= 1 && Pow2(k) == 2 * p
    ensures m % Pow2(k) != 0 <==> Bit(m, k - 1) != 0 || m % Pow2(k - 1) != 0
  {
    hide Pow2;
    var p := Pow2(k - 1);
    Pow2Step(k - 1);
    var h := m / p;
    DivMod(m, p);
    var b1 := h % 2;
    assert h == 2 * (h / 2) + b1;
    MulAdd(2 * (h / 2), b1, p);
    Rotate(2, h / 2, p);
    MulComm(2 * p, h / 2);
    assert m == (h / 2) * (2 * p) + (b1 * p + m % p);
    DivUnique(m, 2 * p, h / 2, b1 * p + m % p);
  }

  /** bf_get_rnd_add */
  method GetRndAdd(a: array<nat>, prec: int, mode: Mode, neg: bool) returns (add: bool, inexact: bool)
    requires a.Length >= 1 && IsLimbs(a[..])
    ensures var k := a.Length * LIMB_BITS - prec; var m := Val(a[..]);
      && RoundsTo(mode, neg, m, k, Units(m, k) + if add then 1 else 0)
      && (add ==> k >= 1 && m % Pow2(k) != 0)
      && (inexact <==> mode == RNDF || (k >= 1 && m % Pow2(k) != 0))
  {
    hide Val, Pow, Pow2, B, IsLimbs, IsRounded, GetBit, Bit, RoundUp;
    ghost var m := Val(a[..]);
    var k := a.Length * LIMB_BITS - prec;
    var bit0 := true;
    var bit1 := GetBit(a[..], a.Length, k - 1) != 0;
    var odd := GetBit(a[..], a.Length, k) != 0;
    GetBitExact(a[..], k - 1);
    GetBitExact(a[..], k);
    var found := ScanBits(a[..], a.Length * LIMB_BITS - 1 - if prec + 1 >= 0 then prec + 1 else 0);
    if mode != RNDF {
      bit0 := found;
    }
    inexact := bit1 || bit0;
    add := RoundUp(mode, neg, bit1, bit0, odd);
    if k >= 1 {
      ScanCovers(a[..], k, found);
      BitsAround(m, k);
      RoundUpExact(mode, neg, m, m / Pow2(k), Bit(m, k - 1), m % Pow2(k - 1), Pow2(k - 1));
      RoundUpFacts(mode, neg, bit1, bit0, found, odd);
      LastBit(m, k);
    } else {
      RoundUpFacts(mode, neg, false, bit0, false, odd);
      NoBitsBelow(k);
    }
  }

  lemma LastBit(m: nat, k: nat)
    ensures Bit(m, k) != 0 <==> (m / Pow2(k)) % 2 == 1
  {}

  lemma NoBitsBelow(k: int)
    requires k <= 0
    ensures k == 0 ==> forall m: int :: m / Pow2(k) == m
  {}

  /** Faithful rounding does not look at bit0; without dropped bits nothing is added. */
  lemma RoundUpFacts(mode: Mode, neg: bool, bit1: bool, bit0: bool, found: bool, odd: bool)
    requires mode != RNDF ==> bit0 == found
    ensures RoundUp(mode, neg, bit1, bit0, odd) == RoundUp(mode, neg, bit1, found, odd)
    ensures !bit1 && !found ==> !RoundUp(mode, neg, bit1, bit0, odd)
  {}

  /** The scan for bit0 covers exactly the bits below the first dropped one. */
  lemma ScanCovers(t: seq<nat>, k: nat, found: bool)
    requires k >= 1 && |t| >= 1 && IsLimbs(t)
    requires var pos := (if k - 2 <= |t| * LIMB_BITS - 1 then k - 2 else |t| * LIMB_BITS - 1); found <==>
      pos >= 0 && Val(t) % Pow2(pos + 1) != 0
    ensures found <==> Val(t) % Pow2(k - 1) != 0
  {
    hide Val, Pow, Pow2, B, IsLimbs;
    ValBound(t);
    if k == 1 {
      Pow2Zero();
      DivUnique(Val(t), 1, Val(t), 0);
    } else if k - 2 > |t| * LIMB_BITS - 1 {
      AboveAll(Val(t), k - 1, |t|);
      AboveAll(Val(t), |t| * LIMB_BITS, |t|);
    }
  }

  // ----- adding one unit -----

  /** Adds 2^k to the mantissa; tells whether it overflowed. */
  method AddUnit(a: array<nat>, k: nat) returns (carry: nat)
    requires k < a.Length * LIMB_BITS && IsLimbs(a[..])
    modifies a
    ensures IsLimbs(a[..]) && carry <= 1 && Val(a[..]) + carry * Pow(a.Length) == old(Val(a[..])) + Pow2(k)
  {
    hide Val, Pow, Pow2, B, IsLimbs;
    var l, pos := a.Length, k / LIMB_BITS;
    IndexBelow(k, l);
    Position(k);
    ghost var x: seq<nat> := a[..];
    LimbsSlice(x, pos, l);
    LimbsSlice(x, 0, pos);
    BitFits(k % LIMB_BITS);
    assert a[pos..pos + (l - pos)] == x[pos..l] == x[pos..];
    ghost var low: seq<nat> := a[0..pos];
    assert low == x[0..pos] == x[..pos];
    carry := AddSmall(a, pos, Pow2(k % LIMB_BITS), l - pos);
    ghost var y: seq<nat> := a[..];
    assert a[0..pos] == low;
    assert y[..pos] == low && y[pos..] == a[pos..pos + (l - pos)];
    assert y == low + y[pos..];
    LimbsAppend(low, y[pos..]);
    RaiseHigh(x, y, pos, Pow2(k % LIMB_BITS), carry);
    MulComm(Pow2(k % LIMB_BITS), Pow(pos));
  }

  lemma IndexBelow(k: nat, l: nat)
    requires k < l * LIMB_BITS
    ensures k / LIMB_BITS < l
  {
    DivMod(k, LIMB_BITS);
    if k / LIMB_BITS >= l { MulMono(l, k / LIMB_BITS, LIMB_BITS); }
  }

  lemma BitFits(p: nat)
    requires p < LIMB_BITS
    ensures Pow2(p) < B
  {
    hide Pow2;
    Pow2Step(p);
    Pow2Mono(p + 1, LIMB_BITS);
  }

  lemma RaiseHigh(x: seq<nat>, y: seq<nat>, m: nat, d: int, c: int)
    requires |x| == |y| && m <= |x| && x[..m] == y[..m] && Val(y[m..]) + c * Pow(|x| - m) == Val(x[m..]) + d
    ensures Val(y) + c * Pow(|x|) == Val(x) + d * Pow(m)
  {
    hide Val, Pow, B;
    ValSplit(x, m);
    ValSplit(y, m);
    PowAdd(|x| - m, m);
    MulAdd(Val(y[m..]), c * Pow(|x| - m), Pow(m));
    MulAdd(Val(x[m..]), d, Pow(m));
    MulAssoc(c, Pow(|x| - m), Pow(m));
  }

  /** After an overflow the limbs from that of bit k up are shifted right by one, the carry coming in on top. */
  method ShiftCarry(a: array<nat>, k: nat)
    requires k < a.Length * LIMB_BITS && IsLimbs(a[..]) && Val(a[..]) < Pow2(k)
    modifies a
    ensures IsLimbs(a[..]) && Val(a[..]) / Pow2(k) == Pow2(a.Length * LIMB_BITS - 1 - k)
  {
    hide Val, Pow, Pow2, B, IsLimbs;
    Base();
    var l, pos := a.Length, k / LIMB_BITS;
    IndexBelow(k, l);
    ghost var x: seq<nat> := a[..];
    LimbsSlice(x, pos, l);
    LimbsSlice(x, 0, pos);
    assert a[pos..pos + (l - pos)] == x[pos..l] == x[pos..];
    ghost var low: seq<nat> := a[0..pos];
    assert low == x[0..pos] == x[..pos];
    var rem := Shr(a, pos, a, pos, l - pos, 1, 1);
    ghost var y: seq<nat> := a[..];
    assert a[0..pos] == low;
    assert y[..pos] == low && y[pos..] == a[pos..pos + (l - pos)];
    assert y == low + y[pos..];
    LimbsAppend(low, y[pos..]);
    assert Pow2(1) == 2 by { Pow2Values(); }
    CarriedIn(x, y, k, rem);
  }

  lemma CarriedIn(x: seq<nat>, y: seq<nat>, k: nat, rem: nat)
    requires |x| == |y| && k < |x| * LIMB_BITS && k / LIMB_BITS < |x| && IsLimbs(x) && IsLimbs(y) && Val(x) < Pow2(k)
    requires rem <= 1
    requires var i := k / LIMB_BITS; x[..i] == y[..i] && Val(x[i..]) + 1 * Pow(|x| - i) == Val(y[i..]) * 2 + rem
    ensures Val(y) / Pow2(k) == Pow2(|x| * LIMB_BITS - 1 - k)
  {
    hide Val, Pow, Pow2, B, IsLimbs;
    var i, p, l := k / LIMB_BITS, k % LIMB_BITS, |x|;
    Position(k);
    ValSplit(x, i);
    ValSplit(y, i);
    LimbsSlice(y, 0, i);
    assert y[0..i] == y[..i];
    ValBound(y[..i]);
    DropLow(Val(y[..i]), Val(y[i..]), Pow(i), Pow2(p));
    var h := (l - i) * LIMB_BITS - 1 - p;
    MulSub(l, i, LIMB_BITS);
    PowBits(l - i);
    Pow2Add(h, p);
    Pow2Step(h + p);
    HighBelow(Val(x[..i]), Val(x[i..]), Pow(i), Pow2(p));
    CarriedQuotient(Val(x[i..]), Val(y[i..]), rem, Pow2(h), Pow2(p));
  }

  lemma HighBelow(low: int, high: int, pi: int, s: int)
    requires 0 <= low && 0 < pi && low + high * pi < pi * s
    ensures high < s
  {
    if high >= s { MulMono(s, high, pi); }
  }

  lemma CarriedQuotient(v: int, w: int, rem: int, ph: int, pp: int)
    requires v + 2 * (ph * pp) == w * 2 + rem && 0 <= v < pp && 0 <= rem <= 1 && 0 < pp
    ensures w / pp == ph
  {
    DivUnique(w, pp, ph, w - ph * pp);
  }

  // ----- dropping the bits below the last place -----

  /** Top bit set and lowest limb not zero: the form that every finite non-zero number has. */
  ghost predicate NormalForm(t: seq<nat>) {
    |t| >= 1 && IsLimbs(t) && Normalised(t[|t| - 1]) && t[0] != 0
  }

  /** Limbs of value 0 at the low end. */
  lemma {:induction false} LowZeros(t: seq<nat>, i: nat)
    requires i <= |t| && forall j :: 0 <= j < i ==> t[j] == 0
    ensures Val(t) == Val(t[i..]) * Pow(i)
  {
    hide Val, Pow, B;
    ValSplit(t, i);
    ValNonZero(t[..i]);
  }

  /** Skips the zero limbs from i on and copies the rest. */
  method StripZeros(a: array<nat>, i: nat) returns (b: array<nat>)
    requires i < a.Length && IsLimbs(a[..]) && Val(a[i..]) > 0
    ensures fresh(b) && 1 <= b.Length <= a.Length - i && IsLimbs(b[..]) && b[0] != 0
    ensures Val(b[..]) * Pow(a.Length - i - b.Length) == Val(a[i..])
  {
    hide Val, Pow, B, IsLimbs;
    ValNonZero(a[i..]);
    ghost var w :| 0 <= w < |a[i..]| && a[i..][w] != 0;
    assert a[i + w] != 0;
    var j := i;
    while a[j] == 0
      invariant i <= j <= i + w && forall m :: i <= m < j ==> a[m] == 0
      decreases a.Length - j
    {
      j := j + 1;
    }
    b := new nat[a.Length - j];
    Copy(b, 0, a, j, a.Length - j);
    assert b[0..0 + (a.Length - j)] == b[..] && a[j..j + (a.Length - j)] == a[j..];
    assert a[..][j..a.Length] == a[j..] && a[i..][j - i..] == a[j..];
    LimbsSlice(a[..], j, a.Length);
    assert forall m :: 0 <= m < j - i ==> a[i..][m] == a[i + m];
    LowZeros(a[i..], j - i);
    assert b[0] == a[j];
  }

  /** Clears the bits below bit k. */
  lemma ClearBelow(t: seq<nat>, u: seq<nat>, k: nat, z: nat)
    requires IsLimbs(t) && k / LIMB_BITS < |t| && u == t[k / LIMB_BITS := z]
    requires z + t[k / LIMB_BITS] % Pow2(k % LIMB_BITS) == t[k / LIMB_BITS]
    ensures IsLimbs(u) && Val(u[k / LIMB_BITS..]) * Pow(k / LIMB_BITS) == (Val(t) / Pow2(k)) * Pow2(k)
  {
    hide Val, Pow, Pow2, B;
    var i, p := k / LIMB_BITS, k % LIMB_BITS;
    var x, rest := t[i], Val(t[i + 1..]);
    ValLow(u[i..]);
    assert u[i..][0] == z && u[i..][1..] == t[i + 1..];
    AtLimb(t, i);
    Position(k);
    LimbPart(x, Pow2(p));
    BaseSplit(p);
    ClearArithmetic(Val(t), Val(t[..i]), x, rest, z, Pow(i), Pow2(p), Pow2(LIMB_BITS - p));
  }

  lemma ClearArithmetic(v: int, low: int, x: int, rest: int, z: int, pi: int, s: int, c: int)
    requires v == low + (x + (c * s) * rest) * pi && 0 <= low < pi && 0 < s && 0 < c && z + x % s == x
    ensures (z + (c * s) * rest) * pi == (v / (pi * s)) * (pi * s)
  {
    var y := x + (c * s) * rest;
    DropLow(low, y, pi, s);
    ShiftLimb(x, rest, s, c);
    MulPos(pi, s);
    DivMod(v, pi * s);
    MulSub(y, x % s, pi);
  }

  /** The end of __bf_round: keeps the bits from k up and removes the zero limbs below them. */
  method KeepBits(a: array<nat>, k: int) returns (b: array<nat>)
    requires a.Length >= 1 && k < a.Length * LIMB_BITS && IsLimbs(a[..])
    requires Units(Val(a[..]), if k >= 0 then k else 0) > 0
    modifies a
    ensures fresh(b) && 1 <= b.Length <= a.Length && IsLimbs(b[..]) && b[0] != 0
    ensures Val(b[..]) * Pow(a.Length - b.Length) ==
      if k >= 0 then (old(Val(a[..])) / Pow2(k)) * Pow2(k) else old(Val(a[..]))
  {
    hide Val, Pow, Pow2, B, IsLimbs;
    if k >= 0 {
      var i := k / LIMB_BITS;
      IndexBelow(k, a.Length);
      ghost var x: seq<nat> := a[..];
      DivMod(a[i], Pow2(k % LIMB_BITS));
      LimbPart(a[i], Pow2(k % LIMB_BITS));
      a[i] := a[i] - a[i] % Pow2(k % LIMB_BITS);
      ghost var y: seq<nat> := a[..];
      ClearBelow(x, y, k, a[i]);
      assert a[i..] == y[i..];
      MulPos(Val(x) / Pow2(k), Pow2(k));
      PositiveFactor(Val(y[i..]), Pow(i));
      b := StripZeros(a, i);
      PowAdd(a.Length - i - b.Length, i);
      MulAssoc(Val(b[..]), Pow(a.Length - i - b.Length), Pow(i));
    } else {
      assert Val(a[..]) > 0 by { Pow2Zero(); DivUnique(Val(a[..]), 1, Val(a[..]), 0); }
      assert a[0..] == a[..];
      b := StripZeros(a, 0);
    }
  }

  lemma LimbPart(x: nat, d: nat)
    requires 0 < d
    ensures 0 <= x % d <= x
  {
    DivMod(x, d);
    if x / d < 0 { MulMono(x / d, -1, d); } else { MulNonNeg(x / d, d); }
  }

  lemma PositiveFactor(x: int, y: int)
    requires 0 < x * y && 0 <= x && 0 < y
    ensures 0 < x
  {}

  // ----- the whole step -----

  /** The kept limbs as a number of units: lb limbs of l, the others 0. */
  lemma KeptValue(v: int, l: nat, lb: nat, q: int, k: int, bump: nat, r: int, prec: int)
    requires lb <= l && k == l * LIMB_BITS - prec && bump <= 1 && 0 <= k
    requires v * Pow(l - lb) == q * Pow2(k) && r == (if bump == 1 then 2 * q else q)
    ensures SameValue(v, bump - lb * LIMB_BITS, r, -prec)
  {
    hide Pow, Pow2, SameValue;
    var w := (l - lb) * LIMB_BITS;
    PowBits(l - lb);
    MulSub(l, lb, LIMB_BITS);
    MulNonNeg(l - lb, LIMB_BITS);
    SameScaled(v, bump - lb * LIMB_BITS, r, -prec, -(l * LIMB_BITS));
    if bump == 1 {
      Pow2Step(w);
      Twice(v, Pow2(w), q, Pow2(k));
    }
  }

  lemma Twice(v: int, x: int, q: int, y: int)
    requires v * x == q * y
    ensures v * (2 * x) == (2 * q) * y
  {
    Shuffle(v, 2, x);
    MulAssoc(2, q, y);
  }

  lemma KeptExact(v: int, l: nat, lb: nat, m: int, k: int, prec: int)
    requires lb <= l && k == l * LIMB_BITS - prec && k < 0 && v * Pow(l - lb) == m
    ensures SameValue(v, -(lb * LIMB_BITS), m * Pow2(-k), -prec)
  {
    hide Pow, Pow2, SameValue;
    var w := (l - lb) * LIMB_BITS;
    PowBits(l - lb);
    MulSub(l, lb, LIMB_BITS);
    MulNonNeg(l - lb, LIMB_BITS);
    SameScaled(v, -(lb * LIMB_BITS), m * Pow2(-k), -prec, -prec);
    Pow2Add(w, -k);
    MulAssoc(v, Pow2(w), Pow2(-k));
    Pow2Zero();
  }

  /** Enough units for the top bit: they fill the top limb of what is kept. */
  lemma KeptTop(b: seq<nat>, l: nat, w: int)
    requires 1 <= |b| <= l && IsLimbs(b) && Val(b) * Pow(l - |b|) == w && Pow(l) <= 2 * w
    ensures Normalised(b[|b| - 1])
  {
    hide Val, Pow, B, IsLimbs;
    PowAdd(|b|, l - |b|);
    MulAssoc(2, Val(b), Pow(l - |b|));
    Cancel(Pow(|b|), 2 * Val(b), Pow(l - |b|));
    TopNormalised(b);
  }

  /** 2^(prec - 1) units are half of everything. */
  lemma HalfUnitsTop(l: nat, k: nat, q: int)
    requires k < l * LIMB_BITS && Pow2(l * LIMB_BITS - 1 - k) <= q
    ensures Pow(l) <= 2 * (q * Pow2(k))
  {
    hide Pow, Pow2;
    PowBits(l);
    var c := l * LIMB_BITS - 1 - k;
    Pow2Add(c, k);
    Pow2Step(c + k);
    MulMono(Pow2(c), q, Pow2(k));
  }

  lemma UnitsAtLeast(m: int, l: nat, k: nat)
    requires k < l * LIMB_BITS && Pow(l) <= 2 * m
    ensures Pow2(l * LIMB_BITS - 1 - k) <= m / Pow2(k)
  {
    hide Pow, Pow2;
    PowBits(l);
    var c := l * LIMB_BITS - 1 - k;
    Pow2Add(c, k);
    Pow2Step(c + k);
    DivMod(m, Pow2(k));
    if m / Pow2(k) < Pow2(c) {
      MulMono(m / Pow2(k) + 1, Pow2(c), Pow2(k));
      MulAdd(m / Pow2(k), 1, Pow2(k));
    }
  }

  lemma OneMoreUnit(m: int, k: nat)
    ensures (m + Pow2(k)) / Pow2(k) == m / Pow2(k) + 1
  {
    hide Pow2;
    DivMod(m, Pow2(k));
    MulAdd(m / Pow2(k), 1, Pow2(k));
    DivUnique(m + Pow2(k), Pow2(k), m / Pow2(k) + 1, m % Pow2(k));
  }

  /** An overflow means that all prec bits were set. */
  lemma AllOnes(m: int, l: nat, k: nat)
    requires k < l * LIMB_BITS && 0 <= m < Pow(l) <= m + Pow2(k)
    ensures m / Pow2(k) + 1 == 2 * Pow2(l * LIMB_BITS - 1 - k)
  {
    hide Pow, Pow2;
    PowBits(l);
    var c := l * LIMB_BITS - 1 - k;
    Pow2Step(c);
    Pow2Add(c + 1, k);
    var d, n := Pow2(k), Pow2(c + 1);
    MulSub(n, 1, d);
    DivUnique(m, d, n - 1, m - (n - 1) * d);
  }

  /**
  __bf_round from the addition of one unit to the end, on the mantissa:
  bump is 1 when the addition carried out of the top limb.
  */
  method RoundMantissa(a: array<nat>, prec: int, add: bool) returns (b: array<nat>, bump: nat)
    requires a.Length >= 1 && IsLimbs(a[..]) && Normalised(a[a.Length - 1]) && prec >= 1
    requires add ==> a.Length * LIMB_BITS - prec >= 1
    modifies a
    ensures fresh(b) && NormalForm(b[..]) && bump <= 1
    ensures SameValue(Val(b[..]), bump - b.Length * LIMB_BITS,
                      old(Units(Val(a[..]), a.Length * LIMB_BITS - prec)) + (if add then 1 else 0), -prec)
  {
    hide Val, Pow, Pow2, B, IsLimbs, SameValue, MpDigit.Normalised;
    var l := a.Length;
    var k := l * LIMB_BITS - prec;
    ghost var m, q := Val(a[..]), Units(Val(a[..]), k);
    assert a[..][l - 1] == a[l - 1];
    ValBound(a[..]);
    NormalisedValue(a[..]);
    bump := 0;
    if add {
      OneMoreUnit(m, k);
      bump := AddUnit(a, k);
      if bump != 0 {
        ValBound(a[..]);
        AllOnes(m, l, k);
        ShiftCarry(a, k);
      }
    }
    ghost var w := if k >= 0 then Val(a[..]) / Pow2(k) else 0;
    if k >= 0 {
      if bump == 0 { UnitsAtLeast(Val(a[..]), l, k); }
      HalfUnitsTop(l, k, w);
    } else {
      Pow2Zero();
      DivUnique(m, 1, m, 0);
    }
    b := KeepBits(a, k);
    KeptTop(b[..], l, if k >= 0 then w * Pow2(k) else m);
    assert b[..][0] == b[0];
    if k >= 0 {
      KeptValue(Val(b[..]), l, b.Length, w, k, bump, q + (if add then 1 else 0), prec);
    } else {
      KeptExact(Val(b[..]), l, b.Length, m, k, prec);
    }
  }
}
