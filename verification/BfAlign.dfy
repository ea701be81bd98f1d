/**
Reading limbs of a number at any bit offset (libbf.c: get_limbz, get_bits): the
limbs of two numbers of different exponent, aligned.
*/
module BfAlign {
  import opened Limb
  import opened MpBasic
  import opened Newton
  import opened BfBits
  import opened BfDivide

  /** Limb i of a number. */
  ghost function LimbOf(v: int, i: int): int {
    Base();
    if i < 0 then 0 else (v / Pow(i)) % B
  }

  /** LIMB_BITS bits of a number from bit pos up; below bit 0 there are zeros. */
  ghost function BitsAt(m: int, pos: int): int {
    Base();
    if pos >= 0 then (m / Pow2(pos)) % B else (m * Pow2(-pos)) % B
  }

  /** get_limbz */
  function GetLimbZ(t: seq<nat>, i: int): nat {
    if 0 <= i < |t| then t[i] else 0
  }

  /** get_bits; the index of a limb is unsigned, so that only -1 is followed by limb 0. */
  function GetBits(t: seq<nat>, pos: int): int
    requires B > 0
  {
    var i, p := pos / LIMB_BITS, pos % LIMB_BITS;
    if p == 0 then GetLimbZ(t, i)
    else GetLimbZ(t, i) / Pow2(p) + (GetLimbZ(t, i + 1) * Pow2(LIMB_BITS - p)) % B
  }

  lemma BaseUp(x: int, d: int)
    ensures B > 0 && (x + B * d) % B == x % B
  {
    hide B;
    Base();
    DivMod(x, B);
    MulComm(B, d);
    MulAdd(x / B, d, B);
    DivUnique(x + B * d, B, x / B + d, x % B);
  }

  /** Inside the number: the high bits of one limb and the low bits of the next. */
  lemma BitsInside(t: seq<nat>, pos: nat)
    requires IsLimbs(t) && pos / LIMB_BITS < |t| && pos % LIMB_BITS != 0
    ensures B > 0 && GetBits(t, pos) == BitsAt(Val(t), pos)
  {
    hide Val, Pow, Pow2, B, GetLimbZ;
    Base();
    var i, p := pos / LIMB_BITS, pos % LIMB_BITS;
    BaseSplit(p);
    NextLimb(t, i);
    QuotientInside(t, pos);
    assert GetLimbZ(t, i) == t[i] by { InRange(t, i); }
    var above := if i + 1 < |t| then Val(t[i + 2..]) else 0;
    Fields(t[i], GetLimbZ(t, i + 1), above, Val(t[i + 1..]), Pow2(p), Pow2(LIMB_BITS - p), B);
  }

  lemma InRange(t: seq<nat>, i: nat)
    requires i < |t|
    ensures GetLimbZ(t, i) == t[i]
  {}

  lemma QuotientInside(t: seq<nat>, pos: nat)
    requires IsLimbs(t) && pos / LIMB_BITS < |t|
    ensures var i, p := pos / LIMB_BITS, pos % LIMB_BITS;
      Val(t) / Pow2(pos) == t[i] / Pow2(p) + Pow2(LIMB_BITS - p) * Val(t[i + 1..])
  {
    hide Val, Pow, Pow2, B;
    var i, p := pos / LIMB_BITS, pos % LIMB_BITS;
    var rest := Val(t[i + 1..]);
    Position(pos);
    AtLimb(t, i);
    DropLow(Val(t[..i]), t[i] + B * rest, Pow(i), Pow2(p));
    BaseSplit(p);
    ShiftLimb(t[i], rest, Pow2(p), Pow2(LIMB_BITS - p));
  }

  lemma NextLimb(t: seq<nat>, i: nat)
    requires i < |t|
    ensures Val(t[i + 1..]) == GetLimbZ(t, i + 1) + B * (if i + 1 < |t| then Val(t[i + 2..]) else 0)
  {
    hide Val, B;
    if i + 1 < |t| {
      ValLow(t[i + 1..]);
      assert t[i + 1..][1..] == t[i + 2..];
    } else {
      assert t[i + 1..] == [];
      ValEmpty();
    }
  }

  lemma Fields(a: int, x: int, up: int, rest: int, s: int, c: int, base: int)
    requires 0 < s && 0 < c && base == c * s && 0 <= a < base && 0 <= x && rest == x + base * up
    ensures (a / s + c * rest) % base == a / s + (x * c) % base
  {
    ShiftFields(a, x, s, c, base);
    var m := x % s;
    DivMod(x, s);
    MulPos(c, s);
    var k := x / s;
    // c*rest == m*c + base*(k + c*up)
    MulAdd(x, base * up, c);
    MulAdd(k * s, m, c);
    assert c * rest == m * c + base * (k + c * up) by {
      Shuffle(k, s, c);
      MulComm(c, s);
      Shuffle(c, base, up);
      MulAdd(k, c * up, base);
      MulAssoc(c, base, up);
      MulAssoc(base, c, up);
      MulComm(base, c);
    }
    MulComm(base, k + c * up);
    DivUnique(a / s + c * rest, base, k + c * up, a / s + m * c);
  }

  lemma WholeLimb(t: seq<nat>, i: nat)
    requires IsLimbs(t)
    ensures B > 0 && (Val(t) / Pow(i)) % B == GetLimbZ(t, i)
  {
    hide Val, Pow, B;
    Base();
    if i < |t| {
      AtLimb(t, i);
      var x := t[i] + B * Val(t[i + 1..]);
      DropLow(Val(t[..i]), x, Pow(i), 1);
      DivUnique(x, 1, x, 0);
      BaseUp(t[i], Val(t[i + 1..]));
      DivUnique(t[i], B, 0, t[i]);
    } else {
      ValBound(t);
      PowMono(|t|, i);
      DivUnique(Val(t), Pow(i), 0, Val(t));
      DivUnique(0, B, 0, 0);
    }
  }

  /** Below the number. */
  lemma BitsBelow(t: seq<nat>, pos: int)
    requires IsLimbs(t) && pos < 0
    ensures B > 0 && GetBits(t, pos) == BitsAt(Val(t), pos)
  {
    hide Val, Pow, Pow2, B;
    Base();
    var i, p := pos / LIMB_BITS, pos % LIMB_BITS;
    DivMod(pos, LIMB_BITS);
    if i >= 0 { MulNonNeg(i, LIMB_BITS); }
    DivUnique(0, Pow2(p), 0, 0);
    DivUnique(0, B, 0, 0);
    if i == -1 && p != 0 {
      AcrossEnd(t, LIMB_BITS - p);
    } else {
      if i <= -2 { MulMono(i, -2, LIMB_BITS); }
      WhollyBelow(Val(t), -pos);
    }
  }

  lemma AcrossEnd(t: seq<nat>, n: nat)
    ensures B > 0 && (Val(t) * Pow2(n)) % B == (GetLimbZ(t, 0) * Pow2(n)) % B
  {
    hide Val, Pow2, B;
    LowestLimb(t);
    var up, c := if |t| > 0 then Val(t[1..]) else 0, Pow2(n);
    MulAdd(GetLimbZ(t, 0), B * up, c);
    MulAssoc(B, up, c);
    BaseUp(GetLimbZ(t, 0) * c, up * c);
  }

  lemma WhollyBelow(m: int, n: nat)
    requires n >= LIMB_BITS
    ensures B > 0 && (m * Pow2(n)) % B == 0
  {
    hide Pow2, B;
    Base();
    BasePow2();
    PowerSplit(n, LIMB_BITS);
    FactorOut(m, Pow2(n - LIMB_BITS), Pow2(LIMB_BITS), Pow2(n));
    DivUnique(m * Pow2(n), B, m * Pow2(n - LIMB_BITS), 0);
  }

  lemma BasePow2()
    ensures B == Pow2(LIMB_BITS)
  {}

  lemma LowestLimb(t: seq<nat>)
    ensures Val(t) == GetLimbZ(t, 0) + B * (if |t| > 0 then Val(t[1..]) else 0)
  {
    hide Val, B;
    if |t| > 0 { ValLow(t); } else { ValEmpty(); }
  }

  /** get_bits reads the bits of the value at any offset. */
  lemma GetBitsExact(t: seq<nat>, pos: int)
    requires IsLimbs(t)
    ensures B > 0 && GetBits(t, pos) == BitsAt(Val(t), pos)
  {
    hide Val, Pow, Pow2, B;
    Base();
    var i, p := pos / LIMB_BITS, pos % LIMB_BITS;
    if pos < 0 {
      BitsBelow(t, pos);
    } else {
      if p == 0 {
        Position(pos);
        Pow2Zero();
        WholeLimb(t, i);
      } else if i < |t| {
        BitsInside(t, pos);
      } else {
        DivMod(pos, LIMB_BITS);
        MulMono(|t|, i, LIMB_BITS);
        ValBound(t);
        AboveAll(Val(t), pos, |t|);
        DivUnique(0, B, 0, 0);
        DivUnique(0, Pow2(p), 0, 0);
      }
    }
  }

  /** Limb i of m * 2^s. */
  lemma ShiftedLimb(m: int, s: nat, i: nat)
    ensures LimbOf(m * Pow2(s), i) == BitsAt(m, i * LIMB_BITS - s)
  {
    hide Pow, Pow2, B;
    Base();
    PowBits(i);
    var n := i * LIMB_BITS;
    MulNonNeg(i, LIMB_BITS);
    if n >= s {
      PowerSplit(n, s);
      DivUniqueScaled(m, Pow2(n - s), Pow2(s));
    } else {
      PowerSplit(s, n);
      FactorOut(m, Pow2(s - n), Pow2(n), Pow2(s));
      DivUnique(m * Pow2(s), Pow2(n), m * Pow2(s - n), 0);
    }
    if n == s { Pow2Zero(); DivUnique(m, 1, m, 0); }
  }

  lemma DivUniqueScaled(m: int, x: int, y: int)
    requires 0 < x && 0 < y
    ensures (m * y) / (x * y) == m / x
  {
    DivMod(m, x);
    MulAdd((m / x) * x, m % x, y);
    MulAssoc(m / x, x, y);
    MulStrict(m % x, x, y);
    MulNonNeg(m % x, y);
    MulPos(x, y);
    DivUnique(m * y, x * y, m / x, (m % x) * y);
  }

  /** The mantissa t, shifted down by d bits, as a number of n limbs. */
  ghost function Aligned(t: seq<nat>, d: int, n: nat): int
    requires |t| * LIMB_BITS + d <= n * LIMB_BITS
  {
    Val(t) * Pow2(n * LIMB_BITS - |t| * LIMB_BITS - d)
  }

  lemma LimbRange(v: int, i: int)
    ensures 0 <= LimbOf(v, i) < B
  {
    hide Pow, B;
    Base();
    if i >= 0 { DivMod(v / Pow(i), B); }
  }

  /** get_bits at the aligned offset reads limb i of the aligned number; below limb 0 there is nothing. */
  lemma AlignedLimb(t: seq<nat>, d: int, n: nat, i: int)
    requires IsLimbs(t) && |t| * LIMB_BITS + d <= n * LIMB_BITS
    ensures B > 0 && GetBits(t, (i - n + |t|) * LIMB_BITS + d) == LimbOf(Aligned(t, d, n), i)
  {
    hide Val, Pow, Pow2, B, IsLimbs, GetBits;
    Base();
    var pos := (i - n + |t|) * LIMB_BITS + d;
    MulSub(i, n, LIMB_BITS);
    MulAdd(i - n, |t|, LIMB_BITS);
    GetBitsExact(t, pos);
    if i >= 0 {
      ShiftedLimb(Val(t), n * LIMB_BITS - |t| * LIMB_BITS - d, i);
    } else {
      MulMono(i, -1, LIMB_BITS);
      WhollyBelow(Val(t), -pos);
    }
  }

  /** get_limbz is get_bits at a multiple of the limb size. */
  lemma LimbIsBits(t: seq<nat>, k: int)
    ensures B > 0 && GetBits(t, k * LIMB_BITS + 0) == GetLimbZ(t, k)
  {
    hide B, Pow2;
    Base();
    DivUnique(k * LIMB_BITS, LIMB_BITS, k, 0);
  }
}
