/**
Bits of a number held in limbs (libbf.c: get_bit, get_bits, limb_mask,
scan_bit_nz).
*/
module BfBits {
  import opened Limb
  import opened MpBasic

  lemma {:induction false} PowBits(n: nat)
    ensures Pow(n) == Pow2(n * LIMB_BITS)
  {
    hide Pow, Pow2;
    if n > 0 {
      PowBits(n - 1);
      PowStep(n - 1);
      MulSub(n, 1, LIMB_BITS);
      Pow2Add(LIMB_BITS, (n - 1) * LIMB_BITS);
    } else {
      PowZero();
      Pow2Zero();
    }
  }

  /** Limb and bit of a bit position. */
  lemma Position(pos: nat)
    ensures var i, p := pos / LIMB_BITS, pos % LIMB_BITS; pos == i * LIMB_BITS + p && Pow2(pos) == Pow(i) * Pow2(p)
  {
    hide Pow, Pow2;
    var i, p := pos / LIMB_BITS, pos % LIMB_BITS;
    DivMod(pos, LIMB_BITS);
    PowBits(i);
    Pow2Add(i * LIMB_BITS, p);
  }

  /** Dropping the low part commutes with a coarser shift. */
  lemma DropLow(low: int, x: int, pi: int, s: int)
    requires 0 <= low < pi && 0 < s
    ensures (low + x * pi) / (pi * s) == x / s && (low + x * pi) % (pi * s) == low + (x % s) * pi
  {
    var q, r := x / s, x % s;
    DivMod(x, s);
    MulAdd(q * s, r, pi);
    MulAssoc(q, s, pi);
    MulMono(r + 1, s, pi);
    MulAdd(r, 1, pi);
    MulNonNeg(r, pi);
    MulPos(pi, s);
    DivUnique(low + x * pi, pi * s, q, low + r * pi);
  }

  /** The value below, at and above limb i. */
  lemma AtLimb(t: seq<nat>, i: nat)
    requires i < |t| && IsLimbs(t)
    ensures Val(t) == Val(t[..i]) + (t[i] + B * Val(t[i + 1..])) * Pow(i) && Val(t[..i]) < Pow(i)
  {
    hide Val, Pow, B;
    ValSplit(t, i);
    ValLow(t[i..]);
    assert t[i..][1..] == t[i + 1..];
    ValBound(t[..i]);
  }

  /** Shifting one limb and what is above it. */
  lemma ShiftLimb(x: int, rest: int, s: int, c: int)
    requires 0 < s && 0 < c
    ensures (x + (c * s) * rest) / s == x / s + c * rest && (x + (c * s) * rest) % s == x % s
  {
    DivMod(x, s);
    Rotate(c, s, rest);
    MulAdd(x / s, c * rest, s);
    DivUnique(x + (c * s) * rest, s, x / s + c * rest, x % s);
  }

  /** get_bit */
  function GetBit(t: seq<nat>, len: nat, pos: int): int
    requires len <= |t|
  {
    if pos < 0 || pos / LIMB_BITS >= len then 0 else (t[pos / LIMB_BITS] / Pow2(pos % LIMB_BITS)) % 2
  }

  /** Bit pos of a number. */
  ghost function Bit(v: int, pos: nat): int {
    (v / Pow2(pos)) % 2
  }

  lemma GetBitInside(t: seq<nat>, pos: nat)
    requires IsLimbs(t) && pos / LIMB_BITS < |t|
    ensures GetBit(t, |t|, pos) == Bit(Val(t), pos)
  {
    hide Val, Pow, Pow2, B;
    var i, p := pos / LIMB_BITS, pos % LIMB_BITS;
    Position(pos);
    AtLimb(t, i);
    var x, rest := t[i], Val(t[i + 1..]);
    DropLow(Val(t[..i]), x + B * rest, Pow(i), Pow2(p));
    BaseSplit(p);
    ShiftLimb(x, rest, Pow2(p), Pow2(LIMB_BITS - p));
    Pow2Step(LIMB_BITS - p - 1);
    EvenShift(x / Pow2(p), Pow2(LIMB_BITS - p - 1), rest);
  }

  lemma EvenShift(x: int, c: int, rest: int)
    ensures (x + (2 * c) * rest) % 2 == x % 2
  {
    MulAssoc(2, c, rest);
  }

  lemma AboveAll(v: int, pos: nat, n: nat)
    requires 0 <= v < Pow(n) && pos >= n * LIMB_BITS
    ensures v / Pow2(pos) == 0 && v % Pow2(pos) == v && v < Pow2(pos)
  {
    hide Pow, Pow2;
    PowBits(n);
    Pow2Mono(n * LIMB_BITS, pos);
    DivUnique(v, Pow2(pos), 0, v);
  }

  /** get_bit reads the bit of the value, and 0 outside it. */
  lemma GetBitExact(t: seq<nat>, pos: int)
    requires IsLimbs(t)
    ensures GetBit(t, |t|, pos) == if pos < 0 then 0 else Bit(Val(t), pos)
  {
    hide Val, Pow, Pow2, B;
    if pos >= 0 {
      if pos / LIMB_BITS < |t| {
        GetBitInside(t, pos);
      } else {
        DivMod(pos, LIMB_BITS);
        MulMono(|t|, pos / LIMB_BITS, LIMB_BITS);
        ValBound(t);
        AboveAll(Val(t), pos, |t|);
      }
    }
  }

  /** scan_bit_nz: whether any bit from 0 to pos is set. */
  method ScanBits(t: seq<nat>, pos: int) returns (found: bool)
    requires IsLimbs(t) && pos < |t| * LIMB_BITS
    ensures found <==> pos >= 0 && Val(t) % Pow2(pos + 1) != 0
  {
    hide Val, Pow, Pow2, B;
    if pos < 0 { return false; }
    var i := pos / LIMB_BITS;
    DivMod(pos, LIMB_BITS);
    assert i < |t| by { if i >= |t| { MulMono(|t|, i, LIMB_BITS); } }
    LowBits(t, pos);
    ValNonZero(t[..i]);
    if t[i] % Pow2(pos % LIMB_BITS + 1) != 0 { return true; }
    var j := i;
    while j > 0
      invariant 0 <= j <= i && forall m :: j <= m < i ==> t[m] == 0
    {
      j := j - 1;
      if t[j] != 0 {
        assert t[..i][j] != 0;
        return true;
      }
    }
    assert forall m :: 0 <= m < i ==> t[..i][m] == t[m];
    found := false;
  }

  /** The bits up to pos: some bits of one limb and all the limbs below. */
  lemma LowBits(t: seq<nat>, pos: nat)
    requires IsLimbs(t) && pos / LIMB_BITS < |t|
    ensures var i, p := pos / LIMB_BITS, pos % LIMB_BITS;
      Val(t) % Pow2(pos + 1) != 0 <==> t[i] % Pow2(p + 1) != 0 || Val(t[..i]) != 0
  {
    hide Val, Pow, Pow2, B;
    var i, p := pos / LIMB_BITS, pos % LIMB_BITS;
    AtLimb(t, i);
    Position(pos);
    Pow2Step(p);
    Pow2Step(pos);
    assert Pow2(pos + 1) == Pow(i) * Pow2(p + 1) by { MulAssoc(2, Pow(i), Pow2(p)); Rotate(2, Pow(i), Pow2(p));
      MulComm(2 * Pow2(p), Pow(i)); }
    var x, rest := t[i], Val(t[i + 1..]);
    DropLow(Val(t[..i]), x + B * rest, Pow(i), Pow2(p + 1));
    BaseSplit(p + 1);
    ShiftLimb(x, rest, Pow2(p + 1), Pow2(LIMB_BITS - (p + 1)));
    var m := x % Pow2(p + 1);
    DivMod(x, Pow2(p + 1));
    if m > 0 { MulPos(m, Pow(i)); }
  }
}
