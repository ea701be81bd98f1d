/** From an integer to digits (libbf.c: bf_integer_to_radix), and the round trips. */
module ToRadix {
  import opened Limb
  import opened MpBasic
  import opened BfFloat
  import opened BfAlign
  import opened BfExact
  import opened BfLogic
  import opened Radix
  import opened FromRadix
  import opened RadixQuotient

  /** The precision of the reciprocal of a level, enough for the larger of the two sizes of quotient. */
  function InversePrec(low: int, bits: nat): int {
    (low + 1) * bits + 2
  }

  /** Each pair of entries is not computed yet, or is the power of its level and the reciprocal. */
  ghost predicate PairsOk(pow: array<BigFloat>, out: array<nat>, n0: nat, radix: nat, bits: nat)
    reads *
  {
    && pow.Length % 2 == 0
    && (forall k :: 0 <= k < pow.Length ==> pow[k].tab != out)
    && forall k: nat :: 2 * k + 1 < pow.Length ==> PairOk(pow[2 * k], pow[2 * k + 1], LowSize(n0, k), radix, bits)
  }

  ghost predicate PairOk(p: BigFloat, inv: BigFloat, low: int, radix: nat, bits: nat)
    reads p, p.tab, inv, inv.tab
  {
    p.tab.Length == 0 || (low >= 0 && InversePrec(low, bits) >= 1 && Represents(p, Power(radix, low)) &&
      InverseOf(inv, Power(radix, low), InversePrec(low, bits)))
  }

  lemma InversePrecPositive(low: nat, bits: nat)
    ensures InversePrec(low, bits) >= 2
  {
    MulNonNeg(low + 1, bits);
  }

  /** The power of a level and its reciprocal, computed once. */
  method LevelPair(pow: array<BigFloat>, out: array<nat>, level: nat, n0: nat, radix: nat,
      bits: nat) returns (p: BigFloat, inv: BigFloat)
    requires 2 * level + 1 < pow.Length && PairsOk(pow, out, n0, radix, bits) && 1 <= radix < B
    requires 0 <= LowSize(n0, level) <= n0 < B && n0 * LIMB_BITS < MAX_BITS
    modifies pow
    ensures PairsOk(pow, out, n0, radix, bits) && p.tab != out && inv.tab != out
    ensures InversePrec(LowSize(n0, level), bits) >= 1 && Represents(p, Power(radix, LowSize(n0, level)))
    ensures InverseOf(inv, Power(radix, LowSize(n0, level)), InversePrec(LowSize(n0, level), bits))
  {
    hide Pow2, Power, MAX_BITS, B, LowSize, Represents, InverseOf, InversePrec;
    if pow[2 * level].tab.Length == 0 {
      var n2 := LowSize(n0, level);
      LevelBits(radix, n2, n0);
      PowerPositive(radix, n2);
      InversePrecPositive(n2, bits);
      p := PowSmall(radix, n2, n0 * LIMB_BITS + 1);
      inv := Reciprocal(p, InversePrec(n2, bits), Power(radix, n2), n0 * LIMB_BITS + 1);
      pow[2 * level] := p;
      pow[2 * level + 1] := inv;
    }
    p, inv := pow[2 * level], pow[2 * level + 1];
    assert PairOk(pow[2 * level], pow[2 * level + 1], LowSize(n0, level), radix, bits);
  }

  // ----- the leaves -----

  lemma OneLimbNumber(x: int)
    requires 0 <= x < B
    ensures LimbOf(x, 0) == x
  {
    hide Pow, B;
    PowZero();
    DivUnique(x, 1, x, 0);
    DivUnique(x, B, 0, x);
  }

  lemma TwoLimbNumber(x: int)
    requires 0 <= x < B * B
    ensures LimbOf(x, 1) * B + LimbOf(x, 0) == x
  {
    hide Pow, B;
    Base();
    PowOne();
    DivUnique(x, 1, x, 0);
    QuotientBound(x, B);
    DivUnique(x / B, B, 0, x / B);
  }

  /** One digit. */
  method WriteOne(out: array<nat>, lo: nat, a: BigFloat, radix: nat, ghost x: int)
    requires lo < out.Length && Represents(a, x) && 0 <= x < radix < B
    modifies out
    ensures out[lo] == x && forall i :: 0 <= i < out.Length && i != lo ==> out[i] == old(out[i])
  {
    hide Pow2, B, Val, Represents, Holds, GetBits, LimbOf;
    Base();
    BasePow2();
    OperandHolds(a, x, LIMB_BITS);
    IntegerLimb(a.tab[..], a.expn, x, 0);
    OneLimbNumber(x);
    out[lo] := GetBits(a.tab[..], a.tab.Length * LIMB_BITS - a.expn);
  }

  /** Two digits. */
  method WriteTwo(out: array<nat>, lo: nat, a: BigFloat, radix: nat, ghost x: int)
    requires lo + 1 < out.Length && Represents(a, x) && 1 <= radix < B && 0 <= x < radix * radix
    modifies out
    ensures out[lo] < radix && out[lo + 1] < radix && out[lo] + radix * out[lo + 1] == x
    ensures forall i :: 0 <= i < out.Length && i != lo && i != lo + 1 ==> out[i] == old(out[i])
  {
    hide Pow2, B, Val, Represents, Holds, GetBits, LimbOf;
    Base();
    TwoLimbBits(x, radix);
    OperandHolds(a, x, 2 * LIMB_BITS);
    IntegerLimb(a.tab[..], a.expn, x, 0);
    IntegerLimb(a.tab[..], a.expn, x, 1);
    TwoLimbNumber(x);
    var pos := a.tab.Length * LIMB_BITS - a.expn;
    var t := GetBits(a.tab[..], pos + LIMB_BITS) * B + GetBits(a.tab[..], pos);
    QuotientBound(t, radix);
    out[lo] := t % radix;
    out[lo + 1] := t / radix;
    MulComm(radix, t / radix);
  }

  lemma TwoLimbBits(x: int, radix: int)
    requires 1 <= radix < B && 0 <= x < radix * radix
    ensures x < Pow2(2 * LIMB_BITS) && x < B * B
  {
    hide Pow2, B;
    BasePow2();
    Pow2Add(LIMB_BITS, LIMB_BITS);
    MulMono(radix, B, radix);
    MulMono(radix, B, B);
  }

  // ----- the conversion -----

  lemma TwoDigits(x: nat, y: nat, radix: nat)
    ensures Number([x, y], radix) == x + radix * y
  {
    hide Number;
    NumberStep([x, y], radix);
    assert [x, y][1..] == [y];
    NumberOne(y, radix);
  }

  lemma PowerSmall(radix: nat)
    ensures Power(radix, 1) == radix && Power(radix, 2) == radix * radix
  {
    hide Power;
    PowerZero(radix);
    Radix.PowerStep(radix, 0);
    Radix.PowerStep(radix, 1);
  }

  /** The bounds that the division of a level needs. */
  lemma LevelBounds(x: int, n: nat, low: nat, n0: nat, radix: nat, bits: nat)
    requires 1 <= low < n <= n0 && n - low <= low + 1 && 2 <= radix < B && radix <= Pow2(bits) && bits >= 1
    requires 0 <= x < Power(radix, n)
    ensures var w, l := Power(radix, low), n0 * LIMB_BITS + 1;
      l >= 0 && 1 <= w < Pow2(l) && x < Pow2(l) && (n - low) * bits >= 1 && x < w * Pow2((n - low) * bits) &&
        InversePrec(low, bits) >= (n - low) * bits + 2
    ensures var w := Power(radix, low);
      w >= 1 && 0 <= x / w < Power(radix, n - low) && 0 <= x % w < w && x == (x / w) * w + x % w
  {
    hide Pow2, Power, B;
    var w := Power(radix, low);
    PowerPositive(radix, low);
    LevelBits(radix, low, n0);
    LevelBits(radix, n, n0);
    PowerAdd(radix, low, n - low);
    PowerBits(radix, n - low, bits);
    MulMono(Power(radix, n - low), Pow2((n - low) * bits), w);
    MulMono(1, n - low, bits);
    MulMono(n - low, low + 1, bits);
    DivMod(x, w);
    QuotientFits(x, x / w, x % w, radix, n, low);
  }

  lemma DigitsAppend(low: seq<nat>, high: seq<nat>, radix: nat)
    requires Digits(low, radix) && Digits(high, radix)
    ensures Digits(low + high, radix)
  {}

  /** The two cases without recursion. */
  method WriteLeaf(pow: array<BigFloat>, out: array<nat>, lo: nat, a: BigFloat, n: nat, ghost n0: nat, radix: nat,
      ghost bits: nat, ghost x: int)
    requires 1 <= n <= 2 && lo + n <= out.Length && 2 <= radix < B && Represents(a, x) && 0 <= x < Power(radix, n)
    requires PairsOk(pow, out, n0, radix, bits)
    modifies out
    ensures PairsOk(pow, out, n0, radix, bits)
    ensures Digits(out[lo..lo + n], radix) && Number(out[lo..lo + n], radix) == x
    ensures forall i :: (0 <= i < lo || lo + n <= i < out.Length) ==> out[i] == old(out[i])
  {
    hide Pow2, Represents, B, LowSize, Number, Power, PairOk;
    PowerSmall(radix);
    if n == 1 {
      WriteOne(out, lo, a, radix, x);
      assert out[lo..lo + 1] == [out[lo]];
      NumberOne(out[lo], radix);
    } else {
      WriteTwo(out, lo, a, radix, x);
      assert out[lo..lo + 2] == [out[lo], out[lo + 1]];
      TwoDigits(out[lo], out[lo + 1], radix);
    }
  }

  lemma SizePositive(n: int, n0: nat, level: nat)
    requires SizeAt(n, n0, level)
    ensures n >= 1
  {}

  /** bf_integer_to_radix_rec: writes the n digits of x. */
  method ToRadixRec(pow: array<BigFloat>, out: array<nat>, lo: nat, a: BigFloat, n: nat, level: nat, n0: nat,
      radix: nat, bits: nat, ghost x: int)
    requires lo + n <= out.Length && SizeAt(n, n0, level) && n <= n0 < B && n0 * LIMB_BITS < MAX_BITS
    requires 2 <= radix < B && radix <= Pow2(bits) && bits >= 1 && Represents(a, x) && 0 <= x < Power(radix, n)
    requires PairsOk(pow, out, n0, radix, bits) && forall k: nat :: Pow2(k) <= n0 ==> 2 * k + 1 < pow.Length
    modifies pow, out
    ensures PairsOk(pow, out, n0, radix, bits)
    ensures Digits(out[lo..lo + n], radix) && Number(out[lo..lo + n], radix) == x
    ensures forall i :: (0 <= i < lo || lo + n <= i < out.Length) ==> out[i] == old(out[i])
    decreases n
  {
    hide Pow2, Represents, MAX_BITS, B, SizeAt, LowSize, Number, Power, PairsOk, InverseOf, InversePrec;
    SizePositive(n, n0, level);
    if n <= 2 {
      WriteLeaf(pow, out, lo, a, n, n0, radix, bits, x);
    } else {
      Sizes(n, n0, level);
      var n2: nat := LowSize(n0, level);
      var n1: nat := n - n2;
      var p, inv := LevelPair(pow, out, level, n0, radix, bits);
      LevelBounds(x, n, n2, n0, radix, bits);
      ghost var w := Power(radix, n2);
      var q, r := Divide(a, p, inv, n1 * bits, x, w, InversePrec(n2, bits), n0 * LIMB_BITS + 1);
      ToRadixRec(pow, out, lo + n2, q, n1, level + 1, n0, radix, bits, x / w);
      ghost var high := out[lo + n2..lo + n];
      ToRadixRec(pow, out, lo, r, n2, level + 1, n0, radix, bits, x % w);
      assert out[lo + n2..lo + n] == high && out[lo..lo + n] == out[lo..lo + n2] + high;
      DigitsJoin(out[lo..lo + n2], high, radix);
      DigitsAppend(out[lo..lo + n2], high, radix);
    }
  }

  method NewPairs(n: nat, radix: nat, bits: nat, out: array<nat>) returns (pow: array<BigFloat>)
    requires 1 <= n < B
    ensures fresh(pow) && PairsOk(pow, out, n, radix, bits) && forall k: nat :: Pow2(k) <= n ==> 2 * k + 1 < pow.Length
  {
    hide Pow2, LowSize, B, CeilLog2, Represents, InverseOf;
    CeilLog2Exact(n);
    var len := (CeilLog2(n) + 2) * 2;
    var zero := new BigFloat();
    pow := new BigFloat[len](_ => zero);
    forall k: nat | Pow2(k) <= n ensures 2 * k + 1 < len {
      TableSuffices(n, k, CeilLog2(n));
    }
  }

  /** bf_integer_to_radix: the n digits of a number below radix^n. */
  method ToRadix(a: BigFloat, n: nat, radix: nat, ghost x: int) returns (out: array<nat>)
    requires 1 <= n < B && n * LIMB_BITS < MAX_BITS && 2 <= radix < B && Represents(a, x) && 0 <= x < Power(radix, n)
    ensures fresh(out) && out.Length == n && Digits(out[..], radix) && Number(out[..], radix) == x
  {
    hide Pow2, Represents, MAX_BITS, B, SizeAt, Number, Power, PairsOk, CeilLog2;
    out := new nat[n];
    CeilLog2Exact(radix);
    var bits: nat := CeilLog2(radix);
    if bits == 0 { Pow2Zero(); }
    SizeAtTop(n);
    var pow := NewPairs(n, radix, bits, out);
    ToRadixRec(pow, out, 0, a, n, 0, n, radix, bits, x);
    assert out[0..0 + n] == out[..];
  }

  // ----- round trips -----

  /** Writing the digits of an integer and reading them gives the integer. */
  method WriteThenRead(a: BigFloat, n: nat, radix: nat, ghost x: int) returns (r: BigFloat)
    requires 1 <= n < B && n * LIMB_BITS < MAX_BITS && 2 <= radix < B && Represents(a, x) && 0 <= x < Power(radix, n)
    ensures Represents(r, x)
  {
    hide Pow2, Represents, MAX_BITS, B, Number, Power, IsLimbs;
    var out := ToRadix(a, n, radix, x);
    DigitLimbs(out[..], radix);
    r := FromRadix.FromRadix(out, radix);
  }

  lemma DigitLimbs(s: seq<nat>, radix: nat)
    requires Digits(s, radix) && radix <= B
    ensures IsLimbs(s)
  {}

  /** Reading digits and writing the integer gives the digits. */
  method ReadThenWrite(tab: array<nat>, radix: nat) returns (out: array<nat>)
    requires 1 <= tab.Length < B && tab.Length * LIMB_BITS < MAX_BITS && 2 <= radix < B && Digits(tab[..], radix)
    ensures out[..] == tab[..]
  {
    hide Pow2, Represents, MAX_BITS, B, Number, Power, IsLimbs, Digits;
    ghost var s: seq<nat> := tab[..];
    DigitLimbs(s, radix);
    NumberBound(s, radix);
    var r := FromRadix.FromRadix(tab, radix);
    out := ToRadix(r, tab.Length, radix, Number(s, radix));
    NumberUnique(out[..], s, radix);
  }
}
