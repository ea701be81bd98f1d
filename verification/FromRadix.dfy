/** From digits to an integer (libbf.c: bf_pow_ui, bf_integer_from_radix). */
module FromRadix {
  import opened Limb
  import opened MpBasic
  import opened MpReciprocal
  import opened Newton
  import opened BfBits
  import opened BfNormalize
  import opened BfAlign
  import opened BfFloat
  import opened BfExact
  import opened BfMul
  import opened Radix

  // ----- powers -----

  lemma PowerHalf(x: nat, b: nat)
    ensures Power(x, b) == Power(x, b / 2) * Power(x, b / 2) * (if b % 2 == 1 then x else 1)
  {
    hide Power;
    var h := b / 2;
    PowerAdd(x, h, h);
    if b % 2 == 1 { PowerStep(x, h + h); }
  }

  lemma ShiftStep(b: nat, i: nat)
    ensures (b / Pow2(i)) / 2 == b / Pow2(i + 1)
  {
    hide Pow2;
    Pow2Step(i);
    DivMod(b, Pow2(i));
    DropLow(b % Pow2(i), b / Pow2(i), Pow2(i), 2);
  }

  /** One turn of the loop of bf_pow_ui: square, and multiply when the bit is set. */
  method PowStep(r0: BigFloat, a: BigFloat, b: nat, i: nat, ghost x: nat, ghost l: nat) returns (r: BigFloat)
    requires Represents(a, x) && Represents(r0, Power(x, b / Pow2(i + 1))) && x >= 1 && Power(x, b) < Pow2(l)
    requires l <= MAX_BITS + LIMB_BITS
    ensures fresh(r) && fresh(r.tab) && Represents(r, Power(x, b / Pow2(i)))
  {
    hide Pow2, Power, Represents, MAX_BITS;
    var c := b / Pow2(i);
    ShiftStep(b, i);
    PowerHalf(x, c);
    ghost var h := Power(x, c / 2);
    PowerPositive(x, c / 2);
    MulPos(h, h);
    ShiftedBelow(b, i);
    PowerMono(x, c, b);
    MulMono(1, x, h * h);
    r := MulExact(r0, r0, h, h, l);
    if c % 2 == 1 {
      r := MulExact(r, a, h * h, x, l);
    }
  }

  lemma ShiftedBelow(b: nat, i: nat)
    ensures 0 <= b / Pow2(i) <= b
  {
    hide Pow2;
    DivMod(b, Pow2(i));
    var q := b / Pow2(i);
    if q < 0 { MulMono(q, -1, Pow2(i)); }
    MulMono(1, Pow2(i), q);
  }

  /** Only the top bit is left after the shift by one less than the number of bits. */
  lemma TopBit(b: nat)
    requires 0 < b < B
    ensures var i := LIMB_BITS - Clz(b) - 1; i >= 0 && b / Pow2(i) == 1
  {
    hide Pow2, B, Clz;
    ClzExact(b);
    var c := Clz(b);
    var i := LIMB_BITS - c - 1;
    BaseSplit(c);
    Pow2Step(i);
    CancelStrict(b, Pow2(i + 1), Pow2(c));
    MulAssoc(2, b, Pow2(c));
    Cancel(Pow2(i + 1), 2 * b, Pow2(c));
    DivUnique(b, Pow2(i), 1, b - Pow2(i));
  }

  /** bf_pow_ui_ui at unlimited precision: x^b. */
  method PowSmall(x: nat, b: nat, ghost l: nat) returns (r: BigFloat)
    requires 1 <= x < B && b < B && Power(x, b) < Pow2(l) && l <= MAX_BITS + LIMB_BITS
    ensures fresh(r) && fresh(r.tab) && Represents(r, Power(x, b))
  {
    hide Pow2, Power, Represents, MAX_BITS, B, Clz;
    Base();
    var a := SetSmall(x, false);
    if b == 0 {
      PowerZero(x);
      r := SetSmall(1, false);
      return;
    }
    TopBit(b);
    PowerZero(x);
    Radix.PowerStep(x, 0);
    r := a;
    var i: int := LIMB_BITS - Clz(b) - 2;
    while i >= 0
      invariant -1 <= i && Represents(a, x) && Represents(r, Power(x, b / Pow2(i + 1))) && fresh(r) && fresh(r.tab)
    {
      r := PowStep(r, a, b, i, x, l);
      i := i - 1;
    }
    Pow2Zero();
    DivUnique(b, 1, b, 0);
  }

  // ----- the power table -----

  /** Each entry is not computed yet or is the power that its level needs. */
  ghost predicate TableOk(pow: array<BigFloat>, n0: nat, radix: nat)
    reads *
  {
    forall k :: 0 <= k < pow.Length ==>
      || pow[k].tab.Length == 0
      || (LowSize(n0, k) >= 0 && Represents(pow[k], Power(radix, LowSize(n0, k))))
  }

  /** The power of a level, computed once. */
  method LevelPower(pow: array<BigFloat>, level: nat, n0: nat, radix: nat) returns (p: BigFloat)
    requires level < pow.Length && TableOk(pow, n0, radix) && 1 <= radix < B && 0 <= LowSize(n0, level) <= n0 < B
    requires n0 * LIMB_BITS <= MAX_BITS
    modifies pow
    ensures TableOk(pow, n0, radix) && Represents(p, Power(radix, LowSize(n0, level)))
    ensures p == pow[level] && forall k :: 0 <= k < pow.Length && k != level ==> pow[k] == old(pow[k])
  {
    hide Pow2, Power, MAX_BITS, B, LowSize, Represents;
    if pow[level].tab.Length == 0 {
      var n2 := LowSize(n0, level);
      LevelBits(radix, n2, n0);
      p := PowSmall(radix, n2, n0 * LIMB_BITS + 1);
      pow[level] := p;
    }
    p := pow[level];
  }

  lemma LevelBits(radix: nat, n: nat, n0: nat)
    requires radix < B && n <= n0
    ensures n0 * LIMB_BITS >= 0 && Power(radix, n) < Pow2(n0 * LIMB_BITS + 1)
  {
    hide Pow2, Power, B;
    Base();
    BasePow2();
    PowerBits(radix, n, LIMB_BITS);
    MulMono(n, n0, LIMB_BITS);
    Pow2Mono(n * LIMB_BITS, n0 * LIMB_BITS);
    Pow2Step(n0 * LIMB_BITS);
  }

  // ----- the conversion -----

  /** Limbs read in a radix below B stay below B^n. */
  lemma {:induction false} NumberBelow(s: seq<nat>, radix: nat)
    requires IsLimbs(s) && radix <= B
    ensures Number(s, radix) < Pow(|s|)
    decreases |s|
  {
    hide Number, Pow, B, IsLimbs;
    if s == [] {
      NumberEmpty(radix);
      PowZero();
    } else {
      NumberStep(s, radix);
      LimbsSlice(s, 1, |s|);
      assert s[1..|s|] == s[1..];
      NumberBelow(s[1..], radix);
      assert s[0] < B by { FirstLimb(s); }
      Limb.PowStep(|s| - 1);
      var v: int := Number(s[1..], radix);
      MulMono(radix, B, v);
      MulMono(v + 1, Pow(|s| - 1), B);
      MulAdd(v, 1, B);
    }
  }

  lemma FirstLimb(s: seq<nat>)
    requires IsLimbs(s) && s != []
    ensures s[0] < B
  {}

  lemma NumberFits(s: seq<nat>, radix: nat, n0: nat)
    requires IsLimbs(s) && radix <= B && |s| <= n0
    ensures n0 * LIMB_BITS >= 0 && Number(s, radix) < Pow2(n0 * LIMB_BITS)
  {
    hide Number, Pow, Pow2, B;
    NumberBelow(s, radix);
    PowMono(|s|, n0);
    PowBits(n0);
  }

  /**
  bf_integer_from_radix_rec: the sum of tab[lo + i] * radix^i over n limbs, at a
  level of the conversion of n0 limbs.
  */
  method FromRadixRec(tab: array<nat>, lo: nat, n: nat, level: nat, n0: nat, radix: nat,
      pow: array<BigFloat>) returns (r: BigFloat)
    requires lo + n <= tab.Length && IsLimbs(tab[lo..lo + n]) && 1 <= radix < B && SizeAt(n, n0, level) && n <= n0 < B
    requires n0 * LIMB_BITS <= MAX_BITS
    requires TableOk(pow, n0, radix) && forall k: nat :: Pow2(k) <= n0 ==> k < pow.Length
    modifies pow
    ensures Represents(r, Number(tab[lo..lo + n], radix)) && TableOk(pow, n0, radix)
    decreases n
  {
    hide Pow2, Represents, MAX_BITS, B, SizeAt, LowSize, Number, Power, TableOk, IsLimbs;
    ghost var s: seq<nat> := tab[lo..lo + n];
    if n == 1 {
      FirstLimb(s);
      assert s == [tab[lo]];
      NumberOne(tab[lo], radix);
      r := SetSmall(tab[lo], false);
      return;
    }
    Sizes(n, n0, level);
    var n2: nat := LowSize(n0, level);
    var n1: nat := n - n2;
    var p := LevelPower(pow, level, n0, radix);
    LimbsSlice(s, n2, n);
    LimbsSlice(s, 0, n2);
    Parts(tab[..], lo, n, n2);
    assert tab[..][lo..lo + n] == s && tab[..][lo + n2..lo + n] == tab[lo + n2..lo + n] &&
      tab[..][lo..lo + n2] == tab[lo..lo + n2];
    r := FromRadixRec(tab, lo + n2, n1, level + 1, n0, radix, pow);
    NumberSplit(s, radix, n2);
    NumberFits(s, radix, n0);
    ghost var h: nat, w: nat := Number(s[n2..], radix), Power(radix, n2);
    MulNonNeg(h, w);
    r := MulExact(r, p, h, w, n0 * LIMB_BITS);
    var t := FromRadixRec(tab, lo, n2, level + 1, n0, radix, pow);
    r := AddExact(r, t, false, h * w, Number(s[..n2], radix), n0 * LIMB_BITS);
  }

  lemma Parts(t: seq<nat>, lo: nat, n: nat, k: nat)
    requires lo + n <= |t| && k <= n
    ensures var s := t[lo..lo + n]; s[k..n] == s[k..] == t[lo + k..lo + n] && s[0..k] == s[..k] == t[lo..lo + k]
  {}

  lemma Sizes(n: int, n0: nat, level: nat)
    requires SizeAt(n, n0, level) && n != 1
    ensures n >= 2
    ensures var low := LowSize(n0, level);
      1 <= low < n && SizeAt(low, n0, level + 1) && SizeAt(n - low, n0, level + 1) && n - low <= low + 1
    ensures Pow2(level) <= n0
  {
    hide LowSize, Pow2;
    assert n >= 2;
    hide SizeAt;
    PartsFit(n, n0, level);
  }

  /** ceil_log2 */
  function CeilLog2(n: nat): (k: int)
    requires n < B
  {
    if n <= 1 then 0 else LIMB_BITS - Clz(n - 1)
  }

  lemma CeilLog2Exact(n: nat)
    requires n < B
    ensures CeilLog2(n) >= 0 && n <= Pow2(CeilLog2(n))
  {
    hide Pow2, B, Clz;
    Pow2Zero();
    if n >= 2 {
      var c := Clz(n - 1);
      ClzExact(n - 1);
      BaseSplit(c);
      CancelStrict(n - 1, Pow2(LIMB_BITS - c), Pow2(c));
    }
  }

  /** The table of bf_integer_from_radix and bf_integer_to_radix, with an entry for every level that needs one. */
  method NewTable(n: nat, radix: nat) returns (pow: array<BigFloat>)
    requires 1 <= n < B
    ensures fresh(pow) && TableOk(pow, n, radix) && forall k: nat :: Pow2(k) <= n ==> k < pow.Length
  {
    hide Pow2, LowSize, Power, B, CeilLog2;
    CeilLog2Exact(n);
    var len := CeilLog2(n) + 2;
    var zero := new BigFloat();
    pow := new BigFloat[len](_ => zero);
    forall k: nat | Pow2(k) <= n ensures k < len {
      TableSuffices(n, k, CeilLog2(n));
    }
  }

  /** bf_integer_from_radix, for a radix that fits one limb. */
  method FromRadix(tab: array<nat>, radix: nat) returns (r: BigFloat)
    requires tab.Length >= 1 && IsLimbs(tab[..]) && 1 <= radix < B && tab.Length < B
    requires tab.Length * LIMB_BITS <= MAX_BITS
    ensures Represents(r, Number(tab[..], radix))
  {
    hide Pow2, Represents, MAX_BITS, B, SizeAt, LowSize, Number, Power, TableOk, IsLimbs;
    var n := tab.Length;
    assert tab[0..0 + n] == tab[..];
    SizeAtTop(n);
    var pow := NewTable(n, radix);
    r := FromRadixRec(tab, 0, n, 0, n, radix, pow);
  }
}
