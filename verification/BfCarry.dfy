/**
The limb loops of bf_add_internal (libbf.c): sum or difference of two aligned
numbers, limb by limb, with a jump over the limbs where both are zero.
*/
module BfCarry {
  import opened Limb
  import opened MpBasic
  import opened Newton
  import opened BfBits
  import opened BfDivide
  import opened BfAlign
  import opened BfCancel

  /** The sum of two numbers, or their difference. */
  function Combine(x: int, y: int, sub: bool): int {
    if sub then x - y else x + y
  }

  /** The carry c into limb k, where a subtraction adds the complement and starts with carry 1. */
  ghost predicate CarryInto(x: int, y: int, sub: bool, k: nat, c: nat) {
    && c <= 1
    && Combine(x % Pow(k), y % Pow(k), sub) == Combine(x, y, sub) % Pow(k) + (c - (if sub then 1 else 0)) * Pow(k)
  }

  lemma LowStep(v: int, k: nat)
    ensures v % Pow(k + 1) == v % Pow(k) + LimbOf(v, k) * Pow(k) && 0 <= v % Pow(k) < Pow(k)
  {
    hide Pow, B;
    Base();
    var p := Pow(k);
    PowStep(k);
    DivMod(v, p);
    var w := v / p;
    DivMod(w, B);
    MulAdd((w / B) * B, w % B, p);
    MulAssoc(w / B, B, p);
    MulMono(w % B + 1, B, p);
    MulAdd(w % B, 1, p);
    MulNonNeg(w % B, p);
    DivUnique(v, B * p, w / B, (w % B) * p + v % p);
  }

  /** Sum or difference modulo p depends on the parts modulo p. */
  lemma CombineMod(x: int, y: int, sub: bool, p: int, r: int, m: int)
    requires 0 < p && 0 <= r < p && Combine(x % p, y % p, sub) == r + m * p
    ensures Combine(x, y, sub) % p == r
  {
    DivMod(x, p);
    DivMod(y, p);
    var q := (if sub then x / p - y / p else x / p + y / p) + m;
    if sub {
      MulSub(x / p, y / p, p);
      MulAdd(x / p - y / p, m, p);
    } else {
      MulAdd(x / p, y / p, p);
      MulAdd(x / p + y / p, m, p);
    }
    DivUnique(Combine(x, y, sub), p, q, r);
  }

  /** One limb: the word u is the limb of the result and c' the next carry. */
  lemma CarryOn(x: int, y: int, sub: bool, k: nat, c: nat, u: nat, c': nat)
    requires CarryInto(x, y, sub, k, c) && u < B && c' <= 1
    requires u + c' * B == LimbOf(x, k) + (if sub then B - 1 - LimbOf(y, k) else LimbOf(y, k)) + c
    ensures CarryInto(x, y, sub, k + 1, c') && u == LimbOf(Combine(x, y, sub), k)
  {
    hide Pow, B, LimbOf;
    var s, p, z := if sub then 1 else 0, Pow(k), Combine(x, y, sub);
    LowStep(x, k);
    LowStep(y, k);
    LowStep(z, k);
    PowStep(k);
    LimbSum(x % p, y % p, LimbOf(x, k), LimbOf(y, k), sub, z % p, c - s, u, c' - s, p, B);
    MulMono(u + 1, B, p);
    MulAdd(u, 1, p);
    MulNonNeg(u, p);
    CombineMod(x, y, sub, B * p, z % p + u * p, c' - s);
    SameFactor(u, LimbOf(z, k), p);
  }

  lemma SameFactor(x: int, y: int, p: int)
    requires 0 < p && x * p == y * p
    ensures x == y
  {
    Cancel(x, y, p);
    Cancel(y, x, p);
  }

  lemma LimbSum(xl: int, yl: int, v1: int, v2: int, sub: bool, zl: int, m: int, u: int, m': int, p: int, b: int)
    requires Combine(xl, yl, sub) == zl + m * p
    requires u + m' * b == Combine(v1, v2, sub) + m
    ensures Combine(xl + v1 * p, yl + v2 * p, sub) == (zl + u * p) + m' * (b * p)
  {
    var w := Combine(v1, v2, sub);
    MulAdd(w, m, p);
    MulAdd(u, m' * b, p);
    MulAssoc(m', b, p);
    if sub { MulSub(v1, v2, p); } else { MulAdd(v1, v2, p); }
  }

  /** A run of limbs that are zero in both numbers: one turn of the loop stands for all of them. */
  lemma CarryOverGap(x: int, y: int, sub: bool, k: nat, k': nat, c: nat, u: nat, c': nat)
    requires CarryInto(x, y, sub, k, c) && k < k' && x % Pow(k') == x % Pow(k) && y % Pow(k') == y % Pow(k)
    requires u < B && c' <= 1 && u + c' * B == (if sub then B - 1 else 0) + c
    ensures CarryInto(x, y, sub, k', c')
    ensures Combine(x, y, sub) % Pow(k') != 0 <==> Combine(x, y, sub) % Pow(k) != 0 || u != 0
  {
    hide Pow, B;
    Base();
    var p, p', z := Pow(k), Pow(k'), Combine(x, y, sub);
    PowMono(k + 1, k');
    PowStep(k);
    MulMono(2, B, p);
    DivMod(z, p);
    DivMod(x, p);
    DivMod(y, p);
    if sub {
      assert c' == c && u == (if c == 1 then 0 else B - 1);
      CombineMod(x, y, sub, p', z % p + (if c == 1 then 0 else p' - p), c - 1);
    } else {
      assert c' == 0 && u == c;
      CombineMod(x, y, sub, p', z % p + (if c == 1 then p else 0), 0);
    }
  }

  // ----- reading the operands -----

  /** Below its mantissa an aligned number has only zeros. */
  lemma ZeroBelow(t: seq<nat>, d: int, n: nat, k: nat)
    requires |t| * LIMB_BITS + d <= n * LIMB_BITS && k * LIMB_BITS <= n * LIMB_BITS - |t| * LIMB_BITS - d
    ensures Aligned(t, d, n) % Pow(k) == 0
  {
    hide Val, Pow, Pow2;
    PowBits(k);
    MulNonNeg(k, LIMB_BITS);
    var w := n * LIMB_BITS - |t| * LIMB_BITS - d;
    PowerSplit(w, k * LIMB_BITS);
    FactorOut(Val(t), Pow2(w - k * LIMB_BITS), Pow2(k * LIMB_BITS), Pow2(w));
    DivUnique(Aligned(t, d, n), Pow(k), Val(t) * Pow2(w - k * LIMB_BITS), 0);
  }

  /** Above its mantissa too. */
  lemma AlignedBound(t: seq<nat>, d: int, n: nat)
    requires IsLimbs(t) && |t| * LIMB_BITS + d <= n * LIMB_BITS && 0 <= d
    ensures 0 <= Aligned(t, d, n) < Pow2(n * LIMB_BITS - d) && n * LIMB_BITS - d >= 0
  {
    hide Val, Pow, Pow2, B, IsLimbs;
    ValBound(t);
    PowBits(|t|);
    MulNonNeg(|t|, LIMB_BITS);
    var w := n * LIMB_BITS - |t| * LIMB_BITS - d;
    Pow2Add(|t| * LIMB_BITS, w);
    MulNonNeg(Val(t), Pow2(w));
    MulStrict(Val(t), Pow2(|t| * LIMB_BITS), Pow2(w));
  }

  lemma WholeAbove(t: seq<nat>, d: int, n: nat, k: nat)
    requires IsLimbs(t) && |t| * LIMB_BITS + d <= n * LIMB_BITS && 0 <= d && k * LIMB_BITS >= n * LIMB_BITS - d
    ensures Aligned(t, d, n) % Pow(k) == Aligned(t, d, n) && Aligned(t, d, n) < Pow(k)
  {
    hide Val, Pow, Pow2, B, IsLimbs, Aligned;
    AlignedBound(t, d, n);
    PowBits(k);
    MulNonNeg(k, LIMB_BITS);
    Pow2Mono(n * LIMB_BITS - d, k * LIMB_BITS);
    DivUnique(Aligned(t, d, n), Pow(k), 0, Aligned(t, d, n));
  }

  lemma ZeroLimb(v: int, k: nat)
    requires 0 <= v && (v < Pow(k) || v % Pow(k + 1) == 0)
    ensures LimbOf(v, k) == 0
  {
    hide Pow, B;
    Base();
    if v < Pow(k) {
      DivUnique(v, Pow(k), 0, v);
      DivUnique(0, B, 0, 0);
    } else {
      LowStep(v, k);
      LimbRange(v, k);
      if LimbOf(v, k) > 0 { MulPos(LimbOf(v, k), Pow(k)); }
    }
  }

  /** Limb k of both aligned operands as the loops read it; inside tells whether either mantissa reaches it. */
  method ReadLimbs(a: array<nat>, b: array<nat>, d: nat, n: nat, k: nat) returns (v1: nat, v2: nat, inside: bool)
    requires IsLimbs(a[..]) && IsLimbs(b[..]) && a.Length * LIMB_BITS <= n * LIMB_BITS
    requires b.Length * LIMB_BITS + d <= n * LIMB_BITS && k < n
    ensures v1 == LimbOf(Aligned(a[..], 0, n), k) && v2 == LimbOf(Aligned(b[..], d, n), k) && v1 < B && v2 < B
    ensures inside <==>
      || 0 <= k - n + a.Length < a.Length
      || (0 < (k + 1 - n + b.Length) * LIMB_BITS + d && (k - n + b.Length) * LIMB_BITS + d < b.Length * LIMB_BITS)
  {
    hide B, Pow, Pow2, Aligned, GetBits, IsLimbs, LimbOf;
    Base();
    var ap, bp := k - n + a.Length, (k - n + b.Length) * LIMB_BITS + d;
    ghost var x, y := Aligned(a[..], 0, n), Aligned(b[..], d, n);
    inside := false;
    LimbIsBits(a[..], ap);
    AlignedLimb(a[..], 0, n, k);
    LimbRange(x, k);
    if 0 <= ap < a.Length {
      v1 := a[ap];
      inside := true;
    } else {
      v1 := 0;
    }
    AlignedLimb(b[..], d, n, k);
    LimbRange(y, k);
    MulAdd(k - n + b.Length, 1, LIMB_BITS);
    if bp + LIMB_BITS > 0 && bp < b.Length * LIMB_BITS {
      v2 := GetBits(b[..], bp);
      inside := true;
    } else {
      v2 := 0;
      OutsideB(b[..], d, n, k);
    }
  }

  lemma OutsideB(t: seq<nat>, d: nat, n: nat, k: nat)
    requires IsLimbs(t) && |t| * LIMB_BITS + d <= n * LIMB_BITS
    requires var p := (k - n + |t|) * LIMB_BITS + d; p + LIMB_BITS <= 0 || |t| * LIMB_BITS <= p
    ensures LimbOf(Aligned(t, d, n), k) == 0
  {
    hide B, Pow, Pow2, Aligned, IsLimbs, LimbOf;
    MulSub(k, n, LIMB_BITS);
    MulAdd(k - n, |t|, LIMB_BITS);
    MulAdd(k, 1, LIMB_BITS);
    AlignedBound(t, d, n);
    if (k - n + |t|) * LIMB_BITS + d + LIMB_BITS <= 0 {
      ZeroBelow(t, d, n, k + 1);
    } else {
      WholeAbove(t, d, n, k);
    }
    ZeroLimb(Aligned(t, d, n), k);
  }

  /** A limb as the processor adds it: complemented for a subtraction. */
  function Masked(v: nat, sub: bool): int {
    if sub then B - 1 - v else v
  }

  // ----- the loops -----

  /** Where the first loop goes from limb index i (relative to the result) when neither mantissa reaches it. */
  function Jump(i: int, aOffset: int, bBitOffset: int): int {
    var ap, bp := aOffset + i, bBitOffset + i * LIMB_BITS;
    var j := if ap < 0 && -aOffset < 0 then -aOffset else 0;
    if bp + LIMB_BITS <= 0 && (-bBitOffset) / LIMB_BITS < j then (-bBitOffset) / LIMB_BITS else j
  }

  /** The jump passes only limbs that are zero in both numbers, and at least one. */
  lemma JumpOverZeros(a: seq<nat>, b: seq<nat>, d: nat, n: nat, len: nat, i: int)
    requires IsLimbs(a) && IsLimbs(b) && |a| * LIMB_BITS <= n * LIMB_BITS && |b| * LIMB_BITS + d <= n * LIMB_BITS
    requires len - n <= i < 0 && len <= n
    requires i + |a| - len < 0
    requires var bp := (|b| - len + i) * LIMB_BITS + d; bp + LIMB_BITS <= 0 || |b| * LIMB_BITS <= bp
    ensures var i' := Jump(i, |a| - len, (|b| - len) * LIMB_BITS + d); var k, k' := i + n - len, i' + n - len;
      && i < i' <= 0
      && Aligned(a, 0, n) % Pow(k') == Aligned(a, 0, n) % Pow(k)
      && Aligned(b, d, n) % Pow(k') == Aligned(b, d, n) % Pow(k)
  {
    hide Pow, Pow2, B, IsLimbs, Aligned, Val;
    var bo := (|b| - len) * LIMB_BITS + d;
    var i' := Jump(i, |a| - len, bo);
    var k, k' := i + n - len, i' + n - len;
    MulAdd(|b| - len, i, LIMB_BITS);
    JumpForward(i, |a| - len, bo);
    ZeroTo(a, 0, n, k');
    ZeroTo(a, 0, n, k);
    if bo + i * LIMB_BITS + LIMB_BITS <= 0 {
      MulAdd(i', n - len, LIMB_BITS);
      MulSub(n, len, LIMB_BITS);
      MulSub(|b|, len, LIMB_BITS);
      ZeroBelow(b, d, n, k');
      MulMono(k, k', LIMB_BITS);
      ZeroBelow(b, d, n, k);
    } else {
      MulAdd(i, n - len, LIMB_BITS);
      MulSub(n, len, LIMB_BITS);
      MulSub(|b|, len, LIMB_BITS);
      WholeAbove(b, d, n, k);
      MulMono(k, k', LIMB_BITS);
      WholeAbove(b, d, n, k');
    }
  }

  lemma ZeroTo(a: seq<nat>, d: int, n: nat, k: nat)
    requires |a| * LIMB_BITS <= n * LIMB_BITS && k <= n - |a| && d == 0
    ensures Aligned(a, d, n) % Pow(k) == 0
  {
    hide Pow, Pow2, B, Aligned;
    MulMono(k, n - |a|, LIMB_BITS);
    MulSub(n, |a|, LIMB_BITS);
    ZeroBelow(a, d, n, k);
  }

  lemma JumpForward(i: int, ao: int, bo: int)
    requires i < 0 && ao + i < 0
    ensures var i' := Jump(i, ao, bo); i < i' <= 0 && i' <= -ao && (bo + i * LIMB_BITS + LIMB_BITS <= 0 ==>
      bo + i' * LIMB_BITS <= 0)
  {
    var q := (-bo) / LIMB_BITS;
    DivMod(-bo, LIMB_BITS);
    var i' := Jump(i, ao, bo);
    if bo + i * LIMB_BITS + LIMB_BITS <= 0 {
      if q <= i { MulMono(q, i, LIMB_BITS); }
      MulMono(i', q, LIMB_BITS);
    }
  }

  /** The first loop: the limbs below the result give a carry and tell whether any of them is set. */
  method LowPart(a: array<nat>, b: array<nat>, d: nat, sub: bool, n: nat, len: nat) returns (c: nat, z: bool)
    requires IsLimbs(a[..]) && IsLimbs(b[..]) && a.Length * LIMB_BITS <= n * LIMB_BITS
    requires b.Length * LIMB_BITS + d <= n * LIMB_BITS && len <= n
    ensures CarryInto(Aligned(a[..], 0, n), Aligned(b[..], d, n), sub, n - len, c)
    ensures z <==> Combine(Aligned(a[..], 0, n), Aligned(b[..], d, n), sub) % Pow(n - len) != 0
  {
    hide B, Pow, Pow2, Aligned, IsLimbs, LimbOf, CarryInto, LimbAdd, Jump, Combine;
    ghost var x, y := Aligned(a[..], 0, n), Aligned(b[..], d, n);
    c, z := if sub then 1 else 0, false;
    var i := len - n;
    CarryStart(x, y, sub);
    while i < 0
      invariant len - n <= i <= 0 && c <= 1
      invariant CarryInto(x, y, sub, i + n - len, c)
      invariant z <==> Combine(x, y, sub) % Pow(i + n - len) != 0
      decreases -i
    {
      ghost var k := i + n - len;
      var v1, v2, inside := ReadLimbs(a, b, d, n, i + n - len);
      var m := Masked(v2, sub);
      LimbAddExact(v1, m, c);
      var (u, c') := LimbAdd(v1, m, c);
      if inside {
        CarryOn(x, y, sub, k, c, u, c');
        LowNonZero(Combine(x, y, sub), k, u);
        i := i + 1;
      } else {
        assert k - n + b.Length == b.Length - len + i;
        MulAdd(b.Length - len + i, 1, LIMB_BITS);
        JumpOverZeros(a[..], b[..], d, n, len, i);
        MulAdd(b.Length - len, i, LIMB_BITS);
        var i' := Jump(i, a.Length - len, (b.Length - len) * LIMB_BITS + d);
        GapLimbs(x, y, k, i' + n - len);
        CarryOverGap(x, y, sub, k, i' + n - len, c, u, c');
        i := i';
      }
      z := z || u != 0;
      c := c';
    }
  }

  lemma CarryStart(x: int, y: int, sub: bool)
    ensures CarryInto(x, y, sub, 0, if sub then 1 else 0) && Combine(x, y, sub) % Pow(0) == 0
  {
    hide B;
    PowZero();
    DivUnique(x, 1, x, 0);
    DivUnique(y, 1, y, 0);
    DivUnique(Combine(x, y, sub), 1, Combine(x, y, sub), 0);
  }

  lemma LowNonZero(s: int, k: nat, u: int)
    requires u == LimbOf(s, k)
    ensures s % Pow(k + 1) != 0 <==> s % Pow(k) != 0 || u != 0
  {
    hide B, Pow, LimbOf;
    LowStep(s, k);
    LimbRange(s, k);
    if u > 0 { MulPos(u, Pow(k)); }
  }

  lemma GapLimbs(x: int, y: int, k: nat, k': nat)
    requires k < k' && x % Pow(k') == x % Pow(k) && y % Pow(k') == y % Pow(k)
    ensures LimbOf(x, k) == 0 && LimbOf(y, k) == 0
  {
    hide B, Pow, LimbOf;
    GapLimb(x, k, k');
    GapLimb(y, k, k');
  }

  lemma GapLimb(x: int, k: nat, k': nat)
    requires k < k' && x % Pow(k') == x % Pow(k)
    ensures LimbOf(x, k) == 0
  {
    hide B, Pow, LimbOf;
    LowStep(x, k);
    LimbRange(x, k);
    ModMod(x, k + 1, k');
    PowMono(k, k + 1);
    DivUnique(x % Pow(k), Pow(k + 1), 0, x % Pow(k));
    if LimbOf(x, k) > 0 { MulPos(LimbOf(x, k), Pow(k)); }
  }

  lemma ModMod(x: int, k: nat, k': nat)
    requires k <= k'
    ensures (x % Pow(k')) % Pow(k) == x % Pow(k)
  {
    hide B, Pow;
    PowAdd(k' - k, k);
    var c, d := Pow(k' - k), Pow(k);
    MulPos(c, d);
    DivMod(x, c * d);
    DivMod(x, d);
    MulAssoc(x / (c * d), c, d);
    MulSub(x / d, (x / (c * d)) * c, d);
    DivUnique(x % (c * d), d, x / d - (x / (c * d)) * c, x % d);
  }

  lemma ResultLimb(s: int, w: nat, i: nat)
    ensures LimbOf(s, w + i) == LimbOf(s / Pow(w), i)
  {
    hide B, Pow;
    Base();
    PowAdd(w, i);
    Nested(s, Pow(w), Pow(i));
  }

  /** The second loop: the limbs of the result. */
  method HighPart(a: array<nat>, b: array<nat>, d: nat, sub: bool, n: nat, len: nat, c0: nat) returns (t: array<nat>,
      c: nat)
    requires IsLimbs(a[..]) && IsLimbs(b[..]) && a.Length * LIMB_BITS <= n * LIMB_BITS
    requires b.Length * LIMB_BITS + d <= n * LIMB_BITS && len <= n
    requires CarryInto(Aligned(a[..], 0, n), Aligned(b[..], d, n), sub, n - len, c0)
    ensures fresh(t) && t.Length == len && IsLimbs(t[..])
    ensures CarryInto(Aligned(a[..], 0, n), Aligned(b[..], d, n), sub, n, c)
    ensures Val(t[..]) == (Combine(Aligned(a[..], 0, n), Aligned(b[..], d, n), sub) / Pow(n - len)) % Pow(len)
  {
    hide B, Pow, Pow2, Val, Aligned, LimbOf, CarryInto, LimbAdd, Combine;
    ghost var x, y := Aligned(a[..], 0, n), Aligned(b[..], d, n);
    ghost var s := Combine(x, y, sub) / Pow(n - len);
    t := new nat[len];
    c := c0;
    var i := 0;
    CarrySmall(x, y, sub, n - len, c0);
    ValEmpty();
    PowZero();
    DivUnique(s, 1, s, 0);
    assert t[..0] == [];
    while i < len
      invariant 0 <= i <= len && c <= 1
      invariant IsLimbs(t[..i])
      invariant CarryInto(x, y, sub, n - len + i, c)
      invariant Val(t[..i]) == s % Pow(i)
    {
      var v1, v2, _ := ReadLimbs(a, b, d, n, n - len + i);
      var m := Masked(v2, sub);
      LimbAddExact(v1, m, c);
      var (u, c') := LimbAdd(v1, m, c);
      CarryOn(x, y, sub, n - len + i, c, u, c');
      ResultLimb(Combine(x, y, sub), n - len, i);
      LowStep(s, i);
      ghost var done: seq<nat> := t[..i];
      t[i] := u;
      assert t[..i + 1] == done + [u];
      ValPush(done, u);
      c := c';
      i := i + 1;
    }
    assert t[..len] == t[..];
  }

  lemma CarrySmall(x: int, y: int, sub: bool, k: nat, c: nat)
    requires CarryInto(x, y, sub, k, c)
    ensures c <= 1
  {}

  /** After the last limb: a difference has no borrow, a sum may carry into one more limb. */
  lemma LastCarry(x: int, y: int, sub: bool, n: nat, len: nat, c: nat)
    requires len <= n && 0 <= x < Pow(n) && 0 <= y < Pow(n) && (sub ==> y <= x) && CarryInto(x, y, sub, n, c)
    ensures var q := Combine(x, y, sub) / Pow(n - len);
      && (sub ==> c == 1) && q == q % Pow(len) + (if sub then 0 else c) * Pow(len) && 0 <= q
  {
    hide B, Pow;
    var z, p, w := Combine(x, y, sub), Pow(n), Pow(n - len);
    DivUnique(x, p, 0, x);
    DivUnique(y, p, 0, y);
    DivMod(z, p);
    PowAdd(n - len, len);
    var m := if sub then 0 else c;
    if sub {
      DivUnique(z, p, 0, z);
      MulSub(c, 1, p);
      assert c == 1 by { MulMono(0, c, p); MulMono(c, 1, p); }
    }
    assert z == z % p + m * p;
    var q := z / w;
    DivMod(z, w);
    HighDigits(z, z % p, m, w, Pow(len));
  }

  lemma HighDigits(z: int, low: int, m: int, w: int, l: int)
    requires 0 < w && 0 < l && 0 <= low < w * l && z == low + m * (w * l) && 0 <= m
    ensures z / w == (z / w) % l + m * l && 0 <= z / w
  {
    DivMod(low, w);
    Shuffle(m, w, l);
    MulAdd(low / w, m * l, w);
    DivUnique(z, w, low / w + m * l, low % w);
    if low / w >= l { MulMono(l, low / w, w); MulComm(w, l); }
    if low / w < 0 { MulMono(low / w, -1, w); }
    DivUnique(z / w, l, m, low / w);
    MulNonNeg(m, l);
  }
}
