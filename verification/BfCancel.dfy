/**
How many leading bits a subtraction can cancel (libbf.c:
count_cancelled_bits).
*/
module BfCancel {
  import opened Limb
  import opened MpBasic
  import opened Newton
  import opened BfBits
  import opened BfNormalize
  import opened BfAlign

  // ----- single limbs -----

  /** clz of any limb */
  function Clz0(v: nat): nat
    requires v < B
  {
    if v == 0 then LIMB_BITS else Clz(v)
  }

  lemma ClzRange(v: nat, w: nat)
    requires v < B && v < Pow2(w) && w <= LIMB_BITS
    ensures LIMB_BITS - w <= Clz0(v) <= LIMB_BITS
    ensures Clz0(v) < LIMB_BITS ==> Pow2(LIMB_BITS - 1 - Clz0(v)) <= v
    ensures Clz0(v) == LIMB_BITS <==> v == 0
  {
    hide B, Pow2, Clz;
    if v > 0 {
      ClzExact(v);
      Base();
      var c := Clz(v);
      Pow2Add(LIMB_BITS - 1 - c, c);
      Cancel(Pow2(LIMB_BITS - 1 - c), v, Pow2(c));
      if c < LIMB_BITS - w { Pow2Mono(w, LIMB_BITS - 1 - c); }
    }
  }

  /** clz(x ^ y) for two different numbers of w bits */
  function ClzXor(x: nat, y: nat, w: nat): (c: nat)
    requires w >= 1 && x != y && x < Pow2(w) && y < Pow2(w)
    ensures c < w
  {
    var h := Pow2(w - 1);
    if (x >= h) != (y >= h) then 0
    else 1 + ClzXor(if x >= h then x - h else x, if y >= h then y - h else y, w - 1)
  }

  /** x without bit w. */
  function Without(x: nat, w: nat): nat {
    if x >= Pow2(w) then x - Pow2(w) else x
  }

  lemma ClzXorStep(x: nat, y: nat, w: nat)
    requires w >= 1 && y < x < Pow2(w) && !(y < Pow2(w - 1) <= x)
    ensures w >= 2 && Without(y, w - 1) < Without(x, w - 1) < Pow2(w - 1)
    ensures Without(x, w - 1) - Without(y, w - 1) == x - y
    ensures ClzXor(x, y, w) == 1 + ClzXor(Without(x, w - 1), Without(y, w - 1), w - 1)
  {}

  lemma ClzXorTop(x: nat, y: nat, w: nat)
    requires w >= 1 && y < Pow2(w - 1) <= x < Pow2(w)
    ensures ClzXor(x, y, w) == 0 && x % Pow2(w - 1) == x - Pow2(w - 1) && y % Pow2(w - 1) == y
  {
    DivUnique(x, Pow2(w - 1), 1, x - Pow2(w - 1));
    DivUnique(y, Pow2(w - 1), 0, y);
  }

  /** At the first differing bit the numbers part by 2^p and their low p bits. */
  lemma {:induction false} ClzXorExact(x: nat, y: nat, w: nat)
    requires w >= 1 && y < x < Pow2(w)
    ensures var p := w - 1 - ClzXor(x, y, w); x - y == Pow2(p) + x % Pow2(p) - y % Pow2(p)
    decreases w
  {
    hide Pow2, ClzXor, Without;
    if y < Pow2(w - 1) <= x {
      ClzXorTop(x, y, w);
    } else {
      ClzXorStep(x, y, w);
      var x', y' := Without(x, w - 1), Without(y, w - 1);
      ClzXorExact(x', y', w - 1);
      var p := w - 2 - ClzXor(x', y', w - 1);
      WithoutLow(x, w - 1, p);
      WithoutLow(y, w - 1, p);
    }
  }

  lemma WithoutLow(x: nat, w: nat, p: nat)
    requires p <= w
    ensures Without(x, w) % Pow2(p) == x % Pow2(p)
  {
    DropHigh(x, w, p);
  }

  lemma DropHigh(x: int, w: nat, p: nat)
    requires p <= w
    ensures (x - Pow2(w)) % Pow2(p) == x % Pow2(p)
  {
    hide Pow2;
    Pow2Add(w - p, p);
    var c, d := Pow2(w - p), Pow2(p);
    DivMod(x, d);
    MulSub(x / d, c, d);
    DivUnique(x - c * d, d, x / d - c, x % d);
  }

  /** The complement of the low p bits. */
  lemma Complemented(y: nat, p: nat)
    requires y < B && p <= LIMB_BITS
    ensures (B - 1 - y) % Pow2(p) == Pow2(p) - 1 - y % Pow2(p)
  {
    hide B, Pow2;
    BaseSplit(p);
    var c, d := Pow2(LIMB_BITS - p), Pow2(p);
    DivMod(y, d);
    MulSub(c, y / d, d);
    MulSub(c - y / d, 1, d);
    DivUnique(B - 1 - y, d, c - y / d - 1, d - 1 - y % d);
  }

  // ----- prefixes -----

  /** The j highest of t limbs. */
  ghost function Prefix(v: int, t: nat, j: nat): int
    requires j <= t
  {
    v / Pow(t - j)
  }

  lemma PrefixStep(v: int, t: nat, j: nat)
    requires j < t
    ensures Prefix(v, t, j + 1) == B * Prefix(v, t, j) + LimbOf(v, t - 1 - j)
  {
    hide Pow, B;
    Base();
    var i := t - 1 - j;
    PowStep(i);
    var w := v / Pow(i);
    DivMod(v, Pow(i));
    DivMod(w, B);
    MulComm(B, Pow(i));
    Nested(v, Pow(i), B);
    MulComm(B, w / B);
  }

  lemma Nested(v: int, x: int, y: int)
    requires 0 < x && 0 < y
    ensures v / (x * y) == (v / x) / y
  {
    DivMod(v, x);
    var w := v / x;
    DropLow(v % x, w, x, y);
  }

  lemma PrefixEnds(v: int, t: nat)
    requires 0 <= v < Pow(t)
    ensures Prefix(v, t, 0) == 0 && Prefix(v, t, t) == v
  {
    hide Pow, B;
    DivUnique(v, Pow(t), 0, v);
    PowZero();
    DivUnique(v, 1, v, 0);
  }

  lemma PrefixOrder(x: int, y: int, t: nat, j: nat)
    requires y < x && j <= t
    ensures Prefix(y, t, j) <= Prefix(x, t, j)
    ensures (Prefix(x, t, j) - Prefix(y, t, j) - 1) * Pow(t - j) < x - y
  {
    hide Pow, B;
    var p := Pow(t - j);
    DivMod(x, p);
    DivMod(y, p);
    var d := x / p - y / p;
    MulSub(x / p, y / p, p);
    MulSub(d, 1, p);
    if d <= -1 { MulMono(d, -1, p); }
  }

  /** The limb where two numbers first differ decides; low is what their difference there keeps above a unit. */
  lemma DifferenceAbove(x: int, y: int, t: nat, j: nat, low: int, n: nat, q: nat)
    requires y < x && j < t && Prefix(x, t, j + 1) - Prefix(y, t, j + 1) == 1 + low && Pow2(q) <= low
    requires n + 1 + q == (j + 1) * LIMB_BITS
    ensures Pow(t) < (x - y) * Pow2(n + 1)
  {
    hide Pow, Pow2, B, Prefix;
    PrefixOrder(x, y, t, j + 1);
    var r := t - 1 - j;
    assert low * Pow(r) < x - y;
    MulMono(Pow2(q), low, Pow(r));
    PowBits(t);
    PowBits(r);
    MulSub(t, j + 1, LIMB_BITS);
    Pow2Add(q, r * LIMB_BITS);
    Pow2Add(q + r * LIMB_BITS, n + 1);
    MulNonNeg(r, LIMB_BITS);
    assert q + r * LIMB_BITS + (n + 1) == t * LIMB_BITS;
    MulStrict(Pow2(q + r * LIMB_BITS), x - y, Pow2(n + 1));
  }

  /** Number of leading bits of two fields of p bits that are zero in both. */
  function ZeroBits(x: nat, y: nat, p: nat): int
    requires x < B && y < B && p <= LIMB_BITS
  {
    (if Clz0(x) < Clz0(y) then Clz0(x) else Clz0(y)) - (LIMB_BITS - p)
  }

  lemma ZeroBitsExact(x: nat, y: nat, p: nat)
    requires x < B && y < B && p <= LIMB_BITS && x < Pow2(p) && y < Pow2(p)
    ensures var c := ZeroBits(x, y, p);
      0 <= c <= p && (c == p <==> x == 0 && y == 0) && (c < p ==> Pow2(p - 1 - c) <= x + y)
  {
    hide B, Pow2, Clz;
    ClzRange(x, p);
    ClzRange(y, p);
  }

  // ----- the search -----

  /** Limb j from the top of both mantissas, b shifted down by d bits; n limbs hold both. */
  method ReadPair(a: array<nat>, b: array<nat>, d: nat, j: nat, ghost n: nat) returns (v1: nat, v2: nat)
    requires IsLimbs(a[..]) && IsLimbs(b[..]) && a.Length * LIMB_BITS <= n * LIMB_BITS
    requires b.Length * LIMB_BITS + d <= n * LIMB_BITS
    ensures v1 < B && v2 < B && v1 == LimbOf(Aligned(a[..], 0, n), n - 1 - j)
    ensures v2 == LimbOf(Aligned(b[..], d, n), n - 1 - j)
  {
    hide B, Pow, Pow2, LimbOf, Aligned, GetBits, GetLimbZ, IsLimbs;
    Base();
    v1 := GetLimbZ(a[..], a.Length - 1 - j);
    LimbIsBits(a[..], a.Length - 1 - j);
    AlignedLimb(a[..], 0, n, n - 1 - j);
    LimbRange(Aligned(a[..], 0, n), n - 1 - j);
    AlignedLimb(b[..], d, n, n - 1 - j);
    LimbRange(Aligned(b[..], d, n), n - 1 - j);
    v2 := GetBits(b[..], (b.Length - 1 - j) * LIMB_BITS + d);
  }

  /** The second search: after a difference of one, zeros in a against ones in b. */
  method CountBorrow(a: array<nat>, b: array<nat>, d: nat, j0: nat, ghost t: nat, ghost x: int,
      ghost y: int) returns (n: nat)
    requires IsLimbs(a[..]) && IsLimbs(b[..]) && a.Length * LIMB_BITS <= t * LIMB_BITS
    requires b.Length * LIMB_BITS + d <= t * LIMB_BITS
    requires x == Aligned(a[..], 0, t) && y == Aligned(b[..], d, t) && 0 <= y < x < Pow(t)
    requires j0 <= t && Prefix(x, t, j0) - Prefix(y, t, j0) == 1
    ensures Pow(t) < (x - y) * Pow2(n + 1)
  {
    hide B, Pow, Pow2, LimbOf, Aligned, IsLimbs, Prefix, ZeroBits;
    Base();
    var j := j0;
    n := j * LIMB_BITS;
    while true
      invariant j <= t && n == j * LIMB_BITS && Prefix(x, t, j) - Prefix(y, t, j) == 1
      decreases t - j
    {
      var v1, v2 := ReadPair(a, b, d, j, t);
      if v1 != 0 || v2 != B - 1 {
        BasePow2();
        ZeroBitsExact(v1, B - 1 - v2, LIMB_BITS);
        var p := ZeroBits(v1, B - 1 - v2, LIMB_BITS);
        MulAdd(j, 1, LIMB_BITS);
        if j < t {
          PrefixStep(x, t, j);
          PrefixStep(y, t, j);
          MulSub(Prefix(x, t, j), Prefix(y, t, j), B);
          DifferenceAbove(x, y, t, j, v1 + (B - 1 - v2), n + p, LIMB_BITS - 1 - p);
        } else {
          EndReached(x, y, t, p);
        }
        return n + p;
      }
      assert j < t by { if j == t { NothingBelow(y, t); } }
      PrefixStep(x, t, j);
      PrefixStep(y, t, j);
      MulSub(Prefix(x, t, j), Prefix(y, t, j), B);
      MulAdd(j, 1, LIMB_BITS);
      n := n + LIMB_BITS;
      j := j + 1;
    }
  }

  lemma NothingBelow(y: int, t: nat)
    ensures LimbOf(y, t - 1 - t) == 0
  {}

  lemma EndReached(x: int, y: int, t: nat, p: nat)
    requires 0 <= y < x < Pow(t) && Prefix(x, t, t) - Prefix(y, t, t) == 1
    ensures Pow(t) < (x - y) * Pow2(t * LIMB_BITS + p + 1)
  {
    hide Pow, Pow2, B, Prefix;
    PrefixEnds(x, t);
    PrefixEnds(y, t);
    PowBits(t);
    MulNonNeg(t, LIMB_BITS);
    Pow2Step(t * LIMB_BITS);
    Pow2Mono(t * LIMB_BITS + 1, t * LIMB_BITS + p + 1);
  }

  /** The first search: the limbs that agree. */
  method SkipEqual(a: array<nat>, b: array<nat>, d: nat, ghost t: nat, ghost x: int, ghost y: int) returns (j: nat,
      v1: nat, v2: nat)
    requires IsLimbs(a[..]) && IsLimbs(b[..]) && a.Length * LIMB_BITS <= t * LIMB_BITS
    requires b.Length * LIMB_BITS + d <= t * LIMB_BITS
    requires x == Aligned(a[..], 0, t) && y == Aligned(b[..], d, t) && 0 <= y < x < Pow(t)
    ensures j < t && v2 < v1 < B && Prefix(x, t, j + 1) - Prefix(y, t, j + 1) == v1 - v2
  {
    hide B, Pow, Pow2, LimbOf, Aligned, IsLimbs, Prefix;
    j := 0;
    PrefixEnds(x, t);
    PrefixEnds(y, t);
    v1, v2 := ReadPair(a, b, d, j, t);
    assert j < t;
    PrefixStep(x, t, j);
    PrefixStep(y, t, j);
    while v1 == v2
      invariant j < t && v1 < B && v2 < B
      invariant Prefix(x, t, j + 1) - Prefix(y, t, j + 1) == v1 - v2
      decreases t - j
    {
      j := j + 1;
      v1, v2 := ReadPair(a, b, d, j, t);
      assert j < t;
      PrefixStep(x, t, j);
      PrefixStep(y, t, j);
      MulSub(Prefix(x, t, j), Prefix(y, t, j), B);
    }
    PrefixOrder(x, y, t, j + 1);
  }

  /**
  count_cancelled_bits: the difference of a > b, exponents at most one apart,
  has at most n leading zero bits.
  */
  method CountCancelled(a: array<nat>, b: array<nat>, d: nat, ghost t: nat, ghost x: int, ghost y: int) returns (n: nat)
    requires IsLimbs(a[..]) && IsLimbs(b[..]) && a.Length * LIMB_BITS <= t * LIMB_BITS
    requires b.Length * LIMB_BITS + d <= t * LIMB_BITS
    requires x == Aligned(a[..], 0, t) && y == Aligned(b[..], d, t) && 0 <= y < x < Pow(t)
    ensures Pow(t) < (x - y) * Pow2(n + 1)
  {
    hide B, Pow, Pow2, Aligned, IsLimbs, Prefix, ZeroBits, ClzXor;
    var j, v1, v2 := SkipEqual(a, b, d, t, x, y);
    BasePow2();
    var p := LIMB_BITS - (ClzXor(v1, v2, LIMB_BITS) + 1);
    ClzXorExact(v1, v2, LIMB_BITS);
    Complemented(v2, p);
    LowField(v1, p);
    LowField(B - 1 - v2, p);
    var x1, y1 := v1 % Pow2(p), (B - 1 - v2) % Pow2(p);
    assert v1 - v2 == 1 + (x1 + y1);
    var q := p;
    ZeroBitsExact(x1, y1, p);
    if p > 0 {
      q := ZeroBits(x1, y1, p);
      if q != p {
        MulAdd(j, 1, LIMB_BITS);
        MulNonNeg(j, LIMB_BITS);
        n := j * LIMB_BITS + (LIMB_BITS - p) + q;
        DifferenceAbove(x, y, t, j, x1 + y1, n, p - 1 - q);
        return;
      }
    }
    n := CountBorrow(a, b, d, j + 1, t, x, y);
  }

  lemma LowField(v: nat, p: nat)
    requires v < B
    ensures 0 <= v % Pow2(p) < Pow2(p) && v % Pow2(p) < B
  {
    hide B, Pow2;
    DivMod(v, Pow2(p));
    if v / Pow2(p) >= 0 { MulNonNeg(v / Pow2(p), Pow2(p)); } else { MulMono(v / Pow2(p), -1, Pow2(p)); }
  }
}
