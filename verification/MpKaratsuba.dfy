/**
The recursive square root of libbf.c (mp_sqrtrem2, mp_sqrtrem_rec, mp_sqrtrem):
the algorithm of "Karatsuba Square Root" by Paul Zimmermann.
*/
module MpKaratsuba {
  import opened Limb
  import opened MpBasic
  import opened MpDigit
  import opened MpDivide
  import opened MpReciprocal
  import opened MpLarge
  import opened MpDivNorm
  import opened MpSqrt
  import opened Newton

  const HALF: nat := Pow2(LIMB_BITS / 2)

  lemma HalfSquared()
    ensures B == HALF * HALF && HALF % 2 == 0 && HALF >= 2
  {
    hide Pow2;
    Pow2Add(LIMB_BITS / 2, LIMB_BITS / 2);
    Pow2Step(LIMB_BITS / 2 - 1);
    assert LIMB_BITS / 2 + LIMB_BITS / 2 == LIMB_BITS;
  }

  /** A root of at least B^n/4 has its high bit set: 4*a >= b^2 gives 2*s >= b for even b. */
  lemma RootNormalised(a: int, s: int, r: int, b: int)
    requires Root(a, s, r) && 0 < b && b % 2 == 0 && b * b <= 4 * a < 4 * (b * b)
    ensures b <= 2 * s && s < b
  {
    hide Root;
    var m := b / 2;
    assert b * b == 4 * (m * m) by { assert b == 2 * m; MulAssoc(2, m, 2 * m); }
    RootAtLeast(a, s, r, m);
    RootBelow(a, s, r, b);
  }

  /** mp_sqrtrem2: the root of two limbs; the remainder has one limb and a bit. */
  method SqrtRem2(a0: nat, a1: nat) returns (s: nat, r: nat, rh: nat)
    requires a0 < B && a1 < B <= 4 * a1
    ensures s < B && r < B && rh <= 1 && Root(a0 + a1 * B, s, r + rh * B)
  {
    hide B, HALF, Root;
    Base();
    HalfSquared();
    var b := HALF;
    var s1, r1 := SqrtRem1(a1);
    RootParts(a1, s1, r1);
    RootNormalised(a1, s1, r1, b);
    QuotientBound(a0, b);
    var num := r1 * b + a0 / b;
    DivMod(num, 2 * s1);
    var q, u := num / (2 * s1), num % (2 * s1);
    StepQuotient(s1, r1, b, a0 / b, a0 % b, q, u);
    StepRoot(s1, r1, b, a0 / b, a0 % b, q, u);
    TwoLimbNumber(a1, a0, b);
    ghost var t := s1 * b + q;
    TopRoot(s1, b, q);
    s := (s1 * b + q) % B;
    var e := u * b + a0 % b - if q / b != 0 then B else q * q;
    assert q / b != 0 ==> q == b by { DivMod(q, b); if q < b { DivUnique(q, b, 0, q); } }
    if e < 0 {
      WrapDown(t, B);
      s := if s == 0 then B - 1 else s - 1;
      e := e + (2 * s + 1);
      RootParts(a0 + a1 * B, t - 1, e);
    } else {
      RootParts(a0 + a1 * B, t, e);
      TwoLimbBound(a0, a1, B);
      RootBelow(a0 + a1 * B, t, e, B);
      DivUnique(t, B, 0, t);
    }
    SplitRemainder(e, s, B);
    r, rh := e % B, e / B;
  }

  lemma TwoLimbNumber(a1: int, a0: int, b: int)
    requires 0 < b
    ensures (a1 * b + a0 / b) * b + a0 % b == a0 + a1 * (b * b)
  {
    DivMod(a0, b);
    MulAdd(a1 * b, a0 / b, b);
    MulAssoc(a1, b, b);
  }

  lemma TwoLimbBound(a0: int, a1: int, b: int)
    requires 0 <= a0 < b && 0 <= a1 < b
    ensures a0 + a1 * b < b * b
  {
    MulMono(a1 + 1, b, b);
    MulAdd(a1, 1, b);
  }

  lemma TopRoot(s1: int, b: int, q: int)
    requires 0 <= s1 < b && 0 <= q <= b
    ensures 0 <= s1 * b + q <= b * b
  {
    MulNonNeg(s1, b);
    MulMono(s1 + 1, b, b);
    MulAdd(s1, 1, b);
  }

  /** Decrementing modulo base undoes the wrap. */
  lemma WrapDown(t: int, base: int)
    requires 1 <= t <= base && 1 < base
    ensures (if t % base == 0 then base - 1 else t % base - 1) == t - 1
  {
    if t == base { DivUnique(t, base, 1, 0); } else { DivUnique(t, base, 0, t); }
  }

  lemma SplitRemainder(e: int, s: int, base: int)
    requires 0 <= e <= 2 * s && 0 <= s < base
    ensures e == e % base + (e / base) * base && 0 <= e % base < base && 0 <= e / base <= 1
  {
    if e < base { DivUnique(e, base, 0, e); } else { DivUnique(e, base, 1, e - base); }
  }

  // ----- the division of mp_sqrtrem_rec -----

  /** Low limbs and a small number above them. */
  ghost function Joined(low: seq<nat>, high: int): int {
    Val(low) + high * Pow(|low|)
  }

  /** The remainder of the high half, less the root when its top bit is set, fits h limbs. */
  method FoldTopBit(a: array<nat>, p: nat, r: array<nat>, t: nat, h: nat, qh: nat)
    requires Window(a, p, h) && Window(r, t, h) && a != r && LimbsAt(a, p, h) && LimbsAt(r, t, h) && qh <= 1
    requires Joined(a[p..p + h], qh) <= 2 * Val(r[t..t + h])
    modifies a
    ensures OnlyWindow(a, p, h) && LimbsAt(a, p, h)
    ensures Val(a[p..p + h]) + qh * Val(r[t..t + h]) == old(Joined(a[p..p + h], qh))
  {
    hide Val, Pow, B, IsLimbs;
    if qh != 0 {
      ValBound(r[t..t + h]);
      ValBound(a[p..p + h]);
      var k := Sub(a, p, a, p, r, t, h, 0);
      ValBound(a[p..p + h]);
      assert k == 1;
    }
  }

  /** What the division leaves: q and u with r1*B^l + x == q*2*s1 + u. */
  ghost predicate Halved(r1: int, x: int, s1: int, q: int, u: int, pl: int) {
    r1 * pl + x == q * (2 * s1) + u && 0 <= u < 2 * s1
  }

  /** Shifts the quotient down by one bit and moves that bit into the remainder. */
  method ShiftQuotient(s: array<nat>, t: nat, a: array<nat>, w: nat, l: nat, h: nat, tmp: array<nat>,
      qh: nat) returns (half: nat, rh: nat, ghost ql: nat)
    requires Window(s, t, l + h) && Window(a, w, h) && Window(tmp, 0, l) && s != a && s != tmp && a != tmp
    requires LimbsAt(tmp, 0, l) && LimbsAt(a, w, h) && LimbsAt(s, t + l, h) && qh < B
    modifies s, a
    ensures OnlyWindow(s, t, l) && LimbsAt(s, t, l) && OnlyWindow(a, w, h) && LimbsAt(a, w, h)
    ensures half == qh / 2 && rh <= 1 && ql <= 1
    ensures Val(tmp[..l]) + (qh % 2) * Pow(l) == Val(s[t..t + l]) * 2 + ql
    ensures Joined(a[w..w + h], rh) == old(Val(a[w..w + h])) + ql * old(Val(s[t + l..t + l + h]))
  {
    hide Val, Pow, Pow2, B, IsLimbs;
    Base();
    assert Pow2(1) == 2 by { Pow2Values(); }
    ghost var s1: seq<nat> := s[t + l..t + l + h];
    Copy(s, t, tmp, 0, l);
    assert s[t..t + l] == tmp[0..0 + l] == tmp[..l];
    var bit := Shr(s, t, s, t, l, 1, qh % 2);
    half := qh / 2;
    rh := 0;
    assert s[t + l..t + l + h] == s1;
    if bit != 0 {
      rh := Add(a, w, a, w, s, t + l, h, 0);
    }
    ql := bit;
  }

  /** What the division by the root itself leaves: q0 and u with r1*B^l + x == q0*s1 + u. */
  ghost predicate Quotient(r1: int, x: int, s1: int, low: int, top: int, u: int, pl: int) {
    r1 * pl + x == (low + top * pl) * s1 + u && 0 <= u < s1
  }

  /** Divides the remainder of the high half and the next l limbs by its root. */
  method DivideRemainder(s: array<nat>, t: nat, a: array<nat>, w: nat, l: nat, h: nat, tmp: array<nat>, qh0: nat)
    requires 1 <= l <= h && Window(s, t, h) && Window(a, w, l + h) && Window(tmp, 0, l + 1) && s != a && s != tmp
    requires a != tmp
    requires LimbsAt(a, w, l + h) && NormalisedAt(s, t, h) && qh0 <= 1
    requires Joined(a[w + l..w + l + h], qh0) <= 2 * Val(s[t..t + h])
    modifies a, tmp
    ensures OnlyWindow(a, w, l + h) && LimbsAt(a, w, h) && LimbsAt(tmp, 0, l) && tmp[l] <= 1
    ensures Quotient(old(Joined(a[w + l..w + l + h], qh0)), old(Val(a[w..w + l])), Val(s[t..t + h]),
              Val(tmp[..l]), qh0 + tmp[l], Val(a[w..w + h]), Pow(l))
  {
    hide Val, Pow, B, IsLimbs, Joined, Quotient;
    ghost var x: seq<nat>, r1 := a[w..w + l], Joined(a[w + l..w + l + h], qh0);
    SplitWindow(a, w, l, h);
    FoldTopBit(a, w + l, s, t, h, qh0);
    ghost var v: seq<nat> := a[w + l..w + l + h];
    assert a[w..w + l] == x;
    JoinWindow(a, w, l, h);
    DivNorm(tmp, a, w, l + h, s, t, h);
    TopDigit(tmp, l);
    QuotientHolds(r1, Val(x), Val(s[t..t + h]), Val(v), qh0, Val(tmp[..l]), tmp[l], Val(a[w..w + h]), Pow(l));
  }

  lemma SplitWindow(a: array<nat>, w: nat, l: nat, h: nat)
    requires Window(a, w, l + h) && LimbsAt(a, w, l + h)
    ensures IsLimbs(a[w..w + l]) && LimbsAt(a, w + l, h)
  {
    hide B, IsLimbs;
    LimbsSlice(a[w..w + (l + h)], 0, l);
    LimbsSlice(a[w..w + (l + h)], l, l + h);
    assert a[w..w + (l + h)][0..l] == a[w..w + l] && a[w..w + (l + h)][l..l + h] == a[w + l..w + l + h];
  }

  lemma JoinWindow(a: array<nat>, w: nat, l: nat, h: nat)
    requires Window(a, w, l + h) && IsLimbs(a[w..w + l]) && LimbsAt(a, w + l, h)
    ensures a[w..w + (l + h)] == a[w..w + l] + a[w + l..w + l + h] && LimbsAt(a, w, l + h)
    ensures Val(a[w..w + (l + h)]) == Val(a[w..w + l]) + Val(a[w + l..w + l + h]) * Pow(l)
  {
    hide Val, Pow, B, IsLimbs;
    assert a[w..w + (l + h)] == a[w..w + l] + a[w + l..w + l + h];
    LimbsAppend(a[w..w + l], a[w + l..w + l + h]);
    ValAppend(a[w..w + l], a[w + l..w + l + h]);
  }

  lemma TopDigit(q: array<nat>, l: nat)
    requires Window(q, 0, l + 1) && LimbsAt(q, 0, l + 1)
    ensures LimbsAt(q, 0, l) && Val(q[0..0 + (l + 1)]) == Val(q[..l]) + q[l] * Pow(l)
  {
    hide Val, Pow, B, IsLimbs;
    var s: seq<nat> := q[0..0 + (l + 1)];
    ValHigh(s);
    assert q[..l] == s[..l] == s[0..l] == q[0..0 + l];
    LimbsSlice(s, 0, l);
  }

  lemma QuotientHolds(r1: int, x: int, s1: int, v: int, qh0: int, low: int, top: int, u: int, pl: int)
    requires v + qh0 * s1 == r1 && x + v * pl == (low + top * pl) * s1 + u && 0 <= u < s1
    ensures Quotient(r1, x, s1, low, qh0 + top, u, pl)
  {
    MulAdd(v, qh0 * s1, pl);
    Shuffle(qh0, s1, pl);
    MulAdd(low + top * pl, qh0 * pl, s1);
    Shuffle(qh0, pl, s1);
    MulAdd(top, qh0, pl);
  }

  /** The quotient by s1 instead of 2*s1: its low bit ql moves into the remainder. */
  lemma HalvedQuotient(r1: int, x: int, s1: int, low: int, top: int, u: int, z: int, ql: int, q: int, u': int, pl: int)
    requires Quotient(r1, x, s1, low, top, u, pl) && low + (top % 2) * pl == z * 2 + ql && 0 <= ql <= 1
    requires q == z + (top / 2) * pl && u' == u + ql * s1
    ensures Halved(r1, x, s1, q, u', pl)
  {
    MulAdd(2 * (top / 2), top % 2, pl);
    MulAssoc(2, top / 2, pl);
    assert low + top * pl == 2 * q + ql;
    MulAdd(2 * q, ql, s1);
    MulAssoc(2, q, s1);
    Shuffle(q, 2, s1);
  }

  /** From the remainder of the high half to quotient and remainder by twice its root. */
  method DivideByRoot(s: array<nat>, t: nat, a: array<nat>, w: nat, l: nat, h: nat, tmp: array<nat>,
      qh0: nat) returns (qh: nat, rh: nat)
    requires 1 <= l <= h && Window(s, t, l + h) && Window(a, w, l + h) && Window(tmp, 0, l + 1) && s != a && s != tmp
    requires a != tmp
    requires LimbsAt(a, w, l + h) && NormalisedAt(s, t + l, h) && qh0 <= 1
    requires Joined(a[w + l..w + l + h], qh0) <= 2 * Val(s[t + l..t + l + h])
    modifies s, a, tmp
    ensures OnlyWindow(s, t, l) && LimbsAt(s, t, l) && OnlyWindow(a, w, l + h) && LimbsAt(a, w, h) && rh <= 1 && qh <= 1
    ensures Halved(old(Joined(a[w + l..w + l + h], qh0)), old(Val(a[w..w + l])), old(Val(s[t + l..t + l + h])),
              Joined(s[t..t + l], qh), Joined(a[w..w + h], rh), Pow(l))
  {
    hide Val, Pow, B, IsLimbs, Joined, Halved, Quotient;
    Base();
    ghost var s1, x, r1 := Val(s[t + l..t + l + h]), Val(a[w..w + l]), Joined(a[w + l..w + l + h], qh0);
    DivideRemainder(s, t + l, a, w, l, h, tmp, qh0);
    var q := qh0 + tmp[l];
    ghost var u, low := Val(a[w..w + h]), Val(tmp[..l]);
    ghost var ql;
    qh, rh, ql := ShiftQuotient(s, t, a, w, l, h, tmp, q);
    JoinedValue(s[t..t + l], qh);
    HalvedQuotient(r1, x, s1, low, q, u, Val(s[t..t + l]), ql, Joined(s[t..t + l], qh),
                   Joined(a[w..w + h], rh), Pow(l));
  }

  lemma JoinedValue(low: seq<nat>, high: int)
    ensures Joined(low, high) == Val(low) + high * Pow(|low|)
  {}

  // ----- subtracting the square -----

  /** A borrow c out of the m low limbs is taken from the limbs above; k is what they cannot pay. */
  lemma BorrowAbove(y: seq<nat>, y': seq<nat>, m: nat, c: int, k: int)
    requires |y| == |y'| && m <= |y| && y[..m] == y'[..m] && Val(y'[m..]) - k * Pow(|y| - m) == Val(y[m..]) - c
    ensures Val(y') - k * Pow(|y|) == Val(y) - c * Pow(m)
  {
    hide Val, Pow, B;
    ValSplit(y, m);
    ValSplit(y', m);
    PowAdd(|y| - m, m);
    MulSub(Val(y'[m..]), k * Pow(|y| - m), Pow(m));
    MulSub(Val(y[m..]), c, Pow(m));
    MulAssoc(k, Pow(|y| - m), Pow(m));
  }

  /** The low limbs change by d - c*B^m. */
  lemma LowChange(y: seq<nat>, y': seq<nat>, m: nat, d: int, c: int)
    requires |y| == |y'| && m <= |y| && y[m..] == y'[m..] && Val(y'[..m]) - c * Pow(m) == Val(y[..m]) - d
    ensures Val(y') - c * Pow(m) == Val(y) - d
  {
    hide Val, Pow, B;
    ValSplit(y, m);
    ValSplit(y', m);
  }

  /** a -= low^2 on the 2l low limbs; the square is formed above the n low limbs. */
  method SubtractLowSquare(s: array<nat>, t: nat, a: array<nat>, p: nat, l: nat, n: nat) returns (c: nat)
    requires 1 <= l && 2 * l <= n && Window(a, p, 2 * n) && Window(s, t, l) && a != s && LimbsAt(a, p, n)
    requires LimbsAt(s, t, l)
    modifies a
    ensures OnlyWindow(a, p, 2 * n) && LimbsAt(a, p, n) && c <= 1
    ensures Val(a[p..p + n]) - c * Pow(2 * l) == old(Val(a[p..p + n])) - Val(s[t..t + l]) * Val(s[t..t + l])
  {
    hide Val, Pow, B, IsLimbs;
    ghost var y: seq<nat> := a[p..p + n];
    LimbsSlice(y, 0, 2 * l);
    LimbsSlice(y, 2 * l, n);
    Mul(a, p + n, s, t, l, s, t, l);
    assert p + n + l + l == p + n + 2 * l;
    assert a[p..p + 2 * l] == y[0..2 * l] && y[0..2 * l] == y[..2 * l] && y[2 * l..n] == y[2 * l..];
    c := Sub(a, p, a, p, a, p + n, 2 * l, 0);
    LowSquareTaken(y, a[p..p + n], a[p..p + 2 * l], Val(s[t..t + l]) * Val(s[t..t + l]), c);
  }

  lemma LowSquareTaken(y: seq<nat>, y': seq<nat>, low: seq<nat>, d: int, c: int)
    requires |low| <= |y| == |y'| && y'[..|low|] == low && y'[|low|..] == y[|low|..] && IsLimbs(low) && IsLimbs(y)
    requires Val(low) - c * Pow(|low|) == Val(y[..|low|]) - d
    ensures IsLimbs(y') && Val(y') - c * Pow(|low|) == Val(y) - d
  {
    hide Val, Pow, B, IsLimbs;
    LowChange(y, y', |low|, d, c);
    LimbsSlice(y, |low|, |y|);
    assert y[|low|..|y|] == y[|low|..];
    LimbsAppend(low, y'[|low|..]);
    assert y' == low + y'[|low|..];
  }

  /** Takes the borrow from the limbs above the m low ones. */
  method PayBorrow(a: array<nat>, p: nat, m: nat, n: nat, c: nat) returns (k: nat)
    requires m <= n && Window(a, p, n) && LimbsAt(a, p, n) && c <= 1
    modifies a
    ensures OnlyWindow(a, p, n) && LimbsAt(a, p, n) && k <= 1
    ensures Val(a[p..p + n]) - k * Pow(n) == old(Val(a[p..p + n])) - c * Pow(m)
  {
    hide Val, Pow, B, IsLimbs;
    Base();
    ghost var z: seq<nat> := a[p..p + n];
    LimbsSlice(z, m, n);
    LimbsSlice(z, 0, m);
    assert a[p + m..p + m + (n - m)] == z[m..n] == z[m..];
    if m == n { ValEmpty(); PowZero(); }
    ghost var low: seq<nat> := a[p..p + m];
    assert z[..m] == z[0..m] == low;
    k := SubSmall(a, p + m, c, n - m);
    assert a[p..p + m] == low;
    ghost var z': seq<nat> := a[p..p + n];
    assert z'[..m] == low;
    assert z'[m..] == a[p + m..p + m + (n - m)];
    BorrowAbove(z, z', m, c, k);
    LimbsAppend(z'[..m], z'[m..]);
    assert z' == z'[..m] + z'[m..];
    if m == n { assert z'[m..] == [] && z[m..] == []; }
  }

  lemma SquareTaken(y: seq<nat>, y': seq<nat>, sq: int, c: int, k: int, rh: int, z: int, pm: int)
    requires |y| == |y'| && z - c * pm == Val(y) - sq && Val(y') - k * Pow(|y|) == z - c * pm
    ensures Joined(y', rh - k) == Joined(y, rh) - sq
  {
    hide Val, Pow, B;
    MulSub(rh, k, Pow(|y|));
  }

  /** Subtracts q^2 from the running remainder; the result may be negative by one top bit. */
  method SubtractSquare(s: array<nat>, t: nat, a: array<nat>, p: nat, l: nat, n: nat, qh: nat, rh: nat) returns (e: int)
    requires 1 <= l && 2 * l <= n <= 2 * l + 1 && Window(a, p, 2 * n) && Window(s, t, l) && a != s
    requires LimbsAt(a, p, n) && LimbsAt(s, t, l) && qh <= 1 && rh <= 1 && (qh == 1 ==> Val(s[t..t + l]) == 0)
    modifies a
    ensures OnlyWindow(a, p, 2 * n) && LimbsAt(a, p, n) && -1 <= e <= 1
    ensures Joined(a[p..p + n], e) == old(Joined(a[p..p + n], rh)) - Joined(s[t..t + l], qh) * Joined(s[t..t + l], qh)
  {
    hide Val, Pow, B, IsLimbs, Joined;
    ghost var y: seq<nat>, q := a[p..p + n], Joined(s[t..t + l], qh);
    var c := qh;
    SquareOfJoined(s[t..t + l], qh);
    if qh == 0 {
      c := SubtractLowSquare(s, t, a, p, l, n);
    }
    ghost var z := Val(a[p..p + n]);
    assert z - c * Pow(2 * l) == Val(y) - q * q;
    var k := PayBorrow(a, p, 2 * l, n, c);
    SquareTaken(y, a[p..p + n], q * q, c, k, rh, z, Pow(2 * l));
    e := rh - k;
  }

  lemma SquareOfJoined(low: seq<nat>, qh: nat)
    requires qh <= 1 && (qh == 1 ==> Val(low) == 0)
    ensures Joined(low, qh) * Joined(low, qh) == if qh == 0 then Val(low) * Val(low) else Pow(2 * |low|)
  {
    hide Val, Pow, B;
    PowAdd(|low|, |low|);
    assert |low| + |low| == 2 * |low|;
  }

  // ----- the correction and the recursion -----

  /** The root that the step proposes: s and r as they are, or one less when r is negative. */
  ghost predicate Proposed(a: int, s: int, r: int) {
    if r >= 0 then Root(a, s, r) else 1 <= s && Root(a, s - 1, r + 2 * (s - 1) + 1)
  }

  /** v is s, or s less B^n when s has just overflowed n limbs. */
  ghost predicate Wrapped(v: int, s: int, pn: int) {
    0 <= v < pn && (s == v || s == v + pn) && s <= pn
  }

  lemma SignOfTop(low: seq<nat>, e: int)
    requires IsLimbs(low) && -1 <= e
    ensures Joined(low, e) < 0 <==> e < 0
  {
    hide Val, Pow, B;
    ValBound(low);
    if e >= 0 { MulNonNeg(e, Pow(|low|)); }
  }

  lemma ProposedKept(a: int, s: int, r: int, v: int, pn: int)
    requires Proposed(a, s, r) && 0 <= r && Wrapped(v, s, pn) && a < pn * pn
    ensures v == s && Root(a, v, r)
  {
    RootBelow(a, s, r, pn);
  }

  /** The last lines of mp_sqrtrem_rec: one less when the remainder came out negative. */
  method FixRoot(s: array<nat>, t: nat, a: array<nat>, p: nat, n: nat, e: int, ghost x: nat,
      ghost root: int) returns (rh: nat)
    requires 1 <= n && Window(s, t, n) && Window(a, p, n) && s != a && LimbsAt(s, t, n) && LimbsAt(a, p, n)
    requires -1 <= e <= 1
    requires Wrapped(Val(s[t..t + n]), root, Pow(n)) && x < Pow(n) * Pow(n) && Proposed(x, root, Joined(a[p..p + n], e))
    modifies s, a
    ensures OnlyWindow(s, t, n) && LimbsAt(s, t, n) && OnlyWindow(a, p, n) && LimbsAt(a, p, n) && rh <= 1
    ensures Root(x, Val(s[t..t + n]), Joined(a[p..p + n], rh))
  {
    hide Val, Pow, B, IsLimbs, Joined, Root, Proposed;
    Base();
    ghost var r := Joined(a[p..p + n], e);
    SignOfTop(a[p..p + n], e);
    if e >= 0 {
      ProposedKept(x, root, r, Val(s[t..t + n]), Pow(n));
      rh := e;
    } else {
      ghost var v := Val(s[t..t + n]);
      JoinedValue(a[p..p + n], e);
      var k := SubSmall(s, t, 1, n);
      ValBound(s[t..t + n]);
      ProposedLess(x, root, r, v, Val(s[t..t + n]), k, Pow(n));
      var c := AddMul1(a, p, s, t, n, 2);
      ghost var w := Val(a[p..p + n]);
      var d := AddSmall(a, p, 1, n);
      ValBound(a[p..p + n]);
      JoinedValue(a[p..p + n], e + c + d);
      MulAdd(e + c, d, Pow(n));
      MulAdd(e, c, Pow(n));
      assert Joined(a[p..p + n], e + c + d) == r + 2 * Val(s[t..t + n]) + 1;
      RootParts(x, root - 1, r + 2 * (root - 1) + 1);
      SmallTopBit(Val(a[p..p + n]), e + c + d, Pow(n), Val(s[t..t + n]), r + 2 * (root - 1) + 1);
      rh := e + c + d;
    }
  }

  lemma ProposedLess(a: int, s: int, r: int, v: int, w: int, k: int, pn: int)
    requires Proposed(a, s, r) && r < 0 && Wrapped(v, s, pn) && w - k * pn == v - 1 && 0 <= w < pn && 0 <= k <= 1
    ensures w == s - 1 && Root(a, s - 1, r + 2 * (s - 1) + 1)
  {}

  lemma SmallTopBit(low: int, h: int, p: int, s: int, e: int)
    requires low + h * p == e && 0 <= low < p && 0 <= e <= 2 * s && s < p
    ensures 0 <= h <= 1
  {
    if h < 0 { MulMono(h, -1, p); }
    if h > 1 { MulMono(2, h, p); }
  }

  /** Puts the quotient below the root of the high half; the sum may reach B^n and wrap. */
  method PlaceQuotient(s: array<nat>, t: nat, l: nat, h: nat, qh: nat)
    requires 1 <= h && Window(s, t, l + h) && LimbsAt(s, t, l) && LimbsAt(s, t + l, h) && qh <= 1
    requires Joined(s[t..t + l], qh) <= Pow(l)
    modifies s
    ensures OnlyWindow(s, t + l, h) && LimbsAt(s, t, l + h)
    ensures Wrapped(Val(s[t..t + (l + h)]),
                    old(Val(s[t + l..t + l + h])) * Pow(l) + Joined(s[t..t + l], qh), Pow(l + h))
  {
    hide Val, Pow, B, IsLimbs, Joined, Wrapped;
    Base();
    ghost var s1, low: seq<nat> := Val(s[t + l..t + l + h]), s[t..t + l];
    ValBound(s[t + l..t + l + h]);
    var k := AddSmall(s, t + l, qh, h);
    assert s[t..t + l] == low;
    ghost var high: seq<nat> := s[t + l..t + l + h];
    assert s[t..t + (l + h)] == low + high;
    LimbsAppend(low, high);
    ValBound(low + high);
    ValAppend(low, high);
    JoinedValue(low, qh);
    PowAdd(h, l);
    WrappedSum(s1, Val(low), Val(high), qh, k, Joined(low, qh), Pow(l), Pow(h));
  }

  lemma WrappedSum(s1: int, low: int, high: int, qh: int, k: int, q: int, pl: int, ph: int)
    requires high + k * ph == s1 + qh && 0 <= k <= 1 && 0 <= s1 < ph && q == low + qh * pl && 0 <= q <= pl
    requires 0 <= low + high * pl < ph * pl && 0 < pl
    ensures Wrapped(low + high * pl, s1 * pl + q, ph * pl)
  {
    MulAdd(high, k * ph, pl);
    MulAssoc(k, ph, pl);
    MulAdd(s1, qh, pl);
    MulMono(s1 + 1, ph, pl);
    MulAdd(s1, 1, pl);
  }

  /** Everything that the division and the root of the high half say, in the terms of one step. */
  lemma StepOfHalves(a1: int, s1: int, r1: int, x: int, y: int, q: int, u: int, pl: int)
    requires Root(a1, s1, r1) && Halved(r1, x, s1, q, u, pl) && 1 <= pl <= 2 * s1 && 0 <= x < pl && 0 <= y < pl
    ensures Proposed((a1 * pl + x) * pl + y, s1 * pl + q, u * pl + y - q * q) && 0 <= q <= pl
  {
    hide Root;
    RootParts(a1, s1, r1);
    StepQuotient(s1, r1, pl, x, y, q, u);
    StepRoot(s1, r1, pl, x, y, q, u);
  }

  lemma JoinAbove(y: seq<nat>, u: seq<nat>, rh: int)
    ensures Joined(y + u, rh) == Val(y) + Joined(u, rh) * Pow(|y|)
  {
    hide Val, Pow, B;
    ValAppend(y, u);
    PowAdd(|u|, |y|);
    MulAdd(Val(u), rh * Pow(|u|), Pow(|y|));
    MulAssoc(rh, Pow(|u|), Pow(|y|));
  }

  lemma HighBit(low: seq<nat>, qh: nat)
    requires qh <= 1 && Joined(low, qh) <= Pow(|low|)
    ensures qh == 1 ==> Val(low) == 0
  {
    hide Val, Pow, B;
  }

  /** The root of the high half is normalised, so that it can be divided by. */
  lemma HighRoot(s: seq<nat>, a1: int, r1: int)
    requires |s| >= 1 && IsLimbs(s) && Root(a1, Val(s), r1) && Pow(2 * |s|) <= 4 * a1 < 4 * Pow(2 * |s|)
    ensures Normalised(s[|s| - 1]) && Pow(|s|) <= 2 * Val(s)
  {
    hide Val, Pow, B, Root;
    var h := |s|;
    Base();
    PowAdd(h, h);
    assert h + h == 2 * h;
    PowStep(h - 1);
    EvenProduct(B, Pow(h - 1));
    RootNormalised(a1, Val(s), r1, Pow(h));
    TopNormalised(s);
  }

  lemma EvenProduct(x: int, y: int)
    requires x % 2 == 0
    ensures (x * y) % 2 == 0
  {
    var m := x / 2;
    assert x == 2 * m;
    MulAssoc(2, m, y);
  }

  /** The state of mp_sqrtrem_rec after the division: what is left is to subtract q^2 and correct. */
  ghost predicate Divided(v: int, s1: int, q: int, r: int, l: nat) {
    0 <= q <= Pow(l) && Proposed(v, s1 * Pow(l) + q, r - q * q)
  }

  lemma DividedParts(v: int, s1: int, q: int, r: int, l: nat)
    requires Divided(v, s1, q, r, l)
    ensures q <= Pow(l) && Proposed(v, s1 * Pow(l) + q, r - q * q)
  {}

  method CombineDivide(s: array<nat>, t: nat, a: array<nat>, p: nat, l: nat, h: nat, tmp: array<nat>, qh0: nat,
      ghost a1: nat, ghost v: nat) returns (qh: nat, top: nat)
    requires 1 <= l <= h <= l + 1 && Window(s, t, l + h) && Window(a, p, 2 * (l + h)) && Window(tmp, 0, l + 1)
    requires s != a && s != tmp && a != tmp && LimbsAt(s, t + l, h) && LimbsAt(a, p, 2 * l) && LimbsAt(a, p + 2 * l, h)
    requires qh0 <= 1
    requires Root(a1, Val(s[t + l..t + l + h]), Joined(a[p + 2 * l..p + 2 * l + h], qh0))
    requires Pow(2 * h) <= 4 * a1 < 4 * Pow(2 * h)
    requires v == (a1 * Pow(l) + Val(a[p + l..p + 2 * l])) * Pow(l) + Val(a[p..p + l])
    modifies s, a, tmp
    ensures OnlyWindow(s, t, l) && LimbsAt(s, t, l) && OnlyWindow(a, p, 2 * (l + h)) && LimbsAt(a, p, l + h) && qh <= 1
    ensures top <= 1
    ensures Divided(v, Val(s[t + l..t + l + h]), Joined(s[t..t + l], qh), Joined(a[p..p + (l + h)], top), l)
  {
    hide Val, Pow, B, IsLimbs, Joined, Root, Halved, Divided;
    ghost var y: seq<nat>, x: seq<nat>, s1: seq<nat> := a[p..p + l], a[p + l..p + 2 * l], s[t + l..t + l + h];
    ghost var r1 := Joined(a[p + 2 * l..p + 2 * l + h], qh0);
    LowWindows(a, p, l, h);
    HighRoot(s1, a1, r1);
    RootParts(a1, Val(s1), r1);
    assert p + l + l == p + 2 * l;
    qh, top := DivideByRoot(s, t, a, p + l, l, h, tmp, qh0);
    assert s[t + l..t + l + h] == s1;
    assert a[p..p + l] == y;
    ghost var u: seq<nat> := a[p + l..p + l + h];
    JoinWindow(a, p, l, h);
    CombineValues(y, x, s1, u, r1, Joined(s[t..t + l], qh), top, a1);
  }

  lemma LowWindows(a: array<nat>, p: nat, l: nat, h: nat)
    requires Window(a, p, 2 * l + h) && LimbsAt(a, p, 2 * l) && LimbsAt(a, p + 2 * l, h)
    ensures IsLimbs(a[p..p + l]) && IsLimbs(a[p + l..p + 2 * l]) && LimbsAt(a, p + l, l + h)
  {
    hide B, IsLimbs;
    LimbsSlice(a[p..p + 2 * l], 0, l);
    LimbsSlice(a[p..p + 2 * l], l, 2 * l);
    assert a[p..p + 2 * l][0..l] == a[p..p + l] && a[p..p + 2 * l][l..2 * l] == a[p + l..p + 2 * l];
    LimbsAppend(a[p + l..p + 2 * l], a[p + 2 * l..p + 2 * l + h]);
    assert a[p + l..p + l + (l + h)] == a[p + l..p + 2 * l] + a[p + 2 * l..p + 2 * l + h];
  }

  lemma CombineValues(y: seq<nat>, x: seq<nat>, s1: seq<nat>, u: seq<nat>, r1: int, q: int, top: int, a1: int)
    requires |y| == |x| && 1 <= |y| <= |s1| && IsLimbs(x) && IsLimbs(y) && Root(a1, Val(s1), r1)
    requires Pow(|s1|) <= 2 * Val(s1)
    requires Halved(r1, Val(x), Val(s1), q, Joined(u, top), Pow(|y|))
    ensures Divided((a1 * Pow(|y|) + Val(x)) * Pow(|y|) + Val(y), Val(s1), q, Joined(y + u, top), |y|)
  {
    hide Val, Pow, B, IsLimbs, Joined, Root, Halved, Proposed;
    ValBound(x);
    ValBound(y);
    PowMono(|y|, |s1|);
    JoinAbove(y, u, top);
    StepOfHalves(a1, Val(s1), r1, Val(x), Val(y), q, Joined(u, top), Pow(|y|));
  }

  method CombineFinish(s: array<nat>, t: nat, a: array<nat>, p: nat, l: nat, h: nat, qh: nat, top: nat,
      ghost v: nat) returns (rh: nat)
    requires 1 <= l <= h <= l + 1 && Window(s, t, l + h) && Window(a, p, 2 * (l + h)) && s != a
    requires LimbsAt(s, t, l) && LimbsAt(s, t + l, h) && LimbsAt(a, p, l + h) && qh <= 1 && top <= 1
    requires Divided(v, Val(s[t + l..t + l + h]), Joined(s[t..t + l], qh), Joined(a[p..p + (l + h)], top), l)
    requires v < Pow(l + h) * Pow(l + h)
    modifies s, a
    ensures OnlyWindow(s, t, l + h) && LimbsAt(s, t, l + h) && OnlyWindow(a, p, 2 * (l + h)) && LimbsAt(a, p, l + h)
    ensures rh <= 1
    ensures Root(v, Val(s[t..t + (l + h)]), Joined(a[p..p + (l + h)], rh))
  {
    hide Val, Pow, B, IsLimbs, Joined, Root, Divided, Proposed, Wrapped;
    ghost var low: seq<nat>, s1 := s[t..t + l], Val(s[t + l..t + l + h]);
    ghost var q, r := Joined(low, qh), Joined(a[p..p + (l + h)], top);
    DividedParts(v, s1, q, r, l);
    HighBit(low, qh);
    PlaceQuotient(s, t, l, h, qh);
    assert s[t..t + l] == low;
    var e := SubtractSquare(s, t, a, p, l, l + h, qh, top);
    rh := FixRoot(s, t, a, p, l + h, e, v, s1 * Pow(l) + q);
  }

  /** mp_sqrtrem_rec after the recursive call: from the root of the high half to that of the whole. */
  method Combine(s: array<nat>, t: nat, a: array<nat>, p: nat, l: nat, h: nat, tmp: array<nat>, qh0: nat,
      ghost x: seq<nat>) returns (rh: nat)
    requires 1 <= l <= h <= l + 1 && Window(s, t, l + h) && Window(a, p, 2 * (l + h)) && Window(tmp, 0, l + 1)
    requires s != a && s != tmp && a != tmp && LimbsAt(s, t + l, h) && LimbsAt(a, p + 2 * l, h) && qh0 <= 1
    requires |x| == 2 * (l + h) && IsLimbs(x) && B <= 4 * x[|x| - 1] && a[p..p + 2 * l] == x[..2 * l]
    requires Root(Val(x[2 * l..]), Val(s[t + l..t + l + h]), Joined(a[p + 2 * l..p + 2 * l + h], qh0))
    modifies s, a, tmp
    ensures OnlyWindow(s, t, l + h) && LimbsAt(s, t, l + h) && OnlyWindow(a, p, 2 * (l + h)) && LimbsAt(a, p, l + h)
    ensures rh <= 1
    ensures Root(Val(x), Val(s[t..t + (l + h)]), Joined(a[p..p + (l + h)], rh))
  {
    hide Val, Pow, B, IsLimbs, Joined, Root, Divided;
    HighWindow(x, l, h);
    LowHalf(a, p, x, l);
    ghost var s1: seq<nat> := s[t + l..t + l + h];
    var qh, top := CombineDivide(s, t, a, p, l, h, tmp, qh0, Val(x[2 * l..]), Val(x));
    assert s[t + l..t + l + h] == s1;
    rh := CombineFinish(s, t, a, p, l, h, qh, top, Val(x));
  }

  lemma LowHalf(a: array<nat>, p: nat, x: seq<nat>, l: nat)
    requires Window(a, p, 2 * l) && 2 * l <= |x| && IsLimbs(x) && a[p..p + 2 * l] == x[..2 * l]
    ensures LimbsAt(a, p, 2 * l) && a[p + l..p + 2 * l] == x[l..2 * l] && a[p..p + l] == x[..l]
  {
    hide B, IsLimbs;
    LimbsSlice(x, 0, 2 * l);
    assert x[0..2 * l] == x[..2 * l];
    assert a[p + l..p + 2 * l] == a[p..p + 2 * l][l..];
    assert a[p..p + l] == a[p..p + 2 * l][..l];
  }

  lemma HighWindow(a: seq<nat>, l: nat, h: nat)
    requires |a| == 2 * (l + h) && IsLimbs(a) && 1 <= h && B <= 4 * a[|a| - 1]
    ensures Pow(2 * h) <= 4 * Val(a[2 * l..]) < 4 * Pow(2 * h) && Val(a) < Pow(l + h) * Pow(l + h)
    ensures Val(a) == (Val(a[2 * l..]) * Pow(l) + Val(a[l..2 * l])) * Pow(l) + Val(a[..l])
  {
    hide Val, Pow, B;
    var n := l + h;
    var hi := a[2 * l..];
    ValSplit(a, l);
    ValSplit(a[l..], l);
    assert a[l..][..l] == a[l..2 * l] && a[l..][l..] == hi;
    ValBound(a);
    ValBound(hi);
    PowAdd(n, n);
    assert n + n == 2 * n;
    ValHigh(hi);
    PowStep(2 * h - 1);
    MulMono(B, 4 * a[2 * n - 1], Pow(2 * h - 1));
    MulAssoc(4, a[2 * n - 1], Pow(2 * h - 1));
  }

  lemma Halves(a: array<nat>, p: nat, l: nat, h: nat)
    requires 1 <= h && Window(a, p, 2 * (l + h)) && LimbsAt(a, p, 2 * (l + h))
    ensures var x := a[p..p + 2 * (l + h)];
      x[2 * l..] == a[p + 2 * l..p + 2 * l + 2 * h] && x[..2 * l] == a[p..p + 2 * l] &&
        x[|x| - 1] == a[p + 2 * l + 2 * h - 1]
    ensures LimbsAt(a, p + 2 * l, 2 * h)
  {
    hide B, IsLimbs;
    var x: seq<nat>, m := a[p..p + 2 * (l + h)], 2 * l;
    LimbsSlice(x, m, |x|);
    assert p + 2 * (l + h) == p + m + 2 * h && |x| == m + 2 * h;
    assert x[m..|x|] == x[m..] == a[p + m..p + m + 2 * h];
  }

  /** mp_sqrtrem_rec: the root replaces s, the remainder the low half of a, its top bit is returned. */
  method SqrtRec(s: array<nat>, t: nat, a: array<nat>, p: nat, n: nat, tmp: array<nat>) returns (rh: nat)
    requires 1 <= n && Window(s, t, n) && Window(a, p, 2 * n) && Window(tmp, 0, n / 2 + 1)
    requires s != a && s != tmp && a != tmp && LimbsAt(a, p, 2 * n) && B <= 4 * a[p + 2 * n - 1]
    modifies s, a, tmp
    ensures OnlyWindow(s, t, n) && LimbsAt(s, t, n) && OnlyWindow(a, p, 2 * n) && LimbsAt(a, p, n) && rh <= 1
    ensures Root(old(Val(a[p..p + 2 * n])), Val(s[t..t + n]), Joined(a[p..p + n], rh))
    decreases n
  {
    hide Val, Pow, B, IsLimbs, Joined, Root;
    ghost var x: seq<nat> := a[p..p + 2 * n];
    if n == 1 {
      rh := SqrtTwoLimbs(s, t, a, p);
    } else {
      var l := n / 2;
      var h := n - l;
      assert l + h == n && p + 2 * l + 2 * h == p + 2 * n;
      Halves(a, p, l, h);
      ghost var low: seq<nat> := a[p..p + 2 * l];
      var qh := SqrtRec(s, t + l, a, p + 2 * l, h, tmp);
      assert a[p..p + 2 * l] == low && low == x[..2 * l];
      assert 2 * (l + h) == 2 * n;
      rh := Combine(s, t, a, p, l, h, tmp, qh, x);
    }
  }

  /** The base of the recursion. */
  method SqrtTwoLimbs(s: array<nat>, t: nat, a: array<nat>, p: nat) returns (rh: nat)
    requires Window(s, t, 1) && Window(a, p, 2) && s != a && LimbsAt(a, p, 2) && B <= 4 * a[p + 1]
    modifies s, a
    ensures OnlyWindow(s, t, 1) && LimbsAt(s, t, 1) && OnlyWindow(a, p, 2) && LimbsAt(a, p, 1) && rh <= 1
    ensures Root(old(Val(a[p..p + 2])), Val(s[t..t + 1]), Joined(a[p..p + 1], rh))
  {
    hide Val, Pow, B, Root;
    ghost var x: seq<nat> := a[p..p + 2];
    assert a[p] == x[0] && a[p + 1] == x[1];
    ValLow(x);
    assert x[1..] == [x[1]];
    ValOne(x[1]);
    MulComm(B, x[1]);
    var s1, r1, top := SqrtRem2(a[p], a[p + 1]);
    s[t], a[p] := s1, r1;
    rh := top;
    assert s[t..t + 1] == [s1] && a[p..p + 1] == [r1];
    ValOne(s1);
    ValOne(r1);
    PowOne();
  }

  /**
  mp_sqrtrem: s^2 + r == a with 0 <= r <= 2*s for every 2n-limb a whose top
  limb is at least B/4. The remainder is left in the n + 1 low limbs of a.
  */
  method SqrtRem(s: array<nat>, a: array<nat>, n: nat)
    requires 1 <= n && Window(s, 0, n) && Window(a, 0, 2 * n) && s != a && LimbsAt(a, 0, 2 * n) && B <= 4 * a[2 * n - 1]
    modifies s, a
    ensures OnlyWindow(s, 0, n) && LimbsAt(s, 0, n) && OnlyWindow(a, 0, 2 * n) && LimbsAt(a, 0, n + 1)
    ensures Root(old(Val(a[..2 * n])), Val(s[..n]), Val(a[..n + 1]))
  {
    hide Val, Pow, B, IsLimbs, Joined, Root;
    Base();
    var tmp := new nat[n / 2 + 1];
    assert a[0..0 + 2 * n] == a[..2 * n];
    var rh := SqrtRec(s, 0, a, 0, n, tmp);
    assert s[0..0 + n] == s[..n] && a[0..0 + n] == a[..n];
    ghost var low: seq<nat> := a[..n];
    a[n] := rh;
    assert a[..n + 1] == low + [rh] && a[0..0 + (n + 1)] == a[..n + 1];
    ValPush(low, rh);
    JoinedValue(low, rh);
    OneLimb(rh);
    LimbsAppend(low, [rh]);
  }
}
