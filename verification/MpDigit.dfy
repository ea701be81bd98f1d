/**
Division by one limb (libbf.c: udiv1norm_init, udiv1norm, mp_div1norm) and the
estimate of one quotient limb in schoolbook division.
*/
module MpDigit {
  import opened Limb
  import opened MpBasic

  ghost predicate Normalised(d: int) {
    B <= 2 * d && d < B
  }

  /** udiv1norm_init: (B - d - 1, B - 1) / d */
  function Inverse(d: nat): int
    requires 0 < d < B
  {
    ((B - d - 1) * B + (B - 1)) / d
  }

  // udiv1norm in two halves; one limb is taken modulo B, two limbs modulo B*B.

  /** a1 minus the sign mask of a0 */
  function Multiplier(a1: nat, a0: nat): int
    requires B > 1
  {
    (a1 - if a0 >= B / 2 then B - 1 else 0) % B
  }

  /** a0 plus d under the sign mask of a0 */
  function Addend(a0: nat, d: nat): int
    requires B > 1
  {
    (a0 + if a0 >= B / 2 then d else 0) % B
  }

  /** The multiplied inverse. */
  function Guess(a1: nat, a0: nat, d: nat, v: int): int
    requires B > 1
  {
    ((v * Multiplier(a1, a0) + Addend(a0, d)) % (B * B) / B + a1) % B
  }

  /** Quotient and remainder from the guess. */
  function Adjust(n: int, q: int, d: int, base: int): (int, int)
    requires base > 1
  {
    var a := (n - q * d - d) % (base * base);
    ((q + 1 + a / base) % base, (a % base + if a / base == 0 then 0 else d) % base)
  }

  /** udiv1norm */
  function Udiv1Norm(a1: nat, a0: nat, d: nat, v: int): (int, int)
    requires B > 1
  {
    Adjust(a1 * B + a0, Guess(a1, a0, d, v), d, B)
  }

  /** The error term of the multiplied inverse; k is what the inverse misses, s what the shift drops. */
  lemma InverseError(n1: int, n0: int, d: int, v: int, base: int, k: int, bit: int, q1: int, s: int)
    requires k == base * base - (base + v) * d
    requires base * (q1 - n1) + s == v * (n1 + bit) + (n0 + bit * (d - base))
    requires bit == 0 || bit == 1
    ensures base * (n1 * base + n0 - q1 * d) ==
      (n1 + bit) * k + n0 * (base - d) - bit * ((base - d) * (base - d)) + d * s
  {
    MulSub(q1, n1, base);
    MulAdd(n1, bit, v);
    assert base * q1 == base * n1 + v * n1 + v * bit + n0 + bit * (d - base) - s;
    ErrorExpand(n1, n0, d, v, base, bit, q1, s);
    MulAdd(base, v, d);
    MulAdd(n1, bit, k);
    MulSub(base * base, base * d + v * d, n1);
    if bit == 1 {
      MulSub(base, d, base - d);
      MulSub(base, d, base);
      MulSub(base, d, d);
      assert (d - base) * d == d * d - base * d;
    }
    MulAssoc(n1, base, base);
    MulAdd(base * d, v * d, n1);
    MulComm(n1, base * d);
    MulComm(n1, v * d);
    MulAssoc(base, d, n1);
    MulSub(base, d, n0);
    Swap3(n1, base, d);
    Swap3(n1, v, d);
  }

  lemma Swap3(x: int, y: int, z: int)
    ensures (y * z) * x == (y * x) * z && x * (y * z) == (y * x) * z
  {}

  lemma ErrorExpand(n1: int, n0: int, d: int, v: int, base: int, bit: int, q1: int, s: int)
    requires base * q1 == base * n1 + v * n1 + v * bit + n0 + bit * (d - base) - s
    ensures base * (n1 * base + n0 - q1 * d) ==
      n1 * base * base + n0 * base - (base * n1) * d - (v * n1) * d - (v * bit) * d
      - n0 * d - (bit * (d - base)) * d + s * d
  {
    MulSub(n1 * base + n0, q1 * d, base);
    MulAdd(n1 * base, n0, base);
    MulAssoc(base, q1, d);
    Times6(base * n1, v * n1, v * bit, n0, bit * (d - base), s, d);
  }

  lemma Times6(e1: int, e2: int, e3: int, e4: int, e5: int, e6: int, d: int)
    ensures (e1 + e2 + e3 + e4 + e5 - e6) * d == e1 * d + e2 * d + e3 * d + e4 * d + e5 * d - e6 * d
  {
    MulSub(e1 + e2 + e3 + e4 + e5, e6, d);
    MulAdd(e1 + e2 + e3 + e4, e5, d);
    MulAdd(e1 + e2 + e3, e4, d);
    MulAdd(e1 + e2, e3, d);
    MulAdd(e1, e2, d);
  }

  /** Hence the first guess is the quotient or one less. */
  lemma InverseClose(n1: int, n0: int, d: int, v: int, base: int, k: int, bit: int, q1: int, s: int)
    requires 0 < base <= 2 * d && d < base && 0 <= n1 < d && 0 <= n0 < base && 1 <= k <= d && 0 <= s < base
    requires bit == if 2 * n0 >= base then 1 else 0
    requires base * (n1 * base + n0 - q1 * d) ==
      (n1 + bit) * k + n0 * (base - d) - bit * ((base - d) * (base - d)) + d * s
    ensures 0 <= n1 * base + n0 - q1 * d < 2 * d
  {
    var w := base - d;
    var e := n1 * base + n0 - q1 * d;
    MulNonNeg(n1 + bit, k);
    MulMono(n1 + bit, d, k);
    MulMono(k, d, d);
    MulNonNeg(d, s);
    MulMono(s, base - 1, d);
    MulSub(base, 1, d);
    MulSub(base, d, d);
    if bit == 1 {
      MulMono(w, n0, w);
      MulSub(n0, w, w);
      MulMono(n0 - w, d, w);
    } else {
      MulNonNeg(n0, w);
      MulMono(n0, d, w);
    }
    if e < 0 { MulMono(e, -1, base); }
    if e >= 2 * d { MulMono(2 * d, e, base); MulAssoc(2, d, base); }
  }

  lemma InverseRange(d: nat)
    requires Normalised(d)
    ensures var v := Inverse(d); var k := B * B - (B + v) * d; 0 <= v < B && 1 <= k <= d
  {
    hide B;
    var v := Inverse(d);
    var t := (B - d - 1) * B + (B - 1);
    MulSub(B, d, B);
    MulSub(B - d, 1, B);
    assert t == B * B - d * B - 1;
    DivMod(t, d);
    MulAdd(B, v, d);
    MulMono(B, 2 * d, B);
    MulNonNeg(B - d - 1, B);
    if v >= B { MulMono(B, v, d); MulAssoc(2, d, B); }
    if v < 0 { MulMono(v, -1, d); }
  }

  /** The last correction: the difference from the guess decides between it and the next number. */
  lemma AdjustExact(n: int, q: int, d: int, base: int)
    requires 0 <= n - q * d < 2 * d && 0 < d < base && 0 <= q < base && 0 <= n < d * base && base > 1
    ensures Adjust(n, q, d, base) == (n / d, n % d)
  {
    var y := n - q * d - d;
    if y >= 0 {
      MulAdd(q, 1, d);
      DivUnique(n, d, q + 1, y);
      QuotientSmall(n, d, base);
      AdjustUp(y, q, d, base);
    } else {
      DivUnique(n, d, q, y + d);
      AdjustDown(y, q, d, base);
    }
  }

  lemma AdjustUp(y: int, q: int, d: int, base: int)
    requires 0 <= y < d < base && 0 <= q < base - 1
    ensures var a := y % (base * base);
      a / base == 0 && (q + 1 + a / base) % base == q + 1 && a % base == y && a % base % base == y
  {
    MulMono(1, base, base);
    DivUnique(y, base * base, 0, y);
    DivUnique(y, base, 0, y);
    DivUnique(q + 1, base, 0, q + 1);
  }

  lemma AdjustDown(y: int, q: int, d: int, base: int)
    requires 0 - d <= y < 0 && d < base && 0 <= q < base
    ensures var a := y % (base * base);
      a / base == base - 1 && (q + 1 + a / base) % base == q && (a % base + d) % base == y + d
  {
    MulMono(1, base, base);
    DivUnique(y, base * base, -1, y + base * base);
    MulSub(base, 1, base);
    DivUnique(y + base * base, base, base - 1, y + base);
    DivUnique(q + base, base, 1, q);
    DivUnique(y + base + d, base, 1, y + d);
  }

  lemma QuotientSmall(n: int, d: int, base: int)
    requires 0 < d && 0 <= n < d * base
    ensures 0 <= n / d < base
  {
    DivMod(n, d);
    if n / d >= base { MulMono(base, n / d, d); }
    if n / d < 0 { MulMono(n / d, -1, d); }
  }

  lemma MultiplierExact(a1: nat, a0: nat, d: nat)
    requires Normalised(d) && a1 < d && a0 < B
    ensures B > 1 && Multiplier(a1, a0) == a1 + if 2 * a0 >= B then 1 else 0
  {
    hide B;
    Base();
    if a0 >= B / 2 {
      DivUnique(a1 - (B - 1), B, -1, a1 + 1);
    } else {
      DivUnique(a1, B, 0, a1);
    }
  }

  lemma AddendExact(a0: nat, d: nat)
    requires Normalised(d) && a0 < B
    ensures B > 1 && Addend(a0, d) == a0 + if 2 * a0 >= B then d - B else 0
    ensures 0 <= Addend(a0, d) < B
  {
    hide B;
    Base();
    if a0 >= B / 2 {
      DivUnique(a0 + d, B, 1, a0 + d - B);
    } else {
      DivUnique(a0, B, 0, a0);
    }
  }

  /** The wrapping limb operations of the guess amount to one exact product. */
  lemma GuessParts(a1: nat, a0: nat, d: nat, v: int)
    requires Normalised(d) && a1 < d && a0 < B && 0 <= v < B
    ensures B > 1
    ensures var t := v * Multiplier(a1, a0) + Addend(a0, d); 0 <= t < B * B && Guess(a1, a0, d, v) == (t / B + a1) % B
  {
    hide B, Multiplier, Addend;
    Base();
    MultiplierExact(a1, a0, d);
    AddendExact(a0, d);
    MulPos(B, B);
    var t := v * Multiplier(a1, a0) + Addend(a0, d);
    ProductBound(v, Multiplier(a1, a0), Addend(a0, d), 0, B);
    DivUnique(t, B * B, 0, t);
  }

  lemma GuessClose(a1: nat, a0: nat, d: nat)
    requires Normalised(d) && a1 < d && a0 < B
    ensures B > 1
    ensures var q := Guess(a1, a0, d, Inverse(d)); 0 <= q < B && 0 <= a1 * B + a0 - q * d < 2 * d
  {
    hide B, Guess, Inverse, Multiplier, Addend;
    Base();
    var v := Inverse(d);
    InverseRange(d);
    var bit := if 2 * a0 >= B then 1 else 0;
    GuessParts(a1, a0, d, v);
    MultiplierExact(a1, a0, d);
    AddendExact(a0, d);
    var t := v * (a1 + bit) + (a0 + bit * (d - B));
    assert t == v * Multiplier(a1, a0) + Addend(a0, d);
    QuotientBound(t, B);
    var q := t / B + a1;
    MulComm(B, t / B);
    InverseError(a1, a0, d, v, B, B * B - (B + v) * d, bit, q, t % B);
    InverseClose(a1, a0, d, v, B, B * B - (B + v) * d, bit, q, t % B);
    TwoLimbs(a1, a0, d, B);
    GuessFits(a1 * B + a0, q, d, B);
    DivUnique(q, B, 0, q);
  }

  /** udiv1norm with the precomputed inverse is true two-limb division. */
  lemma Udiv1NormExact(a1: nat, a0: nat, d: nat)
    requires Normalised(d) && a1 < d && a0 < B
    ensures B > 1
    ensures Udiv1Norm(a1, a0, d, Inverse(d)) == ((a1 * B + a0) / d, (a1 * B + a0) % d)
  {
    hide B, Guess, Inverse, Adjust;
    Base();
    GuessClose(a1, a0, d);
    TwoLimbs(a1, a0, d, B);
    AdjustExact(a1 * B + a0, Guess(a1, a0, d, Inverse(d)), d, B);
  }

  lemma TwoLimbs(a1: int, a0: int, d: int, base: int)
    requires 0 <= a1 < d && 0 <= a0 < base
    ensures 0 <= a1 * base + a0 < d * base
  {
    MulNonNeg(a1, base);
    MulMono(a1 + 1, d, base);
    MulAdd(a1, 1, base);
  }

  lemma GuessFits(n: int, q1: int, d: int, base: int)
    requires 0 <= n - q1 * d && 0 < d && n < d * base
    ensures q1 < base
  {
    if q1 >= base { MulMono(base, q1, d); }
  }

  const UDIV1NORM_THRESHOLD: nat := 3

  /** mp_div1norm: divides a + r*B^n by one normalised limb, from the top limb down. */
  method Div1Norm(res: array<nat>, r: nat, a: array<nat>, p: nat, n: nat, b: nat, high: nat) returns (rem: nat)
    requires Window(res, r, n) && Window(a, p, n) && Normalised(b) && high < b
    requires LimbsAt(a, p, n) && Downward(res, r, a, p, n)
    modifies res
    ensures OnlyWindow(res, r, n) && LimbsAt(res, r, n) && rem < b
    ensures old(Val(a[p..p + n])) + high * Pow(n) == Val(res[r..r + n]) * b + rem
  {
    hide Val, Pow, B, Udiv1Norm, Inverse;
    ghost var x: seq<nat> := a[p..p + n];
    rem := high;
    Base();
    var inv := if n >= UDIV1NORM_THRESHOLD then Inverse(b) else 0;
    var i := n;
    ValEmpty();
    PowZero();
    assert x[n..] == [] && res[r + n..r + n] == [];
    while i > 0
      invariant 0 <= i <= n && rem < b
      invariant forall j :: 0 <= j < res.Length && !(r + i <= j < r + n) ==> res[j] == old(res[j])
      invariant forall j :: 0 <= j < i ==> a[p + j] == x[j]
      invariant forall j :: r + i <= j < r + n ==> res[j] < B
      invariant Val(x[i..]) + high * Pow(n - i) == Val(res[r + i..r + n]) * b + rem
    {
      i := i - 1;
      var v: nat := a[p + i];
      assert v == x[i] && x[i] < B;
      ghost var done: seq<nat> := res[r + i + 1..r + n];
      Udiv1NormExact(rem, v, b);
      DigitExact(rem, v, b);
      var (q, m) := if n >= UDIV1NORM_THRESHOLD then Udiv1Norm(rem, v, b, inv)
        else ((rem * B + v) / b, (rem * B + v) % b);
      ShrStep(x, i, done, b, high, rem, q, m);
      res[r + i] := q;
      assert res[r + i..r + n] == [q] + done;
      rem := m;
    }
    assert x[0..] == x && res[r + 0..r + n] == res[r..r + n];
  }

  lemma DigitExact(a1: nat, a0: nat, d: nat)
    requires 0 < d && a1 < d && a0 < B
    ensures var n := a1 * B + a0; 0 <= n / d < B && 0 <= n % d < d && n == (n / d) * d + n % d
  {
    hide B;
    TwoLimbs(a1, a0, d, B);
    QuotientSmall(a1 * B + a0, d, B);
    DivMod(a1 * B + a0, d);
  }

  // ----- one limb of a long quotient -----

  /** The estimate from the two top limbs of the dividend and the top limb of the divisor. */
  function Estimate(u1: nat, u0: nat, b1: nat): int
    requires b1 > 0
  {
    if u1 >= b1 then B - 1 else (u1 * B + u0) / b1
  }

  lemma EstimateRange(u1: nat, u0: nat, b1: nat)
    requires Normalised(b1) && u1 < B && u0 < B
    ensures b1 > 0 && 0 <= Estimate(u1, u0, b1) < B && Estimate(u1, u0, b1) * b1 <= u1 * B + u0
    ensures u1 < b1 ==> u1 * B + u0 < Estimate(u1, u0, b1) * b1 + b1
  {
    hide B;
    Base();
    if u1 >= b1 {
      MulMono(b1, u1, B);
      MulSub(B, 1, b1);
    } else {
      DigitExact(u1, u0, b1);
    }
  }

  /**
  The estimate is the true quotient limb or at most two more: u is the
  dividend window, v the divisor, both with their top limbs split off at
  weight p.
  */
  lemma EstimateClose(u: int, v: int, u1: nat, u0: nat, b1: nat, ul: int, vl: int, p: int)
    requires Normalised(b1) && u1 < B && u0 < B && 0 <= ul < p && 0 <= vl < p
    requires u == (u1 * B + u0) * p + ul && v == b1 * p + vl && 0 <= u < v * B
    ensures b1 > 0 && 0 - 2 * v < u - Estimate(u1, u0, b1) * v < v
  {
    hide B, Estimate;
    EstimateRange(u1, u0, b1);
    var q := Estimate(u1, u0, b1);
    var t := u1 * B + u0;
    MulAdd(b1 * p, vl, q);
    MulAssoc(q, b1, p);
    MulMono(q * b1, t, p);
    MulNonNeg(q, vl);
    MulMono(vl, p, q);
    MulMono(q, 2 * b1 - 1, p);
    MulSub(2 * b1, 1, p);
    MulAssoc(2, b1, p);
    if u1 < b1 {
      MulMono(t, q * b1 + b1 - 1, p);
      MulAdd(q * b1, b1 - 1, p);
      MulSub(b1, 1, p);
    } else {
      assert q == B - 1 by { assert Estimate(u1, u0, b1) == B - 1 by { EstimateTop(u1, u0, b1); } }
      MulSub(B, 1, v);
    }
  }

  lemma EstimateTop(u1: nat, u0: nat, b1: nat)
    requires u1 >= b1 > 0
    ensures Estimate(u1, u0, b1) == B - 1
  {}
}
