/**
Square root with remainder of one and two limbs (libbf.c: mp_sqrtrem1,
mp_sqrtrem2), and the step that the whole Karatsuba square root is made of.
*/
module MpSqrt {
  import opened Limb
  import opened MpBasic
  import opened Newton
  import SqrtTable

  /** s is the square root of a rounded down, r what is left. */
  ghost predicate Root(a: int, s: int, r: int) {
    0 <= s && s * s + r == a && 0 <= r <= 2 * s
  }

  /** So s is the integer square root: s^2 <= a < (s + 1)^2, which determines it. */
  lemma RootIsFloor(a: int, s: int, r: int)
    requires 0 <= s
    ensures Root(a, s, r) <==> s * s <= a < (s + 1) * (s + 1) && r == a - s * s
  {
    MulAdd(s, 1, s + 1);
    MulAdd(s, 1, s);
  }

  lemma SquareMono(x: int, y: int)
    requires 0 <= x <= y
    ensures x * x <= y * y
  {
    MulMono(x, y, x);
    MulMono(x, y, y);
  }

  /** A lower bound on the number is one on the root. */
  lemma RootAtLeast(a: int, s: int, r: int, m: int)
    requires Root(a, s, r) && 0 <= m && m * m <= a
    ensures m <= s
  {
    RootIsFloor(a, s, r);
    if s + 1 <= m { SquareMono(s + 1, m); }
  }

  lemma RootBelow(a: int, s: int, r: int, m: int)
    requires Root(a, s, r) && 0 <= m && a < m * m
    ensures s < m
  {
    RootIsFloor(a, s, r);
    if m <= s { SquareMono(m, s); }
  }

  // ----- one step -----

  /** The root s1 of the high part, the next digits x and y in base b, and the division by 2*s1. */
  ghost predicate Step(s1: int, r1: int, b: int, x: int, y: int, q: int, u: int) {
    && 0 <= r1 <= 2 * s1 && 1 <= b <= 2 * s1 && 0 <= x < b && 0 <= y < b
    && r1 * b + x == q * (2 * s1) + u && 0 <= u < 2 * s1
  }

  lemma StepQuotient(s1: int, r1: int, b: int, x: int, y: int, q: int, u: int)
    requires Step(s1, r1, b, x, y, q, u)
    ensures 0 <= q <= b
  {
    MulMono(r1, 2 * s1, b);
    MulNonNeg(r1, b);
    if q >= b + 1 { MulMono(b + 1, q, 2 * s1); MulAdd(b, 1, 2 * s1); }
    if q < 0 { MulMono(q, -1, 2 * s1); }
  }

  lemma StepIdentity(s1: int, r1: int, b: int, x: int, y: int, q: int, u: int)
    requires Step(s1, r1, b, x, y, q, u)
    ensures var s := s1 * b + q; s * s + (u * b + y - q * q) == ((s1 * s1 + r1) * b + x) * b + y
  {
    SquareOfSum(s1 * b, q);
    SquareOfProduct(s1, b);
    TwiceProduct(q, s1, b);
    StepDigits(s1 * s1, r1, b, x, y, q * (2 * s1), u);
  }

  lemma SquareOfSum(x: int, y: int)
    ensures (x + y) * (x + y) == x * x + 2 * (x * y) + y * y
  {
    MulAdd(x, y, x + y);
    MulAdd(x, y, x);
    MulAdd(x, y, y);
  }

  lemma SquareOfProduct(x: int, y: int)
    ensures (x * y) * (x * y) == ((x * x) * y) * y
  {
    MulAssoc(x * y, x, y);
    Shuffle(x, y, x);
  }

  lemma TwiceProduct(q: int, s: int, b: int)
    ensures (q * (2 * s)) * b == 2 * ((s * b) * q)
  {
    Shuffle(q, 2 * s, b);
    MulAssoc(2, s, b);
  }

  lemma StepDigits(h: int, r1: int, b: int, x: int, y: int, w: int, u: int)
    requires r1 * b + x == w + u
    ensures ((h + r1) * b + x) * b + y == (h * b) * b + w * b + u * b + y
  {
    MulAdd(h, r1, b);
    MulAdd(h * b, w + u, b);
    MulAdd(w, u, b);
  }

  lemma StepRange(s1: int, r1: int, b: int, x: int, y: int, q: int, u: int)
    requires Step(s1, r1, b, x, y, q, u)
    ensures var s := s1 * b + q; var r := u * b + y - q * q;
      0 <= s && r <= 2 * s && 0 <= r + 2 * s - (if q == 0 then 0 else 1) && (r < 0 ==> 1 <= q)
  {
    StepQuotient(s1, r1, b, x, y, q, u);
    MulNonNeg(s1, b);
    MulNonNeg(u, b);
    MulMono(u, 2 * s1 - 1, b);
    MulSub(2 * s1, 1, b);
    MulAssoc(2, s1, b);
    MulNonNeg(q, q);
    MulMono(b, 2 * s1, b);
    if q >= 1 {
      SquareMono(q - 1, b);
      MulSub(q, 1, q - 1);
      MulSub(q, 1, q);
    }
  }

  /** The step is right, or one too high, and the remainder tells which. */
  lemma StepRoot(s1: int, r1: int, b: int, x: int, y: int, q: int, u: int)
    requires Step(s1, r1, b, x, y, q, u)
    ensures var a := ((s1 * s1 + r1) * b + x) * b + y; var s := s1 * b + q; var r := u * b + y - q * q;
      if r >= 0 then Root(a, s, r) else 1 <= s && Root(a, s - 1, r + 2 * (s - 1) + 1)
  {
    StepIdentity(s1, r1, b, x, y, q, u);
    StepRange(s1, r1, b, x, y, q, u);
    StepQuotient(s1, r1, b, x, y, q, u);
    MulNonNeg(s1, b);
    var s := s1 * b + q;
    MulSub(s, 1, s - 1);
    MulSub(s, 1, s);
  }

  // ----- one limb -----

  /** a >> k */
  function Shift(a: nat, k: nat): nat {
    NonNegativeQuotient(a, Pow2(k));
    a / Pow2(k)
  }

  lemma NonNegativeQuotient(t: int, d: int)
    requires 0 <= t && 0 < d
    ensures 0 <= t / d
  {
    DivMod(t, d);
    if t / d < 0 { MulMono(t / d, -1, d); }
  }

  lemma ShiftTwice(a: nat, j: nat, k: nat)
    ensures Shift(a, j + k) == Shift(a, j) / Pow2(k)
  {
    hide Pow2;
    var q, d, e := a / Pow2(j), Pow2(j), Pow2(k);
    Pow2Add(j, k);
    DivMod(a, d);
    DivMod(q, e);
    var f := q / e;
    assert a == f * (d * e) + ((q % e) * d + a % d) by {
      MulAdd(f * e, q % e, d);
      MulAssoc(f, e, d);
    }
    MulMono(q % e + 1, e, d);
    MulAdd(q % e, 1, d);
    MulNonNeg(q % e, d);
    MulPos(d, e);
    DivUnique(a, d * e, f, (q % e) * d + a % d);
  }

  /** One iteration: from the root of the high digits to that of two digits more. */
  method Refine(s1: nat, r1: nat, b: nat, x: nat, y: nat) returns (s: nat, r: nat)
    requires r1 <= 2 * s1 && 1 <= b <= 2 * s1 && s1 <= b && x < b && y < b && 4 * (b * b) <= B
    ensures Root(((s1 * s1 + r1) * b + x) * b + y, s, r)
  {
    hide B, Root;
    var num := r1 * b + x;
    var q, u := num / (2 * s1), num % (2 * s1);
    DivMod(num, 2 * s1);
    StepQuotient(s1, r1, b, x, y, q, u);
    StepRoot(s1, r1, b, x, y, q, u);
    MulNonNeg(s1, b);
    var t, e := s1 * b + q, u * b + y - q * q;
    RefineFits(s1, b, u, y, q);
    // e is computed in a word; its sign bit is its sign
    assert 0 - B / 2 <= e < B / 2;
    if e < 0 {
      t := t - 1;
      e := e + (2 * t + 1);
    }
    RootParts(((s1 * s1 + r1) * b + x) * b + y, t, e);
    s, r := t, e;
  }

  lemma RootParts(a: int, s: int, r: int)
    requires Root(a, s, r)
    ensures 0 <= s && 0 <= r <= 2 * s && s * s + r == a
  {}

  lemma RefineFits(s1: int, b: int, u: int, y: int, q: int)
    requires 0 <= s1 <= b && 0 <= u < 2 * s1 && 0 <= y < b && 0 <= q <= b
    ensures 0 - b * b <= u * b + y - q * q < 2 * (b * b)
  {
    MulNonNeg(u, b);
    MulMono(u, 2 * b - 1, b);
    MulSub(2 * b, 1, b);
    SquareMono(q, b);
    MulNonNeg(q, q);
    MulAssoc(2, b, b);
  }

  /** The table gives the root of a 16-bit number, once corrected. */
  method SeedRoot(x: nat) returns (s: nat, r: nat)
    requires 0x4000 <= x < 0x1_0000
    ensures Root(x, s, r) && 128 <= s < 256
  {
    s := SqrtTable.Seed(x / 256);
    SeedRange(x, s);
    r := x - s * s;
    if r > 2 * s {
      r := r - (2 * s + 1);
      s := s + 1;
    }
    RootBelow(x, s, r, 256);
  }

  lemma SeedRange(x: nat, s: nat)
    requires SqrtTable.Seeds(x / 256, s)
    ensures 128 <= s <= 255 && s * s <= x < s * s + 4 * s + 4 && (s + 1) * (s + 1) == s * s + 2 * s + 1
  {
    SquareOfSum(s, 2);
    SquareOfSum(s, 1);
  }

  lemma TopWord(a: nat)
    requires a < B <= 4 * a
    ensures var w := Shift(a, LIMB_BITS - 32);
      && 0x4000_0000 <= w < 0x1_0000_0000
      && Shift(a, LIMB_BITS - 24) == w / 256 && Shift(a, LIMB_BITS - 16) == w / 0x1_0000
  {
    hide B, Pow2;
    Pow2Values();
    ShiftTwice(a, LIMB_BITS - 32, 8);
    ShiftTwice(a, LIMB_BITS - 32, 16);
    BaseSplit(LIMB_BITS - 32);
    var d := Pow2(LIMB_BITS - 32);
    DivMod(a, d);
    var w := a / d;
    if w >= 0x1_0000_0000 { MulMono(0x1_0000_0000, w, d); }
    if w < 0x4000_0000 { MulMono(w + 1, 0x4000_0000, d); MulAdd(w, 1, d); }
  }

  /** The first two stages of mp_sqrtrem1: the root of the top 32 bits, given in three pieces. */
  method SqrtWord(x: nat, y: nat, z: nat) returns (s: nat, r: nat)
    requires 0x4000 <= x < 0x1_0000 && y < 256 && z < 256
    ensures Root((x * 256 + y) * 256 + z, s, r) && 0x8000 <= s < 0x1_0000
  {
    hide B, Root;
    Base();
    var s1, r1 := SeedRoot(x);
    RootParts(x, s1, r1);
    s, r := Refine(s1, r1, 256, y, z);
    RootAtLeast((x * 256 + y) * 256 + z, s, r, 0x8000);
    RootBelow((x * 256 + y) * 256 + z, s, r, 0x1_0000);
  }

  /** mp_sqrtrem1 */
  method SqrtRem1(a: nat) returns (s: nat, r: nat)
    requires a < B <= 4 * a
    ensures Root(a, s, r)
  {
    hide B, Pow2, Root, Shift;
    TopWord(a);
    ghost var w := Shift(a, LIMB_BITS - 32);
    WordDigits(w);
    s, r := SqrtWord(Shift(a, LIMB_BITS - 16), Shift(a, LIMB_BITS - 24) % 256, Shift(a, LIMB_BITS - 32) % 256);
    RootParts(w, s, r);
    if LIMB_BITS == 64 {
      WideDigits(a);
      var s1, r1 := s, r;
      s, r := Refine(s1, r1, 0x1_0000, Shift(a, 16) % 0x1_0000, a % 0x1_0000);
    } else {
      NarrowDigits(a);
    }
  }

  lemma WordDigits(w: nat)
    requires 0x4000_0000 <= w < 0x1_0000_0000
    ensures (w / 0x1_0000 * 256 + w / 256 % 256) * 256 + w % 256 == w && 0x4000 <= w / 0x1_0000 < 0x1_0000
  {}

  lemma WideDigits(a: nat)
    requires LIMB_BITS == 64
    ensures B == 0x1_0000_0000_0000_0000
    ensures (Shift(a, LIMB_BITS - 32) * 0x1_0000 + Shift(a, 16) % 0x1_0000) * 0x1_0000 + a % 0x1_0000 == a
  {
    hide Pow2;
    Pow2Values();
    Pow2Add(32, 32);
    ShiftTwice(a, 16, 16);
  }

  lemma NarrowDigits(a: nat)
    requires LIMB_BITS != 64
    ensures Shift(a, LIMB_BITS - 32) == a
  {}
}
