/**
The limb-array kernels of libbf.c: mp_add .. mp_sub_mul1. A pointer into an
array is an array and an offset; operands and result may be windows of the same
array as long as no limb is overwritten before it is read.
*/
module MpBasic {
  import opened Limb

  /** The window of n limbs at p lies inside the array. */
  predicate Window(a: array<nat>, p: nat, n: nat) {
    p + n <= a.Length
  }

  ghost predicate LimbsAt(a: array<nat>, p: nat, n: nat)
    requires Window(a, p, n)
    reads a
  {
    IsLimbs(a[p..p + n])
  }

  /** Writing the window at r from low to high does not disturb what is still to be read at p. */
  ghost predicate Upward(res: array<nat>, r: nat, a: array<nat>, p: nat, n: nat) {
    res != a || r <= p || p + n <= r
  }

  /** Only the window of n limbs at r has changed. */
  twostate predicate OnlyWindow(a: array<nat>, r: nat, n: nat)
    reads a
  {
    forall j :: 0 <= j < a.Length && !(r <= j < r + n) ==> a[j] == old(a[j])
  }

  // ----- single limbs -----

  /** Sum of two limbs as the processor computes it. */
  function Wrap(x: nat): nat {
    if x >= B then x - B else x
  }

  /** Difference of two limbs as the processor computes it. */
  function Diff(x: nat, y: nat): (d: int) {
    if x >= y then x - y else x - y + B
  }

  /** The body of the loop of mp_add: sum and carry of two limbs and a carry. */
  function LimbAdd(v: nat, w: nat, k: nat): (nat, nat) {
    var a := Wrap(v + w);
    var s := Wrap(a + k);
    (s, if s < k || a < v then 1 else 0)
  }

  lemma LimbAddExact(v: nat, w: nat, k: nat)
    requires v < B && w < B && k <= 1
    ensures var (s, c) := LimbAdd(v, w, k); s < B && c <= 1 && s + c * B == v + w + k
  {
    hide B;
    Base();
  }

  /** The body of the loop of mp_sub: difference and borrow. */
  function LimbSub(v: nat, w: nat, k: nat): (r: (int, nat)) {
    var a := Diff(v, w);
    var s := if a >= k then a - k else a - k + B;
    (s, if s > a || a > v then 1 else 0)
  }

  lemma LimbSubExact(v: nat, w: nat, k: nat)
    requires v < B && w < B && k <= 1
    ensures var (s, c) := LimbSub(v, w, k); 0 <= s < B && c <= 1 && s - c * B == v - w - k
  {
    hide B;
    Base();
  }

  lemma DivMod(t: int, d: int)
    requires 0 < d
    ensures t == (t / d) * d + t % d && 0 <= t % d < d
  {
    MulComm(t / d, d);
  }

  lemma {:induction false} DivUnique(t: int, d: int, q: int, r: int)
    requires 0 < d && t == q * d + r && 0 <= r < d
    ensures q == t / d && r == t % d
  {
    DivMod(t, d);
    if q < t / d {
      MulMono(q + 1, t / d, d);
      MulAdd(q, 1, d);
    } else if q > t / d {
      MulMono(t / d + 1, q, d);
      MulAdd(t / d, 1, d);
    }
  }

  // ----- whole numbers -----

  /** One more limb of a sum or difference: s + c*B == x - y + k with weight P. */
  lemma CarryStep(v: int, k: int, p: int, total: int, s: int, c: int, b: int, x: int)
    requires v + k * p == total && s + c * b == x + k
    ensures (v + s * p) + c * (b * p) == total + x * p
  {
    MulAdd(s, c * b, p);
    MulAdd(x, k, p);
    MulAssoc(c, b, p);
  }

  /** The same for a borrow. */
  lemma BorrowStep(v: int, k: int, p: int, total: int, s: int, c: int, b: int, x: int)
    requires v - k * p == total && s - c * b == x - k
    ensures (v + s * p) - c * (b * p) == total + x * p
  {
    MulSub(s, c * b, p);
    MulSub(x, k, p);
    MulAssoc(c, b, p);
  }

  lemma SlicePush(a: seq<nat>, r: nat, i: nat)
    requires r + i < |a|
    ensures a[r..r + i + 1] == a[r..r + i] + [a[r + i]]
    ensures Val(a[r..r + i + 1]) == Val(a[r..r + i]) + a[r + i] * Pow(i)
  {
    hide Val, Pow;
    ValPush(a[r..r + i], a[r + i]);
  }

  lemma PrefixPush(s: seq<nat>, i: nat)
    requires i < |s|
    ensures s[..i + 1] == s[..i] + [s[i]]
    ensures Val(s[..i + 1]) == Val(s[..i]) + s[i] * Pow(i)
  {
    hide Val, Pow;
    ValPush(s[..i], s[i]);
  }

  lemma SumStep(done: seq<nat>, x: seq<nat>, y: seq<nat>, i: nat, k: nat, s: nat, c: nat, carry: nat)
    requires |done| == i < |x| == |y| && s + c * B == x[i] + y[i] + k
    requires Val(done) + k * Pow(i) == Val(x[..i]) + Val(y[..i]) + carry
    ensures Val(done + [s]) + c * Pow(i + 1) == Val(x[..i + 1]) + Val(y[..i + 1]) + carry
  {
    hide Val, Pow, B;
    ValPush(done, s);
    PrefixPush(x, i);
    PrefixPush(y, i);
    PowStep(i);
    CarryStep(Val(done), k, Pow(i), Val(x[..i]) + Val(y[..i]) + carry, s, c, B, x[i] + y[i]);
    MulAdd(x[i], y[i], Pow(i));
  }

  lemma DifferenceStep(done: seq<nat>, x: seq<nat>, y: seq<nat>, i: nat, k: nat, s: nat, c: nat, carry: nat)
    requires |done| == i < |x| == |y|
    requires var xi: int, yi: int := x[i], y[i]; s - c * B == xi - yi - k
    requires Val(done) - k * Pow(i) == Val(x[..i]) - Val(y[..i]) - carry
    ensures Val(done + [s]) - c * Pow(i + 1) == Val(x[..i + 1]) - Val(y[..i + 1]) - carry
  {
    hide Val, Pow, B;
    ValPush(done, s);
    PrefixPush(x, i);
    PrefixPush(y, i);
    PowStep(i);
    var xi: int, yi: int := x[i], y[i];
    BorrowStep(Val(done), k, Pow(i), Val(x[..i]) - Val(y[..i]) - carry, s, c, B, xi - yi);
    MulSub(xi, yi, Pow(i));
  }

  /** mp_add */
  method Add(res: array<nat>, r: nat, a: array<nat>, p: nat, b: array<nat>, q: nat, n: nat, carry: nat) returns (k: nat)
    requires Window(res, r, n) && Window(a, p, n) && Window(b, q, n) && carry <= 1
    requires LimbsAt(a, p, n) && LimbsAt(b, q, n) && Upward(res, r, a, p, n) && Upward(res, r, b, q, n)
    modifies res
    ensures OnlyWindow(res, r, n) && LimbsAt(res, r, n) && k <= 1
    ensures Val(res[r..r + n]) + k * Pow(n) == old(Val(a[p..p + n])) + old(Val(b[q..q + n])) + carry
  {
    hide Val, Pow, B, LimbAdd;
    ghost var x: seq<nat>, y: seq<nat> := a[p..p + n], b[q..q + n];
    k := carry;
    var i := 0;
    ValEmpty();
    PowZero();
    assert res[r..r] == [] && x[..0] == [] && y[..0] == [];
    while i < n
      invariant i <= n && k <= 1
      invariant OnlyWindow(res, r, i)
      invariant forall j :: i <= j < n ==> a[p + j] == x[j] && b[q + j] == y[j]
      invariant LimbsAt(res, r, i)
      invariant Val(res[r..r + i]) + k * Pow(i) == Val(x[..i]) + Val(y[..i]) + carry
    {
      LimbAddExact(a[p + i], b[q + i], k);
      var (s, c) := LimbAdd(a[p + i], b[q + i], k);
      ghost var done: seq<nat> := res[r..r + i];
      SumStep(done, x, y, i, k, s, c, carry);
      res[r + i] := s;
      assert res[r..r + i + 1] == done + [s];
      k, i := c, i + 1;
    }
    assert x[..n] == x && y[..n] == y;
  }

  /** mp_sub */
  method Sub(res: array<nat>, r: nat, a: array<nat>, p: nat, b: array<nat>, q: nat, n: nat, carry: nat) returns (k: nat)
    requires Window(res, r, n) && Window(a, p, n) && Window(b, q, n) && carry <= 1
    requires LimbsAt(a, p, n) && LimbsAt(b, q, n) && Upward(res, r, a, p, n) && Upward(res, r, b, q, n)
    modifies res
    ensures OnlyWindow(res, r, n) && LimbsAt(res, r, n) && k <= 1
    ensures Val(res[r..r + n]) - k * Pow(n) == old(Val(a[p..p + n])) - old(Val(b[q..q + n])) - carry
  {
    hide Val, Pow, B, LimbSub;
    ghost var x: seq<nat>, y: seq<nat> := a[p..p + n], b[q..q + n];
    k := carry;
    var i := 0;
    ValEmpty();
    PowZero();
    assert res[r..r] == [] && x[..0] == [] && y[..0] == [];
    while i < n
      invariant i <= n && k <= 1
      invariant OnlyWindow(res, r, i)
      invariant forall j :: i <= j < n ==> a[p + j] == x[j] && b[q + j] == y[j]
      invariant LimbsAt(res, r, i)
      invariant Val(res[r..r + i]) - k * Pow(i) == Val(x[..i]) - Val(y[..i]) - carry
    {
      LimbSubExact(a[p + i], b[q + i], k);
      var (s, c) := LimbSub(a[p + i], b[q + i], k);
      ghost var done: seq<nat> := res[r..r + i];
      DifferenceStep(done, x, y, i, k, s, c, carry);
      res[r + i] := s;
      assert res[r..r + i + 1] == done + [s];
      k, i := c, i + 1;
    }
    assert x[..n] == x && y[..n] == y;
  }

  /** Replacing one limb. */
  lemma {:induction false} ValUpdate(s: seq<nat>, i: nat, x: nat)
    requires i < |s|
    ensures Val(s[i := x]) == Val(s) + (x - s[i]) * Pow(i)
  {
    hide Val, Pow;
    var u := s[i := x];
    ValSplit(s, i);
    ValSplit(u, i);
    ValLow(s[i..]);
    ValLow(u[i..]);
    assert u[..i] == s[..i] && u[i..][1..] == s[i..][1..];
    var rest := B * Val(s[i..][1..]);
    MulAdd(s[i], rest, Pow(i));
    MulAdd(x, rest, Pow(i));
    MulSub(x, s[i], Pow(i));
  }

  lemma WindowUpdate(a: seq<nat>, r: nat, n: nat, i: nat, x: nat)
    requires r + n <= |a| && i < n
    ensures a[r + i := x][r..r + n] == a[r..r + n][i := x]
    ensures Val(a[r + i := x][r..r + n]) == Val(a[r..r + n]) + (x - a[r + i]) * Pow(i)
  {
    hide Val, Pow;
    ValUpdate(a[r..r + n], i, x);
  }

  lemma LocalStep(v: int, k: int, p: int, s: int, c: int, b: int, x: int)
    requires s + c * b == x + k
    ensures (v + (s - x) * p) + c * (b * p) == v + k * p
  {
    MulSub(s, x, p);
    MulAdd(s, c * b, p);
    MulAdd(x, k, p);
    MulAssoc(c, b, p);
  }

  lemma LocalBorrow(v: int, k: int, p: int, s: int, c: int, b: int, x: int)
    requires s - c * b == x - k
    ensures (v + (s - x) * p) - c * (b * p) == v - k * p
  {
    MulSub(s, x, p);
    MulSub(s, c * b, p);
    MulSub(x, k, p);
    MulAssoc(c, b, p);
  }

  /** mp_add_ui */
  method AddSmall(a: array<nat>, p: nat, b: nat, n: nat) returns (k: nat)
    requires Window(a, p, n) && LimbsAt(a, p, n) && b < B
    modifies a
    ensures OnlyWindow(a, p, n) && LimbsAt(a, p, n) && k < B && (n > 0 ==> k <= 1)
    ensures Val(a[p..p + n]) + k * Pow(n) == old(Val(a[p..p + n])) + b
  {
    hide Val, Pow, B;
    Base();
    ghost var v0 := Val(a[p..p + n]);
    k := b;
    var i := 0;
    PowZero();
    while i < n && k != 0
      invariant i <= n && k < B && (i > 0 ==> k <= 1)
      invariant OnlyWindow(a, p, n) && LimbsAt(a, p, n)
      invariant Val(a[p..p + n]) + k * Pow(i) == v0 + b
    {
      var s := Wrap(a[p + i] + k);
      var c := if s < k then 1 else 0;
      assert s + c * B == a[p + i] + k;
      WindowUpdate(a[..], p, n, i, s);
      LocalStep(Val(a[p..p + n]), k, Pow(i), s, c, B, a[p + i]);
      PowStep(i);
      ghost var before: seq<nat> := a[..];
      assert before[p..p + n] == a[p..p + n];
      a[p + i] := s;
      assert a[..] == before[p + i := s] && a[p..p + n] == a[..][p..p + n];
      k, i := c, i + 1;
    }
  }

  /** mp_sub_ui */
  method SubSmall(a: array<nat>, p: nat, b: nat, n: nat) returns (k: nat)
    requires Window(a, p, n) && LimbsAt(a, p, n) && b < B
    modifies a
    ensures OnlyWindow(a, p, n) && LimbsAt(a, p, n) && k < B && (n > 0 ==> k <= 1)
    ensures Val(a[p..p + n]) - k * Pow(n) == old(Val(a[p..p + n])) - b
  {
    hide Val, Pow, B;
    Base();
    ghost var v0 := Val(a[p..p + n]);
    k := b;
    var i := 0;
    PowZero();
    while i < n
      invariant i <= n && k < B && (i > 0 ==> k <= 1)
      invariant OnlyWindow(a, p, n) && LimbsAt(a, p, n)
      invariant Val(a[p..p + n]) - k * Pow(i) == v0 - b
    {
      var v := a[p + i];
      var s := Diff(v, k);
      var c := if s > v then 1 else 0;
      assert s - c * B == v - k;
      WindowUpdate(a[..], p, n, i, s);
      LocalBorrow(Val(a[p..p + n]), k, Pow(i), s, c, B, v);
      PowStep(i);
      ghost var before: seq<nat> := a[..];
      assert before[p..p + n] == a[p..p + n];
      a[p + i] := s;
      assert a[..] == before[p + i := s] && a[p..p + n] == a[..][p..p + n];
      k, i := c, i + 1;
      if k == 0 { break; }
    }
  }

  /** mp_neg: 0 - a - carry */
  method Neg(res: array<nat>, r: nat, a: array<nat>, p: nat, n: nat, carry: nat) returns (k: nat)
    requires Window(res, r, n) && Window(a, p, n) && carry <= 1
    requires LimbsAt(a, p, n) && Upward(res, r, a, p, n)
    modifies res
    ensures OnlyWindow(res, r, n) && LimbsAt(res, r, n) && k <= 1
    ensures Val(res[r..r + n]) + old(Val(a[p..p + n])) + carry == k * Pow(n)
  {
    hide Val, Pow, B, LimbSub;
    Base();
    ghost var y: seq<nat> := a[p..p + n];
    k := carry;
    var i := 0;
    ValEmpty();
    PowZero();
    assert res[r..r] == [] && y[..0] == [];
    while i < n
      invariant i <= n && k <= 1
      invariant OnlyWindow(res, r, i)
      invariant forall j :: i <= j < n ==> a[p + j] == y[j]
      invariant LimbsAt(res, r, i)
      invariant Val(res[r..r + i]) + Val(y[..i]) + carry == k * Pow(i)
    {
      LimbSubExact(0, a[p + i], k);
      var (s, c) := LimbSub(0, a[p + i], k);
      ghost var done: seq<nat> := res[r..r + i];
      res[r + i] := s;
      assert res[r..r + i] == done;
      SlicePush(res[..], r, i);
      assert res[..][r..r + i] == done && res[..][r..r + i + 1] == res[r..r + i + 1];
      PrefixPush(y, i);
      PowStep(i);
      ghost var yi: int := y[i];
      BorrowStep(Val(done), k, Pow(i), 0 - (Val(y[..i]) + carry), s, c, B, 0 - yi);
      MulSub(0, yi, Pow(i));
      k, i := c, i + 1;
    }
    assert y[..n] == y;
  }

  lemma ProductBound(x: nat, b: nat, l: nat, t: nat, base: nat)
    requires x < base && b < base && l < base && t < base
    ensures 0 <= x * b && x * b + l + t < base * base
  {
    MulNonNeg(x, b);
    MulMono(x, base - 1, b);
    MulMono(b, base - 1, base - 1);
    MulSub(base, 1, base - 1);
    MulSub(base, 1, base);
  }

  lemma QuotientBound(w: int, base: int)
    requires 0 <= w < base * base && 0 < base
    ensures w == (w / base) * base + w % base && 0 <= w % base < base && 0 <= w / base < base
  {
    DivMod(w, base);
    if w / base >= base { MulMono(base, w / base, base); }
    if w / base < 0 { MulMono(w / base, -1, base); }
  }

  /** x*b + l + t of limbs fits two limbs. */
  lemma ProductFits(x: nat, b: nat, l: nat, t: nat)
    requires x < B && b < B && l < B && t < B
    ensures var w := x * b + l + t; 0 <= w / B < B && w == (w / B) * B + w % B && 0 <= w % B < B
  {
    hide B;
    ProductBound(x, b, l, t, B);
    QuotientBound(x * b + l + t, B);
  }

  /** mp_mul1: a*b + l */
  method Mul1(res: array<nat>, r: nat, a: array<nat>, p: nat, n: nat, b: nat, l: nat) returns (h: nat)
    requires Window(res, r, n) && Window(a, p, n) && b < B && l < B
    requires LimbsAt(a, p, n) && Upward(res, r, a, p, n)
    modifies res
    ensures OnlyWindow(res, r, n) && LimbsAt(res, r, n) && h < B
    ensures Val(res[r..r + n]) + h * Pow(n) == old(Val(a[p..p + n])) * b + l
  {
    hide Val, Pow, B;
    ghost var x: seq<nat> := a[p..p + n];
    h := l;
    var i := 0;
    ValEmpty();
    PowZero();
    assert res[r..r] == [] && x[..0] == [];
    while i < n
      invariant i <= n && h < B
      invariant OnlyWindow(res, r, i)
      invariant forall j :: i <= j < n ==> a[p + j] == x[j]
      invariant LimbsAt(res, r, i)
      invariant Val(res[r..r + i]) + h * Pow(i) == Val(x[..i]) * b + l
    {
      Base();
      ProductFits(a[p + i], b, h, 0);
      var t := a[p + i] * b + h;
      ghost var done: seq<nat> := res[r..r + i];
      res[r + i] := t % B;
      assert res[r..r + i] == done;
      SlicePush(res[..], r, i);
      assert res[..][r..r + i] == done && res[..][r..r + i + 1] == res[r..r + i + 1];
      PrefixPush(x, i);
      PowStep(i);
      CarryStep(Val(done), h, Pow(i), Val(x[..i]) * b + l, t % B, t / B, B, x[i] * b);
      MulAdd(Val(x[..i]), x[i] * Pow(i), b);
      Rotate(x[i], Pow(i), b);
      h, i := t / B, i + 1;
    }
    assert x[..n] == x;
  }

  lemma Rotate(x: int, y: int, z: int)
    ensures (x * y) * z == (x * z) * y
  {}

  /** mp_add_mul1: res += a*b */
  method AddMul1(res: array<nat>, r: nat, a: array<nat>, p: nat, n: nat, b: nat) returns (h: nat)
    requires Window(res, r, n) && Window(a, p, n) && b < B && res != a
    requires LimbsAt(a, p, n) && LimbsAt(res, r, n)
    modifies res
    ensures OnlyWindow(res, r, n) && LimbsAt(res, r, n) && h < B
    ensures Val(res[r..r + n]) + h * Pow(n) == old(Val(res[r..r + n])) + Val(a[p..p + n]) * b
  {
    hide Val, Pow, B;
    ghost var x: seq<nat>, y: seq<nat> := a[p..p + n], res[r..r + n];
    h := 0;
    var i := 0;
    ValEmpty();
    PowZero();
    Base();
    assert res[r..r] == [] && x[..0] == [] && y[..0] == [];
    while i < n
      invariant i <= n && h < B
      invariant OnlyWindow(res, r, i)
      invariant LimbsAt(res, r, i)
      invariant Val(res[r..r + i]) + h * Pow(i) == Val(y[..i]) + Val(x[..i]) * b
    {
      assert a[p + i] == x[i] && res[r + i] == y[i];
      ProductFits(a[p + i], b, h, res[r + i]);
      var t := a[p + i] * b + h + res[r + i];
      ghost var done: seq<nat> := res[r..r + i];
      res[r + i] := t % B;
      assert res[r..r + i] == done;
      SlicePush(res[..], r, i);
      assert res[..][r..r + i] == done && res[..][r..r + i + 1] == res[r..r + i + 1];
      PrefixPush(x, i);
      PrefixPush(y, i);
      PowStep(i);
      CarryStep(Val(done), h, Pow(i), Val(y[..i]) + Val(x[..i]) * b, t % B, t / B, B, x[i] * b + y[i]);
      MulAdd(Val(x[..i]), x[i] * Pow(i), b);
      Rotate(x[i], Pow(i), b);
      MulAdd(x[i] * b, y[i], Pow(i));
      h, i := t / B, i + 1;
    }
    assert x[..n] == x && y[..n] == y;
  }

  /** One limb of mp_sub_mul1: the difference modulo B^2, its low limb and the word to subtract next. */
  function LimbSubMul(v: nat, x: nat, b: nat, l: nat): (int, int)
    requires B > 0
  {
    var y := v - x * b - l;
    var t := if y >= 0 then y else y + B * B;
    (t % B, if t / B == 0 then 0 else B - t / B)
  }

  lemma LimbSubMulExact(v: nat, x: nat, b: nat, l: nat)
    requires v < B && x < B && b < B && l < B
    ensures B > 0 && var (s, c) := LimbSubMul(v, x, b, l); 0 <= s < B && 0 <= c < B && s - c * B == v - x * b - l
  {
    hide B;
    Base();
    ProductBound(x, b, l, 0, B);
    var y := v - x * b - l;
    if y >= 0 {
      DivUnique(y, B, 0, y);
    } else {
      ProductMargin(x, b, l, B);
      QuotientBound(y + B * B, B);
      BorrowedQuotient(y, B);
    }
  }

  /** A full product leaves a whole limb of room below B^2. */
  lemma ProductMargin(x: nat, b: nat, l: nat, base: nat)
    requires x < base && b < base && l < base
    ensures x * b + l <= base * base - base
  {
    MulMono(x, base - 1, b);
    MulMono(b, base - 1, base - 1);
    MulSub(base, 1, base - 1);
    MulSub(base, 1, base);
  }

  lemma BorrowedQuotient(y: int, base: int)
    requires 0 < base && 0 - base * base + base <= y < 0
    ensures var t := y + base * base; t / base >= 1 && (t % base) - (base - t / base) * base == y
  {
    var t := y + base * base;
    DivMod(t, base);
    if t / base <= 0 { MulMono(t / base, 0, base); }
    MulSub(base, t / base, base);
  }

  /** mp_sub_mul1: res -= a*b; the result is what remains to be subtracted from the next limb. */
  method SubMul1(res: array<nat>, r: nat, a: array<nat>, p: nat, n: nat, b: nat) returns (h: nat)
    requires Window(res, r, n) && Window(a, p, n) && b < B && res != a
    requires LimbsAt(a, p, n) && LimbsAt(res, r, n)
    modifies res
    ensures OnlyWindow(res, r, n) && LimbsAt(res, r, n) && h < B
    ensures Val(res[r..r + n]) - h * Pow(n) == old(Val(res[r..r + n])) - Val(a[p..p + n]) * b
  {
    hide Val, Pow, B, LimbSubMul;
    ghost var x: seq<nat>, y: seq<nat> := a[p..p + n], res[r..r + n];
    h := 0;
    var i := 0;
    ValEmpty();
    PowZero();
    Base();
    assert res[r..r] == [] && x[..0] == [] && y[..0] == [];
    while i < n
      invariant i <= n && h < B
      invariant OnlyWindow(res, r, i)
      invariant LimbsAt(res, r, i)
      invariant Val(res[r..r + i]) - h * Pow(i) == Val(y[..i]) - Val(x[..i]) * b
    {
      assert a[p + i] == x[i] && res[r + i] == y[i];
      LimbSubMulExact(res[r + i], a[p + i], b, h);
      var (s, c) := LimbSubMul(res[r + i], a[p + i], b, h);
      ghost var done: seq<nat> := res[r..r + i];
      res[r + i] := s;
      assert res[r..r + i] == done;
      SlicePush(res[..], r, i);
      assert res[..][r..r + i] == done && res[..][r..r + i + 1] == res[r..r + i + 1];
      PrefixPush(x, i);
      PrefixPush(y, i);
      PowStep(i);
      BorrowStep(Val(done), h, Pow(i), Val(y[..i]) - Val(x[..i]) * b, s, c, B, y[i] - x[i] * b);
      MulAdd(Val(x[..i]), x[i] * Pow(i), b);
      Rotate(x[i], Pow(i), b);
      MulSub(y[i], x[i] * b, Pow(i));
      h, i := c, i + 1;
    }
    assert x[..n] == x && y[..n] == y;
  }

  // ----- from the high end -----

  /** Writing the window at r from high to low does not disturb what is still to be read at p. */
  ghost predicate Downward(res: array<nat>, r: nat, a: array<nat>, p: nat, n: nat) {
    res != a || p <= r || r + n <= p
  }

  lemma SliceLow(a: seq<nat>, i: nat, n: nat)
    requires i < n <= |a|
    ensures Val(a[i..n]) == a[i] + B * Val(a[i + 1..n])
  {
    hide Val, B;
    ValLow(a[i..n]);
    assert a[i..n][1..] == a[i + 1..n];
  }

  /** One more low limb of a shifted or divided number: x = q*d + m below, the next limb brings l == e*d + f. */
  lemma LowerStep(x: int, m: int, q: int, d: int, b: int, l: int, e: int, f: int)
    requires x == q * d + m && m * b + l == e * d + f
    ensures l + b * x == (e + b * q) * d + f
  {
    MulAdd(q * d, m, b);
    MulAssoc(b, q, d);
    MulAdd(e, b * q, d);
  }

  /** The word that mp_shr stores: the two bit fields do not meet, so their union is a sum. */
  function Funnel(a: nat, l: nat, shift: nat): int
    requires 1 <= shift < LIMB_BITS && B > 0
  {
    a / Pow2(shift) + (l * Pow2(LIMB_BITS - shift)) % B
  }

  lemma FunnelExact(a: nat, l: nat, shift: nat)
    requires 1 <= shift < LIMB_BITS && a < B
    ensures B > 0 && 0 <= Funnel(a, l, shift) < B
    ensures (l % Pow2(shift)) * B + a == Funnel(a, l, shift) * Pow2(shift) + a % Pow2(shift)
  {
    hide B, Pow2;
    Base();
    BaseSplit(shift);
    ShiftFields(a, l, Pow2(shift), Pow2(LIMB_BITS - shift), B);
  }

  lemma BaseSplit(shift: nat)
    requires shift <= LIMB_BITS
    ensures B == Pow2(LIMB_BITS - shift) * Pow2(shift)
  {
    hide Pow2;
    Pow2Add(LIMB_BITS - shift, shift);
  }

  lemma ShiftFields(a: int, l: int, s: int, c: int, base: int)
    requires 0 < s && 0 < c && base == c * s && 0 <= a < base && 0 <= l
    ensures (l * c) % base == (l % s) * c && 0 <= a / s + (l % s) * c < base
    ensures (l % s) * base + a == (a / s + (l % s) * c) * s + a % s
  {
    var m := l % s;
    DivMod(l, s);
    DivMod(a, s);
    MulAdd((l / s) * s, m, c);
    MulAssoc(l / s, s, c);
    MulMono(m + 1, s, c);
    MulAdd(m, 1, c);
    MulNonNeg(m, c);
    DivUnique(l * c, base, l / s, m * c);
    if a / s >= c { MulMono(c, a / s, s); }
    if a / s < 0 { MulMono(a / s, -1, s); }
    MulAdd(a / s, m * c, s);
    MulAssoc(m, c, s);
  }

  lemma ShrStep(x: seq<nat>, i: nat, done: seq<nat>, s: nat, high: nat, m: nat, w: nat, m': nat)
    requires i < |x| && |done| == |x| - i - 1 && m * B + x[i] == w * s + m'
    requires Val(x[i + 1..]) + high * Pow(|done|) == Val(done) * s + m
    ensures Val(x[i..]) + high * Pow(|done| + 1) == Val([w] + done) * s + m'
  {
    hide Val, Pow, B;
    SliceLow(x, i, |x|);
    assert x[i..|x|] == x[i..] && x[i + 1..|x|] == x[i + 1..];
    ValLow([w] + done);
    assert ([w] + done)[1..] == done;
    PowStep(|done|);
    ShiftIn(Val(x[i + 1..]), high, Pow(|done|), x[i], B);
    LowerStep(Val(x[i + 1..]) + high * Pow(|done|), m, Val(done), s, B, x[i], w, m');
  }

  /**
  mp_shr: (a + high*B^n) >> shift, where only the low bits of high can reach the
  result; the bits shifted out are returned.
  */
  method Shr(res: array<nat>, r: nat, a: array<nat>, p: nat, n: nat, shift: nat, high: nat) returns (rem: nat)
    requires Window(res, r, n) && Window(a, p, n) && 1 <= shift < LIMB_BITS && high < B
    requires LimbsAt(a, p, n) && Downward(res, r, a, p, n)
    modifies res
    ensures OnlyWindow(res, r, n) && LimbsAt(res, r, n) && rem < Pow2(shift)
    ensures old(Val(a[p..p + n])) + (high % Pow2(shift)) * Pow(n) == Val(res[r..r + n]) * Pow2(shift) + rem
  {
    hide Val, Pow, B, Funnel, Pow2;
    ghost var x: seq<nat> := a[p..p + n];
    ghost var s := Pow2(shift);
    var l: nat := high;
    var i := n;
    ValEmpty();
    PowZero();
    assert x[n..] == [] && res[r + n..r + n] == [];
    while i > 0
      invariant 0 <= i <= n && l < B
      invariant forall j :: 0 <= j < res.Length && !(r + i <= j < r + n) ==> res[j] == old(res[j])
      invariant forall j :: 0 <= j < i ==> a[p + j] == x[j]
      invariant forall j :: r + i <= j < r + n ==> res[j] < B
      invariant Val(x[i..]) + (high % s) * Pow(n - i) == Val(res[r + i..r + n]) * s + l % s
    {
      i := i - 1;
      var v: nat := a[p + i];
      assert v == x[i] && x[i] < B;
      ghost var done: seq<nat> := res[r + i + 1..r + n];
      FunnelExact(v, l, shift);
      var w := Funnel(v, l, shift);
      ShrStep(x, i, done, s, high % s, l % s, w, v % s);
      res[r + i] := w;
      assert res[r + i..r + n] == [w] + done;
      l := v;
    }
    assert x[0..] == x && res[r + 0..r + n] == res[r..r + n];
    rem := l % Pow2(shift);
  }

  lemma ShiftIn(x: int, m: int, p: int, v: int, b: int)
    ensures v + b * (x + m * p) == (v + b * x) + m * (b * p)
  {
    MulAdd(x, m * p, b);
    MulAssoc(m, b, p);
    MulAssoc(b, m, p);
    MulComm(b, m);
  }

  /** mp_cmp */
  method Cmp(a: array<nat>, p: nat, b: array<nat>, q: nat, n: nat) returns (c: int)
    requires Window(a, p, n) && Window(b, q, n) && LimbsAt(a, p, n) && LimbsAt(b, q, n)
    ensures -1 <= c <= 1
    ensures c < 0 <==> Val(a[p..p + n]) < Val(b[q..q + n])
    ensures c > 0 <==> Val(a[p..p + n]) > Val(b[q..q + n])
  {
    hide Val, Pow, B;
    ghost var x: seq<nat>, y: seq<nat> := a[p..p + n], b[q..q + n];
    var i := n;
    while i > 0
      invariant 0 <= i <= n && x[i..] == y[i..]
    {
      i := i - 1;
      assert a[p + i] == x[i] && b[q + i] == y[i];
      if a[p + i] != b[q + i] {
        FirstDifference(x, y, i);
        return if a[p + i] < b[q + i] then -1 else 1;
      }
      assert x[i..] == [x[i]] + x[i + 1..] && y[i..] == [y[i]] + y[i + 1..];
    }
    assert x == x[0..] && y == y[0..];
    c := 0;
  }

  /** The highest limb in which two numbers differ decides. */
  lemma FirstDifference(x: seq<nat>, y: seq<nat>, i: nat)
    requires |x| == |y| && i < |x| && IsLimbs(x) && IsLimbs(y) && x[i + 1..] == y[i + 1..] && x[i] != y[i]
    ensures Val(x) < Val(y) <==> x[i] < y[i]
    ensures Val(x) != Val(y)
  {
    hide Val, Pow, B;
    ValSplit(x, i + 1);
    ValSplit(y, i + 1);
    PrefixPush(x, i);
    PrefixPush(y, i);
    ValBound(x[..i]);
    ValBound(y[..i]);
    if x[i] < y[i] {
      MulMono(x[i] + 1, y[i], Pow(i));
      MulAdd(x[i], 1, Pow(i));
    } else {
      MulMono(y[i] + 1, x[i], Pow(i));
      MulAdd(y[i], 1, Pow(i));
    }
  }

  /** mp_scan_nz: whether any limb is set. */
  method ScanNonZero(a: array<nat>, p: nat, n: nat) returns (found: bool)
    requires Window(a, p, n)
    ensures found <==> Val(a[p..p + n]) != 0
  {
    hide Val, Pow;
    var i := 0;
    ValNonZero(a[p..p + n]);
    while i < n
      invariant i <= n && forall j :: p <= j < p + i ==> a[j] == 0
    {
      assert a[p + i] == a[p..p + n][i];
      if a[p + i] != 0 { return true; }
      i := i + 1;
    }
    found := false;
  }

  /** memcpy between different arrays */
  method Copy(res: array<nat>, r: nat, a: array<nat>, p: nat, n: nat)
    requires Window(res, r, n) && Window(a, p, n) && res != a
    modifies res
    ensures OnlyWindow(res, r, n) && res[r..r + n] == a[p..p + n]
  {
    var i := 0;
    while i < n
      invariant i <= n && OnlyWindow(res, r, i)
      invariant forall j :: r <= j < r + i ==> res[j] == a[p + (j - r)]
    {
      res[r + i] := a[p + i];
      i := i + 1;
    }
  }

  /** memset to zero */
  method Clear(res: array<nat>, r: nat, n: nat)
    requires Window(res, r, n)
    modifies res
    ensures OnlyWindow(res, r, n) && LimbsAt(res, r, n) && Val(res[r..r + n]) == 0
  {
    hide Val, Pow, B;
    Base();
    var i := 0;
    while i < n
      invariant i <= n && OnlyWindow(res, r, i)
      invariant forall j :: r <= j < r + i ==> res[j] == 0
    {
      res[r + i] := 0;
      i := i + 1;
    }
    ValNonZero(res[r..r + n]);
  }

  /** mp_mul_basecase: the result does not share storage with the operands. */
  method Mul(res: array<nat>, r: nat, a: array<nat>, p: nat, n: nat, b: array<nat>, q: nat, m: nat)
    requires Window(res, r, n + m) && Window(a, p, n) && Window(b, q, m) && m >= 1
    requires res != a && res != b && LimbsAt(a, p, n) && LimbsAt(b, q, m)
    modifies res
    ensures OnlyWindow(res, r, n + m) && LimbsAt(res, r, n + m)
    ensures Val(res[r..r + n + m]) == Val(a[p..p + n]) * Val(b[q..q + m])
  {
    hide Val, Pow, B;
    ghost var x, y: seq<nat> := Val(a[p..p + n]), b[q..q + m];
    Base();
    var h := Mul1(res, r, a, p, n, b[q], 0);
    PutHigh(res[..], r, n, h);
    ghost var before: seq<nat> := res[..];
    res[r + n] := h;
    assert res[..] == before[r + n := h] && res[r..r + n] == before[r..r + n];
    assert res[r..r + n + 1] == res[..][r..r + n + 1];
    ValOne(y[0]);
    assert y[..1] == [y[0]];
    var i := 1;
    while i < m
      invariant 1 <= i <= m
      invariant OnlyWindow(res, r, n + i) && LimbsAt(res, r, n + i)
      invariant Val(res[r..r + n + i]) == x * Val(y[..i])
    {
      MulStep(res, r, a, p, n, b[q + i], i, x, Val(y[..i]));
      PrefixPush(y, i);
      i := i + 1;
    }
    assert y[..m] == y;
  }

  /** Writing the limb above a window. */
  lemma PutHigh(a: seq<nat>, r: nat, n: nat, h: nat)
    requires r + n < |a|
    ensures Val(a[r + n := h][r..r + n + 1]) == Val(a[r..r + n]) + h * Pow(n)
  {
    hide Val, Pow;
    SlicePush(a[r + n := h], r, n);
    assert a[r + n := h][r..r + n] == a[r..r + n];
  }

  /** One row of the product: adds x*d at limb i and stores the limb that comes out. */
  method MulStep(res: array<nat>, r: nat, a: array<nat>, p: nat, n: nat, d: nat, i: nat, ghost x: nat, ghost y: nat)
    requires Window(res, r, n + i + 1) && Window(a, p, n) && res != a && d < B
    requires LimbsAt(a, p, n) && LimbsAt(res, r, n + i) && x == Val(a[p..p + n])
    requires Val(res[r..r + n + i]) == x * y
    modifies res
    ensures OnlyWindow(res, r, n + i + 1) && LimbsAt(res, r, n + i + 1)
    ensures Val(res[r..r + n + (i + 1)]) == x * (y + d * Pow(i))
  {
    hide Val, Pow, B;
    ghost var was: seq<nat> := res[r..r + n + i];
    assert res[r + i..r + i + n] == was[i..];
    var h := AddMul1(res, r + i, a, p, n, d);
    ghost var mid: seq<nat> := res[r..r + n + i];
    assert mid[..i] == was[..i] && mid[i..] == res[r + i..r + i + n];
    Row(was, mid, n, i, h, x, y, d);
    assert forall j :: 0 <= j < n + i ==> mid[j] < B by {
      assert forall j :: 0 <= j < i ==> mid[j] == was[..i][j];
      assert forall j :: i <= j < n + i ==> mid[j] == mid[i..][j - i];
    }
    res[r + i + n] := h;
    assert res[r..r + n + (i + 1)] == mid + [h];
  }

  lemma Row(was: seq<nat>, mid: seq<nat>, n: nat, i: nat, h: nat, x: nat, y: nat, d: nat)
    requires |was| == |mid| == n + i && mid[..i] == was[..i] && Val(was) == x * y
    requires Val(mid[i..]) + h * Pow(n) == Val(was[i..]) + x * d
    ensures Val(mid + [h]) == x * (y + d * Pow(i))
  {
    hide Val, Pow, B;
    ValSplit(was, i);
    ValSplit(mid, i);
    ValPush(mid, h);
    PowAdd(n, i);
    RowAlgebra(Val(was[..i]), Val(was[i..]), Val(mid[i..]), h, Pow(i), Pow(n), x, y, d);
  }

  lemma RowAlgebra(low: int, high: int, high': int, h: int, pi: int, pn: int, x: int, y: int, d: int)
    requires low + high * pi == x * y && high' + h * pn == high + x * d
    ensures (low + high' * pi) + h * (pn * pi) == x * (y + d * pi)
  {
    MulAdd(high', h * pn, pi);
    MulAdd(high, x * d, pi);
    MulAssoc(h, pn, pi);
    MulAssoc(x, d, pi);
    MulAdd(y, d * pi, x);
  }
}
