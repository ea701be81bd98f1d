/**
The Newton step of mp_recip (libbf.c): the loop that lowers the approximation,
the correction term and the assembly of the result. The recursion itself is in
MpDivNorm.
*/
module MpReciprocal {
  import opened Limb
  import opened MpBasic
  import opened MpDigit
  import opened MpDivide
  import opened Newton

  /** What mp_recip promises of x for the n-limb number a. */
  ghost predicate IsReciprocal(a: nat, x: nat, n: nat) {
    a * x < Pow(2 * n) < a * (x + 2)
  }

  /**
  The comment on mp_recip asks for B^(2n) < a*x + 2. No reciprocal of the
  one-limb number B/2 + 1 has that, whatever mp_recip returns for it.
  */
  lemma ProductFallsShort(x: nat)
    requires IsReciprocal(B / 2 + 1, x, 1)
    ensures Normalised(B / 2 + 1) && (B / 2 + 1) * x + 2 <= Pow(2)
  {
    hide B, Pow;
    Base();
    PowOne();
    PowStep(1);
    HalfAndOne(B / 2, x, B * B);
  }

  lemma Quarter(h: int, c: int)
    ensures (h + 1) * (4 * h - c) == 4 * (h * h) + 4 * h - c * h - c
  {
    MulAdd(h, 1, 4 * h - c);
    MulSub(4 * h, c, h);
    Shuffle(h, 4, h);
  }

  lemma HalfAndOne(h: nat, x: nat, square: int)
    requires h >= 4 && square == (2 * h) * (2 * h) && (h + 1) * x < square
    ensures (h + 1) * x + 2 <= square
  {
    Quarter(h, 3);
    Quarter(h, 4);
    Quarter(h, 0);
    MulAssoc(2, h, 2 * h);
    Shuffle(h, 2, h);
    if x >= 4 * h - 3 { MulMono(4 * h - 3, x, h + 1); } else { MulMono(x, 4 * h - 4, h + 1); }
  }

  /** The reciprocal of a normalised number has n + 1 limbs, the top one 1. */
  lemma ReciprocalRange(a: nat, x: nat, n: nat)
    requires IsReciprocal(a, x, n) && a < Pow(n) <= 2 * a
    ensures Pow(n) <= x < 2 * Pow(n)
  {
    hide Pow, B;
    var p := Pow(n);
    PowAdd(n, n);
    assert Pow(2 * n) == p * p;
    RangeArithmetic(a, x, p);
  }

  lemma RangeArithmetic(a: int, x: int, p: int)
    requires a * x < p * p < a * (x + 2) && 0 < a < p <= 2 * a
    ensures p <= x < 2 * p
  {
    if x >= 2 * p {
      MulMono(2 * p, x, a);
      MulMono(p, 2 * a, p);
      MulAssoc(2, a, p);
    }
    if x < p {
      MulMono(x + 2, p + 1, a);
      MulMono(a, p - 1, p + 1);
      MulSub(p, 1, p + 1);
      MulAdd(p, 1, p);
    }
  }

  // ----- pieces of mp_recip -----

  /** t -= a, where t has m limbs more than a and is not smaller. */
  method SubtractFrom(t: array<nat>, m: nat, a: array<nat>, p: nat, n: nat)
    requires Window(t, 0, n + m) && Window(a, p, n) && t != a && LimbsAt(t, 0, n + m) && LimbsAt(a, p, n)
    requires Val(a[p..p + n]) <= Val(t[..n + m])
    modifies t
    ensures OnlyWindow(t, 0, n + m) && LimbsAt(t, 0, n + m)
    ensures Val(t[..n + m]) == old(Val(t[..n + m])) - Val(a[p..p + n])
  {
    hide Val, Pow, B;
    Base();
    ghost var x: seq<nat> := t[..n + m];
    ValSplit(x, n);
    assert x[..n] == t[0..0 + n] && x[n..] == t[n..n + m];
    var c := Sub(t, 0, t, 0, a, p, n, 0);
    ghost var low: seq<nat> := t[0..0 + n];
    assert t[n..n + m] == x[n..];
    var k := SubSmall(t, n, c, m);
    ghost var y: seq<nat> := t[..n + m];
    assert y[..n] == low && y[n..] == t[n..n + m];
    assert IsLimbs(y) by { assert y == low + t[n..n + m]; }
    ValSplit(y, n);
    ValBound(y);
    PowAdd(m, n);
    BorrowOut(Val(low), Val(y[n..]), Val(x[..n]), Val(x[n..]), Val(a[p..p + n]), c, k, Pow(n), Pow(m));
  }

  lemma BorrowOut(l: int, h: int, l0: int, h0: int, a: int, c: int, k: int, pn: int, pm: int)
    requires l - c * pn == l0 - a && h - k * pm == h0 - c && 0 < pn && 0 < pm && 0 <= k
    requires a <= l0 + h0 * pn && l + h * pn < pm * pn
    ensures l + h * pn == l0 + h0 * pn - a
  {
    MulSub(h0, c, pn);
    MulSub(h, k * pm, pn);
    MulAssoc(k, pm, pn);
    MulPos(pm, pn);
    if k > 0 { MulMono(1, k, pm * pn); }
  }

  /** The top limb tells whether a number reaches its power of B. */
  lemma TopNonZero(s: seq<nat>)
    requires |s| >= 1 && IsLimbs(s)
    ensures s[|s| - 1] != 0 <==> Val(s) >= Pow(|s| - 1)
  {
    hide Val, Pow, B;
    var n := |s| - 1;
    ValHigh(s);
    ValBound(s[..n]);
    if s[n] != 0 { MulMono(1, s[n], Pow(n)); }
  }

  /** y approximates the reciprocal of v from either side, t is their product. */
  ghost predicate Approximates(t: nat, v: nat, y: nat, n: nat, h: nat) {
    t == v * y && Pow(h) <= y < 2 * Pow(h) && v < Pow(n) && Pow(n + h) < v * (y + 2)
  }

  lemma LowerProduct(t: nat, v: nat, y: nat, n: nat, h: nat)
    requires Approximates(t, v, y, n, h) && Pow(n + h) <= t
    ensures 0 < v <= t && 0 < y && Approximates(t - v, v, y - 1, n, h)
  {
    hide Pow, B;
    PowAdd(n, h);
    LowerStillHigh(v, y, Pow(n), Pow(h));
  }

  /** One turn of the loop of mp_recip. */
  method LowerOnce(t: array<nat>, r: array<nat>, x: nat, a: array<nat>, p: nat, n: nat, h: nat)
    requires Window(t, 0, n + h + 1) && Window(r, x, h + 1) && Window(a, p, n) && t != r && t != a && r != a
    requires LimbsAt(t, 0, n + h + 1) && LimbsAt(r, x, h + 1) && LimbsAt(a, p, n)
    requires Approximates(Val(t[..n + h + 1]), Val(a[p..p + n]), Val(r[x..x + h + 1]), n, h)
    requires Pow(n + h) <= Val(t[..n + h + 1])
    modifies t, r
    ensures OnlyWindow(t, 0, n + h + 1) && OnlyWindow(r, x, h + 1) && LimbsAt(t, 0, n + h + 1) && LimbsAt(r, x, h + 1)
    ensures Approximates(Val(t[..n + h + 1]), Val(a[p..p + n]), Val(r[x..x + h + 1]), n, h)
    ensures Val(t[..n + h + 1]) < old(Val(t[..n + h + 1]))
  {
    hide Val, Pow, B, Approximates;
    Base();
    ghost var y := Val(r[x..x + h + 1]);
    LowerProduct(Val(t[..n + h + 1]), Val(a[p..p + n]), y, n, h);
    assert r[x..x + (h + 1)] == r[x..x + h + 1];
    var k := SubSmall(r, x, 1, h + 1);
    ValBound(r[x..x + (h + 1)]);
    NoBorrow(Val(r[x..x + (h + 1)]), k, Pow(h + 1), y - 1);
    assert r[x..x + (h + 1)] == r[x..x + h + 1];
    assert t[..n + (h + 1)] == t[..n + h + 1];
    SubtractFrom(t, h + 1, a, p, n);
    assert t[..n + (h + 1)] == t[..n + h + 1];
  }

  /** The loop of mp_recip: lowers the approximation until its product with a is below B^(n + h). */
  method LowerApproximation(t: array<nat>, r: array<nat>, x: nat, a: array<nat>, p: nat, n: nat, h: nat)
    requires Window(t, 0, n + h + 1) && Window(r, x, h + 1) && Window(a, p, n) && t != r && t != a && r != a
    requires LimbsAt(t, 0, n + h + 1) && LimbsAt(r, x, h + 1) && LimbsAt(a, p, n)
    requires Approximates(Val(t[..n + h + 1]), Val(a[p..p + n]), Val(r[x..x + h + 1]), n, h)
    modifies t, r
    ensures OnlyWindow(t, 0, n + h + 1) && OnlyWindow(r, x, h + 1) && LimbsAt(t, 0, n + h + 1) && LimbsAt(r, x, h + 1)
    ensures Approximates(Val(t[..n + h + 1]), Val(a[p..p + n]), Val(r[x..x + h + 1]), n, h)
    ensures Val(t[..n + h + 1]) < Pow(n + h)
  {
    hide Val, Pow, B, Approximates;
    TopNonZero(t[..n + h + 1]);
    while t[n + h] != 0
      invariant OnlyWindow(t, 0, n + h + 1) && OnlyWindow(r, x, h + 1) && LimbsAt(t, 0, n + h + 1)
      invariant LimbsAt(r, x, h + 1)
      invariant t[n + h] != 0 <==> Val(t[..n + h + 1]) >= Pow(n + h)
      invariant Approximates(Val(t[..n + h + 1]), Val(a[p..p + n]), Val(r[x..x + h + 1]), n, h)
      decreases Val(t[..n + h + 1])
    {
      LowerOnce(t, r, x, a, p, n, h);
      TopNonZero(t[..n + h + 1]);
    }
  }

  lemma LowerStillHigh(v: int, y: int, pn: int, ph: int)
    requires 0 <= v < pn && 0 < ph && 0 <= y && pn * ph <= v * y
    ensures ph <= y - 1 && 0 < v <= v * y && v * (y - 1) == v * y - v && pn * ph < v * (y - 1 + 2)
  {
    MulPos(pn, ph);
    if y <= ph {
      MulMono(y, ph, v);
      MulMono(v, pn - 1, ph);
      MulSub(pn, 1, ph);
    }
    MulMono(1, y, v);
    MulSub(y, 1, v);
    MulAdd(y, 1, v);
  }

  lemma NoBorrow(y: int, k: int, p: int, z: int)
    requires y - k * p == z && 0 <= z && 0 <= k && 0 < p && y < p
    ensures y == z
  {
    if k > 0 { MulMono(1, k, p); }
  }

  /** T = B^m - T: negation of m + 1 limbs, then the top limb is incremented and wraps to 0. */
  method Complement(t: array<nat>, m: nat)
    requires Window(t, 0, m + 1) && LimbsAt(t, 0, m + 1) && 0 < Val(t[..m + 1]) < Pow(m)
    modifies t
    ensures OnlyWindow(t, 0, m + 1) && LimbsAt(t, 0, m + 1)
    ensures Val(t[..m + 1]) == Pow(m) - old(Val(t[..m + 1]))
  {
    hide Val, Pow, B;
    Base();
    ghost var v := Val(t[..m + 1]);
    assert t[..m + 1] == t[0..0 + (m + 1)];
    var k := Neg(t, 0, t, 0, m + 1, 0);
    ghost var y: seq<nat> := t[..m + 1];
    assert y == t[0..0 + (m + 1)];
    ValBound(y);
    ValBound(y[..m]);
    ValHigh(y);
    PowStep(m);
    ComplementTop(Val(y[..m]), y[m], v, k, Pow(m), B);
    t[m] := Wrap(t[m] + 1);
    assert t[..m + 1] == y[..m] + [0];
    ValPush(y[..m], 0);
    assert IsLimbs(y[..m] + [0]);
    assert t[0..0 + (m + 1)] == t[..m + 1];
  }

  lemma ComplementTop(low: nat, top: nat, v: nat, k: nat, p: nat, base: nat)
    requires low < p && top < base && 0 < v < p && low + top * p + v == k * (base * p) && 1 < base
    requires low + top * p < base * p
    ensures top == base - 1 && low == p - v
  {
    MulPos(base, p);
    if k >= 2 {
      MulMono(2, k, base * p);
      MulMono(1, base, p);
    }
    assert k == 1;
    MulSub(base, 1, p);
    TopEqual(low, top, p - v, base - 1, p);
  }

  /** The reciprocal of the high half is a first approximation for the whole. */
  lemma HighHalf(a: seq<nat>, l: nat, y: nat)
    requires l < |a| && IsLimbs(a) && Normalised(a[|a| - 1]) && IsReciprocal(Val(a[l..]), y, |a| - l)
    ensures var h := |a| - l; Approximates(Val(a) * y, Val(a), y, |a|, h) && Pow(|a|) <= 2 * Val(a)
  {
    hide Val, Pow, B, IsReciprocal;
    var h := |a| - l;
    ValBound(a);
    NormalisedValue(a);
    NormalisedValue(a[l..]);
    ReciprocalRange(Val(a[l..]), y, h);
    ValSplit(a, l);
    assert Pow(2 * h) < Val(a[l..]) * (y + 2) by { ReciprocalAbove(Val(a[l..]), y, h); }
    PowAdd(2 * h, l);
    assert 2 * h + l == |a| + h;
    WholeAbove(Val(a), Val(a[l..]), y, Pow(2 * h), Pow(l), Val(a[..l]));
  }

  lemma ReciprocalAbove(a: nat, x: nat, n: nat)
    requires IsReciprocal(a, x, n)
    ensures Pow(2 * n) < a * (x + 2)
  {}

  lemma WholeAbove(a: int, ah: int, y: int, p2: int, pl: int, al: int)
    requires a == al + ah * pl && 0 <= al && 0 < pl && 0 <= y && p2 < ah * (y + 2)
    ensures p2 * pl < a * (y + 2)
  {
    MulStrict(p2, ah * (y + 2), pl);
    Shuffle(ah, y + 2, pl);
    MulMono(ah * pl, a, y + 2);
  }

  /** The value of the parts that the end of mp_recip puts together: the carry c that it drops is 0. */
  lemma AssembledValue(xl: seq<nat>, top: nat, e: seq<nat>, f: seq<nat>, w: seq<nat>, c: nat)
    requires |xl| == |w| == |f| && IsLimbs(xl) && top < B && Pow(|xl|) <= Val(xl + [top])
    requires CarriedSum(Val(w), c, Pow(|xl|), Val(xl), Val(f))
    requires Val(xl + [top]) * Pow(|e|) + (Val(e) + Val(f) * Pow(|e|)) < 2 * Pow(|e| + |xl|)
    requires Pow(|e| + |xl|) == Pow(|xl|) * Pow(|e|)
    ensures Val(e + (w + [top])) == Val(xl + [top]) * Pow(|e|) + (Val(e) + Val(f) * Pow(|e|))
  {
    hide *;
    TopAdded(xl, top, f, w, c);
    ValAppend(e, w + [top]);
    AssembledArithmetic(Val(xl + [top]), Val(w + [top]), c, Val(e), Val(f), Pow(|xl|), Pow(|e|), Pow(|e| + |xl|));
  }

  ghost predicate CarriedSum(w: int, c: int, p: int, x: int, f: int) {
    w + c * p == x + f
  }

  lemma TopAdded(xl: seq<nat>, top: nat, f: seq<nat>, w: seq<nat>, c: nat)
    requires |xl| == |w| == |f| && IsLimbs(xl) && top < B && Pow(|xl|) <= Val(xl + [top])
    requires CarriedSum(Val(w), c, Pow(|xl|), Val(xl), Val(f))
    ensures CarriedSum(Val(w + [top]), c, Pow(|xl|), Val(xl + [top]), Val(f)) && Pow(|xl|) <= Val(w + [top])
  {
    hide Val, Pow, B;
    ValPush(w, top);
    ValPush(xl, top);
    TopNonZero(xl + [top]);
    MulMono(1, top, Pow(|xl|));
  }

  /** The correction: all but the k lowest limbs of u, of which those from 3h up are 0. */
  lemma CorrectionValue(u: seq<nat>, k: nat, h: nat)
    requires k <= 2 * h && 3 * h <= |u| && Val(u) < Pow(3 * h)
    ensures Val(u[k..]) == Val(u[k..2 * h]) + Val(u[2 * h..3 * h]) * Pow(2 * h - k)
  {
    hide Val, Pow, B;
    HighZero(u, 3 * h);
    var f, z := u[2 * h..3 * h], u[3 * h..];
    assert u[k..] == u[k..2 * h] + (f + z);
    ValAppend(u[k..2 * h], f + z);
    ValAppend(f, z);
  }

  lemma AssembledArithmetic(x: int, wt: int, c: int, e: int, f: int, ph: int, pl: int, pn: int)
    requires CarriedSum(wt, c, ph, x, f) && ph <= wt && 0 <= c && 0 <= e && 0 < ph && 0 < pl
    requires pn == ph * pl && x * pl + (e + f * pl) < 2 * pn
    ensures e + wt * pl == x * pl + (e + f * pl)
  {
    MulAdd(wt, c * ph, pl);
    MulAssoc(c, ph, pl);
    MulAdd(x, f, pl);
    MulMono(ph, wt, pl);
    if c > 0 { MulMono(1, c, ph * pl); }
  }

  lemma HighZero(u: seq<nat>, m: nat)
    requires m <= |u| && Val(u) < Pow(m)
    ensures Val(u[m..]) == 0
  {
    hide Val, Pow, B;
    ValSplit(u, m);
    if Val(u[m..]) > 0 { MulMono(1, Val(u[m..]), Pow(m)); }
  }

  /** The end of mp_recip: the low limbs of the correction are copied, the rest is added without its carry. */
  method Assemble(r: array<nat>, x: nat, u: array<nat>, l: nat, h: nat) returns (ghost c: nat)
    requires l < h && Window(r, x, l + h + 1) && u.Length == 3 * h + 2 && r != u
    requires LimbsAt(u, 0, 3 * h + 2) && LimbsAt(r, x + l, h + 1)
    modifies r
    ensures OnlyWindow(r, x, l + h) && LimbsAt(r, x, l + h)
    ensures r[x..x + l] == u[2 * h - l..2 * h]
    ensures CarriedSum(Val(r[x + l..x + l + h]), c, Pow(h), old(Val(r[x + l..x + l + h])), Val(u[2 * h..3 * h]))
  {
    hide Val, Pow, B, IsLimbs;
    var k := 2 * h - l;
    ghost var xl: seq<nat>, us: seq<nat> := r[x + l..x + l + h], u[..];
    assert us == u[0..0 + (3 * h + 2)];
    LimbsSlice(us, k, 2 * h);
    LimbsSlice(us, 2 * h, 3 * h);
    LimbsSlice(r[x + l..x + l + (h + 1)], 0, h);
    assert xl == r[x + l..x + l + (h + 1)][0..h];
    Copy(r, x, u, k, l);
    assert r[x + l..x + l + h] == xl && u[2 * h..2 * h + h] == us[2 * h..3 * h] && u[k..k + l] == us[k..2 * h];
    ghost var e: seq<nat> := r[x..x + l];
    var carry := Add(r, x + l, r, x + l, u, 2 * h, h, 0);
    c := carry;
    assert r[x..x + l] == e;
    assert r[x..x + (l + h)] == e + r[x + l..x + l + h];
    LimbsAppend(e, r[x + l..x + l + h]);
  }

  lemma LimbsSlice(s: seq<nat>, lo: nat, hi: nat)
    requires lo <= hi <= |s| && IsLimbs(s)
    ensures IsLimbs(s[lo..hi])
  {}

  lemma AssembledWindow(r: seq<nat>, x: nat, l: nat, h: nat, xs: seq<nat>, u: seq<nat>, c: nat)
    requires l < h && x + l + h + 1 <= |r| && |u| == 3 * h + 2 && |xs| == h + 1 && IsLimbs(xs) && xs[h] == r[x + l + h]
    requires r[x..x + l] == u[2 * h - l..2 * h] && Val(u) < Pow(3 * h) && Pow(h) <= Val(xs)
    requires CarriedSum(Val(r[x + l..x + l + h]), c, Pow(h), Val(xs[..h]), Val(u[2 * h..3 * h]))
    requires Val(xs) * Pow(l) + Val(u[2 * h - l..]) < 2 * Pow(l + h)
    ensures Val(r[x..x + (l + h + 1)]) == Val(xs) * Pow(l) + Val(u[2 * h - l..])
  {
    hide Val, Pow, B;
    var e: seq<nat>, f: seq<nat>, w: seq<nat> := r[x..x + l], u[2 * h..3 * h], r[x + l..x + l + h];
    CorrectionValue(u, 2 * h - l, h);
    assert xs[..h] + [xs[h]] == xs;
    assert r[x..x + (l + h + 1)] == e + (w + [xs[h]]);
    PowAdd(h, l);
    AssembledValue(xs[..h], xs[h], e, f, w, c);
  }

  lemma LimbsAppend(s: seq<nat>, u: seq<nat>)
    ensures IsLimbs(s) && IsLimbs(u) ==> IsLimbs(s + u)
  {}

  /** What mp_recip has in its hands before the last step. */
  lemma StepFacts(a: nat, y: nat, t: seq<nat>, u: seq<nat>, l: nat, h: nat)
    requires l < h && |t| == l + 2 * h + 1 && |u| == 3 * h + 2 && IsLimbs(t) && IsLimbs(u)
    requires Approximates(a * y, a, y, l + h, h) && Pow(l + h) <= 2 * a
    requires Val(t) + a * y == Pow(l + 2 * h) && 0 < Val(t) && Val(u) == Val(t[l..]) * y
    ensures NewtonStep(a, y, Val(t), Val(t[l..]), Val(u[2 * h - l..]), Pow(l), Pow(h), Pow(2 * h - l))
    ensures Val(t) < 2 * a && Val(u) < Pow(3 * h)
  {
    hide Val, Pow, B, Newton.NewtonStep;
    Base();
    var k := 2 * h - l;
    PowAdd(l, h);
    PowAdd(l + h, h);
    assert l + h + h == l + 2 * h;
    MulAdd(y, 2, a);
    ValSplit(t, l);
    ValBound(t[..l]);
    ValSplit(u, k);
    ValBound(u[..k]);
    PowAdd(k, l);
    PowAdd(h, h);
    PowAdd(2 * h, h);
    assert k + l == h + h == 2 * h && 2 * h + h == 3 * h;
    PowMono(1, h);
    PowOne();
    CorrectionFits(Val(t), Val(t[l..]), a, y, Pow(l), Pow(h));
    StepHolds(a, y, Val(t), Val(t[l..]), Val(u[k..]), Val(t[..l]), Val(u[..k]), Pow(l), Pow(h), Pow(k));
  }

  lemma StepHolds(a: nat, y: nat, t: nat, tm: nat, e: nat, tl: nat, ul: nat, pl: nat, ph: nat, pk: nat)
    requires 0 < a && 0 < y && 0 < t && 0 < pl && 0 < ph && 0 < pk && pk * pl == ph * ph && t + a * y == (pl * ph) * ph
    requires t == tl + tm * pl && tl < pl && tm * y == ul + e * pk && ul < pk
    ensures NewtonStep(a, y, t, tm, e, pl, ph, pk)
  {
    MulAdd(tm, 1, pl);
    MulAdd(e, 1, pk);
  }

  lemma CorrectionFits(t: int, tm: int, a: int, y: int, pl: int, ph: int)
    requires 0 <= tm && tm * pl <= t < 2 * a && a < pl * ph && 0 <= y < 2 * ph && 4 <= ph && 0 < pl
    ensures tm * y < (ph * ph) * ph
  {
    assert tm * pl < (2 * ph) * pl by { MulAssoc(2, ph, pl); MulComm(ph, pl); }
    CancelStrict(tm, 2 * ph, pl);
    MulMono(tm, 2 * ph, y);
    MulStrict(y, 2 * ph, 2 * ph);
    assert (2 * ph) * (2 * ph) == 4 * (ph * ph);
    MulMono(4, ph, ph * ph);
  }

  /** The Newton step doubles the precision. */
  lemma StepReciprocal(a: nat, y: nat, t: nat, tm: nat, e: nat, l: nat, h: nat)
    requires l < h && NewtonStep(a, y, t, tm, e, Pow(l), Pow(h), Pow(2 * h - l))
    requires t < 2 * a && a < Pow(l + h) <= 2 * a
    ensures IsReciprocal(a, y * Pow(l) + e, l + h) && y * Pow(l) + e < 2 * Pow(l + h)
  {
    hide Pow, B, Newton.NewtonStep;
    Base();
    var n := l + h;
    NewtonBelow(a, y, t, tm, e, Pow(l), Pow(h), Pow(2 * h - l));
    PowAdd(l, h);
    PowAdd(n, n);
    assert n + n == 2 * n;
    PowStep(n);
    PowAdd(h, h);
    PowMono(n + 1, h + h);
    assert 0 < t by { StepPositive(a, y, t, tm, e, Pow(l), Pow(h), Pow(2 * h - l)); }
    NewtonMargin(a, t, Pow(n), Pow(h), B);
    NewtonAbove(a, y, t, tm, e, Pow(l), Pow(h), Pow(2 * h - l));
    ReciprocalRange(a, y * Pow(l) + e, n);
  }

  lemma StepPositive(a: int, y: int, t: int, tm: int, e: int, pl: int, ph: int, pk: int)
    requires NewtonStep(a, y, t, tm, e, pl, ph, pk)
    ensures 0 < t
  {}

  /** The correction of mp_recip: t becomes what the product misses, u its high part times the approximation. */
  method Correction(t: array<nat>, u: array<nat>, r: array<nat>, x: nat, a: array<nat>, p: nat, l: nat, h: nat)
    requires l < h && t.Length == l + 2 * h + 1 && u.Length == 3 * h + 2
    requires Window(r, x, h + 1) && Window(a, p, l + h) && LimbsAt(r, x, h + 1) && LimbsAt(a, p, l + h)
    requires t != u && t != r && t != a && u != r && u != a && r != a
    requires Approximates(Val(a[p..p + (l + h)]) * Val(r[x..x + h + 1]), Val(a[p..p + (l + h)]),
                          Val(r[x..x + h + 1]), l + h, h)
    modifies t, u, r
    ensures OnlyWindow(r, x, h + 1) && LimbsAt(r, x, h + 1)
    ensures IsLimbs(t[..]) && IsLimbs(u[..])
    ensures Approximates(Val(a[p..p + (l + h)]) * Val(r[x..x + h + 1]), Val(a[p..p + (l + h)]),
                         Val(r[x..x + h + 1]), l + h, h)
    ensures 0 < Val(t[..]) && Val(t[..]) + Val(a[p..p + (l + h)]) * Val(r[x..x + h + 1]) == Pow(l + 2 * h)
    ensures Val(u[..]) == Val(t[..][l..]) * Val(r[x..x + h + 1])
  {
    hide Val, Pow, B, Approximates;
    var n := l + h;
    Mul(t, 0, a, p, n, r, x, h + 1);
    assert t[..n + h + 1] == t[0..0 + n + (h + 1)] && r[x..x + (h + 1)] == r[x..x + h + 1];
    LowerApproximation(t, r, x, a, p, n, h);
    ghost var y := Val(r[x..x + h + 1]);
    ApproximationPositive(Val(t[..n + h + 1]), Val(a[p..p + n]), y, n, h);
    assert n + h == l + 2 * h;
    Complement(t, n + h);
    assert t[..] == t[..n + h + 1] == t[0..0 + (n + h + 1)];
    assert t[l..l + (n + h + 1 - l)] == t[..][l..];
    assert r[x..x + (h + 1)] == r[x..x + h + 1];
    Mul(u, 0, t, l, n + h + 1 - l, r, x, h + 1);
    assert u[..] == u[0..0 + (n + h + 1 - l) + (h + 1)];
  }

  lemma ApproximationPositive(t: nat, v: nat, y: nat, n: nat, h: nat)
    requires Approximates(t, v, y, n, h)
    ensures 0 < t && t == v * y && 0 < v
  {
    hide Pow, B;
    MulPos(v, y);
  }

  /** mp_recip above two limbs, after the recursive call: from the reciprocal of the high half to that of the whole. */
  method NewtonExtend(r: array<nat>, x: nat, a: array<nat>, p: nat, l: nat, h: nat)
    requires 1 <= l < h && l + h + 1 <= 2 * h && Window(r, x, l + h + 1) && Window(a, p, l + h) && r != a
    requires NormalisedAt(a, p, l + h) && LimbsAt(r, x + l, h + 1)
    requires IsReciprocal(Val(a[p + l..p + l + h]), Val(r[x + l..x + l + h + 1]), h)
    modifies r
    ensures OnlyWindow(r, x, l + h + 1) && LimbsAt(r, x, l + h + 1)
    ensures IsReciprocal(Val(a[p..p + (l + h)]), Val(r[x..x + (l + h + 1)]), l + h)
  {
    hide Val, Pow, B, Approximates, IsReciprocal, CarriedSum;
    var n := l + h;
    ghost var v: seq<nat> := a[p..p + n];
    assert a[p + l..p + l + h] == v[l..];
    HighHalf(v, l, Val(r[x + l..x + l + h + 1]));
    var t := new nat[n + h + 1];
    var u := new nat[n + 2 * h - l + 2];
    Correction(t, u, r, x + l, a, p, l, h);
    ghost var xs: seq<nat> := r[x + l..x + l + h + 1];
    ghost var us: seq<nat> := u[..];
    StepResult(Val(v), Val(xs), t[..], us, l, h);
    assert us == u[0..0 + (3 * h + 2)] && xs == r[x + l..x + l + (h + 1)] && xs[..h] == r[x + l..x + l + h];
    ghost var top := r[x + l + h];
    ghost var c := Assemble(r, x, u, l, h);
    assert u[2 * h - l..2 * h] == us[2 * h - l..2 * h] && u[2 * h..3 * h] == us[2 * h..3 * h];
    ghost var rs: seq<nat> := r[..];
    assert rs[x + l..x + l + h] == r[x + l..x + l + h] && rs[x..x + l] == r[x..x + l] && rs[x + l + h] == top;
    AssembledWindow(rs, x, l, h, xs, us, c);
    assert r[x..x + (n + 1)] == r[x..x + n] + [top] == rs[x..x + (n + 1)];
    LimbsAppend(r[x..x + n], [top]);
  }

  /** The correction turns the approximation into a reciprocal of the whole number. */
  lemma StepResult(a: nat, y: nat, t: seq<nat>, u: seq<nat>, l: nat, h: nat)
    requires l < h && |t| == l + 2 * h + 1 && |u| == 3 * h + 2 && IsLimbs(t) && IsLimbs(u)
    requires Approximates(a * y, a, y, l + h, h) && Pow(l + h) <= 2 * a
    requires Val(t) + a * y == Pow(l + 2 * h) && 0 < Val(t) && Val(u) == Val(t[l..]) * y
    ensures var e := Val(u[2 * h - l..]); IsReciprocal(a, y * Pow(l) + e, l + h) && y * Pow(l) + e < 2 * Pow(l + h)
    ensures Val(u) < Pow(3 * h) && Pow(h) <= y
  {
    hide *;
    StepFacts(a, y, t, u, l, h);
    ApproximationRange(a * y, a, y, l + h, h);
    StepReciprocal(a, y, Val(t), Val(t[l..]), Val(u[2 * h - l..]), l, h);
  }

  lemma ApproximationRange(t: nat, v: nat, y: nat, n: nat, h: nat)
    requires Approximates(t, v, y, n, h)
    ensures Pow(h) <= y < 2 * Pow(h) && v < Pow(n)
  {}
}
