/**
mp_divnorm, mp_recip and mp_divnorm_large of libbf.c, which call each other:
long division goes through a reciprocal, and the reciprocal of one or two limbs
through short division.
*/
module MpDivNorm {
  import opened Limb
  import opened MpBasic
  import opened MpDigit
  import opened MpDivide
  import opened MpReciprocal
  import opened MpLarge

  const DIVNORM_LARGE_THRESHOLD: nat := 50

  predicate IsLarge(na: nat, nb: nat) {
    na >= nb + DIVNORM_LARGE_THRESHOLD && nb >= DIVNORM_LARGE_THRESHOLD
  }

  /**
  mp_divnorm: divides a by the normalised number b. The remainder is left in
  the nb low limbs of a, the quotient in q, its top limb at most 1.
  */
  method DivNorm(q: array<nat>, a: array<nat>, p: nat, na: nat, b: array<nat>, s: nat, nb: nat)
    requires 1 <= nb <= na && Window(a, p, na) && Window(b, s, nb) && Window(q, 0, na - nb + 1)
    requires q != a && q != b && a != b && LimbsAt(a, p, na) && NormalisedAt(b, s, nb)
    modifies q, a
    ensures OnlyWindow(a, p, na) && LimbsAt(a, p, nb) && Val(a[p..p + nb]) < Val(b[s..s + nb])
    ensures OnlyWindow(q, 0, na - nb + 1) && LimbsAt(q, 0, na - nb + 1) && q[na - nb] <= 1
    ensures old(Val(a[p..p + na])) == Val(q[..na - nb + 1]) * Val(b[s..s + nb]) + Val(a[p..p + nb])
    decreases if IsLarge(na, nb) then 3 else 0, 0
  {
    hide Val, Pow, B, IsLimbs;
    if nb == 1 {
      DivSingle(q, a, p, na, b, s);
    } else if IsLarge(na, nb) {
      DivNormLarge(q, a, p, na, b, s, nb);
    } else {
      Schoolbook(q, a, p, na, b, s, nb);
    }
  }

  /** mp_divnorm for a divisor of one limb. */
  method DivSingle(q: array<nat>, a: array<nat>, p: nat, na: nat, b: array<nat>, s: nat)
    requires 1 <= na && Window(a, p, na) && Window(b, s, 1) && Window(q, 0, na)
    requires q != a && q != b && a != b && LimbsAt(a, p, na) && NormalisedAt(b, s, 1)
    modifies q, a
    ensures OnlyWindow(a, p, na) && LimbsAt(a, p, 1) && Val(a[p..p + 1]) < Val(b[s..s + 1])
    ensures OnlyWindow(q, 0, na) && LimbsAt(q, 0, na) && q[na - 1] <= 1
    ensures old(Val(a[p..p + na])) == Val(q[..na]) * Val(b[s..s + 1]) + Val(a[p..p + 1])
  {
    hide Val, Pow, B;
    Base();
    var b1 := b[s];
    ghost var x: seq<nat> := a[p..p + na];
    var r := Div1Norm(q, 0, a, p, na, b1, 0);
    a[p] := r;
    assert a[p..p + 1] == [r] && b[s..s + 1] == [b1] && q[0..0 + na] == q[..na];
    ValOne(r);
    ValOne(b1);
    ValBound(x);
    SmallTop(q[..na], Val(x), b1, r);
  }

  /** The top limb of a quotient by a normalised limb. */
  lemma SmallTop(q: seq<nat>, x: nat, b: nat, r: nat)
    requires |q| >= 1 && IsLimbs(q) && Normalised(b) && x == Val(q) * b + r && x < Pow(|q|)
    ensures q[|q| - 1] <= 1
  {
    hide Val, Pow, B;
    var n := |q| - 1;
    PowOne();
    PowStep(n);
    assert n + 1 == |q|;
    QuotientLimit(Val(q), b, x, n, 1);
    TopAtMostOne(q);
  }

  lemma TopAtMostOne(q: seq<nat>)
    requires |q| >= 1 && Val(q) < 2 * Pow(|q| - 1)
    ensures q[|q| - 1] <= 1
  {
    hide Val, Pow, B;
    var n := |q| - 1;
    ValHigh(q);
    if q[n] >= 2 { MulMono(2, q[n], Pow(n)); }
  }

  /** mp_recip: an (n + 1)-limb x with a*x < B^(2n) < a*(x + 2). */
  method Recip(r: array<nat>, x: nat, a: array<nat>, p: nat, n: nat)
    requires 1 <= n && Window(r, x, n + 1) && Window(a, p, n) && r != a && NormalisedAt(a, p, n)
    modifies r
    ensures OnlyWindow(r, x, n + 1) && LimbsAt(r, x, n + 1)
    ensures IsReciprocal(Val(a[p..p + n]), Val(r[x..x + (n + 1)]), n)
    decreases 1, n
  {
    hide Val, Pow, B, IsLimbs, IsReciprocal;
    if n <= 2 {
      RecipBase(r, x, a, p, n);
    } else {
      var l := (n - 1) / 2;
      var h := n - l;
      HighNormalised(a, p, l, h);
      Recip(r, x + l, a, p + l, h);
      assert r[x + l..x + l + h + 1] == r[x + l..x + l + (h + 1)];
      NewtonExtend(r, x, a, p, l, h);
    }
  }

  lemma HighNormalised(a: array<nat>, p: nat, l: nat, h: nat)
    requires 1 <= h && Window(a, p, l + h) && NormalisedAt(a, p, l + h)
    ensures NormalisedAt(a, p + l, h)
  {
    hide B;
    assert a[p + l..p + l + h] == a[p..p + (l + h)][l..];
  }

  /** mp_recip for one or two limbs: ceil(B^(2n) / a) - 1 by division. */
  method RecipBase(r: array<nat>, x: nat, a: array<nat>, p: nat, n: nat)
    requires 1 <= n <= 2 && Window(r, x, n + 1) && Window(a, p, n) && r != a && NormalisedAt(a, p, n)
    modifies r
    ensures OnlyWindow(r, x, n + 1) && LimbsAt(r, x, n + 1)
    ensures IsReciprocal(Val(a[p..p + n]), Val(r[x..x + (n + 1)]), n)
    decreases 1, 0
  {
    hide Val, Pow, B, IsLimbs, IsReciprocal;
    Base();
    var u := new nat[2 * n + 1];
    var t := new nat[n + 2];
    Clear(u, 0, 2 * n);
    ghost var z: seq<nat> := u[0..0 + 2 * n];
    u[2 * n] := 1;
    assert u[0..0 + (2 * n + 1)] == z + [1];
    OneLimb(1);
    LimbsAppend(z, [1]);
    ValPush(z, 1);
    DivNorm(t, u, 0, 2 * n + 1, a, p, n);
    ghost var ts: seq<nat> := t[..n + 2];
    assert ts == t[0..0 + (n + 2)];
    BaseQuotient(a[p..p + n], ts, Val(u[0..0 + n]), n);
    Copy(r, x, t, 0, n + 1);
    assert r[x..x + (n + 1)] == ts[..n + 1] == ts[0..n + 1];
    LimbsSlice(ts, 0, n + 1);
    var found := ScanNonZero(u, 0, n);
    if !found {
      var k := SubSmall(r, x, 1, n + 1);
      ValBound(r[x..x + (n + 1)]);
      NoBorrow(Val(r[x..x + (n + 1)]), k, Pow(n + 1), Val(ts[..n + 1]) - 1);
    }
    BaseReciprocal(Val(a[p..p + n]), Val(ts[..n + 1]), Val(u[0..0 + n]), Val(r[x..x + (n + 1)]), n);
  }

  /** The quotient of B^(2n) by a normalised number fits n + 1 limbs and is not 0. */
  lemma BaseQuotient(a: seq<nat>, q: seq<nat>, rem: nat, n: nat)
    requires |a| == n >= 1 && IsLimbs(a) && Normalised(a[n - 1]) && |q| == n + 2 && IsLimbs(q)
    requires Pow(2 * n) == Val(q) * Val(a) + rem && rem < Val(a)
    ensures Val(q[..n + 1]) == Val(q) && Val(q) >= 1
  {
    hide Val, Pow, B;
    Base();
    NormalisedValue(a);
    PowAdd(n, n);
    assert n + n == 2 * n;
    BaseQuotientRange(Val(q), Val(a), rem, Pow(n));
    PowStep(n);
    MulMono(3, B, Pow(n));
    TopNonZero(q);
    ValHigh(q);
  }

  lemma BaseQuotientRange(q: nat, a: int, rem: int, p: int)
    requires p * p == q * a + rem && 0 <= rem < a && a < p <= 2 * a
    ensures 1 <= q <= 2 * p
  {
    if q == 0 {
      MulMono(1, p, p);
    }
    if q >= 2 * p + 1 {
      MulMono(2 * p + 1, q, a);
      MulAdd(2 * p, 1, a);
      MulMono(p, 2 * a, p);
      MulAssoc(2, a, p);
      MulAssoc(2, p, a);
    }
  }

  lemma BaseReciprocal(a: nat, q: nat, rem: nat, x: nat, n: nat)
    requires Pow(2 * n) == q * a + rem && rem < a && q >= 1 && x == if rem == 0 then q - 1 else q
    ensures IsReciprocal(a, x, n)
  {
    hide Pow, B;
    MulSub(q, 1, a);
    MulAdd(q, 1, a);
    MulAdd(q, 2, a);
  }

  /** mp_divnorm_large: the same quotient and remainder as schoolbook division, through a reciprocal. */
  method DivNormLarge(q: array<nat>, a: array<nat>, p: nat, na: nat, b: array<nat>, s: nat, nb: nat)
    requires 2 <= nb < na && Window(a, p, na) && Window(b, s, nb) && Window(q, 0, na - nb + 1)
    requires q != a && q != b && a != b && LimbsAt(a, p, na) && NormalisedAt(b, s, nb)
    modifies q, a
    ensures OnlyWindow(a, p, na) && LimbsAt(a, p, nb) && Val(a[p..p + nb]) < Val(b[s..s + nb])
    ensures OnlyWindow(q, 0, na - nb + 1) && LimbsAt(q, 0, na - nb + 1) && q[na - nb] <= 1
    ensures old(Val(a[p..p + na])) == Val(q[..na - nb + 1]) * Val(b[s..s + nb]) + Val(a[p..p + nb])
    decreases 2, 0
  {
    hide Val, Pow, B, IsLimbs;
    var nq := na - nb;
    ApproximateQuotient(q, a, p, na, b, s, nb);
    ghost var x: seq<nat> := a[p..p + na];
    NormalisedValue(b[s..s + nb]);
    ValBound(x);
    PowStep(nb);
    Base();
    MulMono(6, B, Pow(nb));
    Residual(a, p, na, q, b, s, nb);
    FinishQuotient(q, a, p, nq, b, s, nb, Val(x));
  }

  /** The first half of mp_divnorm_large. */
  method ApproximateQuotient(q: array<nat>, a: array<nat>, p: nat, na: nat, b: array<nat>, s: nat, nb: nat)
    requires 2 <= nb < na && Window(a, p, na) && Window(b, s, nb) && Window(q, 0, na - nb + 1)
    requires q != a && q != b && a != b && LimbsAt(a, p, na) && NormalisedAt(b, s, nb)
    modifies q
    ensures OnlyWindow(q, 0, na - nb + 1) && LimbsAt(q, 0, na - nb + 1)
    ensures 0 <= Val(a[p..p + na]) - Val(q[..na - nb + 1]) * Val(b[s..s + nb]) < 6 * Val(b[s..s + nb])
    decreases 1, na + 2
  {
    hide Val, Pow, B, IsLimbs, Scaled, Inverts, Truncation;
    var nq := na - nb;
    var n := if nq < nb then nq + 1 else nq;
    var inv := new nat[n + 1];
    var t := new nat[2 * (n + 1)];
    ghost var v: seq<nat>, x: seq<nat> := b[s..s + nb], a[p..p + na];
    ghost var d := InverseOfScaled(inv, t, b, s, nb, n);
    var e := na - (n + 1);
    LimbsSlice(x, e, na);
    LimbsSlice(x, 0, e);
    assert a[p + e..p + e + (n + 1)] == x[e..na] == x[e..] && x[0..e] == x[..e];
    FirstQuotient(q, t, inv, a, p + e, n, nq);
    ValSplit(x, e);
    ValBound(x[..e]);
    ValBound(x[e..]);
    ValBound(x);
    NormalisedValue(v);
    MulComm(Val(x[e..]), Pow(e));
    FirstQuotientClose(Val(q[..nq + 1]), Val(v), d, Val(inv[..n + 1]), Val(x), Val(x[e..]), nq, nb);
  }

  /** The reciprocal that mp_divnorm_large multiplies by. */
  method InverseOfScaled(inv: array<nat>, t: array<nat>, b: array<nat>, s: nat, nb: nat, n: nat) returns (ghost d: nat)
    requires 1 <= n && inv.Length == n + 1 && Window(t, 0, n) && Window(b, s, nb) && NormalisedAt(b, s, nb)
    requires inv != t && inv != b && t != b
    modifies inv, t
    ensures LimbsAt(inv, 0, n + 1) && 0 < d && Scaled(Val(b[s..s + nb]), nb, d, n) && Inverts(d, Val(inv[..n + 1]), n)
    decreases 1, n + 1
  {
    hide Val, Pow, B, IsLimbs, IsReciprocal, Inverts;
    var full := false;
    if n >= nb {
      ScaleUp(t, b, s, nb, n);
    } else {
      full := ScaleDown(t, b, s, nb, n);
    }
    assert t[0..0 + n] == t[..n];
    if full {
      Base();
      d := Pow(n);
      Clear(inv, 0, n);
      ghost var z: seq<nat> := inv[0..0 + n];
      inv[n] := 1;
      assert inv[0..0 + (n + 1)] == inv[..n + 1] == z + [1];
      OneLimb(1);
      LimbsAppend(z, [1]);
      ValPush(z, 1);
      PowerInverts(n);
    } else {
      d := Val(t[..n]);
      NormalisedValue(t[..n]);
      Recip(inv, 0, t, 0, n);
      assert inv[0..0 + (n + 1)] == inv[..n + 1];
      ReciprocalInverts(d, Val(inv[..n + 1]), n);
    }
  }

  /** The correction loop of mp_divnorm_large. */
  method FinishQuotient(q: array<nat>, a: array<nat>, p: nat, nq: nat, b: array<nat>, s: nat, nb: nat, ghost x: nat)
    requires 1 <= nb && Window(a, p, nb + 1) && Window(b, s, nb) && Window(q, 0, nq + 1)
    requires q != a && q != b && a != b && NormalisedAt(b, s, nb)
    requires LimbsAt(q, 0, nq + 1) && LimbsAt(a, p, nb + 1) && x < Pow(nq + nb)
    requires x == Val(q[..nq + 1]) * Val(b[s..s + nb]) + Val(a[p..p + (nb + 1)])
    modifies q, a
    ensures OnlyWindow(a, p, nb + 1) && LimbsAt(a, p, nb) && Val(a[p..p + nb]) < Val(b[s..s + nb])
    ensures OnlyWindow(q, 0, nq + 1) && LimbsAt(q, 0, nq + 1) && q[nq] <= 1
    ensures x == Val(q[..nq + 1]) * Val(b[s..s + nb]) + Val(a[p..p + nb])
  {
    hide Val, Pow, B, IsLimbs;
    ghost var v := Val(b[s..s + nb]);
    while true
      invariant OnlyWindow(a, p, nb + 1) && LimbsAt(a, p, nb + 1)
      invariant OnlyWindow(q, 0, nq + 1) && LimbsAt(q, 0, nq + 1)
      invariant x == Val(q[..nq + 1]) * v + Val(a[p..p + (nb + 1)])
      decreases Val(a[p..p + (nb + 1)])
    {
      ghost var w: seq<nat> := a[p..p + (nb + 1)];
      BelowDivisor(w, b[s..s + nb]);
      LimbsSlice(w, 0, nb);
      assert w[0..nb] == w[..nb] == a[p..p + nb] && w[nb] == a[p + nb];
      NormalisedValue(b[s..s + nb]);
      var c := Cmp(a, p, b, s, nb);
      if a[p + nb] == 0 && c < 0 { break; }
      NextQuotientFits(Val(q[..nq + 1]), v, Val(w), x, nq, nb);
      RaiseQuotient(q, nq, a, p, b, s, nb);
    }
    FinalTop(q[..nq + 1], v, Val(a[p..p + nb]), x, nb);
  }

  lemma NextQuotientFits(q: nat, v: nat, w: nat, x: nat, nq: nat, nb: nat)
    requires x == q * v + w && v <= w && x < Pow(nq + nb) && Pow(nb) <= 2 * v
    ensures q + 1 < Pow(nq + 1) && (q + 1) * v + (w - v) == x
  {
    hide Pow, B;
    Base();
    MulAdd(q, 1, v);
    QuotientLimit(q + 1, v, x, nq, nb);
    PowStep(nq);
    MulMono(2, B, Pow(nq));
  }

  lemma FinalTop(q: seq<nat>, v: nat, w: nat, x: nat, nb: nat)
    requires |q| >= 1 && x == Val(q) * v + w && x < Pow(|q| - 1 + nb) && Pow(nb) <= 2 * v
    ensures q[|q| - 1] <= 1
  {
    hide Val, Pow, B;
    QuotientLimit(Val(q), v, x, |q| - 1, nb);
    TopAtMostOne(q);
  }
}
