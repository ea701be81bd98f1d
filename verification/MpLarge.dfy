/**
Pieces of mp_divnorm_large (libbf.c): scaling the divisor, the quotient that
the reciprocal gives and its final correction.
*/
module MpLarge {
  import opened Limb
  import opened MpBasic
  import opened MpDigit
  import opened MpDivide
  import opened MpReciprocal
  import opened Newton

  // ----- the divisor -----

  /** d is the divisor v of nb limbs, brought to n limbs: shifted up, or truncated and incremented. */
  ghost predicate Scaled(v: nat, nb: nat, d: nat, n: nat) {
    if n >= nb then d == v * Pow(n - nb) else v <= d * Pow(nb - n) <= v + Pow(nb - n)
  }

  /** A value of at least B^n/2 has a normalised top limb. */
  lemma TopNormalised(s: seq<nat>)
    requires |s| >= 1 && IsLimbs(s) && Pow(|s|) <= 2 * Val(s)
    ensures Normalised(s[|s| - 1])
  {
    hide Val, Pow, B;
    var n := |s| - 1;
    Base();
    ValHigh(s);
    ValBound(s[..n]);
    PowStep(n);
    TopHalf(s[n], Val(s[..n]), Pow(n), B);
  }

  lemma TopHalf(top: int, low: int, p: int, base: int)
    requires base * p <= 2 * (low + top * p) && low < p && 0 < p && base % 2 == 0
    ensures base <= 2 * top
  {
    if 2 * top <= base - 2 {
      MulMono(2 * top, base - 2, p);
      MulSub(base, 2, p);
      MulAssoc(2, top, p);
    }
  }

  method ScaleUp(t: array<nat>, b: array<nat>, s: nat, nb: nat, n: nat)
    requires nb <= n && Window(t, 0, n) && Window(b, s, nb) && t != b && NormalisedAt(b, s, nb)
    modifies t
    ensures OnlyWindow(t, 0, n) && LimbsAt(t, 0, n) && Normalised(t[n - 1])
    ensures Val(t[..n]) == Val(b[s..s + nb]) * Pow(n - nb)
  {
    hide Val, Pow, B, IsLimbs;
    Clear(t, 0, n - nb);
    ghost var z: seq<nat> := t[0..0 + (n - nb)];
    Copy(t, n - nb, b, s, nb);
    assert t[..n] == z + b[s..s + nb] && t[0..0 + n] == t[..n];
    ValAppend(z, b[s..s + nb]);
    LimbsAppend(z, b[s..s + nb]);
    assert t[n - 1] == t[n - nb..n - nb + nb][nb - 1];
  }

  method ScaleDown(t: array<nat>, b: array<nat>, s: nat, nb: nat, n: nat) returns (full: bool)
    requires 1 <= n < nb && Window(t, 0, n) && Window(b, s, nb) && t != b && NormalisedAt(b, s, nb)
    modifies t
    ensures OnlyWindow(t, 0, n) && LimbsAt(t, 0, n) && (!full ==> Normalised(t[n - 1]))
    ensures Scaled(Val(b[s..s + nb]), nb, if full then Pow(n) else Val(t[..n]), n)
  {
    hide Val, Pow, B, IsLimbs;
    Base();
    ghost var v: seq<nat> := b[s..s + nb];
    Copy(t, 0, b, s + nb - n, n);
    assert t[0..0 + n] == v[nb - n..nb] && v[nb - n..nb] == v[nb - n..];
    LimbsSlice(v, nb - n, nb);
    NormalisedValue(v[nb - n..]);
    ValBound(v[..nb - n]) by { LimbsSlice(v, 0, nb - n); }
    ValSplit(v, nb - n);
    var c := AddSmall(t, 0, 1, n);
    ghost var w: seq<nat> := t[..n];
    assert w == t[0..0 + n];
    full := c != 0;
    ValBound(w);
    if full {
      CarryIsAll(Val(w), c, Pow(n), Val(v[nb - n..]) + 1);
    } else {
      TopNormalised(w);
    }
    MulAdd(Val(v[nb - n..]), 1, Pow(nb - n));
  }

  lemma CarryIsAll(w: int, c: int, p: int, x: int)
    requires w + c * p == x && 0 <= w && 1 <= c <= 1 && x <= p
    ensures x == p && w == 0
  {}

  // ----- the quotient -----

  /** The reciprocal of the scaled divisor, or B^n when that overflowed: not above the true one. */
  ghost predicate Inverts(d: nat, i: nat, n: nat) {
    d * i <= Pow(2 * n) < d * (i + 2)
  }

  lemma ReciprocalInverts(d: nat, i: nat, n: nat)
    requires IsReciprocal(d, i, n)
    ensures Inverts(d, i, n)
  {}

  lemma PowerInverts(n: nat)
    ensures Inverts(Pow(n), Pow(n), n)
  {
    hide Pow, B;
    PowAdd(n, n);
    assert n + n == 2 * n;
    MulStrict(Pow(n), Pow(n) + 2, Pow(n));
  }

  /** Q = A * B^-1: the high part of the product of the reciprocal and the top limbs of a. */
  method FirstQuotient(q: array<nat>, t: array<nat>, inv: array<nat>, a: array<nat>, p: nat, n: nat, nq: nat)
    requires nq <= n && Window(q, 0, nq + 1) && t.Length == 2 * (n + 1) && Window(inv, 0, n + 1) && Window(a, p, n + 1)
    requires q != t && q != inv && q != a && t != inv && t != a && LimbsAt(inv, 0, n + 1) && LimbsAt(a, p, n + 1)
    modifies q, t
    ensures OnlyWindow(q, 0, nq + 1) && LimbsAt(q, 0, nq + 1)
    ensures Truncation(Val(q[..nq + 1]), Val(inv[..n + 1]), Val(a[p..p + (n + 1)]), Pow(2 * n + 1 - nq))
  {
    hide Val, Pow, B, IsLimbs;
    Mul(t, 0, inv, 0, n + 1, a, p, n + 1);
    ghost var ts: seq<nat> := t[..];
    var k := 2 * (n + 1) - (nq + 1);
    assert ts == t[0..0 + (n + 1) + (n + 1)] && inv[0..0 + (n + 1)] == inv[..n + 1];
    ghost var i, ah := Val(inv[..n + 1]), Val(a[p..p + (n + 1)]);
    Copy(q, 0, t, k, nq + 1);
    assert q[..nq + 1] == ts[k..] && q[0..0 + (nq + 1)] == q[..nq + 1] && ts[k..|ts|] == ts[k..];
    LimbsSlice(ts, k, |ts|);
    LimbsSlice(ts, 0, k);
    Truncated(ts, k, i, ah);
  }

  /** q is i*ah without its low part. */
  ghost predicate Truncation(q: int, i: int, ah: int, ps: int) {
    q * ps <= i * ah < (q + 1) * ps
  }

  lemma Truncated(ts: seq<nat>, k: nat, i: nat, ah: nat)
    requires k <= |ts| && IsLimbs(ts[..k]) && Val(ts) == i * ah
    ensures Truncation(Val(ts[k..]), i, ah, Pow(k))
  {
    hide Val, Pow, B;
    ValSplit(ts, k);
    ValBound(ts[..k]);
    MulAdd(Val(ts[k..]), 1, Pow(k));
  }

  /** Hence the first quotient never exceeds the true one, and falls short of it by less than six. */
  lemma FirstQuotientClose(q: nat, v: nat, d: nat, i: nat, a: nat, ah: nat, nq: nat, nb: nat)
    requires nq >= 1 && nb >= 2
    requires var n := if nq < nb then nq + 1 else nq; var e := nq + nb - n - 1;
      Scaled(v, nb, d, n) && Inverts(d, i, n) && Truncation(q, i, ah, Pow(2 * n + 1 - nq)) && 0 < d
      && ah < Pow(n + 1) && Pow(e) * ah <= a < Pow(e) * ah + Pow(e)
    requires v < Pow(nb) <= 2 * v && a < Pow(nq + nb)
    ensures 0 <= a - q * v < 6 * v
  {
    hide Pow, B, Scaled, Inverts, Truncation;
    var n := if nq < nb then nq + 1 else nq;
    var e := nq + nb - n - 1;
    SmallPowers(v, nb, e);
    if n >= nb {
      ScaledUpQuotient(q, v, d, i, ah, n, nq, nb);
      TruncatedQuotient(q, v, v, 0, a, ah, Pow(e));
    } else {
      var m := nb - n;
      ScaledDownQuotient(q, v, d, i, ah, n, nq, nb);
      ScaledDownRange(v, d, n, nb);
      QuotientRoom(q, v, d * Pow(m), a, ah, Pow(e), nq, nb);
      PowAdd(n, m);
      MulMono(q + 3, Pow(n), Pow(m));
      TruncatedQuotient(q, v, d * Pow(m), Pow(m), a, ah, Pow(e));
    }
  }

  lemma SmallPowers(v: nat, nb: nat, e: nat)
    requires e < nb && Pow(nb) <= 2 * v
    ensures 0 < Pow(e) <= v
  {
    hide Pow, B;
    Base();
    PowMono(e + 1, nb);
    PowStep(e);
    MulMono(2, B, Pow(e));
  }

  lemma ScaledUpQuotient(q: nat, v: nat, d: nat, i: nat, ah: nat, n: nat, nq: nat, nb: nat)
    requires n == (if nq < nb then nq + 1 else nq) && n >= nb >= 2 && nq >= 1 && 0 < d
    requires Scaled(v, nb, d, n) && Inverts(d, i, n) && Truncation(q, i, ah, Pow(2 * n + 1 - nq)) && ah < Pow(n + 1)
    ensures q * v <= Pow(nq + nb - n - 1) * ah < (q + 3) * v
  {
    hide Pow, B;
    var s, m, e := 2 * n + 1 - nq, n - nb, nq + nb - n - 1;
    PowMono(n + 1, s);
    PowAdd(s, m);
    PowAdd(s + m, e);
    assert s + m + e == 2 * n;
    MulComm(v, Pow(m));
    MulAssoc(Pow(s), Pow(m), v);
    MulPos(Pow(s), Pow(m));
    QuotientEstimate(q, Pow(s), d, i, ah, Pow(2 * n), v, Pow(e), 1, Pow(s) * Pow(m));
  }

  lemma ScaledDownQuotient(q: nat, v: nat, d: nat, i: nat, ah: nat, n: nat, nq: nat, nb: nat)
    requires n == nq + 1 && n < nb && nq >= 1 && 0 < d
    requires Inverts(d, i, n) && Truncation(q, i, ah, Pow(2 * n + 1 - nq)) && ah < Pow(n + 1)
    ensures q * (d * Pow(nb - n)) <= Pow(nb - 2) * ah < (q + 3) * (d * Pow(nb - n))
  {
    hide Pow, B;
    var s, m, e := n + 2, nb - n, nb - 2;
    PowMono(n + 1, s);
    PowAdd(s, e);
    PowAdd(2 * n, m);
    assert s + e == 2 * n + m && 2 * n + 1 - nq == s;
    MulAssoc(Pow(s), d, Pow(m));
    QuotientEstimate(q, Pow(s), d, i, ah, Pow(2 * n), d * Pow(m), Pow(e), Pow(m), Pow(s));
  }

  lemma ScaledDownRange(v: nat, d: nat, n: nat, nb: nat)
    requires n < nb && Scaled(v, nb, d, n)
    ensures v <= d * Pow(nb - n) <= v + Pow(nb - n)
  {}

  /** The quotient has room to spare in nq + 1 limbs. */
  lemma QuotientRoom(q: nat, v: nat, w: int, a: nat, ah: nat, pe: nat, nq: nat, nb: nat)
    requires v <= w && q * w <= pe * ah <= a < Pow(nq + nb) && Pow(nb) <= 2 * v
    ensures q + 3 <= Pow(nq + 1)
  {
    hide Pow, B;
    Base();
    MulMono(v, w, q);
    QuotientLimit(q, v, a, nq, nb);
    PowStep(nq);
    MulMono(5, B, Pow(nq));
  }

  /** A quotient by a normalised number of nb limbs is below 2*B^nq. */
  lemma QuotientLimit(q: nat, v: nat, a: nat, nq: nat, nb: nat)
    requires q * v <= a < Pow(nq + nb) && Pow(nb) <= 2 * v
    ensures q < 2 * Pow(nq)
  {
    hide Pow, B;
    PowAdd(nq, nb);
    MulMono(Pow(nb), 2 * v, q);
    assert q * (2 * v) == 2 * (q * v);
    MulAssoc(2, Pow(nq), Pow(nb));
    CancelStrict(q, 2 * Pow(nq), Pow(nb));
  }

  // ----- the remainder -----

  /** R = A - B*Q on nb + 1 limbs, which are enough for it. */
  method Residual(a: array<nat>, p: nat, na: nat, q: array<nat>, b: array<nat>, s: nat, nb: nat)
    requires nb < na && Window(a, p, na) && Window(q, 0, na - nb + 1) && Window(b, s, nb) && a != q && a != b && nb >= 1
    requires LimbsAt(a, p, na) && LimbsAt(q, 0, na - nb + 1) && LimbsAt(b, s, nb)
    requires 0 <= Val(a[p..p + na]) - Val(q[..na - nb + 1]) * Val(b[s..s + nb]) < Pow(nb + 1)
    modifies a
    ensures OnlyWindow(a, p, nb + 1) && LimbsAt(a, p, nb + 1)
    ensures Val(a[p..p + (nb + 1)]) == old(Val(a[p..p + na])) - Val(q[..na - nb + 1]) * Val(b[s..s + nb])
  {
    hide Val, Pow, B, IsLimbs;
    var nq, m := na - nb, nb + 1;
    ghost var x: seq<nat> := a[p..p + na];
    var t := new nat[na + 1];
    Mul(t, 0, q, 0, nq + 1, b, s, nb);
    ghost var ts: seq<nat> := t[..];
    assert ts == t[0..0 + (nq + 1) + nb] && q[0..0 + (nq + 1)] == q[..nq + 1];
    LimbsSlice(ts, 0, m);
    LimbsSlice(x, 0, m);
    assert a[p..p + m] == x[0..m] && t[0..0 + m] == ts[0..m];
    var k := Sub(a, p, a, p, t, 0, m, 0);
    ValBound(a[p..p + m]);
    assert x[0..m] == x[..m] && ts[0..m] == ts[..m];
    LowLimbs(x, ts, m, Val(a[p..p + m]), k);
  }

  /** A difference below B^m is known from the m low limbs. */
  lemma LowLimbs(x: seq<nat>, t: seq<nat>, m: nat, w: nat, k: nat)
    requires m <= |x| && m <= |t| && 0 <= Val(x) - Val(t) < Pow(m) && w < Pow(m)
    requires w - k * Pow(m) == Val(x[..m]) - Val(t[..m])
    ensures w == Val(x) - Val(t)
  {
    hide Val, Pow, B;
    ValSplit(x, m);
    ValSplit(t, m);
    SameLow(Val(x) - Val(t), w, Val(x[m..]), Val(t[m..]), k, Pow(m));
  }

  lemma SameLow(r: int, w: int, xh: int, th: int, k: int, p: int)
    requires 0 <= r < p && 0 <= w < p && r == w - k * p + xh * p - th * p
    ensures r == w
  {
    MulSub(xh, th, p);
    MulSub(xh - th, k, p);
    DivUnique(r, p, 0, r);
    DivUnique(r, p, xh - th - k, w);
  }

  /** The window is below the divisor exactly when the loop of mp_divnorm_large stops. */
  lemma BelowDivisor(w: seq<nat>, v: seq<nat>)
    requires |w| == |v| + 1 && IsLimbs(w) && IsLimbs(v)
    ensures Val(w) < Val(v) <==> w[|v|] == 0 && Val(w[..|v|]) < Val(v)
    ensures Val(w) == Val(w[..|v|]) + w[|v|] * Pow(|v|)
  {
    hide Val, Pow, B;
    ValHigh(w);
    ValBound(v);
    if w[|v|] > 0 { MulMono(1, w[|v|], Pow(|v|)); }
  }

  /** One turn of the correction loop: subtracts the divisor once and counts it. */
  method RaiseQuotient(q: array<nat>, nq: nat, a: array<nat>, p: nat, b: array<nat>, s: nat, nb: nat)
    requires Window(q, 0, nq + 1) && Window(a, p, nb + 1) && Window(b, s, nb) && q != a && q != b && a != b
    requires LimbsAt(q, 0, nq + 1) && LimbsAt(a, p, nb + 1) && LimbsAt(b, s, nb)
    requires Val(b[s..s + nb]) <= Val(a[p..p + (nb + 1)]) && Val(q[..nq + 1]) + 1 < Pow(nq + 1)
    modifies q, a
    ensures OnlyWindow(q, 0, nq + 1) && LimbsAt(q, 0, nq + 1) && OnlyWindow(a, p, nb + 1) && LimbsAt(a, p, nb + 1)
    ensures Val(a[p..p + (nb + 1)]) == old(Val(a[p..p + (nb + 1)])) - Val(b[s..s + nb])
    ensures Val(q[..nq + 1]) == old(Val(q[..nq + 1])) + 1
  {
    hide Val, Pow, B, IsLimbs;
    Base();
    ghost var w: seq<nat> := a[p..p + (nb + 1)];
    LimbsSlice(w, 0, nb);
    assert w[0..nb] == w[..nb] == a[p..p + nb];
    LimbAt(w, nb);
    ValHigh(w);
    var k := Sub(a, p, a, p, b, s, nb, 0);
    ghost var low: seq<nat> := a[p..p + nb];
    assert a[p + nb] == w[nb];
    ValBound(low);
    ValBound(w[..nb]);
    TopAbsorbs(Val(low), Val(w[..nb]), w[nb], k, Val(b[s..s + nb]), Pow(nb));
    a[p + nb] := a[p + nb] - k;
    assert a[p..p + (nb + 1)] == low + [w[nb] - k];
    ValPush(low, w[nb] - k);
    LimbsAppend(low, [w[nb] - k]);
    OneLimb(w[nb] - k);
    assert q[0..0 + (nq + 1)] == q[..nq + 1];
    var c := AddSmall(q, 0, 1, nq + 1);
    assert q[0..0 + (nq + 1)] == q[..nq + 1];
    if c > 0 { MulMono(1, c, Pow(nq + 1)); }
  }

  lemma LimbAt(s: seq<nat>, i: nat)
    requires i < |s| && IsLimbs(s)
    ensures s[i] < B
  {}

  lemma OneLimb(x: nat)
    requires x < B
    ensures IsLimbs([x])
  {}

  lemma TopAbsorbs(low: int, low0: int, top: int, k: int, v: int, p: int)
    requires low - k * p == low0 - v && 0 <= low < p && 0 <= low0 < p && 0 <= k <= 1 && 0 <= top && v <= low0 + top * p
    ensures k <= top && low + (top - k) * p == low0 + top * p - v
  {
    MulSub(top, k, p);
  }
}
