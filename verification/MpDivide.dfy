/** Schoolbook division (libbf.c: mp_divnorm). */
module MpDivide {
  import opened Limb
  import opened MpBasic
  import opened MpDigit

  /** The top limb of the divisor has its high bit set. */
  ghost predicate NormalisedAt(b: array<nat>, s: nat, nb: nat)
    requires Window(b, s, nb)
    reads b
  {
    nb >= 1 && LimbsAt(b, s, nb) && Normalised(b[s + nb - 1])
  }

  // ----- one quotient limb -----

  method EstimateDigit(u1: nat, u0: nat, b1: nat, inv: nat) returns (q: nat)
    requires Normalised(b1) && u1 < B && u0 < B && (inv == 0 || (b1 > 0 && inv == Inverse(b1)))
    ensures b1 > 0 && q == Estimate(u1, u0, b1) && q < B
  {
    hide B, Udiv1Norm, Inverse;
    Base();
    EstimateRange(u1, u0, b1);
    if u1 >= b1 {
      q := B - 1;
    } else if inv != 0 {
      Udiv1NormExact(u1, u0, b1);
      var (e, _) := Udiv1Norm(u1, u0, b1, inv);
      q := e;
    } else {
      q := (u1 * B + u0) / b1;
    }
  }

  /** The window and the limb above it. */
  lemma TopLimb(a: seq<nat>, p: nat, n: nat)
    requires p + n < |a|
    ensures Val(a[p..p + n + 1]) == Val(a[p..p + n]) + a[p + n] * Pow(n)
  {
    hide Val, Pow;
    SlicePush(a, p, n);
  }

  /** Subtracts q times the divisor from the window; tells whether the result is negative. */
  method SubtractMultiple(a: array<nat>, p: nat, b: array<nat>, s: nat, n: nat, q: nat) returns (negative: bool)
    requires Window(a, p, n + 1) && Window(b, s, n) && a != b && q < B
    requires LimbsAt(a, p, n + 1) && LimbsAt(b, s, n)
    modifies a
    ensures OnlyWindow(a, p, n + 1) && LimbsAt(a, p, n + 1)
    ensures Val(a[p..p + n + 1]) - (if negative then Pow(n + 1) else 0) ==
      old(Val(a[p..p + n + 1])) - q * Val(b[s..s + n])
  {
    hide Val, Pow, B;
    ghost var u: seq<nat> := a[..];
    TopLimb(u, p, n);
    assert u[p..p + n] == a[p..p + n] && u[p..p + n + 1] == a[p..p + n + 1];
    assert a[p..p + n] == a[p..p + n + 1][..n];
    assert a[p + n] == a[p..p + n + 1][n];
    var r := SubMul1(a, p, b, s, n, q);
    var v := a[p + n];
    assert v == u[p + n];
    var d := Diff(v, r);
    negative := d > v;
    PutHigh(a[..], p, n, d);
    ghost var before: seq<nat> := a[..];
    ghost var low: seq<nat> := a[p..p + n];
    a[p + n] := d;
    assert a[..] == before[p + n := d] && a[..][p..p + n + 1] == a[p..p + n + 1] && before[p..p + n] == low;
    assert a[p..p + n + 1] == low + [d];
    PowStep(n);
    TopBorrow(Val(low), v, r, d, if negative then 1 else 0, Pow(n), B);
    MulComm(q, Val(b[s..s + n]));
  }

  lemma TopBorrow(low: int, v: int, r: int, d: int, c: int, p: int, base: int)
    requires d - c * base == v - r
    ensures low + d * p - c * (base * p) == (low - r * p) + v * p
  {
    MulSub(d, c * base, p);
    MulAssoc(c, base, p);
    MulSub(v, r, p);
  }

  /** Adds the divisor back once; tells whether the carry ran out of the window. */
  method AddBack(a: array<nat>, p: nat, b: array<nat>, s: nat, n: nat) returns (out: bool)
    requires Window(a, p, n + 1) && Window(b, s, n) && a != b
    requires LimbsAt(a, p, n + 1) && LimbsAt(b, s, n)
    modifies a
    ensures OnlyWindow(a, p, n + 1) && LimbsAt(a, p, n + 1)
    ensures Val(a[p..p + n + 1]) + (if out then Pow(n + 1) else 0) == old(Val(a[p..p + n + 1])) + Val(b[s..s + n])
  {
    hide Val, Pow, B;
    Base();
    ghost var u: seq<nat> := a[..];
    TopLimb(u, p, n);
    assert u[p..p + n] == a[p..p + n] && u[p..p + n + 1] == a[p..p + n + 1];
    assert a[p..p + n] == a[p..p + n + 1][..n];
    assert a[p + n] == a[p..p + n + 1][n];
    var c := Add(a, p, a, p, b, s, n, 0);
    out := false;
    ghost var low: seq<nat> := a[p..p + n];
    var v := a[p + n];
    assert v == u[p + n];
    if c != 0 {
      a[p + n] := Wrap(v + 1);
      out := a[p + n] == 0;
    }
    assert a[p..p + n + 1] == low + [a[p + n]];
    ValPush(low, a[p + n]);
    PowStep(n);
    TopCarry(Val(low), v, c, a[p + n], if out then 1 else 0, Pow(n), B);
  }

  lemma TopCarry(low: int, v: int, c: int, d: int, out: int, p: int, base: int)
    requires d + out * base == v + c
    ensures low + d * p + out * (base * p) == (low + c * p) + v * p
  {
    MulAdd(d, out * base, p);
    MulAssoc(out, base, p);
    MulAdd(v, c, p);
  }

  /**
  The correction loop of mp_divnorm: the window stands for the negative number
  e; the divisor is added until the number is positive again.
  */
  method Correct(a: array<nat>, p: nat, b: array<nat>, s: nat, nb: nat, q0: nat, ghost e: int) returns (q: nat,
      ghost fixes: nat)
    requires Window(a, p, nb + 1) && Window(b, s, nb) && a != b && LimbsAt(a, p, nb + 1) && LimbsAt(b, s, nb)
    requires Val(a[p..p + nb + 1]) - Pow(nb + 1) == e && 0 - 2 * Val(b[s..s + nb]) < e < 0
    requires q0 >= 1 && (e + Val(b[s..s + nb]) < 0 ==> q0 >= 2)
    modifies a
    ensures OnlyWindow(a, p, nb + 1) && LimbsAt(a, p, nb + 1)
    ensures 1 <= fixes <= 2 && q == q0 - fixes && Val(a[p..p + nb + 1]) < Val(b[s..s + nb])
    ensures Val(a[p..p + nb + 1]) == e + if fixes == 1 then Val(b[s..s + nb]) else 2 * Val(b[s..s + nb])
  {
    hide Val, Pow, B;
    ghost var v := Val(b[s..s + nb]);
    q, fixes := q0, 0;
    var negative := true;
    while negative
      invariant fixes <= 2 && q == q0 - fixes && (negative ==> fixes < 2) && (!negative ==> fixes > 0)
      invariant OnlyWindow(a, p, nb + 1) && LimbsAt(a, p, nb + 1)
      invariant fixes == 1 && negative ==> e + v < 0
      invariant fixes == 2 ==> e + v < 0
      invariant Val(a[p..p + nb + 1]) - (if negative then Pow(nb + 1) else 0) ==
        e + (if fixes == 0 then 0 else if fixes == 1 then v else 2 * v)
      decreases 2 - fixes
    {
      q := q - 1;
      var out := AddBack(a, p, b, s, nb);
      ValBound(a[p..p + nb + 1]);
      negative := !out;
      fixes := fixes + 1;
    }
  }

  /** A negative difference leaves room to lower the quotient. */
  lemma RoomToLower(u: int, q: int, v: int)
    requires 0 <= u && 0 <= v && 0 <= q && u - q * v < 0
    ensures q >= 1 && (u - q * v + v < 0 ==> q >= 2)
    ensures u - (q - 1) * v == u - q * v + v && u - (q - 2) * v == u - q * v + 2 * v
  {
    MulSub(q, 1, v);
    MulSub(q, 2, v);
  }

  /**
  One turn of the main loop of mp_divnorm: the window of nb + 1 limbs is
  divided by b. The estimate is corrected at most twice.
  */
  method DivStep(a: array<nat>, p: nat, b: array<nat>, s: nat, nb: nat, inv: nat) returns (q: nat, ghost fixes: nat)
    requires Window(a, p, nb + 1) && Window(b, s, nb) && a != b
    requires LimbsAt(a, p, nb + 1) && NormalisedAt(b, s, nb)
    requires inv == 0 || (b[s + nb - 1] > 0 && inv == Inverse(b[s + nb - 1]))
    requires Val(a[p..p + nb + 1]) < Val(b[s..s + nb]) * B
    modifies a
    ensures OnlyWindow(a, p, nb + 1) && LimbsAt(a, p, nb + 1) && q < B && fixes <= 2
    ensures a[p + nb] == 0 && Val(a[p..p + nb]) < Val(b[s..s + nb])
    ensures old(Val(a[p..p + nb + 1])) == q * Val(b[s..s + nb]) + Val(a[p..p + nb])
  {
    hide Val, Pow, B, Estimate, Inverse;
    ghost var v, u := Val(b[s..s + nb]), Val(a[p..p + nb + 1]);
    assert a[p + nb] == a[p..p + nb + 1][nb] && a[p + nb - 1] == a[p..p + nb + 1][nb - 1];
    q := EstimateDigit(a[p + nb], a[p + nb - 1], b[s + nb - 1], inv);
    EstimateWindow(a[p..p + nb + 1], b[s..s + nb]);
    var negative := SubtractMultiple(a, p, b, s, nb, q);
    fixes := 0;
    ValBound(a[p..p + nb + 1]);
    if negative {
      RoomToLower(u, q, v);
      q, fixes := Correct(a, p, b, s, nb, q, u - q * v);
    }
    SmallWindow(a[p..p + nb + 1], b[s..s + nb]);
    assert a[p..p + nb + 1][..nb] == a[p..p + nb] && a[p + nb] == a[p..p + nb + 1][nb];
  }

  lemma EstimateWindow(a: seq<nat>, b: seq<nat>)
    requires |a| == |b| + 1 && |b| >= 1 && IsLimbs(a) && IsLimbs(b) && Normalised(b[|b| - 1])
    requires Val(a) < Val(b) * B
    ensures b[|b| - 1] > 0
    ensures var q := Estimate(a[|b|], a[|b| - 1], b[|b| - 1]); 0 - 2 * Val(b) < Val(a) - q * Val(b) < Val(b)
  {
    hide Val, Pow, B, Estimate;
    var n := |b| - 1;
    ValHigh(a);
    ValHigh(a[..n + 1]);
    assert a[..n + 1][..n] == a[..n];
    ValHigh(b);
    ValBound(a[..n]);
    ValBound(b[..n]);
    PowStep(n);
    MulAssoc(a[n + 1], B, Pow(n));
    MulAdd(a[n + 1] * B, a[n], Pow(n));
    EstimateClose(Val(a), Val(b), a[n + 1], a[n], b[n], Val(a[..n]), Val(b[..n]), Pow(n));
  }

  /** A window whose value is below the divisor has a zero top limb. */
  lemma SmallWindow(a: seq<nat>, b: seq<nat>)
    requires |a| == |b| + 1 && IsLimbs(b) && Val(a) < Val(b)
    ensures a[|b|] == 0 && Val(a[..|b|]) == Val(a)
  {
    hide Val, Pow, B;
    ValHigh(a);
    ValBound(b);
    if a[|b|] > 0 { MulMono(1, a[|b|], Pow(|b|)); }
  }

  // ----- schoolbook division -----

  /** A normalised number is at least half of its power of B. */
  lemma NormalisedValue(b: seq<nat>)
    requires |b| >= 1 && IsLimbs(b) && Normalised(b[|b| - 1])
    ensures Pow(|b|) <= 2 * Val(b) && Val(b) < Pow(|b|)
  {
    hide Val, Pow, B;
    var n := |b| - 1;
    ValHigh(b);
    ValBound(b);
    PowStep(n);
    MulMono(B, 2 * b[n], Pow(n));
    MulAssoc(2, b[n], Pow(n));
  }

  /** The window with one more limb below is under B times the divisor. */
  lemma NextWindow(w: seq<nat>, v: nat)
    requires |w| >= 1 && IsLimbs(w) && Val(w[1..]) < v
    ensures Val(w) < v * B
  {
    hide Val, Pow, B;
    ValLow(w);
    MulMono(Val(w[1..]) + 1, v, B);
    MulAdd(Val(w[1..]), 1, B);
    MulComm(B, Val(w[1..]));
  }

  lemma QuotientStep(x: seq<nat>, i: nat, q: seq<nat>, d: nat, v: nat, w: seq<nat>, r: nat)
    requires i < |x| && |w| >= 1 && w[0] == x[i] && Val(x[i + 1..]) == Val(q) * v + Val(w[1..])
    requires Val(w) == d * v + r
    ensures Val(x[i..]) == Val([d] + q) * v + r
  {
    hide Val, Pow, B;
    SliceLow(x, i, |x|);
    assert x[i..|x|] == x[i..] && x[i + 1..|x|] == x[i + 1..];
    ValLow([d] + q);
    assert ([d] + q)[1..] == q;
    ValLow(w);
    MulAdd(Val(q) * v, Val(w[1..]), B);
    MulAssoc(B, Val(q), v);
    MulAdd(d, B * Val(q), v);
  }

  /** The first turn, where the quotient is only 0 or 1. */
  method FirstDigit(a: array<nat>, p: nat, b: array<nat>, s: nat, nb: nat) returns (q: nat)
    requires Window(a, p, nb) && Window(b, s, nb) && a != b && LimbsAt(a, p, nb) && NormalisedAt(b, s, nb)
    modifies a
    ensures OnlyWindow(a, p, nb) && LimbsAt(a, p, nb) && q <= 1 && Val(a[p..p + nb]) < Val(b[s..s + nb])
    ensures old(Val(a[p..p + nb])) == q * Val(b[s..s + nb]) + Val(a[p..p + nb])
  {
    hide Val, Pow, B;
    NormalisedValue(b[s..s + nb]);
    ValBound(a[p..p + nb]);
    var c := Cmp(a, p, b, s, nb);
    q := if c < 0 then 0 else 1;
    if q != 0 {
      var k := Sub(a, p, a, p, b, s, nb, 0);
      ValBound(a[p..p + nb]);
      assert k == 0;
    }
  }

  /**
  What holds once the quotient limbs from i up are known: x is the dividend, the
  window at i the running remainder.
  */
  ghost predicate Divided(q: array<nat>, a: array<nat>, p: nat, b: array<nat>, s: nat, nb: nat, x: seq<nat>, n: nat,
      i: nat)
    requires |x| == n + nb && Window(a, p, n + nb) && Window(b, s, nb) && Window(q, 0, n + 1) && i <= n
    reads q, a, b
  {
    && a[p..p + i] == x[..i]
    && LimbsAt(a, p + i, nb) && Val(a[p + i..p + i + nb]) < Val(b[s..s + nb])
    && q[n] <= 1 && IsLimbs(q[i..n + 1])
    && Val(x[i..]) == Val(q[i..n + 1]) * Val(b[s..s + nb]) + Val(a[p + i..p + i + nb])
  }

  /** One turn of the main loop. */
  method DivTurn(q: array<nat>, a: array<nat>, p: nat, b: array<nat>, s: nat, nb: nat, ghost x: seq<nat>, n: nat,
      i: nat, inv: nat)
    requires |x| == n + nb && Window(a, p, n + nb) && Window(b, s, nb) && Window(q, 0, n + 1) && i < n
    requires q != a && q != b && a != b && NormalisedAt(b, s, nb) && IsLimbs(x)
    requires inv == 0 || (b[s + nb - 1] > 0 && inv == Inverse(b[s + nb - 1]))
    requires Divided(q, a, p, b, s, nb, x, n, i + 1)
    modifies q, a
    ensures OnlyWindow(a, p + i, nb + 1) && OnlyWindow(q, i, 1)
    ensures Divided(q, a, p, b, s, nb, x, n, i)
  {
    hide Val, Pow, B, Inverse;
    ghost var done: seq<nat>, w: seq<nat> := q[i + 1..n + 1], a[p + i..p + i + nb + 1];
    ghost var v := Val(b[s..s + nb]);
    assert w[1..] == a[p + (i + 1)..p + (i + 1) + nb] && w[0] == a[p..p + (i + 1)][i] == x[..i + 1][i];
    ghost var low: seq<nat> := a[p..p + i];
    assert low == a[p..p + (i + 1)][..i] == x[..i];
    assert IsLimbs(w) by { assert w == [x[i]] + w[1..]; }
    NextWindow(w, v);
    var d;
    ghost var fixes;
    d, fixes := DivStep(a, p + i, b, s, nb, inv);
    QuotientStep(x, i, done, d, v, w, Val(a[p + i..p + i + nb]));
    q[i] := d;
    assert q[i..n + 1] == [d] + done;
    assert a[p..p + i] == low;
    assert a[p + i..p + i + nb] == a[p + i..p + i + nb + 1][..nb];
  }

  lemma DividedStart(q: array<nat>, a: array<nat>, p: nat, b: array<nat>, s: nat, nb: nat, x: seq<nat>, n: nat)
    requires |x| == n + nb && Window(a, p, n + nb) && Window(b, s, nb) && Window(q, 0, n + 1)
    requires a[p..p + n] == x[..n] && LimbsAt(a, p + n, nb) && Val(a[p + n..p + n + nb]) < Val(b[s..s + nb])
    requires q[n] <= 1
    requires Val(x[n..]) == q[n] * Val(b[s..s + nb]) + Val(a[p + n..p + n + nb])
    ensures Divided(q, a, p, b, s, nb, x, n, n)
  {
    hide Val, Pow, B;
    Base();
    assert q[n..n + 1] == [q[n]];
    ValOne(q[n]);
  }

  lemma DividedEnd(q: array<nat>, a: array<nat>, p: nat, b: array<nat>, s: nat, nb: nat, x: seq<nat>, n: nat)
    requires |x| == n + nb && Window(a, p, n + nb) && Window(b, s, nb) && Window(q, 0, n + 1)
    requires Divided(q, a, p, b, s, nb, x, n, 0)
    ensures LimbsAt(a, p, nb) && Val(a[p..p + nb]) < Val(b[s..s + nb]) && q[n] <= 1 && LimbsAt(q, 0, n + 1)
    ensures Val(x) == Val(q[..n + 1]) * Val(b[s..s + nb]) + Val(a[p..p + nb])
  {
    hide Val, Pow, B;
    assert x[0..] == x && q[0..n + 1] == q[..n + 1] && a[p + 0..p + 0 + nb] == a[p..p + nb];
  }

  /** mp_divnorm below the threshold: one quotient limb a turn, from the top. */
  method Schoolbook(q: array<nat>, a: array<nat>, p: nat, na: nat, b: array<nat>, s: nat, nb: nat)
    requires 1 <= nb <= na && Window(a, p, na) && Window(b, s, nb) && Window(q, 0, na - nb + 1)
    requires q != a && q != b && a != b && LimbsAt(a, p, na) && NormalisedAt(b, s, nb)
    modifies q, a
    ensures OnlyWindow(a, p, na) && LimbsAt(a, p, nb) && Val(a[p..p + nb]) < Val(b[s..s + nb])
    ensures OnlyWindow(q, 0, na - nb + 1) && LimbsAt(q, 0, na - nb + 1) && q[na - nb] <= 1
    ensures old(Val(a[p..p + na])) == Val(q[..na - nb + 1]) * Val(b[s..s + nb]) + Val(a[p..p + nb])
  {
    hide Val, Pow, B, Inverse, Divided;
    var n := na - nb;
    var b1 := b[s + nb - 1];
    InverseRange(b1);
    var inv := if n >= UDIV1NORM_THRESHOLD then Inverse(b1) else 0;
    ghost var x: seq<nat> := a[p..p + na];
    assert a[p + n..p + n + nb] == x[n..];
    var d := FirstDigit(a, p + n, b, s, nb);
    q[n] := d;
    assert a[p..p + n] == x[..n];
    DividedStart(q, a, p, b, s, nb, x, n);
    var i := n;
    while i > 0
      invariant 0 <= i <= n
      invariant OnlyWindow(a, p, na) && OnlyWindow(q, 0, n + 1)
      invariant Divided(q, a, p, b, s, nb, x, n, i)
    {
      i := i - 1;
      DivTurn(q, a, p, b, s, nb, x, n, i, inv);
    }
    DividedEnd(q, a, p, b, s, nb, x, n);
  }
}
