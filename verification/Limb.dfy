/**
Limbs and the numbers they stand for (native/quickjs/libbf.c). The base is
2^LIMB_BITS for either of the two limb widths the library is built with.
*/
module Limb {

  type Width = n: nat | n == 32 || n == 64 witness 64

  /** Left open: everything holds for both widths. */
  const LIMB_BITS: Width

  function Pow2(n: nat): (p: nat)
    ensures p >= 1
  {
    if n == 0 then 1 else 2 * Pow2(n - 1)
  }

  const B: nat := Pow2(LIMB_BITS)

  // Products are rearranged by these, so that proofs elsewhere stay linear.

  lemma MulAssoc(x: int, y: int, z: int)
    ensures x * (y * z) == (x * y) * z
  {}

  lemma MulComm(x: int, y: int)
    ensures x * y == y * x
  {}

  lemma MulAdd(x: int, y: int, z: int)
    ensures (x + y) * z == x * z + y * z && z * (x + y) == z * x + z * y
  {}

  lemma MulSub(x: int, y: int, z: int)
    ensures (x - y) * z == x * z - y * z && z * (x - y) == z * x - z * y
  {}

  lemma MulMono(x: int, y: int, p: int)
    requires x <= y && 0 <= p
    ensures x * p <= y * p && p * x <= p * y
  {}

  lemma MulPos(x: int, y: int)
    requires 0 < x && 0 < y
    ensures 0 < x * y
  {}

  lemma MulNonNeg(x: int, y: int)
    requires 0 <= x && 0 <= y
    ensures 0 <= x * y
  {}

  lemma Pow2Step(n: nat)
    ensures Pow2(n + 1) == 2 * Pow2(n)
  {}

  lemma {:induction false} Pow2Add(m: nat, n: nat)
    ensures Pow2(m + n) == Pow2(m) * Pow2(n)
    decreases m
  {
    hide Pow2;
    if m > 0 {
      Pow2Add(m - 1, n);
      Pow2Step(m - 1);
      Pow2Step(m - 1 + n);
      MulAssoc(2, Pow2(m - 1), Pow2(n));
    } else {
      assert Pow2(0) == 1 by { Pow2Zero(); }
    }
  }

  lemma Pow2Zero()
    ensures Pow2(0) == 1
  {}

  lemma {:induction false} Pow2Mono(m: nat, n: nat)
    requires m <= n
    ensures Pow2(m) <= Pow2(n)
    decreases n
  {
    if m < n { Pow2Mono(m, n - 1); }
  }

  lemma Pow2Values()
    ensures Pow2(1) == 2 && Pow2(4) == 16 && Pow2(8) == 256 && Pow2(16) == 0x1_0000 && Pow2(32) == 0x1_0000_0000
  {
    hide Pow2;
    Pow2Zero();
    Pow2Step(0);
    Pow2Step(1);
    Pow2Step(2);
    Pow2Step(3);
    Pow2Add(4, 4);
    Pow2Add(8, 8);
    Pow2Add(16, 16);
  }

  lemma Base()
    ensures B % 2 == 0 && B >= 0x1_0000_0000 && B == 2 * Pow2(LIMB_BITS - 1)
  {
    hide Pow2;
    Pow2Values();
    Pow2Mono(32, LIMB_BITS);
    Pow2Step(LIMB_BITS - 1);
  }

  /** B^n */
  function Pow(n: nat): (p: nat)
    ensures p >= 1
  {
    if n == 0 then 1 else PowPositive(Pow(n - 1)); B * Pow(n - 1)
  }

  lemma PowPositive(p: nat)
    requires p >= 1
    ensures B * p >= 1
  {
    hide Pow2;
    Base();
    MulPos(B, p);
  }

  lemma PowStep(n: nat)
    ensures Pow(n + 1) == B * Pow(n)
  {
    hide B;
  }

  lemma PowZero()
    ensures Pow(0) == 1
  {}

  lemma PowOne()
    ensures Pow(0) == 1 && Pow(1) == B
  {
    hide Pow, B;
    PowZero();
    PowStep(0);
  }

  lemma {:induction false} PowAdd(m: nat, n: nat)
    ensures Pow(m + n) == Pow(m) * Pow(n)
    decreases m
  {
    hide Pow, B;
    if m > 0 {
      PowAdd(m - 1, n);
      PowStep(m - 1);
      PowStep(m - 1 + n);
      MulAssoc(B, Pow(m - 1), Pow(n));
    } else {
      PowZero();
    }
  }

  lemma {:induction false} PowMono(m: nat, n: nat)
    requires m <= n
    ensures Pow(m) <= Pow(n)
  {
    hide Pow, B;
    PowAdd(m, n - m);
    MulMono(1, Pow(n - m), Pow(m));
  }

  ghost predicate IsLimbs(s: seq<nat>) {
    forall i :: 0 <= i < |s| ==> s[i] < B
  }

  /** The number with the given limbs, least significant first. */
  ghost function Val(s: seq<nat>): nat {
    if s == [] then 0 else Val(s[..|s| - 1]) + s[|s| - 1] * Pow(|s| - 1)
  }

  lemma ValPush(s: seq<nat>, x: nat)
    ensures Val(s + [x]) == Val(s) + x * Pow(|s|)
  {
    assert (s + [x])[..|s|] == s;
  }

  lemma ValEmpty()
    ensures Val([]) == 0
  {}

  lemma ValOne(x: nat)
    ensures Val([x]) == x
  {
    hide Val, Pow;
    ValEmpty();
    ValPush([], x);
    assert [] + [x] == [x];
    PowZero();
  }

  lemma {:induction false} ValAppend(x: seq<nat>, y: seq<nat>)
    ensures Val(x + y) == Val(x) + Val(y) * Pow(|x|)
    decreases |y|
  {
    hide Val, Pow;
    if y == [] {
      assert x + y == x;
      ValEmpty();
    } else {
      var n := |y| - 1;
      var y', d := y[..n], y[n];
      assert x + y == (x + y') + [d] && y == y' + [d];
      ValPush(x + y', d);
      ValPush(y', d);
      ValAppend(x, y');
      PowAdd(n, |x|);
      MulAdd(Val(y'), d * Pow(n), Pow(|x|));
      MulAssoc(d, Pow(n), Pow(|x|));
    }
  }

  lemma {:induction false} ValBound(s: seq<nat>)
    requires IsLimbs(s)
    ensures Val(s) < Pow(|s|)
    decreases |s|
  {
    hide Val, Pow, B;
    if s == [] {
      ValEmpty();
    } else {
      var n := |s| - 1;
      assert s == s[..n] + [s[n]];
      ValPush(s[..n], s[n]);
      ValBound(s[..n]);
      PowStep(n);
      MulMono(s[n] + 1, B, Pow(n));
      MulAdd(s[n], 1, Pow(n));
    }
  }

  /** Low part and high part of a number. */
  lemma ValSplit(s: seq<nat>, k: nat)
    requires k <= |s|
    ensures Val(s) == Val(s[..k]) + Val(s[k..]) * Pow(k)
  {
    hide Val, Pow;
    ValAppend(s[..k], s[k..]);
    assert s[..k] + s[k..] == s;
  }

  /** Splits off the lowest limb. */
  lemma ValLow(s: seq<nat>)
    requires s != []
    ensures Val(s) == s[0] + B * Val(s[1..])
  {
    hide Val, Pow, B;
    ValSplit(s, 1);
    assert s[..1] == [s[0]];
    ValOne(s[0]);
    PowOne();
    MulComm(B, Val(s[1..]));
  }

  /** Splits off the highest limb. */
  lemma ValHigh(s: seq<nat>)
    requires s != []
    ensures Val(s) == Val(s[..|s| - 1]) + s[|s| - 1] * Pow(|s| - 1)
  {}

  /** A value is zero exactly when every limb is. */
  lemma {:induction false} ValNonZero(s: seq<nat>)
    ensures Val(s) == 0 <==> forall i :: 0 <= i < |s| ==> s[i] == 0
    decreases |s|
  {
    hide Val, Pow;
    if s == [] {
      ValEmpty();
    } else {
      var n := |s| - 1;
      ValHigh(s);
      ValNonZero(s[..n]);
      assert s[n] * Pow(n) == 0 <==> s[n] == 0 by { if s[n] > 0 { MulPos(s[n], Pow(n)); } }
      assert forall i :: 0 <= i < n ==> s[..n][i] == s[i];
      assert (forall i :: 0 <= i < |s| ==> s[i] == 0) <==> (forall i :: 0 <= i < n ==> s[i] == 0) && s[n] == 0;
    }
  }

  /** Equal values of equal length have equal limbs. */
  lemma {:induction false} ValInjective(s: seq<nat>, u: seq<nat>)
    requires |s| == |u| && IsLimbs(s) && IsLimbs(u) && Val(s) == Val(u)
    ensures s == u
    decreases |s|
  {
    hide Val, Pow, B;
    if s != [] {
      var n := |s| - 1;
      ValBound(s[..n]);
      ValBound(u[..n]);
      ValHigh(s);
      ValHigh(u);
      TopEqual(Val(s[..n]), s[n], Val(u[..n]), u[n], Pow(n));
      ValInjective(s[..n], u[..n]);
      assert s == s[..n] + [s[n]] && u == u[..n] + [u[n]];
    }
  }

  /** The top digit and the rest of a number are determined by it. */
  lemma TopEqual(l: nat, h: nat, l': nat, h': nat, p: nat)
    requires l < p && l' < p && l + h * p == l' + h' * p
    ensures l == l' && h == h'
  {
    if h < h' {
      MulMono(h + 1, h', p);
      MulAdd(h, 1, p);
    } else if h' < h {
      MulMono(h' + 1, h, p);
      MulAdd(h', 1, p);
    }
  }
}
