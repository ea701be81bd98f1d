/**
Numbers written in digits of any radix, and the way libbf.c splits them in two
when it converts: at level k of the recursion every piece has m or m + 1
digits, m being the k-fold half of the whole number of digits, so that one power
of the radix per level serves all pieces.
*/
module Radix {
  import opened Limb
  import opened MpBasic
  import opened Newton

  function Power(b: nat, n: nat): nat {
    if n == 0 then 1 else b * Power(b, n - 1)
  }

  /** The sum of s[i] * b^i. */
  function Number(s: seq<nat>, b: nat): nat {
    if s == [] then 0 else s[0] + b * Number(s[1..], b)
  }

  predicate Digits(s: seq<nat>, b: nat) {
    forall i :: 0 <= i < |s| ==> s[i] < b
  }

  lemma PowerZero(b: nat)
    ensures Power(b, 0) == 1
  {}

  lemma PowerStep(b: nat, n: nat)
    ensures Power(b, n + 1) == b * Power(b, n)
  {}

  lemma {:induction false} PowerAdd(b: nat, m: nat, n: nat)
    ensures Power(b, m + n) == Power(b, m) * Power(b, n)
    decreases m
  {
    hide Power;
    if m == 0 {
      PowerZero(b);
    } else {
      PowerAdd(b, m - 1, n);
      PowerStep(b, m - 1);
      PowerStep(b, m - 1 + n);
      MulAssoc(b, Power(b, m - 1), Power(b, n));
    }
  }

  lemma {:induction false} PowerPositive(b: nat, n: nat)
    requires b >= 1
    ensures Power(b, n) >= 1
    decreases n
  {
    hide Power;
    if n == 0 {
      PowerZero(b);
    } else {
      PowerStep(b, n - 1);
      PowerPositive(b, n - 1);
      MulPos(b, Power(b, n - 1));
    }
  }

  lemma {:induction false} PowerMono(b: nat, m: nat, n: nat)
    requires b >= 1 && m <= n
    ensures Power(b, m) <= Power(b, n)
  {
    hide Power;
    PowerAdd(b, m, n - m);
    PowerPositive(b, n - m);
    MulMono(1, Power(b, n - m), Power(b, m));
  }

  /** b^n in bits, for b <= 2^k. */
  lemma {:induction false} PowerBits(b: nat, n: nat, k: nat)
    requires b <= Pow2(k)
    ensures n * k >= 0 && Power(b, n) <= Pow2(n * k)
    decreases n
  {
    hide Power, Pow2;
    MulNonNeg(n, k);
    if n == 0 {
      PowerZero(b);
    } else {
      PowerStep(b, n - 1);
      PowerBits(b, n - 1, k);
      MulSub(n, 1, k);
      Pow2Add(k, (n - 1) * k);
      MulMono(b, Pow2(k), Power(b, n - 1));
      MulMono(Power(b, n - 1), Pow2((n - 1) * k), Pow2(k));
    }
  }

  // ----- digits -----

  lemma NumberStep(s: seq<nat>, b: nat)
    requires s != []
    ensures Number(s, b) == s[0] + b * Number(s[1..], b)
  {}

  lemma NumberEmpty(b: nat)
    ensures Number([], b) == 0
  {}

  lemma NumberOne(x: nat, b: nat)
    ensures Number([x], b) == x
  {
    assert [x][1..] == [];
  }

  /** The low k digits and the others. */
  lemma {:induction false} NumberSplit(s: seq<nat>, b: nat, k: nat)
    requires k <= |s|
    ensures Number(s, b) == Number(s[..k], b) + Number(s[k..], b) * Power(b, k)
    decreases k
  {
    hide Number, Power;
    if k == 0 {
      assert s[..0] == [] && s[0..] == s;
      NumberEmpty(b);
      PowerZero(b);
    } else {
      NumberStep(s, b);
      NumberSplit(s[1..], b, k - 1);
      assert s[1..][..k - 1] == s[1..k] && s[1..][k - 1..] == s[k..] && s[..k][1..] == s[1..k];
      NumberStep(s[..k], b);
      PowerStep(b, k - 1);
      MulAdd(Number(s[1..k], b), Number(s[k..], b) * Power(b, k - 1), b);
      Shuffle(Number(s[k..], b), b, Power(b, k - 1));
    }
  }

  lemma {:induction false} NumberBound(s: seq<nat>, b: nat)
    requires Digits(s, b)
    ensures Number(s, b) < Power(b, |s|)
    decreases |s|
  {
    hide Number, Power;
    if s == [] {
      NumberEmpty(b);
      PowerZero(b);
    } else {
      NumberStep(s, b);
      NumberBound(s[1..], b);
      PowerStep(b, |s| - 1);
      MulMono(Number(s[1..], b) + 1, Power(b, |s| - 1), b);
      MulAdd(Number(s[1..], b), 1, b);
    }
  }

  /** Digits below the radix are unique. */
  lemma {:induction false} NumberUnique(s: seq<nat>, u: seq<nat>, b: nat)
    requires |s| == |u| && Digits(s, b) && Digits(u, b) && Number(s, b) == Number(u, b)
    ensures s == u
    decreases |s|
  {
    hide Number;
    if s != [] {
      NumberStep(s, b);
      NumberStep(u, b);
      MulComm(b, Number(s[1..], b));
      MulComm(b, Number(u[1..], b));
      DivUnique(Number(s, b), b, Number(s[1..], b), s[0]);
      DivUnique(Number(s, b), b, Number(u[1..], b), u[0]);
      NumberUnique(s[1..], u[1..], b);
      assert s == [s[0]] + s[1..] && u == [u[0]] + u[1..];
    }
  }

  // ----- the sizes -----

  /** n0 halved level times, rounding down. */
  function Halved(n0: nat, level: nat): int {
    n0 / Pow2(level)
  }

  /** The size of the low part at a level. */
  function LowSize(n0: nat, level: nat): int {
    (n0 * 2 / Pow2(level + 1) + 1) / 2
  }

  /** A piece that occurs at a level. */
  predicate SizeAt(n: int, n0: nat, level: nat) {
    n >= 1 && (n == Halved(n0, level) || n == Halved(n0, level) + 1)
  }

  lemma SizeAtTop(n0: nat)
    requires n0 >= 1
    ensures SizeAt(n0, n0, 0)
  {
    Pow2Zero();
  }

  lemma HalvedStep(n0: nat, level: nat)
    ensures Halved(n0, level + 1) == Halved(n0, level) / 2 && LowSize(n0, level) == (Halved(n0, level) + 1) / 2
  {
    hide Pow2;
    Pow2Step(level);
    var p := Pow2(level);
    DivMod(n0, p);
    var q, r := n0 / p, n0 % p;
    MulAssoc(2, q, p);
    Shuffle(q, 2, p);
    DivUnique(2 * n0, 2 * p, q, 2 * r);
    MulAdd(2 * (q / 2), q % 2, p);
    Shuffle(q / 2, 2, p);
    Rotate(2, q / 2, p);
    MulMono(q % 2, 1, p);
    MulNonNeg(q % 2, p);
    DivUnique(n0, 2 * p, q / 2, (q % 2) * p + r);
  }

  /** Both parts of a piece of two digits or more are pieces of the next level, the larger at most one digit larger. */
  lemma PartsFit(n: int, n0: nat, level: nat)
    requires SizeAt(n, n0, level) && n >= 2
    ensures var low := LowSize(n0, level);
      1 <= low < n && SizeAt(low, n0, level + 1) && SizeAt(n - low, n0, level + 1) && n - low <= low + 1
    ensures Pow2(level) <= n0
  {
    hide Pow2, Halved, LowSize;
    HalvedStep(n0, level);
    LevelBound(n0, level);
  }

  lemma LevelBound(n0: nat, level: nat)
    requires Halved(n0, level) >= 1
    ensures Pow2(level) <= n0
  {
    hide Pow2;
    if n0 < Pow2(level) { DivUnique(n0, Pow2(level), 0, n0); }
  }

  /** ceil_log2(n) + 2 entries are enough for the levels that look up a power. */
  lemma TableSuffices(n0: nat, level: nat, log: nat)
    requires Pow2(level) <= n0 && n0 <= Pow2(log)
    ensures level < log + 2
  {
    hide Pow2;
    if level >= log + 1 {
      Pow2Mono(log + 1, level);
      Pow2Step(log);
    }
  }

  // ----- one level of the conversion -----

  /** Writing a number less than b^n: the quotient and the remainder by b^k are written apart. */
  lemma DigitsJoin(low: seq<nat>, high: seq<nat>, b: nat)
    ensures Number(low + high, b) == Number(low, b) + Number(high, b) * Power(b, |low|)
  {
    hide Number, Power;
    NumberSplit(low + high, b, |low|);
    assert (low + high)[..|low|] == low && (low + high)[|low|..] == high;
  }

  lemma QuotientFits(a: int, q: int, r: int, b: nat, n: nat, k: nat)
    requires k <= n && b >= 1 && 0 <= a < Power(b, n) && a == q * Power(b, k) + r && 0 <= r < Power(b, k)
    ensures 0 <= q < Power(b, n - k)
  {
    hide Power;
    PowerAdd(b, k, n - k);
    PowerPositive(b, k);
    if q < 0 {
      MulMono(q, -1, Power(b, k));
    } else {
      MulComm(Power(b, k), Power(b, n - k));
      CancelStrict(q, Power(b, n - k), Power(b, k));
    }
  }
}
