/**
Bitwise operations on integers of any sign and length (libbf.c: bf_logic_op),
against infinite two's complement: bit i of x is the parity of x / 2^i rounded
down.
*/
module BfLogic {
  import opened Limb
  import opened MpBasic
  import opened Newton
  import opened BfBits
  import opened BfRound
  import opened BfNormalize
  import opened Rounding
  import opened BfFloat
  import opened BfAdd
  import opened BfExact
  import opened BfDivide
  import opened BfAlign
  import opened Dyadic

  datatype Op = Or | Xor | And

  /** The operation on two bits. */
  function OnBits(op: Op, x: bool, y: bool): bool {
    match op
    case Or => x || y
    case Xor => x != y
    case And => x && y
  }

  /** Bit pos of x in two's complement. */
  ghost predicate BitOf(x: int, pos: nat) {
    Bit(x, pos) == 1
  }

  // ----- bits of integers -----

  lemma BitSplit(x: int, pos: nat)
    ensures BitOf(x, 0) == (x % 2 == 1) && BitOf(x, pos + 1) == BitOf(x / 2, pos)
  {
    hide Pow2;
    Pow2Zero();
    DivUnique(x, 1, x, 0);
    Pow2Add(1, pos);
    Pow2Values();
    HalfThen(x, Pow2(pos));
  }

  lemma HalfThen(x: int, p: int)
    requires 0 < p
    ensures x / (2 * p) == (x / 2) / p
  {
    DropLow(x % 2, x / 2, 2, p);
    DivMod(x, 2);
  }

  /** The complement flips every bit. */
  lemma {:induction false} ComplementFlips(x: int, pos: nat)
    ensures BitOf(-x - 1, pos) == !BitOf(x, pos)
    decreases pos
  {
    hide BitOf;
    BitSplit(x, if pos == 0 then 0 else pos - 1);
    BitSplit(-x - 1, if pos == 0 then 0 else pos - 1);
    if pos > 0 {
      assert (-x - 1) / 2 == -(x / 2) - 1;
      ComplementFlips(x / 2, pos - 1);
    }
  }

  lemma ZeroBits(pos: nat)
    ensures !BitOf(0, pos)
  {
    hide Pow2;
    DivUnique(0, Pow2(pos), 0, 0);
  }

  /** An integer is determined by its bits. */
  lemma {:induction false} BitsDetermine(x: int, y: int)
    requires forall pos: nat :: BitOf(x, pos) == BitOf(y, pos)
    ensures x == y
    decreases Size(x) + Size(y)
  {
    hide BitOf;
    BitSplit(x, 0);
    BitSplit(y, 0);
    assert BitOf(x, 0) == BitOf(y, 0);
    if Size(x) + Size(y) > 0 {
      forall pos: nat ensures BitOf(x / 2, pos) == BitOf(y / 2, pos) {
        BitSplit(x, pos);
        BitSplit(y, pos);
        assert BitOf(x, pos + 1) == BitOf(y, pos + 1);
      }
      BitsDetermine(x / 2, y / 2);
    }
  }

  function Size(x: int): nat {
    if x < 0 then -x - 1 else x
  }

  // ----- bits of limbs -----

  /** The operation on the n low bits of two limbs. */
  function OnLimbs(op: Op, x: nat, y: nat, n: nat): nat {
    if n == 0 then 0
    else 2 * OnLimbs(op, x / 2, y / 2, n - 1) + (if OnBits(op, x % 2 == 1, y % 2 == 1) then 1 else 0)
  }

  lemma {:induction false} OnLimbsBelow(op: Op, x: nat, y: nat, n: nat)
    ensures OnLimbs(op, x, y, n) < Pow2(n)
    decreases n
  {
    hide Pow2;
    if n == 0 {
      Pow2Zero();
    } else {
      OnLimbsBelow(op, x / 2, y / 2, n - 1);
      Pow2Step(n - 1);
    }
  }

  lemma {:induction false} OnLimbsBit(op: Op, x: nat, y: nat, n: nat, pos: nat)
    requires pos < n
    ensures BitOf(OnLimbs(op, x, y, n), pos) == OnBits(op, BitOf(x, pos), BitOf(y, pos))
    decreases n
  {
    hide BitOf, OnBits;
    var z := OnLimbs(op, x, y, n);
    var q := if pos == 0 then 0 else pos - 1;
    BitSplit(x, q);
    BitSplit(y, q);
    BitSplit(z, q);
    if pos > 0 {
      OnLimbsBit(op, x / 2, y / 2, n - 1, pos - 1);
      assert z / 2 == OnLimbs(op, x / 2, y / 2, n - 1);
    }
  }

  /** v ^ mask, where the mask is all ones or zero. */
  function Flip(v: int, all: bool): int {
    if all then B - 1 - v else v
  }

  lemma FlipBit(v: int, all: bool, pos: nat)
    requires 0 <= v < B && pos < LIMB_BITS
    ensures 0 <= Flip(v, all) < B && BitOf(Flip(v, all), pos) == (all != BitOf(v, pos))
  {
    hide B, Pow2, BitOf;
    Base();
    if all {
      ComplementFlips(v, pos);
      LowBitsSame(-v - 1, pos);
    }
  }

  /** Adding B does not change the bits of one limb. */
  lemma LowBitsSame(x: int, pos: nat)
    requires pos < LIMB_BITS
    ensures BitOf(x + B, pos) == BitOf(x, pos)
  {
    hide B, Pow2;
    BaseSplit(pos);
    Pow2Step(LIMB_BITS - pos - 1);
    var c, p := Pow2(LIMB_BITS - pos - 1), Pow2(pos);
    DivMod(x, p);
    MulAdd(x / p, 2 * c, p);
    DivUnique(x + (2 * c) * p, p, x / p + 2 * c, x % p);
  }

  /** Bit pos of a number of limbs is a bit of one of them. */
  lemma LimbBit(t: seq<nat>, pos: nat)
    requires IsLimbs(t) && pos / LIMB_BITS < |t|
    ensures BitOf(Val(t), pos) == BitOf(t[pos / LIMB_BITS], pos % LIMB_BITS)
  {
    hide Val, Pow, B;
    GetBitInside(t, pos);
  }

  /** The bits of a word above the lowest limb do not reach down into it. */
  lemma WordBit(w: int, p: nat)
    requires p < LIMB_BITS && B > 0
    ensures Bit(w, p) == Bit(w % B, p)
  {
    hide Pow2, B;
    DivMod(w, B);
    BaseSplit(p);
    MulComm(w / B, B);
    ShiftLimb(w % B, w / B, Pow2(p), Pow2(LIMB_BITS - p));
    Pow2Step(LIMB_BITS - p - 1);
    EvenShift((w % B) / Pow2(p), Pow2(LIMB_BITS - p - 1), w / B);
  }

  /** The same for the limbs of any number. */
  lemma NumberBit(m: int, pos: nat)
    ensures BitOf(m, pos) == BitOf(LimbOf(m, pos / LIMB_BITS), pos % LIMB_BITS)
  {
    hide Pow, Pow2, B;
    Base();
    var i, p := pos / LIMB_BITS, pos % LIMB_BITS;
    Position(pos);
    DivMod(m, Pow(i));
    DropLow(m % Pow(i), m / Pow(i), Pow(i), Pow2(p));
    WordBit(m / Pow(i), p);
  }

  // ----- the reference -----

  /** The operation on two integers, from the lowest bit up. */
  ghost function Bitwise(op: Op, x: int, y: int): int
    decreases Size(x) + Size(y)
  {
    var bit := if OnBits(op, x % 2 == 1, y % 2 == 1) then 1 else 0;
    if Size(x) + Size(y) == 0 then 0 - bit else 2 * Bitwise(op, x / 2, y / 2) + bit
  }

  /** It acts on each bit by itself. */
  lemma {:induction false} BitwiseBit(op: Op, x: int, y: int, pos: nat)
    ensures BitOf(Bitwise(op, x, y), pos) == OnBits(op, BitOf(x, pos), BitOf(y, pos))
    decreases pos
  {
    hide BitOf;
    var z, q := Bitwise(op, x, y), if pos == 0 then 0 else pos - 1;
    BitSplit(x, q);
    BitSplit(y, q);
    BitSplit(z, q);
    if pos > 0 {
      BitwiseBit(op, x / 2, y / 2, pos - 1);
      assert z / 2 == Bitwise(op, x / 2, y / 2);
    }
  }

  /** Or sets a bit that either operand has, and a bit that both have, xor one that just one of them has. */
  lemma BitwiseMeans(x: int, y: int, pos: nat)
    ensures BitOf(Bitwise(Or, x, y), pos) <==> BitOf(x, pos) || BitOf(y, pos)
    ensures BitOf(Bitwise(And, x, y), pos) <==> BitOf(x, pos) && BitOf(y, pos)
    ensures BitOf(Bitwise(Xor, x, y), pos) <==> BitOf(x, pos) != BitOf(y, pos)
  {
    hide BitOf, Bitwise;
    BitwiseBit(Or, x, y, pos);
    BitwiseBit(And, x, y, pos);
    BitwiseBit(Xor, x, y, pos);
  }

  /** What or and and share out between them is the sum; xor is what is in the one and not in the other. */
  lemma {:induction false} SumOfBits(x: int, y: int)
    ensures Bitwise(Or, x, y) + Bitwise(And, x, y) == x + y
    ensures Bitwise(Xor, x, y) == Bitwise(Or, x, y) - Bitwise(And, x, y)
    decreases Size(x) + Size(y)
  {
    if Size(x) + Size(y) > 0 {
      SumOfBits(x / 2, y / 2);
    }
  }

  /** Masking with a number that is not negative gives one that is not above it, whatever the other sign. */
  lemma {:induction false} MaskBelow(x: int, y: int)
    requires 0 <= x
    ensures 0 <= Bitwise(And, x, y) <= x
    decreases Size(x) + Size(y)
  {
    if Size(x) + Size(y) > 0 {
      MaskBelow(x / 2, y / 2);
    }
  }

  /** The bits of x are those of its magnitude, which for a negative x is -x - 1, flipped. */
  lemma SizeBit(x: int, pos: nat)
    ensures BitOf(x, pos) == ((x < 0) != BitOf(Size(x), pos))
  {
    hide BitOf;
    if x < 0 { ComplementFlips(x, pos); }
  }

  // ----- the operands -----

  /** The limbs t with exponent e hold the natural number m. */
  ghost predicate Holds(t: seq<nat>, e: int, m: int) {
    IsLimbs(t) && SameValue(Val(t), e - |t| * LIMB_BITS, m, 0) && 0 <= m && (if e > 0 then m < Pow2(e) else m == 0)
  }

  lemma ZeroHolds(e: int)
    requires e <= 0
    ensures Holds([], e, 0)
  {
    hide Val, Pow2;
    ValEmpty();
  }

  lemma NormalHolds(t: seq<nat>, e: int, m: int, l: nat)
    requires NormalForm(t) && SameValue(Val(t), e - |t| * LIMB_BITS, m, 0) && m < Pow2(l)
    ensures 1 <= e <= l && Holds(t, e, m)
  {
    hide Val, Pow, Pow2, B, SameValue, HasExponent;
    var n := |t| * LIMB_BITS;
    NormalParts(t);
    assert HasExponent(Val(t), e - n, e) by { FullExponent(Val(t), |t|, e); }
    IntegerExponent(Val(t), e - n, e, m, l);
    if m >= Pow2(e) { Oversized(Val(t), e - n, e, m); }
  }

  lemma FullExponent(v: int, n: nat, e: int)
    requires n >= 1 && v < Pow(n) <= 2 * v
    ensures HasExponent(v, e - n * LIMB_BITS, e)
  {
    hide Pow, Pow2;
    PowBits(n);
    MulMono(1, n, LIMB_BITS);
    Pow2Step(n * LIMB_BITS - 1);
  }

  /** A number of exponent e is below 2^e. */
  lemma Oversized(z: int, g: int, e: int, n: int)
    requires HasExponent(z, g, e) && SameValue(z, g, n, 0) && 0 <= e
    ensures n < Pow2(e)
  {
    hide Pow2;
    if g >= 0 {
      Pow2Add(e - g, g);
      MulStrict(z, Pow2(e - g), Pow2(g));
    } else {
      Pow2Add(e, -g);
      var p, q := Pow2(-g), Pow2(e);
      assert n * p < q * p;
      CancelStrict(n, q, p);
    }
  }

  /** What the operand of an integer holds, and when its exponent is positive. */
  lemma OperandHolds(a: BigFloat, x: int, l: nat)
    requires Represents(a, x) && Abs(x) < Pow2(l)
    ensures Holds(a.tab[..], a.expn, Abs(x)) && (a.expn > 0 <==> x != 0) && a.expn <= l
  {
    hide Val, Pow, Pow2, B, SameValue, NormalForm, Holds, EXP_INF;
    if x == 0 {
      SmallExponents();
      assert a.tab[..] == [];
      ZeroHolds(a.expn);
    } else {
      NormalHolds(a.tab[..], a.expn, Abs(x), l);
    }
  }

  /** get_bits at the place of the radix point reads the limbs of the integer. */
  lemma IntegerLimb(t: seq<nat>, e: int, m: int, i: nat)
    requires Holds(t, e, m)
    ensures B > 0 && GetBits(t, |t| * LIMB_BITS - e + i * LIMB_BITS) == LimbOf(m, i)
  {
    hide Val, Pow, Pow2, B, IsLimbs, GetBits;
    Base();
    var f := e - |t| * LIMB_BITS;
    var pos := i * LIMB_BITS - f;
    GetBitsExact(t, pos);
    if f >= 0 {
      ShiftedLimb(Val(t), f, i);
    } else {
      PowBits(i);
      MulNonNeg(i, LIMB_BITS);
      Pow2Add(i * LIMB_BITS, -f);
      DivUniqueScaled(m, Pow(i), Pow2(-f));
    }
  }

  /** A number has no bits at or above its exponent. */
  lemma NoHighBits(t: seq<nat>, e: int, m: int, pos: nat)
    requires Holds(t, e, m) && pos >= e
    ensures !BitOf(m, pos)
  {
    hide Pow2;
    if e > 0 { Pow2Mono(e, pos); }
    DivUnique(m, Pow2(pos), 0, m);
  }

  // ----- the limbs of the result -----

  /** The number of limbs: an AND of non-negative sign needs no more than a non-negative operand. */
  function ResultLimbs(op: Op, aNeg: bool, bNeg: bool, ea: int, eb: int): int {
    var l :=
      if op == And && !OnBits(op, aNeg, bNeg) then
        if !aNeg && !bNeg then Lower(ea, eb) else if !aNeg then ea else eb
      else if ea < eb then eb else ea;
    ((if l < 1 then 1 else l) + LIMB_BITS - 1) / LIMB_BITS
  }

  lemma EnoughLimbs(op: Op, aNeg: bool, bNeg: bool, ea: int, eb: int, bits: nat)
    requires ea <= bits && eb <= bits && bits >= 1
    ensures var n := ResultLimbs(op, aNeg, bNeg, ea, eb); n >= 1 && n * LIMB_BITS < bits + LIMB_BITS
    ensures var n := ResultLimbs(op, aNeg, bNeg, ea, eb) * LIMB_BITS;
      if op == And && !(aNeg && bNeg) then (!aNeg && n >= ea) || (!bNeg && n >= eb) else n >= ea && n >= eb
  {
    var l :=
      if op == And && !OnBits(op, aNeg, bNeg) then
        if !aNeg && !bNeg then Lower(ea, eb) else if !aNeg then ea else eb
      else if ea < eb then eb else ea;
    RoundedUp(if l < 1 then 1 else l);
  }

  lemma RoundedUp(l: int)
    requires l >= 1
    ensures var n := (l + LIMB_BITS - 1) / LIMB_BITS; n >= 1 && l <= n * LIMB_BITS < l + LIMB_BITS
  {
    var n := (l + LIMB_BITS - 1) / LIMB_BITS;
    DivMod(l + LIMB_BITS - 1, LIMB_BITS);
    if n <= 0 { MulMono(n, 0, LIMB_BITS); }
  }

  /** Bit pos of the result, from the bits of the magnitudes. */
  ghost predicate ResultBit(op: Op, aNeg: bool, bNeg: bool, ma: int, mb: int, pos: nat) {
    OnBits(op, aNeg, bNeg) != OnBits(op, aNeg != BitOf(ma, pos), bNeg != BitOf(mb, pos))
  }

  /** Above the limbs of the result every bit is its sign. */
  lemma NothingAbove(op: Op, aNeg: bool, bNeg: bool, a: seq<nat>, ea: int, ma: int, b: seq<nat>, eb: int, mb: int,
      pos: nat)
    requires Holds(a, ea, ma) && Holds(b, eb, mb)
    requires
      if op == And && !(aNeg && bNeg) then (!aNeg && pos >= ea) || (!bNeg && pos >= eb)
      else pos >= ea && pos >= eb
    ensures !ResultBit(op, aNeg, bNeg, ma, mb, pos)
  {
    hide Holds, BitOf;
    if pos >= ea { NoHighBits(a, ea, ma, pos); }
    if pos >= eb { NoHighBits(b, eb, mb, pos); }
  }

  /** One turn of the loop of bf_logic_op. */
  function ResultLimb(op: Op, aNeg: bool, bNeg: bool, v: nat, w: nat): int
    requires v < B && w < B
  {
    Flip(OnLimbs(op, Flip(v, aNeg), Flip(w, bNeg), LIMB_BITS), OnBits(op, aNeg, bNeg))
  }

  lemma ResultLimbBit(op: Op, aNeg: bool, bNeg: bool, v: nat, w: nat, p: nat)
    requires v < B && w < B && p < LIMB_BITS
    ensures 0 <= ResultLimb(op, aNeg, bNeg, v, w) < B
    ensures BitOf(ResultLimb(op, aNeg, bNeg, v, w), p) == ResultBit(op, aNeg, bNeg, v, w, p)
  {
    hide BitOf, OnBits, Flip, OnLimbs, B;
    FlipBit(v, aNeg, p);
    FlipBit(w, bNeg, p);
    var x, y := Flip(v, aNeg), Flip(w, bNeg);
    OnLimbsBelow(op, x, y, LIMB_BITS);
    OnLimbsBit(op, x, y, LIMB_BITS, p);
    BasePow2();
    FlipBit(OnLimbs(op, x, y, LIMB_BITS), OnBits(op, aNeg, bNeg), p);
  }

  /** The loop of bf_logic_op. */
  method LogicLimbs(op: Op, aNeg: bool, bNeg: bool, a: BigFloat, b: BigFloat, l: nat, ghost ma: int,
      ghost mb: int) returns (r: array<nat>)
    requires Holds(a.tab[..], a.expn, ma) && Holds(b.tab[..], b.expn, mb)
    ensures fresh(r) && r.Length == l
    ensures LimbwiseResult(op, aNeg, bNeg, r[..], ma, mb)
  {
    hide BitOf, OnBits, Flip, OnLimbs, B, Holds, LimbOf, GetBits, ResultLimb;
    Base();
    r := new nat[l];
    var offsetA, offsetB := a.tab.Length * LIMB_BITS - a.expn, b.tab.Length * LIMB_BITS - b.expn;
    var i := 0;
    while i < l
      invariant 0 <= i <= l
      invariant forall j :: 0 <= j < i ==>
        0 <= LimbOf(ma, j) < B && 0 <= LimbOf(mb, j) < B &&
          r[j] == ResultLimb(op, aNeg, bNeg, LimbOf(ma, j), LimbOf(mb, j))
    {
      IntegerLimb(a.tab[..], a.expn, ma, i);
      IntegerLimb(b.tab[..], b.expn, mb, i);
      LimbRange(ma, i);
      LimbRange(mb, i);
      var v := GetBits(a.tab[..], offsetA + i * LIMB_BITS);
      var w := GetBits(b.tab[..], offsetB + i * LIMB_BITS);
      ResultLimbBit(op, aNeg, bNeg, v, w, 0);
      r[i] := ResultLimb(op, aNeg, bNeg, v, w);
      i := i + 1;
    }
  }

  /** Every bit of the limbs is the bit that the operation asks for. */
  lemma LogicLimbsBit(op: Op, aNeg: bool, bNeg: bool, r: seq<nat>, ma: int, mb: int, pos: nat)
    requires IsLimbs(r) && pos / LIMB_BITS < |r|
    requires var i := pos / LIMB_BITS;
      0 <= LimbOf(ma, i) < B && 0 <= LimbOf(mb, i) < B &&
        r[i] == ResultLimb(op, aNeg, bNeg, LimbOf(ma, i), LimbOf(mb, i))
    ensures BitOf(Val(r), pos) == ResultBit(op, aNeg, bNeg, ma, mb, pos)
  {
    hide BitOf, OnBits, ResultLimb, B, LimbOf, Val, IsLimbs;
    var i, p := pos / LIMB_BITS, pos % LIMB_BITS;
    LimbBit(r, pos);
    NumberBit(ma, pos);
    NumberBit(mb, pos);
    ResultLimbBit(op, aNeg, bNeg, LimbOf(ma, i), LimbOf(mb, i), p);
  }

  lemma NoBitsAbove(r: seq<nat>, pos: nat)
    requires IsLimbs(r) && pos >= |r| * LIMB_BITS
    ensures !BitOf(Val(r), pos)
  {
    hide Val, Pow, Pow2, IsLimbs;
    ValBound(r);
    AboveAll(Val(r), pos, |r|);
  }

  /** The magnitude computed, with the sign, is the result. */
  lemma LogicCorrect(op: Op, x: int, y: int, mag: int)
    requires 0 <= mag && forall pos: nat :: BitOf(mag, pos) == ResultBit(op, x < 0, y < 0, Size(x), Size(y), pos)
    ensures Bitwise(op, x, y) == if OnBits(op, x < 0, y < 0) then -mag - 1 else mag
  {
    hide BitOf, OnBits, Size, Bitwise;
    var neg := OnBits(op, x < 0, y < 0);
    var z := if neg then -mag - 1 else mag;
    forall pos: nat ensures BitOf(z, pos) == BitOf(Bitwise(op, x, y), pos) {
      assert BitOf(mag, pos) == ResultBit(op, x < 0, y < 0, Size(x), Size(y), pos);
      SizeBit(x, pos);
      SizeBit(y, pos);
      BitwiseBit(op, x, y, pos);
      if neg { ComplementFlips(mag, pos); }
    }
    BitsDetermine(z, Bitwise(op, x, y));
  }

  /** Limb by limb, as the loop computes them. */
  ghost predicate LimbwiseResult(op: Op, aNeg: bool, bNeg: bool, r: seq<nat>, ma: int, mb: int) {
    forall i :: 0 <= i < |r| ==>
      && 0 <= LimbOf(ma, i) < B && 0 <= LimbOf(mb, i) < B
      && r[i] == ResultLimb(op, aNeg, bNeg, LimbOf(ma, i), LimbOf(mb, i))
  }

  lemma LimbwiseBelow(op: Op, aNeg: bool, bNeg: bool, r: seq<nat>, ma: int, mb: int)
    requires LimbwiseResult(op, aNeg, bNeg, r, ma, mb)
    ensures IsLimbs(r)
  {
    hide ResultLimb, LimbOf, B, ResultBit, BitOf;
    forall i | 0 <= i < |r| ensures 0 <= r[i] < B { ResultLimbBit(op, aNeg, bNeg, LimbOf(ma, i), LimbOf(mb, i), 0); }
  }

  lemma LimbwiseBit(op: Op, aNeg: bool, bNeg: bool, r: seq<nat>, ma: int, mb: int, pos: nat)
    requires LimbwiseResult(op, aNeg, bNeg, r, ma, mb) && IsLimbs(r) && pos / LIMB_BITS < |r|
    ensures BitOf(Val(r), pos) == ResultBit(op, aNeg, bNeg, ma, mb, pos)
  {
    hide ResultLimb, LimbOf, B, ResultBit, BitOf, Val, IsLimbs;
    DivMod(pos, LIMB_BITS);
    LogicLimbsBit(op, aNeg, bNeg, r, ma, mb, pos);
  }

  lemma MagnitudeCorrect(op: Op, r: seq<nat>, a: seq<nat>, ea: int, b: seq<nat>, eb: int, x: int, y: int, bits: nat)
    requires Holds(a, ea, Size(x)) && Holds(b, eb, Size(y)) && ea <= bits && eb <= bits && bits >= 1
    requires |r| == ResultLimbs(op, x < 0, y < 0, ea, eb) && LimbwiseResult(op, x < 0, y < 0, r, Size(x), Size(y))
    ensures IsLimbs(r) && Bitwise(op, x, y) == if OnBits(op, x < 0, y < 0) then -(Val(r) as int) - 1 else Val(r)
  {
    hide BitOf, OnBits, Val, Holds, Size, Bitwise, ResultBit, LimbwiseResult, ResultLimbs, IsLimbs;
    LimbwiseBelow(op, x < 0, y < 0, r, Size(x), Size(y));
    EnoughLimbs(op, x < 0, y < 0, ea, eb, bits);
    forall pos: nat ensures BitOf(Val(r), pos) == ResultBit(op, x < 0, y < 0, Size(x), Size(y), pos) {
      if pos / LIMB_BITS < |r| {
        LimbwiseBit(op, x < 0, y < 0, r, Size(x), Size(y), pos);
      } else {
        DivMod(pos, LIMB_BITS);
        MulMono(|r|, pos / LIMB_BITS, LIMB_BITS);
        NoBitsAbove(r, pos);
        NothingAbove(op, x < 0, y < 0, a, ea, Size(x), b, eb, Size(y), pos);
      }
    }
    LogicCorrect(op, x, y, Val(r));
  }

  /** The limbs of the magnitude of the result. */
  method ResultMagnitude(op: Op, a: BigFloat, b: BigFloat, aNeg: bool, bNeg: bool, ghost x: int, ghost y: int,
      ghost bits: nat) returns (r: array<nat>)
    requires aNeg == (x < 0) && bNeg == (y < 0) && bits >= 1
    requires Holds(a.tab[..], a.expn, Size(x)) && Holds(b.tab[..], b.expn, Size(y)) && a.expn <= bits && b.expn <= bits
    ensures fresh(r) && r.Length >= 1 && r.Length * LIMB_BITS < bits + LIMB_BITS && IsLimbs(r[..])
    ensures Bitwise(op, x, y) == if OnBits(op, x < 0, y < 0) then -(Val(r[..]) as int) - 1 else Val(r[..])
  {
    hide BitOf, OnBits, B, Val, Holds, Size, Bitwise, LimbwiseResult, IsLimbs, ResultLimbs;
    var l := ResultLimbs(op, aNeg, bNeg, a.expn, b.expn);
    EnoughLimbs(op, aNeg, bNeg, a.expn, b.expn, bits);
    r := LogicLimbs(op, aNeg, bNeg, a, b, l, Size(x), Size(y));
    MagnitudeCorrect(op, r[..], a.tab[..], a.expn, b.tab[..], b.expn, x, y, bits);
  }

  /** The operand itself, or one more than a negative one: the magnitude is then that of its complement. */
  method Complemented(a1: BigFloat, ghost x: int, ghost bits: nat) returns (a: BigFloat, neg: bool)
    requires Represents(a1, x) && Abs(x) < Pow2(bits) && 1 <= bits <= MAX_BITS
    ensures neg == (x < 0) && Holds(a.tab[..], a.expn, Size(x)) && a.expn <= bits
  {
    hide Pow2, Holds, Val, MAX_BITS, Represents;
    OperandHolds(a1, x, bits);
    a := a1;
    neg := a1.expn > 0 && a1.sign;
    assert neg == (x < 0) by { SignOf(a1, x); }
    if neg {
      var one := UnitOf(false);
      Pow2Mono(1, bits);
      Pow2Values();
      a := AddExact(a1, one, false, x, 1, bits);
      OperandHolds(a, x + 1, bits);
    }
  }

  lemma SignOf(a: BigFloat, x: int)
    requires Represents(a, x)
    ensures x != 0 ==> a.sign == (x < 0)
  {}

  method UnitOf(neg: bool) returns (r: BigFloat)
    ensures fresh(r) && fresh(r.tab) && Represents(r, if neg then -1 else 1)
  {
    hide B;
    Base();
    r := SetSmall(1, neg);
  }

  /** bf_logic_op: and, or, xor of two integers in two's complement, whatever their signs and lengths. */
  method LogicOp(a1: BigFloat, b1: BigFloat, op: Op, ghost x: int, ghost y: int, ghost bits: nat) returns (r: BigFloat)
    requires Represents(a1, x) && Represents(b1, y) && Abs(x) < Pow2(bits) && Abs(y) < Pow2(bits)
    requires 1 <= bits <= MAX_BITS
    ensures fresh(r) && fresh(r.tab) && Represents(r, Bitwise(op, x, y))
  {
    hide B, Pow, Pow2, Val, Represents, Bitwise, OnBits, Size, Holds, IsLimbs, MAX_BITS;
    var a, aNeg := Complemented(a1, x, bits);
    var b, bNeg := Complemented(b1, y, bits);
    var rNeg := OnBits(op, aNeg, bNeg);
    var t := ResultMagnitude(op, a, b, aNeg, bNeg, x, y, bits);
    ghost var mag: int := Val(t[..]);
    r := FromLimbs(t, rNeg);
    if rNeg {
      var one := UnitOf(true);
      ValBound(t[..]);
      PowBits(t.Length);
      SmallerThanPower(t.Length);
      r := AddExact(r, one, false, -mag, -1, t.Length * LIMB_BITS);
    }
  }

  lemma SmallerThanPower(n: nat)
    requires n >= 1
    ensures 1 < Pow2(n * LIMB_BITS)
  {
    hide Pow2;
    MulMono(1, n, LIMB_BITS);
    Pow2Mono(1, n * LIMB_BITS);
    Pow2Values();
  }

  /** An integer given by limbs of its magnitude, brought to normal form. */
  method FromLimbs(t: array<nat>, neg: bool) returns (r: BigFloat)
    requires IsLimbs(t[..]) && t.Length * LIMB_BITS <= MAX_BITS + LIMB_BITS
    ensures fresh(r) && fresh(r.tab) && Represents(r, Signed(neg, Val(t[..])))
  {
    hide Val, Pow, Pow2, B, SameValue, PREC_INF, MAX_BITS, NormalForm, SumRounded, BigFloat.Outcome, RoundPrec,
      RoundsTo, HasExponent, ExpMax, ExpMin, IsLimbs;
    Ranges();
    r := new BigFloat();
    r.tab, r.expn, r.sign := t, t.Length * LIMB_BITS, neg;
    ghost var mag: int := Val(t[..]);
    var st;
    ghost var e, units;
    st, e, units := NormalizeAndRound(r, PREC_INF, EXACT);
    if mag != 0 {
      ValBound(t[..]);
      PowBits(t.Length);
      WholePlace(mag);
      RoundedSum(RNDZ, neg, mag, 0, e, RoundPrec(PREC_INF, EXACT, e), units);
      ExactOutcome(r, st, mag, 0, e, units, mag, t.Length * LIMB_BITS);
    }
  }

  lemma WholePlace(m: int)
    ensures SameValue(m, 0, m, 0)
  {
    Pow2Zero();
  }

  lemma RoundedSum(mode: Mode, neg: bool, z: int, g: int, e: int, prec: int, units: int)
    requires HasExponent(z, g, e) && RoundsTo(mode, neg, z, e - prec - g, units)
    ensures SumRounded(mode, neg, z, g, e, prec, units)
  {}
}
