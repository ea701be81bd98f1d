/**
The arithmetic behind the Newton reciprocal (algorithm 3.5 of Modern Computer
Arithmetic) and behind division by a truncated reciprocal, on plain integers.
*/
module Newton {
  import opened Limb

  lemma Cancel(x: int, y: int, k: int)
    requires 0 < k && x * k <= y * k
    ensures x <= y
  {
    if y < x { MulMono(y + 1, x, k); MulAdd(y, 1, k); }
  }

  lemma CancelStrict(x: int, y: int, k: int)
    requires 0 < k && x * k < y * k
    ensures x < y
  {
    if y <= x { MulMono(y, x, k); }
  }

  lemma MulStrict(x: int, y: int, k: int)
    requires x < y && 0 < k
    ensures x * k < y * k && k * x < k * y
  {
    MulMono(x + 1, y, k);
    MulAdd(x, 1, k);
  }

  lemma Shuffle(x: int, y: int, z: int)
    ensures (x * y) * z == (x * z) * y && (x * y) * z == x * (y * z) && (x * y) * z == y * (x * z)
  {}

  // ----- one Newton step -----

  /**
  a is the number, xh the reciprocal of its high half, t what a*xh misses, tm
  its high part, e the correction; pl, ph and pk stand for B^l, B^h and
  B^(2h - l).
  */
  ghost predicate NewtonStep(a: int, xh: int, t: int, tm: int, e: int, pl: int, ph: int, pk: int) {
    && 0 < a && 0 < xh && 0 < t && 0 < pl && 0 < ph && 0 < pk && 0 <= tm && 0 <= e
    && pk * pl == ph * ph
    && t + a * xh == (pl * ph) * ph
    && tm * pl <= t < (tm + 1) * pl
    && e * pk <= tm * xh < (e + 1) * pk
  }

  /** The correction from above: e*B^2h <= t*xh. */
  lemma CorrectionHigh(xh: int, t: int, tm: int, e: int, pl: int, ph: int, pk: int)
    requires 0 < xh && 0 < pl && pk * pl == ph * ph && tm * pl <= t && e * pk <= tm * xh
    ensures e * (ph * ph) <= t * xh
  {
    MulMono(e * pk, tm * xh, pl);
    Shuffle(e, pk, pl);
    Shuffle(tm, xh, pl);
    MulMono(tm * pl, t, xh);
  }

  /** And from below. */
  lemma CorrectionLow(xh: int, t: int, tm: int, e: int, pl: int, ph: int, pk: int)
    requires 0 < xh && 0 < pl && pk * pl == ph * ph && t < (tm + 1) * pl && tm * xh < (e + 1) * pk
    ensures (t - pl) * xh < (e + 1) * (ph * ph)
  {
    MulStrict(tm * xh, (e + 1) * pk, pl);
    Shuffle(e + 1, pk, pl);
    Shuffle(tm, xh, pl);
    MulAdd(tm, 1, pl);
    MulMono(t - pl, tm * pl, xh);
  }

  lemma ProductSplit(a: int, xh: int, t: int, e: int, pl: int, ph: int)
    requires t + a * xh == (pl * ph) * ph
    ensures a * (xh * pl + e) == (pl * ph) * (pl * ph) - t * pl + a * e
  {
    MulAdd(xh * pl, e, a);
    MulAssoc(a, xh, pl);
    MulAdd(t, a * xh, pl);
    Shuffle(pl * ph, ph, pl);
    MulComm(ph, pl);
  }

  /** a*x < B^2n */
  lemma NewtonBelow(a: int, xh: int, t: int, tm: int, e: int, pl: int, ph: int, pk: int)
    requires NewtonStep(a, xh, t, tm, e, pl, ph, pk)
    ensures a * (xh * pl + e) < (pl * ph) * (pl * ph)
  {
    CorrectionHigh(xh, t, tm, e, pl, ph, pk);
    ProductSplit(a, xh, t, e, pl, ph);
    var s := ph * ph;
    MulPos(ph, ph);
    MulMono(e * s, t * xh, a);
    Shuffle(e, s, a);
    Shuffle(t, xh, a);
    assert (a * e) * s <= t * (a * xh);
    MulSub((pl * ph) * ph, t, t);
    MulPos(t, t);
    MulAssoc(pl, ph, ph);
    MulAssoc(t, pl, s);
    assert (a * e) * s < (t * pl) * s;
    CancelStrict(a * e, t * pl, s);
  }

  /** B^2n < a*(x + 2), as long as a is large against what the truncations lose. */
  lemma NewtonAbove(a: int, xh: int, t: int, tm: int, e: int, pl: int, ph: int, pk: int)
    requires NewtonStep(a, xh, t, tm, e, pl, ph, pk)
    requires t * t + (pl * ph) * (pl * ph) <= a * (ph * ph)
    ensures (pl * ph) * (pl * ph) < a * (xh * pl + e + 2)
  {
    CorrectionLow(xh, t, tm, e, pl, ph, pk);
    ProductSplit(a, xh, t, e + 2, pl, ph);
    var s := ph * ph;
    MulPos(ph, ph);
    MulStrict((t - pl) * xh, (e + 1) * s, a);
    Shuffle(t - pl, xh, a);
    MulAssoc(a, e + 1, s);
    MissedProduct(a, xh, t, pl, ph);
    MulAdd(e + 1, 1, a);
    MulAdd(a * (e + 1), a, s);
    MulAssoc(pl, ph, ph);
    MulAssoc(t, pl, s);
    assert (t * pl) * s < (a * (e + 2)) * s;
    CancelStrict(t * pl, a * (e + 2), s);
  }

  lemma MissedProduct(a: int, xh: int, t: int, pl: int, ph: int)
    requires t + a * xh == (pl * ph) * ph && 0 < t && 0 < pl
    ensures (t - pl) * (a * xh) >= t * ((pl * ph) * ph) - t * t - (pl * ph) * (pl * ph)
  {
    var w := (pl * ph) * ph;
    MulSub(t, pl, a * xh);
    MulSub(w, t, t);
    MulSub(w, t, pl);
    MulPos(pl, t);
    Shuffle(pl * ph, ph, pl);
    MulComm(ph, pl);
  }

  /** A normalised number is large enough: 2h >= n + 1 limbs outweigh the squares. */
  lemma NewtonMargin(a: int, t: int, pn: int, ph: int, b: int)
    requires 10 <= b && 0 < pn <= 2 * a && a < pn && 0 < t < 2 * a && b * pn <= ph * ph
    ensures t * t + pn * pn <= a * (ph * ph)
  {
    MulMono(t, 2 * pn, t);
    MulMono(t, 2 * pn, 2 * pn);
    assert (2 * pn) * (2 * pn) == 4 * (pn * pn);
    MulMono(b * pn, ph * ph, 2 * a);
    MulMono(pn, 2 * a, b * pn);
    Shuffle(b, pn, pn);
    MulMono(10, b, pn * pn);
    MulPos(pn, pn);
    MulAssoc(2, a, ph * ph);
    assert 10 * (pn * pn) <= 2 * (a * (ph * ph));
  }

  // ----- a quotient from a reciprocal -----

  /**
  d times its reciprocal i is p2 or just below; q is i*ah with the low part
  dropped at weight ps. c and k rescale d to the divisor w and p2 to the weight
  pe of ah.
  */
  lemma QuotientEstimate(q: int, ps: int, d: int, i: int, ah: int, p2: int, w: int, pe: int, c: int, k: int)
    requires 0 < ps && 0 < d && 0 <= ah <= ps && 0 < c && 0 < k && 0 <= q
    requires q * ps <= i * ah < (q + 1) * ps && d * i <= p2 < d * (i + 2)
    requires (ps * d) * c == k * w && p2 * c == k * pe
    ensures q * w <= pe * ah < (q + 3) * w
  {
    EstimateBelow(q, ps, d, i, ah, p2);
    EstimateAbove(q, ps, d, i, ah, p2);
    MulMono(q * (ps * d), p2 * ah, c);
    MulStrict(p2 * ah, (q + 3) * (ps * d), c);
    Shuffle(q, ps * d, c);
    Shuffle(q + 3, ps * d, c);
    Shuffle(p2, ah, c);
    Shuffle(k, w, q);
    Shuffle(k, w, q + 3);
    Shuffle(k, pe, ah);
    assert (q * w) * k <= (pe * ah) * k by { Regroup(q, k, w); Regroup(ah, k, pe); }
    assert (pe * ah) * k < ((q + 3) * w) * k by { Regroup(q + 3, k, w); Regroup(ah, k, pe); }
    Cancel(q * w, pe * ah, k);
    CancelStrict(pe * ah, (q + 3) * w, k);
  }

  lemma Regroup(x: int, k: int, w: int)
    ensures x * (k * w) == (x * w) * k && (k * w) * x == (w * x) * k
  {}

  lemma EstimateBelow(q: int, ps: int, d: int, i: int, ah: int, p2: int)
    requires 0 < d && 0 <= ah && q * ps <= i * ah && d * i <= p2
    ensures q * (ps * d) <= p2 * ah
  {
    MulMono(q * ps, i * ah, d);
    MulAssoc(q, ps, d);
    Shuffle(i, ah, d);
    MulComm(i, d);
    MulMono(d * i, p2, ah);
  }

  lemma EstimateAbove(q: int, ps: int, d: int, i: int, ah: int, p2: int)
    requires 0 < ps && 0 < d && 0 <= ah <= ps && i * ah < (q + 1) * ps && p2 < d * (i + 2)
    ensures p2 * ah < (q + 3) * (ps * d)
  {
    MulStrict(i * ah, (q + 1) * ps, d);
    MulAssoc(q + 1, ps, d);
    Shuffle(i, ah, d);
    MulComm(i, d);
    MulAdd(i, 2, d);
    MulMono(p2, d * i + 2 * d, ah);
    MulAdd(d * i, 2 * d, ah);
    MulMono(ah, ps, 2 * d);
    MulAdd(q + 1, 2, ps * d);
    assert 2 * d * ps == 2 * (ps * d);
  }

  /** Truncating the divisor costs a few units more. */
  lemma TruncatedQuotient(q: int, v: int, w: int, pm: int, a: int, ah: int, pe: int)
    requires 0 <= q && 0 <= pm && 0 <= ah && 0 < pe <= v && v <= w <= v + pm && (q + 3) * pm <= 2 * v
    requires q * w <= pe * ah < (q + 3) * w && pe * ah <= a < pe * ah + pe
    ensures 0 <= a - q * v < 6 * v
  {
    MulMono(v, w, q);
    MulMono(w, v + pm, q + 3);
    MulAdd(v, pm, q + 3);
    MulAdd(q, 3, v);
  }
}
