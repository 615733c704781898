/** Single-limb building blocks of Bigint: the reciprocal of a normalized limb and the
    branch-free division step that uses it. */
module BigintInverse {
  import opened Words
  import opened Integers

  /** A limb whose most significant bit is set. */
  predicate Normalized(b: Word) {
    b >= HIGH_BIT
  }

  lemma EstimateBound(r: int, x1: int, x0: int, q: int)
    requires HALF / 2 <= x1 < HALF && 0 <= x0 < HALF
    requires 0 <= q && q * x1 <= r < x1 * HALF + x0
    ensures q <= HALF + 1
    ensures 0 <= q * x0 < BASE
  {
    if q >= HALF + 2 {
      MulMonotone(HALF + 2, q, x1);
      assert false;
    }
    MulMonotone(0, q, x0);
    MulMonotone(q, HALF + 1, x0);
  }

  lemma QuotientBelow(q: int, x: int, rem: int, bound: int)
    requires x > 0 && 0 <= rem < x && 0 <= q * x + rem < x * bound
    ensures 0 <= q < bound
  {
    if q < 0 {
      MulMonotone(q, -1, x);
    }
    if q >= bound {
      MulMonotone(bound, q, x);
    }
  }

  /** The corrections, over the product p == q0 * x of the estimate: s is the partial
      remainder before subtracting m. */
  lemma Corrections(s: Word, m: Word, x: Word)
    requires Normalized(x) && s < x
    ensures var s1 := Wrap(s + x);
            var s2 := Wrap(s1 + x);
            if s >= m then Wrap(s - m) == s - m < x
            else if s1 >= x && s1 < m then Wrap(s2 - m) == s - m + 2 * x < x
            else Wrap(s1 - m) == s - m + x < x
  {
  }

  /** The corrected quotient digit is in range and divides t with the corrected remainder. */
  lemma CorrectedDigit(q: int, x: Word, t: int, d: int, j: int)
    requires 0 < x && 0 <= t < x * HALF && q * x + d == t
    requires j in {0, 1, 2} && 0 <= d + j * x < x
    ensures 0 <= q - j < HALF && (q - j) * x + (d + j * x) == t
  {
    assert (q - j) * x == q * x - j * x;
    QuotientBelow(q - j, x, d + j * x, HALF);
  }

  lemma PartialBound(r: int, h: int, x: int)
    requires 0 <= r < x && 0 <= h < HALF
    ensures 0 <= r * HALF + h < x * HALF
  {
  }

  /** One half-limb digit of schoolbook division: the estimate r / High(x) is at most two too
      large, and the wrapped comparisons detect exactly how much. */
  method HalfDigit(r: Word, h: Word, x: Word) returns (q: Word, rem: Word)
    requires Normalized(x) && r < x && h < HALF
    ensures q * x + rem == r * HALF + h && rem < x && q < HALF
  {
    var m;
    q, rem, m := Estimate(r, h, x);
    ghost var q0, s := q, rem;
    ghost var j := if s >= m then 0 else if Wrap(s + x) >= x && Wrap(s + x) < m then 2 else 1;
    Corrections(s, m, x);
    PartialBound(r, h, x);
    CorrectedDigit(q0, x, r * HALF + h, s - m, j);
    if rem < m {
      q := q - 1;
      rem := Wrap(rem + x);
      if rem >= x && rem < m {
        q := q - 1;
        rem := Wrap(rem + x);
      }
    }
    rem := Wrap(rem - m);
  }

  lemma Halves(x: Word)
    requires Normalized(x)
    ensures x == High(x) * HALF + Low(x) && HALF / 2 <= High(x) < HALF && Low(x) < HALF
  {
  }

  lemma DivBounds(r: int, d: int)
    requires 0 <= r && 0 < d
    ensures r / d >= 0 && r / d * d <= r < r / d * d + d
  {
  }

  lemma EstimateParts(r: int, h: int, q: int, x1: int, x0: int)
    requires HALF / 2 <= x1 < HALF && 0 <= x0 < HALF && 0 <= h < HALF
    requires 0 <= q && q * x1 <= r < q * x1 + x1 && 0 <= r < x1 * HALF + x0
    ensures 0 <= q * x0 < BASE && 0 <= (r - q * x1) * HALF + h < x1 * HALF
    ensures q * (x1 * HALF + x0) + ((r - q * x1) * HALF + h) - q * x0 == r * HALF + h
  {
    EstimateBound(r, x1, x0, q);
    assert q * (x1 * HALF + x0) == q * x1 * HALF + q * x0;
  }

  /** The estimated digit, the partial remainder before and the amount still to subtract. */
  method Estimate(r: Word, h: Word, x: Word) returns (q: Word, s: Word, m: Word)
    requires Normalized(x) && r < x && h < HALF
    ensures q * x + s - m == r * HALF + h && s < x
  {
    var x1, x0 := High(x), Low(x);
    Halves(x);
    DivBounds(r, x1);
    EstimateParts(r, h, r / x1, x1, x0);
    q := r / x1;
    s := r - q * x1;
    m := q * x0;
    s := s * HALF + h;
  }

  /** The reciprocal of a normalized limb: floor((2^64 - 1) / x) - 2^32. */
  function Reciprocal(x: Word): Word
    requires Normalized(x)
  {
    ReciprocalFits(x);
    (BASE * BASE - 1) / x - BASE
  }

  lemma ReciprocalFits(x: Word)
    requires Normalized(x)
    ensures BASE <= (BASE * BASE - 1) / x < 2 * BASE
  {
    var q, r := (BASE * BASE - 1) / x, (BASE * BASE - 1) % x;
    assert q * x + r == BASE * BASE - 1;
    if q < BASE {
      MulMonotone(q, BASE - 1, x);
    }
    if q >= 2 * BASE {
      MulMonotone(2 * BASE, q, x);
    }
  }

  /** The documented reading of the reciprocal: floor(2^64 / x) - 2^32, or all ones where that
      would overflow, which happens for exactly one limb. */
  lemma ReciprocalDocumented(x: Word)
    requires Normalized(x)
    ensures Reciprocal(x) == if x == HIGH_BIT then BASE - 1 else BASE * BASE / x - BASE
  {
    var q, r := (BASE * BASE - 1) / x, (BASE * BASE - 1) % x;
    assert q * x + r == BASE * BASE - 1;
    ReciprocalFits(x);
    assert (BASE * BASE - 1) % HIGH_BIT == HIGH_BIT - 1;
    if r + 1 < x {
      DivModUnique(BASE * BASE, x, q, r + 1);
    } else {
      assert (q + 1) * x == BASE * BASE;
      DivisorOfSquare(q + 1, x);
      DivModUnique(BASE * BASE, x, q + 1, 0);
    }
  }

  lemma DivisorOfSquare(c: nat, x: Word)
    requires Normalized(x) && c * x == BASE * BASE
    ensures x == HIGH_BIT
  {
    Pow2Constants();
    Pow2Add(32, 32);
    assert 2 * Pow2(30) == Pow2(31);
    var j := DivisorOfPow2(c, x, 64);
    if j >= 32 {
      Pow2Monotone(32, j);
    } else if j < 31 {
      Pow2Monotone(j, 30);
    }
  }

  /** Two digits of schoolbook division of [~x, all ones] by x give the reciprocal. */
  method Inverse(x: Word) returns (y: Word)
    requires Normalized(x)
    ensures y == Reciprocal(x)
  {
    var y1, y0 := Not(x), BASE - 1;
    var q1, r1 := HalfDigit(y1, High(y0), x);
    var q0, r0 := HalfDigit(r1, Low(y0), x);
    JoinHalves(q1, q0);
    y := Or(Wrap(q1 * HALF), q0);
    TwoDigits(q1, q0, r1, r0, x);
    DivModUnique(BASE * BASE - 1, x, y + BASE, r0);
  }

  lemma JoinHalves(h: Word, l: Word)
    requires h < HALF && l < HALF
    ensures Or(Wrap(h * HALF), l) == h * HALF + l < BASE
  {
    Pow2Constants();
    HighHalf(h);
    JoinAt(h, l, HALF);
  }

  lemma HighHalf(h: Word)
    requires h < HALF
    ensures Wrap(h * HALF) == h * HALF <= BASE - HALF
  {
  }

  lemma JoinAt(h: nat, l: nat, p: nat)
    requires p == Pow2(16) && l < p
    ensures Or(h * p, l) == h * p + l
  {
    OrDisjoint(h, l, 16);
  }

  lemma TwoDigits(q1: int, q0: int, r1: int, r0: int, x: int)
    requires q1 * x + r1 == (BASE - 1 - x) * HALF + (HALF - 1)
    requires q0 * x + r0 == r1 * HALF + (HALF - 1)
    ensures (q1 * HALF + q0 + BASE) * x + r0 == BASE * BASE - 1
  {
    assert (q1 * HALF + q0 + BASE) * x == q1 * x * HALF + q0 * x + BASE * x;
  }

  /** Two-limb sum modulo 2^64; the carry is read off the wrapped low limb. */
  method Add(a1: Word, a0: Word, b1: Word, b0: Word) returns (x1: Word, x0: Word)
    ensures x1 * BASE + x0 == (a1 * BASE + a0 + b1 * BASE + b0) % (BASE * BASE)
  {
    x0 := Wrap(a0 + b0);
    x1 := Wrap(a1 + b1 + if x0 < a0 then 1 else 0);
    ghost var c0 := if x0 < a0 then 1 else 0;
    ghost var c1 := (a1 + b1 + c0) / BASE;
    DivModUnique(a1 * BASE + a0 + b1 * BASE + b0, BASE * BASE, c1, x1 * BASE + x0);
  }

  /** The dividend estimate S of the branch-free step, times the divisor d, in terms of the
      dividend n = a1 * 2^32 + a0; k is the top bit of a0 and e the slack of the reciprocal v. */
  lemma EstimateIdentity(d: int, v: int, e: int, a1: int, a0: int, k: int)
    requires (v + BASE) * d + e == BASE * BASE - 1
    requires k == 0 || k == 1
    ensures (v * (a1 + k) + a1 * BASE + a0 + k * (d - BASE)) * d ==
            (a1 * BASE + a0) * BASE - (BASE - d) * (a0 - k * (BASE - d)) - (a1 + k) * (1 + e)
  {
    var m := v + BASE;
    assert (v * (a1 + k) + a1 * BASE + a0 + k * (d - BASE)) * d
        == (a1 + k) * (m * d) - 2 * k * (BASE * d) + k * (d * d) + a0 * d by {
      assert v * (a1 + k) + a1 * BASE == m * (a1 + k) - k * BASE;
    }
    assert m * d == BASE * BASE - 1 - e;
    assert k * ((BASE - d) * (BASE - d)) == k * (BASE * BASE) - 2 * k * (BASE * d) + k * (d * d);
  }

  /** The estimate S: no carry is lost, and its high limb is the quotient or one less. */
  lemma EstimateWithinOne(d: int, v: int, e: int, a1: int, a0: int, k: int, S: int)
    requires HIGH_BIT <= d < BASE && 0 <= v && 0 <= e < d
    requires (v + BASE) * d + e == BASE * BASE - 1
    requires 0 <= a1 < d && 0 <= a0 < BASE && k == (if a0 >= HIGH_BIT then 1 else 0)
    requires S == v * (a1 + k) + a1 * BASE + a0 + k * (d - BASE)
    ensures 0 <= S < BASE * BASE
    ensures 0 <= a1 * BASE + a0 - S / BASE * d < 2 * d
  {
    EstimateIdentity(d, v, e, a1, a0, k);
    LowTerm(d, a0, k);
    SlackTerm(d, e, a1, k);
    MulMonotone(0, v, a1 + k);
    FloorOfEstimate(S, d, a1 * BASE + a0, (BASE - d) * (a0 - k * (BASE - d)), (a1 + k) * (1 + e));
  }

  lemma FloorOfEstimate(S: int, d: int, n: int, low: int, slack: int)
    requires 0 < d < BASE && 0 <= S && n < d * BASE
    requires S * d == n * BASE - low - slack
    requires 0 <= low < (BASE - d) * d && 0 <= slack <= d * d
    ensures S < BASE * BASE && 0 <= n - S / BASE * d < 2 * d
  {
    if S >= BASE * BASE {
      MulMonotone(BASE * BASE, S, d);
    }
    var Q, R := S / BASE, S % BASE;
    assert S * d == Q * d * BASE + R * d by {
      assert S == Q * BASE + R;
      assert (Q * BASE + R) * d == Q * d * BASE + R * d;
    }
    MulMonotone(0, R, d);
    MulMonotone(R, BASE - 1, d);
    assert (BASE - d) * d == BASE * d - d * d;
  }

  lemma LowTerm(d: int, a0: int, k: int)
    requires HIGH_BIT <= d < BASE && 0 <= a0 < BASE && k == (if a0 >= HIGH_BIT then 1 else 0)
    ensures 0 <= (BASE - d) * (a0 - k * (BASE - d)) < (BASE - d) * d
  {
    var t := a0 - k * (BASE - d);
    assert 0 <= t < d;
    MulMonotone(0, t, BASE - d);
    MulMonotone(t, d - 1, BASE - d);
    assert (d - 1) * (BASE - d) == (BASE - d) * d - (BASE - d);
  }

  lemma SlackTerm(d: int, e: int, a1: int, k: int)
    requires 0 <= e < d && 0 <= a1 < d && 0 <= k <= 1
    ensures 0 <= (a1 + k) * (1 + e) <= d * d
  {
    MulMonotone(0, a1 + k, 1 + e);
    MulMonotone(a1 + k, d, 1 + e);
    MulMonotone(1 + e, d, d);
  }

  lemma MaskedAdjustment(a1: Word, a0: Word, b: Word)
    requires Normalized(b) && a1 < b
    ensures var a0_mask := if And(a0, HIGH_BIT) != 0 then Not(0) else 0;
            && Wrap(a0 + And(b, a0_mask)) == (if a0 >= HIGH_BIT then a0 + b - BASE else a0)
            && Wrap(a1 - a0_mask) == (if a0 >= HIGH_BIT then a1 + 1 else a1)
  {
    AndMask(a0);
    AndMask(b);
  }

  lemma EstimateOfReciprocal(b: Word, a1: Word, a0: Word, multiplier: int, adjusted: int, S: int)
    requires Normalized(b) && a1 < b
    requires multiplier == if a0 >= HIGH_BIT then a1 + 1 else a1
    requires adjusted == if a0 >= HIGH_BIT then a0 + b - BASE else a0
    requires S == Reciprocal(b) * multiplier + a1 * BASE + adjusted
    ensures 0 <= S < BASE * BASE
    ensures 0 <= a1 * BASE + a0 - S / BASE * b < 2 * b
  {
    var v := Reciprocal(b);
    var e := (BASE * BASE - 1) % b;
    assert (v + BASE) * b + e == BASE * BASE - 1;
    EstimateWithinOne(b, v, e, a1, a0, if a0 >= HIGH_BIT then 1 else 0, S);
  }

  lemma HighLimb(S: int, x1: Word, x0: Word)
    requires 0 <= S < BASE * BASE && x1 * BASE + x0 == S % (BASE * BASE)
    ensures x1 == S / BASE
  {
  }

  /** First half of the branch-free step: the high limb of the estimate is the quotient or one
      less, whichever way the low limb's top bit sends the adjustment. */
  method QuotientEstimate(a1: Word, a0: Word, b: Word, b_inverse: Word) returns (x1: Word)
    requires Normalized(b) && a1 < b && b_inverse == Reciprocal(b)
    ensures 0 <= a1 * BASE + a0 - x1 * b < 2 * b
  {
    MaskedAdjustment(a1, a0, b);
    var a0_mask := if And(a0, HIGH_BIT) != 0 then Not(0) else 0;
    var a0_adjusted := Wrap(a0 + And(b, a0_mask));
    var multiplier := Wrap(a1 - a0_mask);
    var x0, p1;
    x0, p1 := IntMultiply(b_inverse, multiplier);
    ghost var S := p1 * BASE + x0 + a1 * BASE + a0_adjusted;
    EstimateOfReciprocal(b, a1, a0, multiplier, a0_adjusted, S);
    x1, x0 := Add(p1, x0, a1, a0_adjusted);
    HighLimb(S, x1, x0);
  }

  /** What the second multiplication and addition leave when the estimate is Q: the limb above
      the remainder is b or b - 1, which the last three lines turn into the correction. */
  lemma Remultiply(b: Word, n: int, Q: Word, P: int, x1: Word, x0: Word)
    requires Normalized(b) && 0 <= n - Q * b < 2 * b
    requires P == Not(Q) * b && x1 * BASE + x0 == (P + n) % (BASE * BASE)
    ensures var D := n - Q * b; if D < b then x1 == b - 1 && x0 == BASE + D - b else x1 == b && x0 == D - b
  {
    assert Not(Q) * b == BASE * b - b - Q * b;
    LimbsOf(b, n - Q * b, x1, x0);
  }

  lemma LimbsOf(b: Word, D: int, x1: Word, x0: Word)
    requires Normalized(b) && 0 <= D < 2 * b
    requires x1 * BASE + x0 == (b * BASE + D - b) % (BASE * BASE)
    ensures if D < b then x1 == b - 1 && x0 == BASE + D - b else x1 == b && x0 == D - b
  {
  }

  lemma Correct(b: Word, D: int, Q: Word, x1: Word, x0: Word)
    requires Normalized(b) && 0 <= D < 2 * b
    requires if D < b then x1 == b - 1 && x0 == BASE + D - b else x1 == b && x0 == D - b
    ensures Wrap(x0 + And(b, Wrap(x1 - b))) == if D < b then D else D - b
    ensures Wrap(Wrap(x1 - b) - Not(Q)) == if D < b then Q else Wrap(Q + 1)
  {
    AndMask(b);
  }

  /** The division step of Granlund and Montgomery, without a branch: two multiplications by
      a precomputed reciprocal give the exact quotient and remainder of a two-limb number. */
  method PreinvertedDivide(a1: Word, a0: Word, b: Word, b_inverse: Word) returns (q: Word, r: Word)
    requires Normalized(b) && a1 < b && b_inverse == Reciprocal(b)
    ensures q * b + r == a1 * BASE + a0 && r < b
  {
    var x1 := QuotientEstimate(a1, a0, b, b_inverse);
    ghost var n, Q := a1 * BASE + a0, x1;
    var q1 := Not(x1);
    var p0, p1 := IntMultiply(q1, b);
    var x0;
    x1, x0 := Add(p1, p0, a1, a0);
    Remultiply(b, n, Q, p1 * BASE + p0, x1, x0);
    Correct(b, n - Q * b, Q, x1, x0);
    x1 := Wrap(x1 - b);
    r := Wrap(x0 + And(b, x1));
    q := Wrap(x1 - q1);
    Exact(b, a1, a0, Q, q, r);
  }

  lemma Exact(b: Word, a1: Word, a0: Word, Q: Word, q: Word, r: int)
    requires a1 < b && 0 <= a1 * BASE + a0 - Q * b < 2 * b
    requires var D := a1 * BASE + a0 - Q * b;
             if D < b then r == D && q == Q else r == D - b && q == Wrap(Q + 1)
    ensures q * b + r == a1 * BASE + a0 && r < b
  {
    var n := a1 * BASE + a0;
    assert (Q + 1) * b == Q * b + b;
    if n - Q * b >= b {
      QuotientBelow(Q + 1, b, n - (Q + 1) * b, BASE);
    }
  }
}
