/** Generic integer arithmetic: the double-width product assembled from half-words. */
module Integers {
  import opened Words

  lemma HalfProductBound(x: int, y: int)
    requires 0 <= x < HALF && 0 <= y < HALF
    ensures 0 <= x * y <= (HALF - 1) * (HALF - 1)
  {
    SquareBound(x, y, HALF - 1);
  }

  lemma SquareBound(x: int, y: int, m: int)
    requires 0 <= x <= m && 0 <= y <= m
    ensures 0 <= x * y <= m * m
  {
    MulMonotone(x, m, y);
    MulMonotone(y, m, m);
  }

  lemma SplitProduct(ah: int, al: int, bh: int, bl: int)
    ensures (ah * HALF + al) * (bh * HALF + bl) ==
            ah * bh * BASE + (ah * bl + al * bh) * HALF + al * bl
  {
    var a, b := ah * HALF + al, bh * HALF + bl;
    assert a * b == ah * HALF * b + al * b;
    assert ah * HALF * b == ah * bh * BASE + ah * bl * HALF;
    assert al * b == al * bh * HALF + al * bl;
  }

  /** Adding up the partial products p3 : p1 + p2 : p0 with one detected carry. */
  lemma Assemble(p0: int, p1: int, p2: int, p3: int)
    requires 0 <= p0 <= (HALF - 1) * (HALF - 1) && 0 <= p1 <= (HALF - 1) * (HALF - 1)
    requires 0 <= p2 <= (HALF - 1) * (HALF - 1) && 0 <= p3 <= (HALF - 1) * (HALF - 1)
    requires p3 * BASE + (p1 + p2) * HALF + p0 < BASE * BASE
    ensures var r2 := Wrap(p2 + p0 / HALF + p1);
            var r3 := if r2 < p1 then Wrap(p3 + HALF) else p3;
            Wrap(r3 + High(r2)) * BASE + Wrap(Wrap(r2 * HALF) + Low(p0)) ==
            p3 * BASE + (p1 + p2) * HALF + p0
  {
    var q0, l0 := p0 / HALF, Low(p0);
    var r2 := Wrap(p2 + q0 + p1);
    var carry := if r2 < p1 then 1 else 0;
    assert p0 == q0 * HALF + l0;
    MiddleCarry(p2 + q0, p1);
    var h2, l2 := High(r2), Low(r2);
    assert r2 == h2 * HALF + l2;
    ShiftHalf(r2);
    TopFits(p3, carry, h2, l2 * HALF + l0, p3 * BASE + (p1 + p2) * HALF + p0);
  }

  lemma MiddleCarry(m: int, p1: int)
    requires 0 <= m < BASE && 0 <= p1 < BASE
    ensures m + p1 == Wrap(m + p1) + (if Wrap(m + p1) < p1 then BASE else 0)
  {
  }

  lemma ShiftHalf(r: Word)
    ensures Wrap(r * HALF) == Low(r) * HALF
  {
  }

  lemma TopFits(p3: int, carry: int, h2: int, lo: int, total: int)
    requires 0 <= p3 && 0 <= carry <= 1 && 0 <= h2 < HALF && 0 <= lo < BASE
    requires total == (p3 + carry * HALF + h2) * BASE + lo < BASE * BASE
    ensures 0 <= p3 + carry * HALF + h2 < BASE
    ensures Wrap((if carry == 1 then Wrap(p3 + HALF) else p3) + h2) == p3 + carry * HALF + h2
  {
  }

  /** The partial products of a * b, and that they fit. */
  lemma PartialProducts(a: Word, b: Word)
    ensures 0 <= Low(a) * Low(b) <= (HALF - 1) * (HALF - 1)
    ensures 0 <= High(a) * Low(b) <= (HALF - 1) * (HALF - 1)
    ensures 0 <= Low(a) * High(b) <= (HALF - 1) * (HALF - 1)
    ensures 0 <= High(a) * High(b) <= (HALF - 1) * (HALF - 1)
    ensures a * b == High(a) * High(b) * BASE + (High(a) * Low(b) + Low(a) * High(b)) * HALF + Low(a) * Low(b)
    ensures a * b < BASE * BASE
  {
    HalfProductBound(Low(a), Low(b));
    HalfProductBound(High(a), Low(b));
    HalfProductBound(Low(a), High(b));
    HalfProductBound(High(a), High(b));
    SplitProduct(High(a), Low(a), High(b), Low(b));
    ProductBound(a, b);
  }

  /** The four half-word products lose at most one carry, which the test on r2 detects. */
  method IntMultiply(a: Word, b: Word) returns (xlow: Word, xhigh: Word)
    ensures xhigh * BASE + xlow == a * b
  {
    var al, ah := Low(a), High(a);
    var bl, bh := Low(b), High(b);
    PartialProducts(a, b);
    xlow, xhigh := AddProducts(al * bl, ah * bl, al * bh, ah * bh);
  }

  /** Adds up the partial products. */
  method AddProducts(r0: Word, r1: Word, middle: Word, top: Word) returns (xlow: Word, xhigh: Word)
    requires r0 <= (HALF - 1) * (HALF - 1) && r1 <= (HALF - 1) * (HALF - 1)
    requires middle <= (HALF - 1) * (HALF - 1) && top <= (HALF - 1) * (HALF - 1)
    requires top * BASE + (r1 + middle) * HALF + r0 < BASE * BASE
    ensures xhigh * BASE + xlow == top * BASE + (r1 + middle) * HALF + r0
  {
    Assemble(r0, r1, middle, top);
    var r3 := top;
    var r2 := Wrap(middle + High(r0) + r1);
    if r2 < r1 {
      r3 := Wrap(r3 + HALF);
    }
    xhigh := Wrap(r3 + High(r2));
    xlow := Wrap(Wrap(r2 * HALF) + Low(r0));
  }

  lemma ProductBound(a: Word, b: Word)
    ensures a * b <= (BASE - 1) * (BASE - 1)
  {
    MulMonotone(a, BASE - 1, b);
    MulMonotone(b, BASE - 1, BASE - 1);
  }
}
