/** Division by a fixed 32-bit divisor as multiplication and shift. */
module Libdivide {
  import opened Words
  import opened Options

  const SHIFT_MASK := 0x1F
  const ADD_MARKER := 0x40
  const SHIFT_PATH := 0x80

  /** A magic multiplier and the shift with its path markers. */
  datatype Divisor = Divisor(magic: Word, more: Word)

  function MulHigh(x: Word, y: Word): Word {
    ProductHigh(x, y);
    x * y / BASE
  }

  lemma ProductHigh(x: Word, y: Word)
    ensures 0 <= x * y / BASE <= y
  {
    MulMonotone(0, x, y);
    MulMonotone(x, BASE, y);
    DivBetween(x * y, BASE, y);
  }

  lemma DivBetween(n: int, d: int, q: int)
    requires 0 < d && 0 <= n <= q * d
    ensures 0 <= n / d <= q
  {
    var k := n / d;
    assert n == k * d + n % d;
    assert (q + 1) * d == q * d + d;
    if k > q {
      MulMonotone(q + 1, k, d);
    }
  }

  /** The 33-bit path: half the difference to the numerator is added back to avoid overflow. */
  function DoAdd(numer: Word, magic: Word, shift: nat): Word {
    var q := MulHigh(magic, numer);
    ProductHigh(magic, numer);
    ShiftRight(ShiftRight(numer - q, 1) + q, shift)
  }

  /** Quotient of the numerator by the divisor the magic numbers stand for. */
  function Do(numer: Word, denom: Divisor): Word {
    if And(denom.more, SHIFT_PATH) != 0 then
      ShiftRight(numer, And(denom.more, SHIFT_MASK))
    else if And(denom.more, ADD_MARKER) != 0 then
      DoAdd(numer, denom.magic, And(denom.more, SHIFT_MASK))
    else
      ShiftRight(MulHigh(denom.magic, numer), denom.more)
  }

  /** The branch-free variant: always the 33-bit path, with the markers already masked off. */
  function BranchfreeDo(numer: Word, denom: Divisor): Word {
    DoAdd(numer, denom.magic, denom.more)
  }

  lemma Masks(x: nat)
    ensures And(x, SHIFT_PATH) == if x / 128 % 2 == 1 then 0x80 else 0
    ensures And(x, ADD_MARKER) == if x / 64 % 2 == 1 then 0x40 else 0
    ensures And(x, SHIFT_MASK) == x % 32
  {
    Pow2Constants();
    AndBit(x, 7);
    AndBit(x, 6);
    AndLowMask(x, 5);
  }

  lemma OrMarker(s: nat, marker: nat)
    requires s < 32 && marker in {0x40, 0x80}
    ensures Or(s, marker) == s + marker
  {
    Pow2Constants();
    OrCommutes(s, marker);
    if marker == 0x40 {
      OrDisjoint(2, s, 5);
    } else {
      OrDisjoint(4, s, 5);
    }
  }

  /** The marker and shift fields of `more` do not interfere. */
  lemma ShiftField(s: nat, marker: nat)
    requires s < 32 && marker in {0, 0x40, 0x80}
    ensures And(s + marker, SHIFT_PATH) == if marker == 0x80 then 0x80 else 0
    ensures And(s + marker, ADD_MARKER) == if marker == 0x40 then 0x40 else 0
    ensures And(s + marker, SHIFT_MASK) == s
  {
    Masks(s + marker);
    Fields(s, marker);
  }

  lemma Fields(s: nat, marker: nat)
    requires s < 32 && marker in {0, 0x40, 0x80}
    ensures (s + marker) / 128 % 2 == (if marker == 0x80 then 1 else 0)
    ensures (s + marker) / 64 % 2 == (if marker == 0x40 then 1 else 0)
    ensures (s + marker) % 32 == s
  {
  }

  lemma {:induction false} OrCommutes(x: nat, y: nat)
    ensures Or(x, y) == Or(y, x)
    decreases x
  {
    if x != 0 && y != 0 {
      OrCommutes(x / 2, y / 2);
    }
  }

  lemma {:induction false} AndSelf(x: nat)
    ensures And(x, x) == x
  {
    if x > 0 {
      AndSelf(x / 2);
    }
  }

  /** The test (d & (d - 1)) == 0 finds the powers of two. */
  lemma {:induction false} PowerOfTwoTest(d: nat, l: nat)
    requires Pow2(l) <= d < Pow2(l + 1)
    ensures And(d, d - 1) == 0 <==> d == Pow2(l)
  {
    if l == 0 {
      assert Pow2(1) == 2 && d == 1;
    } else {
      PowerOfTwoTest(d / 2, l - 1);
      if d % 2 == 0 {
        assert (d - 1) / 2 == d / 2 - 1 && (d - 1) % 2 == 1;
      } else {
        assert (d - 1) / 2 == d / 2;
        AndSelf(d / 2);
      }
    }
  }

  /** floor(log2 d), from the leading zeros of d. */
  lemma FloorLog(d: Word, l: nat)
    requires d > 0 && l <= 31 && HIGH_BIT <= d * Pow2(31 - l) < BASE
    ensures Pow2(l) <= d < Pow2(l + 1)
  {
    Pow2Constants();
    Pow2Add(l, 31 - l);
    LogBounds(d, Pow2(l), Pow2(31 - l));
  }

  lemma LogBounds(d: int, u: int, p: int)
    requires 0 < d && 1 <= u && 1 <= p && u * p == HIGH_BIT && HIGH_BIT <= d * p < BASE
    ensures u <= d < 2 * u
  {
    assert (u - 1) * p == u * p - p;
    if d < u {
      MulMonotone(d, u - 1, p);
    }
    assert 2 * u * p == BASE;
    if d >= 2 * u {
      MulMonotone(2 * u, d, p);
    }
  }

  /** What the generator promises on each path. */
  ghost predicate ShiftForm(denom: Divisor, d: int, s: nat) {
    s <= 31 && denom == Divisor(0, s + SHIFT_PATH) && d == Pow2(s)
  }

  ghost predicate MultiplyForm(denom: Divisor, d: int, s: nat) {
    s <= 31 && denom.more == s && Pow2(s) < d < Pow2(s + 1) &&
    0 < denom.magic * d - Pow2(32 + s) < Pow2(s)
  }

  ghost predicate AddForm(denom: Divisor, d: int, s: nat) {
    s <= 31 && denom.more == s + ADD_MARKER && Pow2(s) < d <= Pow2(s + 1) &&
    0 <= (BASE + denom.magic) * d - Pow2(33 + s) < Pow2(s + 1)
  }

  ghost predicate Generated(denom: Divisor, d: int, s: nat) {
    ShiftForm(denom, d, s) || MultiplyForm(denom, d, s) || AddForm(denom, d, s)
  }

  /** The divisors that need a 33-bit magic number: not powers of two, and so far above the power
      2^l below them that the multiplier for shift l is not precise enough. */
  ghost predicate TakesAddPath(d: int) {
    exists l: nat :: AddPathAt(d, l)
  }

  ghost predicate AddPathAt(d: int, l: nat) {
    l <= 31 && Pow2(l) < d < Pow2(l + 1) && d - Pow2(l) * BASE % d >= Pow2(l)
  }

  /** A divisor lies between two neighbouring powers of two in one way only. */
  lemma LogUnique(d: int, l: nat, m: nat)
    requires Pow2(l) <= d < Pow2(l + 1) && Pow2(m) <= d < Pow2(m + 1)
    ensures l == m
  {
    if l < m {
      Pow2Monotone(l + 1, m);
    } else if m < l {
      Pow2Monotone(m + 1, l);
    }
  }

  /** Rounding: a multiplier m slightly above P / d gives the exact quotient. */
  lemma MagicQuotient(m: int, d: int, P: int, n: int)
    requires 0 < d && 0 < P && 0 <= n
    requires 0 <= m * d - P && (m * d - P) * n < P
    ensures m * n / P == n / d
  {
    var q, r, e := n / d, n % d, m * d - P;
    assert n == q * d + r;
    var t := m * n - q * P;
    assert m * n * d == n * P + e * n by {
      assert m * n * d == m * d * n;
      assert (P + e) * n == n * P + e * n;
    }
    assert t * d == r * P + e * n by {
      assert (m * n - q * P) * d == m * n * d - q * d * P;
      assert n * P - q * d * P == (n - q * d) * P;
    }
    MulMonotone(0, r, P);
    MulMonotone(0, e, n);
    MulMonotone(r, d - 1, P);
    assert (d - 1) * P == d * P - P;
    if t < 0 {
      MulMonotone(t, -1, d);
    }
    if t >= P {
      MulMonotone(P, t, d);
    }
    DivModUnique(m * n, P, q, t);
  }

  lemma MulHighShift(m: Word, n: Word, s: nat)
    ensures MulHigh(m, n) / Pow2(s) == m * n / Pow2(32 + s)
  {
    Pow2Constants();
    Pow2Add(32, s);
    ProductHigh(m, n);
    MulMonotone(0, m, n);
    DivDiv(m * n, BASE, Pow2(s));
  }

  lemma DivDiv(n: int, a: int, b: int)
    requires 0 < a && 0 < b && 0 <= n
    ensures n / a / b == n / (a * b)
  {
    var q1, r1 := n / a, n % a;
    var q2, r2 := q1 / b, q1 % b;
    assert n == q1 * a + r1 && q1 == q2 * b + r2;
    NestedQuotient(q2, r2, r1, a, b);
    DivModUnique(n, a * b, q2, r2 * a + r1);
  }

  lemma NestedQuotient(q: int, r2: int, r1: int, a: int, b: int)
    requires 0 <= r1 < a && 0 <= r2 < b
    ensures (q * b + r2) * a + r1 == q * (a * b) + (r2 * a + r1) && 0 <= r2 * a + r1 < a * b
  {
    assert (q * b + r2) * a == q * (a * b) + r2 * a;
    MulMonotone(0, r2, a);
    MulMonotone(r2, b - 1, a);
    assert (b - 1) * a == a * b - a;
  }

  /** The 33-bit average: ((n - q) >> 1) + q is the high part of (2^32 + m) * n. */
  lemma AverageShift(m: Word, n: Word, s: nat)
    ensures MulHigh(m, n) <= n
    ensures ShiftRight(n - MulHigh(m, n), 1) + MulHigh(m, n) <= n
    ensures (ShiftRight(n - MulHigh(m, n), 1) + MulHigh(m, n)) / Pow2(s) == (BASE + m) * n / Pow2(33 + s)
  {
    ProductHigh(m, n);
    MulMonotone(0, m, n);
    assert Pow2(1) == 2;
    Average(n, m * n);
    assert (BASE + m) * n == BASE * n + m * n;
    assert Pow2(33 + s) == 2 * BASE * Pow2(s) by {
      Pow2Constants();
      Pow2Add(32, s);
      assert Pow2(33 + s) == 2 * Pow2(32 + s);
    }
    DivDiv((BASE + m) * n, 2 * BASE, Pow2(s));
  }

  lemma Average(n: int, p: int)
    requires 0 <= n && 0 <= p && p / BASE <= n
    ensures (n - p / BASE) / 2 + p / BASE == (BASE * n + p) / (2 * BASE)
    ensures (n - p / BASE) / 2 + p / BASE <= n
  {
  }

  lemma ErrorBelow(e: int, n: Word, s: nat, P: int)
    requires 0 <= e < Pow2(s) && P == Pow2(32 + s)
    ensures e * n < P
  {
    Pow2Constants();
    Pow2Add(32, s);
    MulMonotone(e, Pow2(s), n);
    MulMonotone(n, BASE - 1, Pow2(s));
    assert Pow2(s) * n == n * Pow2(s);
    assert (BASE - 1) * Pow2(s) == BASE * Pow2(s) - Pow2(s);
  }

  lemma ShiftCorrect(denom: Divisor, d: int, s: nat, n: Word)
    requires ShiftForm(denom, d, s)
    ensures Do(n, denom) == n / d
  {
    ShiftField(s, 0x80);
  }

  lemma MultiplyCorrect(denom: Divisor, d: int, s: nat, n: Word)
    requires MultiplyForm(denom, d, s)
    ensures Do(n, denom) == n / d
  {
    ShiftField(s, 0);
    MulHighShift(denom.magic, n, s);
    ErrorBelow(denom.magic * d - Pow2(32 + s), n, s, Pow2(32 + s));
    MagicQuotient(denom.magic, d, Pow2(32 + s), n);
  }

  lemma DoAddCorrect(magic: Word, d: int, s: nat, n: Word)
    requires 0 < d && 0 <= (BASE + magic) * d - Pow2(33 + s) < Pow2(s + 1)
    ensures DoAdd(n, magic, s) == n / d
  {
    AverageShift(magic, n, s);
    ErrorBelow((BASE + magic) * d - Pow2(33 + s), n, s + 1, Pow2(33 + s));
    MagicQuotient(BASE + magic, d, Pow2(33 + s), n);
  }

  lemma AddCorrect(denom: Divisor, d: int, s: nat, n: Word)
    requires AddForm(denom, d, s)
    ensures Do(n, denom) == n / d
    ensures BranchfreeDo(n, Divisor(denom.magic, s)) == n / d
  {
    ShiftField(s, 0x40);
    DoAddCorrect(denom.magic, d, s, n);
  }

  /** The double-width division the generator uses; the quotient must fit in 32 bits. */
  method Div64To32(u1: Word, u0: Word, v: Word) returns (q: Word, r: Word)
    requires 0 < v && u1 < v
    ensures q * v + r == u1 * BASE + u0 && r < v
  {
    var n := u1 * BASE + u0;
    DivFits(u1, u0, v);
    q := n / v;
    r := n - q * v;
  }

  lemma DivFits(u1: Word, u0: Word, v: Word)
    requires 0 < v && u1 < v
    ensures 0 <= (u1 * BASE + u0) / v < BASE
    ensures 0 <= u1 * BASE + u0 - (u1 * BASE + u0) / v * v < v
  {
    var n := u1 * BASE + u0;
    var q := n / v;
    assert n == q * v + n % v;
    if q >= BASE {
      MulMonotone(BASE, q, v);
    }
  }

  /** A divisor that is no power of two leaves a remainder in every power of two. */
  lemma RemainderNonZero(d: Word, l: nat, q: int, r: int)
    requires Pow2(l) < d < Pow2(l + 1) && 0 <= q && q * d + r == Pow2(l) * BASE && 0 <= r < d
    ensures r > 0
    ensures q < BASE - 1
  {
    Pow2Constants();
    Pow2Add(l, 32);
    if r == 0 {
      var j := DivisorOfPow2(q, d, l + 32);
      if j <= l {
        Pow2Monotone(j, l);
      } else {
        Pow2Monotone(l + 1, j);
      }
    }
    Pow2Log(l, d);
    assert (Pow2(l) + 1) * (BASE - 1) == Pow2(l) * BASE - Pow2(l) + BASE - 1;
    if q >= BASE - 1 {
      MulMonotone(BASE - 1, q, d);
      MulMonotone(Pow2(l) + 1, d, BASE - 1);
    }
  }

  lemma Pow2Log(l: nat, d: Word)
    requires Pow2(l) <= d
    ensures l <= 31 && Pow2(l) <= HIGH_BIT
  {
    Pow2Constants();
    if l >= 32 {
      Pow2Monotone(32, l);
    }
    Pow2Monotone(l, 31);
  }

  /** Doubling quotient and remainder gives one more bit of the reciprocal; the overflow of
      the doubled quotient is intended. */
  method DoubleMagic(m: Word, rem: Word, d: Word) returns (magic: Word, ghost c: int)
    requires 0 < rem < d && m < BASE - 1
    ensures 0 <= c <= 1 && 0 <= 2 * rem - c * d < d
    ensures magic == Wrap(2 * m + c + 1)
  {
    var proposedM: int := Wrap(m + m);
    var twiceRem := Wrap(rem + rem);
    c := 0;
    if twiceRem >= d || twiceRem < rem {
      proposedM := Wrap(proposedM + 1);
      c := 1;
    }
    magic := Wrap(proposedM + 1);
  }

  lemma ShiftOne(l: nat)
    requires l <= 31
    ensures ShiftLeft(1, l) == Pow2(l) <= HIGH_BIT
  {
    Pow2Constants();
    Pow2Monotone(l, 31);
  }

  lemma PowerOfTwoAddForm(d: Word, l: nat)
    requires 1 <= l <= 31 && d == Pow2(l)
    ensures AddForm(Divisor(0, l - 1 + ADD_MARKER), d, l - 1)
  {
    Pow2Constants();
    Pow2Add(32, l);
  }

  /** q and r are quotient and remainder of 2^(32 + l) by d, for a d between 2^l and 2^(l + 1). */
  ghost predicate FirstPower(d: int, l: nat, q: int, r: int) {
    && l <= 31 && Pow2(l) < d < Pow2(l + 1)
    && q * d + r == Pow2(l) * BASE && 0 < r < d && 0 <= q < BASE - 1
  }

  lemma SmallPowerWorks(d: Word, l: nat, q: Word, r: Word)
    requires FirstPower(d, l, q, r) && d - r < Pow2(l)
    ensures MultiplyForm(Divisor(1 + q, l), d, l)
  {
    ScaledPower(l);
    SmallMultiplier(d, q, r, Pow2(32 + l));
    MultiplierFits(1 + q, d, l, d - r);
  }

  lemma ScaledPower(l: nat)
    ensures Pow2(32 + l) == Pow2(l) * BASE
  {
    Pow2Constants();
    Pow2Add(32, l);
  }

  lemma SmallMultiplier(d: int, q: int, r: int, n: int)
    requires q * d + r == n
    ensures (1 + q) * d == n + (d - r)
  {
  }

  lemma MultiplierFits(m: Word, d: int, l: nat, e: int)
    requires l <= 31 && Pow2(l) < d < Pow2(l + 1) && m * d == Pow2(32 + l) + e && 0 < e < Pow2(l)
    ensures MultiplyForm(Divisor(m, l), d, l)
  {
  }

  lemma LargePowerWorks(d: Word, l: nat, q: Word, r: Word, c: int)
    requires FirstPower(d, l, q, r)
    requires 0 <= c <= 1 && 0 <= 2 * r - c * d < d
    ensures AddForm(Divisor(Wrap(2 * q + c + 1), l + ADD_MARKER), d, l)
  {
    LargeMultiplier(d, Pow2(l), q, r, c);
    assert Pow2(33 + l) == 2 * (Pow2(l) * BASE) by {
      Pow2Constants();
      Pow2Add(32, l);
      assert Pow2(33 + l) == 2 * Pow2(32 + l);
    }
    assert Pow2(l + 1) == 2 * Pow2(l);
  }

  lemma LargeMultiplier(d: int, p: int, q: int, r: int, c: int)
    requires 0 < p < d < 2 * p && q * d + r == p * BASE
    requires 0 <= q < BASE - 1 && 0 <= c <= 1 && 0 <= 2 * r - c * d < d
    ensures var m := 2 * q + c + 1;
            BASE <= m < 2 * BASE && Wrap(m) == m - BASE && 0 < m * d - 2 * (p * BASE) <= d
  {
    var m := 2 * q + c + 1;
    assert m * d == 2 * (q * d) + c * d + d;
    if m < BASE {
      MulMonotone(m, BASE, d);
    }
  }

  /** Magic number and shift for division by d. Powers of two take the shift path, other
      divisors a 32-bit multiplier when the smaller power works and a 33-bit one otherwise. */
  method InternalGen(d: Word, branchfree: bool) returns (denom: Divisor, ghost s: nat)
    requires d > 0 && (branchfree ==> d != 1)
    ensures Generated(denom, d, s)
    ensures if branchfree then AddForm(denom, d, s) else AddForm(denom, d, s) <==> TakesAddPath(d)
  {
    var floorLog2D := 31 - LeadingZeros(d);
    FloorLog(d, floorLog2D);
    PowerOfTwoTest(d, floorLog2D);
    s := floorLog2D;
    if And(d, d - 1) == 0 {
      if !branchfree {
        OrMarker(floorLog2D, SHIFT_PATH);
        denom := Divisor(0, Or(floorLog2D, SHIFT_PATH));
        PowerNotOnAddPath(d, floorLog2D);
      } else {
        assert floorLog2D != 0 by { assert Pow2(0) == 1; }
        PowerOfTwoAddForm(d, floorLog2D);
        s := floorLog2D - 1;
        OrMarker(s, ADD_MARKER);
        denom := Divisor(0, Or(floorLog2D - 1, ADD_MARKER));
      }
    } else {
      denom := GenMagic(d, floorLog2D, branchfree);
      AddPathOnlyAt(d, floorLog2D);
    }
  }

  lemma PowerNotOnAddPath(d: int, l: nat)
    requires d == Pow2(l)
    ensures !TakesAddPath(d)
  {
    if m: nat :| AddPathAt(d, m) {
      LogUnique(d, l, m);
      assert false;
    }
  }

  lemma AddPathOnlyAt(d: int, l: nat)
    requires l <= 31 && Pow2(l) < d < Pow2(l + 1)
    ensures TakesAddPath(d) <==> d - Pow2(l) * BASE % d >= Pow2(l)
  {
    if m: nat :| AddPathAt(d, m) {
      LogUnique(d, l, m);
    }
    if d - Pow2(l) * BASE % d >= Pow2(l) {
      assert AddPathAt(d, l);
    }
  }

  method GenMagic(d: Word, floorLog2D: nat, branchfree: bool) returns (denom: Divisor)
    requires floorLog2D <= 31 && Pow2(floorLog2D) < d < Pow2(floorLog2D + 1)
    ensures if branchfree || d - Pow2(floorLog2D) * BASE % d >= Pow2(floorLog2D) then AddForm(denom, d, floorLog2D)
            else MultiplyForm(denom, d, floorLog2D)
  {
    var proposedM, rem := DivideFirstPower(d, floorLog2D);
    ShiftOne(floorLog2D);
    RemainderIs(Pow2(floorLog2D) * BASE, d, proposedM, rem);
    var e := d - rem;
    if !branchfree && e < ShiftLeft(1, floorLog2D) {
      SmallPowerWorks(d, floorLog2D, proposedM, rem);
      denom := Divisor(1 + proposedM, floorLog2D);
    } else {
      denom := GenLargeMagic(d, floorLog2D, proposedM, rem);
    }
  }

  lemma RemainderIs(n: int, d: int, q: int, r: int)
    requires 0 < d && n == q * d + r && 0 <= r < d
    ensures n % d == r
  {
    assert n == n / d * d + n % d;
    if q < n / d {
      MulMonotone(q + 1, n / d, d);
    } else if n / d < q {
      MulMonotone(n / d + 1, q, d);
    }
  }

  method GenLargeMagic(d: Word, l: nat, m: Word, rem: Word) returns (denom: Divisor)
    requires FirstPower(d, l, m, rem)
    ensures AddForm(denom, d, l)
  {
    ghost var c;
    denom, c := LargeDivisor(d, l, m, rem);
    LargePowerWorks(d, l, m, rem, c);
  }

  method LargeDivisor(d: Word, l: nat, m: Word, rem: Word) returns (denom: Divisor, ghost c: int)
    requires l <= 31 && 0 < rem < d && m < BASE - 1
    ensures 0 <= c <= 1 && 0 <= 2 * rem - c * d < d
    ensures denom.magic == Wrap(2 * m + c + 1) && denom.more == l + ADD_MARKER
  {
    var magic;
    magic, c := DoubleMagic(m, rem, d);
    OrMarker(l, ADD_MARKER);
    denom := Divisor(magic, Or(l, ADD_MARKER));
  }

  method DivideFirstPower(d: Word, l: nat) returns (q: Word, r: Word)
    requires l <= 31 && Pow2(l) < d < Pow2(l + 1)
    ensures FirstPower(d, l, q, r)
  {
    ShiftOne(l);
    q, r := Div64To32(ShiftLeft(1, l), 0, d);
    RemainderNonZero(d, l, q, r);
  }

  /** Division through the generated magic number is division, on all three paths. */
  method Gen(d: Word) returns (denom: Divisor)
    requires d > 0
    ensures forall n: Word :: Do(n, denom) == n / d
    ensures exists s :: Record(denom, d, s)
    ensures And(denom.more, ADD_MARKER) == 0 <==> !TakesAddPath(d)
    ensures And(denom.more, ADD_MARKER) == 0 ==> Recover(denom) == Some(d)
  {
    ghost var s;
    denom, s := InternalGen(d, false);
    assert Record(denom, d, s);
    forall n: Word
      ensures Do(n, denom) == n / d
    {
      if ShiftForm(denom, d, s) {
        ShiftCorrect(denom, d, s, n);
      } else if MultiplyForm(denom, d, s) {
        MultiplyCorrect(denom, d, s, n);
      } else {
        AddCorrect(denom, d, s, n);
      }
    }
    RecordRecovered(denom, d, s);
  }

  /** The record that the generator makes for d. */
  ghost predicate Record(denom: Divisor, d: int, s: nat) {
    Generated(denom, d, s) && (AddForm(denom, d, s) <==> TakesAddPath(d))
  }

  /** Off the add path the divisor is recovered. */
  lemma RecordRecovered(denom: Divisor, d: Word, s: nat)
    requires Record(denom, d, s)
    ensures And(denom.more, ADD_MARKER) == 0 <==> !TakesAddPath(d)
    ensures !TakesAddPath(d) ==> Recover(denom) == Some(d)
  {
    if ShiftForm(denom, d, s) {
      RecoverShift(denom, d, s);
      ShiftField(s, 0x80);
    } else if MultiplyForm(denom, d, s) {
      RecoverMultiply(denom, d, s);
      ShiftField(s, 0);
    } else {
      ShiftField(s, 0x40);
    }
  }

  /** For every divisor of up to 16 bits, recovery gives the divisor back exactly off the add path. */
  lemma RecoveredIff(denom: Divisor, d: Word, s: nat)
    requires Record(denom, d, s) && d < HALF
    ensures Recover(denom) == Some(d) <==> And(denom.more, ADD_MARKER) == 0
  {
    RecordRecovered(denom, d, s);
    if TakesAddPath(d) {
      SmallDivisorMagic(denom, d, s);
      RecoverFailsOnAddPath(denom, d, s);
    }
  }

  lemma SmallDivisorMagic(denom: Divisor, d: Word, s: nat)
    requires AddForm(denom, d, s) && TakesAddPath(d) && d < HALF
    ensures denom.magic > Pow2(s + 1)
  {
    SmallPower(d, s);
    if d == Pow2(s + 1) {
      PowerNotOnAddPath(d, s + 1);
    }
    MagicAbove(denom.magic, d, Pow2(s), Pow2(33 + s));
  }

  lemma SmallPower(d: int, s: nat)
    requires Pow2(s) < d < HALF
    ensures Pow2(33 + s) == 2 * Pow2(s) * BASE && Pow2(s + 1) == 2 * Pow2(s) <= HALF
  {
    Pow2Constants();
    Pow2Add(33, s);
    assert Pow2(33) == 2 * BASE;
    if s >= 16 {
      Pow2Monotone(16, s);
    } else {
      Pow2Monotone(s + 1, 16);
    }
  }

  lemma MagicAbove(m: int, d: int, p: int, P: int)
    requires 0 <= m && 1 <= p && 2 * p <= HALF && p < d < 2 * p && (BASE + m) * d >= P == 2 * p * BASE
    ensures m > 2 * p
  {
    if m <= 2 * p {
      MulMonotone(d, 2 * p - 1, BASE + m);
      assert (BASE + m) * (2 * p - 1) == 2 * p * BASE - BASE + m * (2 * p - 1);
      MulMonotone(m, HALF, 2 * p - 1);
      MulMonotone(2 * p - 1, HALF - 1, HALF);
    }
  }

  /** The branch-free pair divides by every d >= 2. */
  method BranchfreeGen(d: Word) returns (denom: Divisor)
    requires d >= 2
    ensures forall n: Word :: BranchfreeDo(n, denom) == n / d
  {
    var tmp;
    ghost var s;
    tmp, s := InternalGen(d, true);
    ShiftField(s, 0x40);
    denom := Divisor(tmp.magic, And(tmp.more, SHIFT_MASK));
    forall n: Word
      ensures BranchfreeDo(n, denom) == n / d
    {
      AddCorrect(tmp, d, s, n);
    }
  }

  /** The divisor a magic number was generated for; None where the code divides by zero. */
  function Recover(denom: Divisor): Option<Word> {
    var shift := And(denom.more, SHIFT_MASK);
    if And(denom.more, SHIFT_PATH) != 0 then Some(ShiftLeft(1, shift))
    else if denom.magic == 0 then None
    else if And(denom.more, ADD_MARKER) == 0 then Some(RecoverSmall(ShiftLeft(1, shift), denom.magic))
    else Some(RecoverLarge(Pow2(32 + shift), denom.magic))
  }

  /** The 32-bit multiplier path: 2^(32 + shift) / magic, rounded up. */
  function RecoverSmall(hiDividend: Word, magic: Word): Word
    requires magic > 0
  {
    Wrap(1 + Wrap(hiDividend * BASE / magic))
  }

  /** The 33-bit path. It passes its 33-bit divisor to a 32-bit parameter, which keeps only the
      magic part; every later step wraps at its own width. */
  function RecoverLarge(halfN: int, magic: Word): Word
    requires magic > 0
  {
    var d := BASE + magic;
    var halfQ := Wrap(halfN / magic);
    var rem := (halfN - halfQ * d) % (BASE * BASE);
    var fullQ := Wrap(halfQ + halfQ + (if 2 * rem % (BASE * BASE) >= d then 1 else 0));
    Wrap(fullQ + 1)
  }

  lemma RecoverShift(denom: Divisor, d: Word, s: nat)
    requires ShiftForm(denom, d, s)
    ensures Recover(denom) == Some(d)
  {
    ShiftField(s, 0x80);
    ShiftOne(s);
  }

  lemma RecoverMultiply(denom: Divisor, d: Word, s: nat)
    requires MultiplyForm(denom, d, s)
    ensures Recover(denom) == Some(d)
  {
    ShiftField(s, 0);
    ShiftOne(s);
    assert Pow2(32 + s) == Pow2(s) * BASE by {
      Pow2Constants();
      Pow2Add(32, s);
    }
    RecoverSmallCorrect(denom.magic, d, Pow2(s));
  }

  lemma RecoverSmallCorrect(m: Word, d: Word, p: Word)
    requires 1 <= p < d && 0 < m * d - p * BASE < p
    ensures m > 0 && RecoverSmall(p, m) == d
  {
    RecoveredQuotient(m, d, p, m * d - p * BASE);
  }

  lemma RecoveredQuotient(m: int, d: int, p: int, e: int)
    requires 0 <= m < BASE && 1 <= p < d < BASE && m * d == p * BASE + e && 0 < e < p
    ensures m > 0 && p * BASE / m == d - 1
  {
    if m < p {
      MulMonotone(m, p, d);
      MulMonotone(d, BASE, p);
    }
    assert (d - 1) * m == m * d - m;
    DivModUnique(p * BASE, m, d - 1, m - e);
  }

  /** Recovery is wrong on the 33-bit path whenever the truncated division does not overflow:
      the half quotient alone already exceeds half the divisor. */
  lemma RecoverFailsOnAddPath(denom: Divisor, d: Word, s: nat)
    requires AddForm(denom, d, s) && denom.magic > Pow2(s + 1)
    ensures Recover(denom).Some? && Recover(denom) != Some(d)
  {
    RecoverOnAddPath(denom, s);
    var m, p := denom.magic, Pow2(s);
    assert Pow2(s + 1) == 2 * p;
    HalfQuotientRange(m, p, BASE * p / m);
    DoubledExceeds(BASE * p, m, d, p);
  }

  lemma RecoverOnAddPath(denom: Divisor, s: nat)
    requires s <= 31 && denom.more == s + ADD_MARKER && denom.magic > 0
    ensures Recover(denom) == Some(RecoverLarge(BASE * Pow2(s), denom.magic))
  {
    ShiftField(s, 0x40);
    assert Pow2(32 + s) == BASE * Pow2(s) by {
      Pow2Constants();
      Pow2Add(32, s);
    }
  }

  lemma DoubledExceeds(halfN: int, m: Word, d: Word, p: int)
    requires m > 0 && p <= halfN / m < HIGH_BIT && p < d <= 2 * p
    ensures RecoverLarge(halfN, m) != d
  {
    var h := halfN / m;
    assert Wrap(h) == h;
    var c := if 2 * ((halfN - h * (BASE + m)) % (BASE * BASE)) % (BASE * BASE) >= BASE + m then 1 else 0;
    assert RecoverLarge(halfN, m) == Wrap(Wrap(h + h + c) + 1);
    DoubledNot(h, c, d, p);
  }

  lemma DoubledNot(h: int, c: int, d: Word, p: int)
    requires p <= h < HIGH_BIT && 0 <= c <= 1 && p < d <= 2 * p
    ensures Wrap(Wrap(h + h + c) + 1) != d
  {
  }

  lemma HalfQuotientRange(m: int, p: int, h: int)
    requires 1 <= p && 2 * p < m < BASE && h == BASE * p / m
    ensures p <= h < HIGH_BIT
  {
    assert BASE * p == h * m + BASE * p % m;
    assert (h + 1) * m == h * m + m;
    if h < p {
      MulMonotone(h + 1, p, m);
      MulMonotone(m, BASE - 1, p);
    }
    if h >= HIGH_BIT {
      MulMonotone(HIGH_BIT, h, m);
    }
  }

  lemma AccidentalHit()
    ensures RecoverLarge(576460752303423488, 130266727) == 260533454
  {
  }

  lemma AccidentalPowers()
    ensures Pow2(27) == 134217728 && Pow2(28) == 268435456 && Pow2(59) == 576460752303423488 && Pow2(60) == 1152921504606846976
  {
    assert Pow2(11) == 2048 && Pow2(12) == 4096;
    Pow2Constants();
    Pow2Add(16, 11);
    Pow2Add(16, 12);
    Pow2Add(32, 27);
    Pow2Add(32, 28);
  }

  /** With a smaller magic number the wrong arithmetic may even hit the divisor. */
  lemma RecoveredByAccident(denom: Divisor)
    requires denom == Divisor(130266727, 27 + ADD_MARKER)
    ensures AddForm(denom, 260533454, 27) && Recover(denom) == Some(260533454)
  {
    AccidentalPowers();
    AccidentalHit();
    ShiftField(27, ADD_MARKER);
  }
}
