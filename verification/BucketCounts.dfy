/** Which bucket counts of a hash container are recovered from their own dividers. The counts are
    the numbers 2^k - 1, and the container's self-check asks for the count back. */
module BucketCounts {
  import opened Options
  import opened Words
  import opened Libdivide

  /** Modulo 2^k - 1 exponents count modulo k. */
  lemma {:induction false} PowerModulo(a: nat, k: nat)
    requires k >= 2
    ensures Pow2(k) >= 4 && Pow2(a) % (Pow2(k) - 1) == Pow2(a % k)
  {
    AtLeastFour(k);
    if a < k {
      BelowCount(a, k);
    } else {
      PowerModulo(a - k, k);
      Pow2Add(a - k, k);
      DropMultiple(Pow2(a - k), Pow2(k) - 1);
      ExponentModulo(a, k);
    }
  }

  lemma AtLeastFour(k: nat)
    requires k >= 2
    ensures Pow2(k) >= 4 && Pow2(k) == 2 * Pow2(k - 1)
  {
    Pow2Monotone(2, k);
    assert Pow2(2) == 4;
  }

  lemma BelowCount(a: nat, k: nat)
    requires k >= 2 && a < k && Pow2(k) >= 4
    ensures Pow2(a) % (Pow2(k) - 1) == Pow2(a) && a % k == a
  {
    AtLeastFour(k);
    Pow2Monotone(a, k - 1);
    var x, d := Pow2(a), Pow2(k) - 1;
    assert x < d;
    SmallModulo(x, d);
    SmallModulo(a, k);
  }

  lemma SmallModulo(x: nat, d: nat)
    requires x < d
    ensures x % d == x
  {
  }

  lemma ExponentModulo(a: nat, k: nat)
    requires 0 < k <= a
    ensures a % k == (a - k) % k
  {
    RemainderIs(a - k, k, (a - k) / k, (a - k) % k);
    RemainderIs(a, k, (a - k) / k + 1, (a - k) % k);
  }

  lemma DropMultiple(x: nat, d: nat)
    requires d > 0
    ensures x * (d + 1) % d == x % d
  {
    RemainderIs(x, d, x / d, x % d);
    MultipleRemainder(x, d, x / d, x % d);
  }

  lemma MultipleRemainder(x: nat, d: nat, q: nat, r: nat)
    requires d > 0 && x == q * d + r && r < d
    ensures x * (d + 1) % d == r
  {
    assert x * (d + 1) == (x + q) * d + r;
    RemainderIs(x * (d + 1), d, x + q, r);
  }

  /** The count 2^k - 1 needs a 33-bit magic number exactly if k does not divide 32. */
  lemma CountTakesAddPath(k: nat)
    requires 1 <= k <= 32
    ensures TakesAddPath(Pow2(k) - 1) <==> 32 % k != 0
  {
    if k == 1 {
      assert Pow2(0) == 1 && Pow2(1) == 2;
      PowerNotOnAddPath(1, 0);
    } else {
      AtLeastFour(k);
      CountRemainder(k);
      ExponentLeft(k);
      AddPathOnlyAt(Pow2(k) - 1, k - 1);
      TopPower(31 % k, k);
    }
  }

  lemma TopPower(r: nat, k: nat)
    requires k >= 2 && r <= k - 1
    ensures Pow2(k) - 1 - Pow2(r) >= Pow2(k - 1) <==> r < k - 1
  {
    AtLeastFour(k);
    if r < k - 1 {
      HalfPower(r, k);
    }
  }

  lemma CountRemainder(k: nat)
    requires 2 <= k <= 32
    ensures Pow2(k) >= 4 && Pow2(k - 1) * BASE % (Pow2(k) - 1) == Pow2(31 % k)
  {
    BaseTimes(k - 1);
    PowerModulo(31 + k, k);
    ExponentModulo(31 + k, k);
  }

  lemma BaseTimes(l: nat)
    ensures Pow2(l) * BASE == Pow2(l + 32) && BASE == Pow2(32)
  {
    Pow2Constants();
    Pow2Add(l, 32);
  }

  lemma HalfPower(r: nat, k: nat)
    requires k >= 2 && r < k - 1
    ensures 2 * Pow2(r) <= Pow2(k - 1)
  {
    Pow2Monotone(r + 1, k - 1);
  }

  lemma ExponentLeft(k: nat)
    requires 2 <= k <= 32
    ensures 31 % k <= k - 1 && (31 % k == k - 1 <==> 32 % k == 0)
  {
  }

  /** On the add path, the magic number of a wide count. */
  lemma WideCountMagic(denom: Divisor, k: nat)
    requires 17 <= k <= 31 && AddForm(denom, Pow2(k) - 1, k - 1)
    ensures denom.magic == Pow2(32 - k) + 1
  {
    BaseTimes(k);
    CountProduct(k);
    assert 33 + (k - 1) == k + 32;
    MagicOfCount(Pow2(k), Pow2(32 - k), denom.magic);
  }

  lemma CountProduct(k: nat)
    requires 17 <= k <= 31
    ensures Pow2(k) * Pow2(32 - k) == BASE && 3 * Pow2(32 - k) + 3 < Pow2(k) < BASE
  {
    BaseTimes(0);
    Pow2Add(k, 32 - k);
    Pow2Monotone(2, 15);
    assert Pow2(2) == 4;
    Pow2Monotone(32 - k, 15);
    Pow2Monotone(17, k);
    assert Pow2(17) == 4 * Pow2(15);
    Pow2Monotone(k, 31);
    Pow2Constants();
  }

  lemma MagicOfCount(x: int, y: int, m: int)
    requires x * y == BASE && 0 < y <= x - 3
    requires 0 <= (BASE + m) * (x - 1) - BASE * x < x
    ensures m == y + 1
  {
    assert (BASE + (y + 1)) * (x - 1) - BASE * x == x - 1 - y;
    assert (BASE + m) * (x - 1) - BASE * x == x - 1 - y + (m - (y + 1)) * (x - 1);
    if m > y + 1 {
      MulMonotone(1, m - (y + 1), x - 1);
    } else if m < y + 1 {
      MulMonotone(m - (y + 1), -1, x - 1);
    }
  }

  /** For such a magic number the truncated recovery cannot give the count: the difference, times the
      divisor used, would be a multiple of 2^32 strictly between -2^32 and zero. */
  lemma WideCountMissed(x: int, y: int, half: int)
    requires x * y == BASE && x == 2 * half && 1 <= y && 3 * y + 3 < x < BASE
    ensures RecoverLarge(BASE * half, y + 1) != x - 1
  {
    var m, n := y + 1, BASE * half;
    var c := DoubledQuotient(n, m);
    if RecoverLarge(n, m) == x - 1 {
      var t := UnwrapCount(n / m, c, x - 1);
      var e := GapProduct(x, y, n / m, n % m, c);
      BelowMultiple(x - 1, e);
      MultipleOfBase(t, m);
      assert false;
    }
  }

  /** The quotient by the truncated divisor, doubled with a carry c and increased by one. */
  lemma DoubledQuotient(n: int, m: Word) returns (c: int)
    requires m > 0
    ensures 0 <= c <= 1 && RecoverLarge(n, m) == Wrap(Wrap(Wrap(n / m) + Wrap(n / m) + c) + 1)
    ensures n == n / m * m + n % m && 0 <= n % m < m
  {
    c := if 2 * ((n - Wrap(n / m) * (BASE + m)) % (BASE * BASE)) % (BASE * BASE) >= BASE + m then 1 else 0;
  }

  lemma UnwrapCount(h: int, c: int, v: int) returns (t: int)
    requires Wrap(Wrap(Wrap(h) + Wrap(h) + c) + 1) == v
    ensures 2 * h + c + 1 == v + t * BASE
  {
    var q := Wrap(h);
    assert h == h / BASE * BASE + q;
    var u := Wrap(q + q + c);
    assert q + q + c == (q + q + c) / BASE * BASE + u;
    assert u + 1 == (u + 1) / BASE * BASE + v;
    t := 2 * (h / BASE) + (q + q + c) / BASE + (u + 1) / BASE;
  }

  /** The difference between recovered number and count, times the divisor used. */
  lemma GapProduct(x: int, y: int, h: int, r: int, c: int) returns (e: int)
    requires x * y == BASE && 1 <= y && 3 * y + 3 < x < BASE && 0 <= r <= y && 0 <= c <= 1
    requires 2 * (h * (y + 1) + r) == BASE * x
    ensures 0 < e < BASE && (2 * h + c + 2 - x) * (y + 1) == BASE * (x - 1) - e
  {
    e := x + 2 * r - (c + 2) * (y + 1);
    assert 2 * (y + 1) <= (c + 2) * (y + 1) <= 3 * (y + 1);
    assert (2 * h) * (y + 1) == BASE * x - 2 * r;
    assert x * (y + 1) == BASE + x;
    assert (2 * h + c + 2 - x) * (y + 1) == (2 * h) * (y + 1) + (c + 2) * (y + 1) - x * (y + 1);
  }

  lemma BelowMultiple(a: int, e: int)
    requires 0 < e < BASE
    ensures (BASE * a - e) % BASE == BASE - e
  {
    RemainderIs(BASE * a - e, BASE, a - 1, BASE - e);
  }

  lemma MultipleOfBase(t: int, u: int)
    ensures (t * BASE) * u % BASE == 0
  {
    assert (t * BASE) * u == (t * u) * BASE + 0;
    RemainderIs((t * BASE) * u, BASE, t * u, 0);
  }

  /** A bucket count is recovered from its divider exactly if its number of bits divides 32. */
  lemma CountRecoveredIff(denom: Divisor, k: nat, s: nat)
    requires 1 <= k <= 32 && Record(denom, Pow2(k) - 1, s) && Pow2(k) - 1 < BASE
    ensures Recover(denom) == Some(Pow2(k) - 1) <==> k in {1, 2, 4, 8, 16, 32}
  {
    CountTakesAddPath(k);
    DivisorsOf32(k);
    CountRecovery(denom, k, Pow2(k) - 1, s);
  }

  lemma CountRecovery(denom: Divisor, k: nat, d: Word, s: nat)
    requires 1 <= k <= 32 && Record(denom, d, s) && d == Pow2(k) - 1 && (TakesAddPath(d) ==> k < 32)
    ensures Recover(denom) == Some(d) <==> !TakesAddPath(d)
  {
    RecordRecovered(denom, d, s);
    if TakesAddPath(d) {
      CountNotRecovered(denom, k, s);
    }
  }

  lemma CountNotRecovered(denom: Divisor, k: nat, s: nat)
    requires 1 <= k <= 31 && AddForm(denom, Pow2(k) - 1, s) && TakesAddPath(Pow2(k) - 1) && Pow2(k) - 1 < BASE
    ensures Recover(denom) != Some(Pow2(k) - 1)
  {
    if k <= 16 {
      NarrowCountNotRecovered(denom, k, s);
    } else {
      LogUniqueForm(denom, k, s);
      WideCountMagic(denom, k);
      WideCountNotRecovered(denom, k);
    }
  }

  lemma NarrowCountNotRecovered(denom: Divisor, k: nat, s: nat)
    requires 1 <= k <= 16 && AddForm(denom, Pow2(k) - 1, s) && TakesAddPath(Pow2(k) - 1) && Pow2(k) - 1 < BASE
    ensures Recover(denom) != Some(Pow2(k) - 1)
  {
    NarrowCount(k);
    SmallDivisorMagic(denom, Pow2(k) - 1, s);
    RecoverFailsOnAddPath(denom, Pow2(k) - 1, s);
  }

  lemma NarrowCount(k: nat)
    requires k <= 16
    ensures Pow2(k) <= HALF
  {
    Pow2Monotone(k, 16);
    Pow2Constants();
  }

  lemma DivisorsOf32(k: nat)
    requires 1 <= k <= 32
    ensures 32 % k == 0 <==> k in {1, 2, 4, 8, 16, 32}
  {
  }

  lemma LogUniqueForm(denom: Divisor, k: nat, s: nat)
    requires 17 <= k <= 31 && AddForm(denom, Pow2(k) - 1, s)
    ensures s == k - 1
  {
    AtLeastFour(k);
    if s + 1 < k {
      Pow2Monotone(s + 1, k - 1);
    } else if k <= s {
      Pow2Monotone(k, s);
    }
  }

  lemma WideCountNotRecovered(denom: Divisor, k: nat)
    requires 17 <= k <= 31 && AddForm(denom, Pow2(k) - 1, k - 1) && denom.magic == Pow2(32 - k) + 1
    ensures Recover(denom) != Some(Pow2(k) - 1)
  {
    RecoverOnAddPath(denom, k - 1);
    CountProduct(k);
    AtLeastFour(k);
    WideCountMissed(Pow2(k), Pow2(32 - k), Pow2(k - 1));
  }

  ghost predicate IsBucketCount(m: int) {
    exists k: nat :: k <= 32 && m + 1 == Pow2(k)
  }

  /** The counts for which a container's self-check holds. */
  predicate SelfChecking(m: int) {
    m in {1, 3, 15, 255, 0xFFFF, 0xFFFF_FFFF}
  }

  lemma CountBits(k: nat)
    requires 1 <= k <= 32
    ensures SelfChecking(Pow2(k) - 1) <==> k in {1, 2, 4, 8, 16, 32}
  {
    Pow2Constants();
    assert Pow2(1) == 2 && Pow2(2) == 4;
    if k > 16 {
      Between(16, k, 32);
    } else if k > 8 {
      Between(8, k, 16);
    } else if k > 4 {
      Between(4, k, 8);
    } else if k > 2 {
      Between(2, k, 4);
    }
  }

  lemma Between(a: nat, k: nat, b: nat)
    requires a < k <= b
    ensures Pow2(a) < Pow2(k) <= Pow2(b) && (k < b ==> Pow2(k) < Pow2(b))
  {
    Pow2Monotone(a + 1, k);
    Pow2Monotone(k, b);
    if k < b {
      Pow2Monotone(k + 1, b);
    }
  }

  /** The container's debug check that its divider gives the bucket count back holds for six bucket
      counts and for no others. */
  lemma SelfCheckIff(denom: Divisor, m: Word)
    requires m > 0 && IsBucketCount(m) && exists s :: Record(denom, m, s)
    ensures Recover(denom) == Some(m) <==> SelfChecking(m)
  {
    var k: nat :| k <= 32 && m + 1 == Pow2(k);
    assert Pow2(0) == 1;
    var s :| Record(denom, m, s);
    CountBits(k);
    CountRecoveredIff(denom, k, s);
  }

  /** The initial bucket count 63 is not one of them. */
  lemma InitialBucketCountNotRecovered(denom: Divisor, s: nat)
    requires Record(denom, 63, s)
    ensures Recover(denom) != Some(63)
  {
    assert Pow2(6) == 64;
    CountRecoveredIff(denom, 6, s);
  }
}
