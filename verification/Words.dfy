/** 32-bit machine words, modelled as integers in [0, 2^32) with the wrap-around and the
    bit operations of the source written out. */
module Words {
  const BASE: int := 0x1_0000_0000
  const HIGH_BIT: int := 0x8000_0000
  const HALF: int := 0x1_0000

  type Word = x: int | 0 <= x < 0x1_0000_0000

  /** The value a 32-bit unsigned register holds after an operation with exact result x. */
  function Wrap(x: int): Word {
    x % BASE
  }

  /** Bitwise complement of a word. */
  function Not(x: Word): Word {
    BASE - 1 - x
  }

  function Negate(x: Word): Word {
    Wrap(BASE - x)
  }

  function ShiftLeft(w: Word, s: nat): Word {
    Wrap(w * Pow2(s))
  }

  function ShiftRight(w: Word, s: nat): (r: Word)
    ensures r <= w
  {
    DivAtMost(w, Pow2(s));
    w / Pow2(s)
  }

  lemma DivAtMost(w: nat, d: nat)
    requires d >= 1
    ensures 0 <= w / d <= w
  {
    var q := w / d;
    assert w == q * d + w % d;
    MulMonotone(1, d, q);
  }

  function Low(x: Word): Word {
    x % HALF
  }

  function High(x: Word): Word {
    x / HALF
  }

  function Pow2(k: nat): (p: nat)
    ensures p >= 1
  {
    if k == 0 then 1 else 2 * Pow2(k - 1)
  }

  lemma {:induction false} Pow2Add(j: nat, k: nat)
    ensures Pow2(j + k) == Pow2(j) * Pow2(k)
  {
    if j > 0 {
      Pow2Add(j - 1, k);
    }
  }

  lemma {:induction false} Pow2Monotone(j: nat, k: nat)
    requires j <= k
    ensures Pow2(j) <= Pow2(k)
    decreases k - j
  {
    if j < k {
      Pow2Monotone(j, k - 1);
    }
  }

  lemma Pow2Constants()
    ensures Pow2(4) == 16 && Pow2(5) == 32 && Pow2(6) == 64 && Pow2(7) == 128 && Pow2(8) == 256
    ensures Pow2(16) == HALF && Pow2(31) == HIGH_BIT && Pow2(32) == BASE
  {
    assert Pow2(4) == 16;
    Pow2Add(4, 4);
    Pow2Add(8, 8);
    Pow2Add(16, 16);
    assert Pow2(32) == 2 * Pow2(31);
  }

  /** Every divisor of a power of two is a power of two. */
  lemma {:induction false} DivisorOfPow2(c: nat, x: nat, k: nat) returns (j: nat)
    requires c * x == Pow2(k)
    ensures j <= k && x == Pow2(j)
    decreases k
  {
    if k == 0 {
      assert c >= 1 && x >= 1;
      MulMonotone(1, c, x);
      return 0;
    }
    if x % 2 == 0 {
      assert x == 2 * (x / 2) && c * (x / 2) == Pow2(k - 1);
      j := DivisorOfPow2(c, x / 2, k - 1);
      j := j + 1;
    } else {
      OddFactor(c, x, Pow2(k - 1));
      j := DivisorOfPow2(c / 2, x, k - 1);
    }
  }

  lemma OddFactor(c: nat, x: nat, p: nat)
    requires x % 2 == 1 && c * x == 2 * p
    ensures c / 2 * x == p
  {
    var h, l := x / 2, c % 2;
    assert x == 2 * h + 1;
    assert c * x == 2 * (c * h) + c;
    assert c == 2 * (c / 2);
    assert c * x == 2 * (c / 2 * x);
  }

  /** Bitwise and / or of two non-negative integers, bit by bit from the lowest. */
  function And(x: nat, y: nat): nat {
    if x == 0 || y == 0 then 0
    else 2 * And(x / 2, y / 2) + (if x % 2 == 1 && y % 2 == 1 then 1 else 0)
  }

  function Or(x: nat, y: nat): nat {
    if x == 0 then y
    else if y == 0 then x
    else 2 * Or(x / 2, y / 2) + (if x % 2 == 1 || y % 2 == 1 then 1 else 0)
  }

  /** Disjoint bit fields: or-ing a field above bit k with one below it adds them. */
  lemma {:induction false} OrDisjoint(h: nat, l: nat, k: nat)
    requires l < Pow2(k)
    ensures Or(h * Pow2(k), l) == h * Pow2(k) + l
  {
    if k == 0 {
      assert l == 0;
    } else if h != 0 && l != 0 {
      var p := Pow2(k - 1);
      assert h * Pow2(k) == 2 * (h * p) by {
        assert h * (2 * p) == 2 * (h * p);
      }
      assert h * p > 0;
      OrDisjoint(h, l / 2, k - 1);
    }
  }

  /** The bits of x below bit k, and the single bit k of x, by masking. */
  lemma {:induction false} AndLowMask(x: nat, k: nat)
    ensures And(x, Pow2(k) - 1) == x % Pow2(k)
  {
    if k == 0 {
      assert Pow2(k) == 1;
    } else if x == 0 {
      DivModUnique(x, Pow2(k), 0, 0);
    } else {
      AndLowMask(x / 2, k - 1);
      AndStep(x, Pow2(k - 1));
      ModDouble(x, Pow2(k - 1));
    }
  }

  /** Masking with the single bit k tests whether the bits from k up form an odd number. */
  lemma {:induction false} AndBit(x: nat, k: nat)
    ensures And(x, Pow2(k)) == if x / Pow2(k) % 2 == 1 then Pow2(k) else 0
  {
    if x == 0 {
      DivModUnique(x, Pow2(k), 0, 0);
    } else if k == 0 {
      assert And(x / 2, 0) == 0;
    } else {
      var p := Pow2(k - 1);
      AndBit(x / 2, k - 1);
      assert 2 * p / 2 == p && 2 * p % 2 == 0;
      assert And(x, 2 * p) == 2 * And(x / 2, p);
      DivDouble(x, p);
    }
  }

  lemma DivDouble(x: nat, p: nat)
    requires p > 0
    ensures x / (2 * p) == x / 2 / p
  {
    var q := x / 2 / p;
    var r := 2 * (x / 2 % p) + x % 2;
    assert x / 2 == q * p + x / 2 % p;
    assert x == q * (2 * p) + r;
    DivModUnique(x, 2 * p, q, r);
  }

  lemma AndStep(x: nat, p: nat)
    requires x > 0 && p > 0
    ensures And(x, 2 * p - 1) == 2 * And(x / 2, p - 1) + x % 2
  {
    assert (2 * p - 1) / 2 == p - 1;
    assert (2 * p - 1) % 2 == 1;
  }

  lemma ModDouble(x: nat, p: nat)
    requires p > 0
    ensures x % (2 * p) == 2 * (x / 2 % p) + x % 2
  {
    var q := x / 2 / p;
    var r := 2 * (x / 2 % p) + x % 2;
    assert x / 2 == q * p + x / 2 % p;
    assert x == q * (2 * p) + r;
    DivModUnique(x, 2 * p, q, r);
  }

  lemma TopBit(x: Word)
    ensures x / HIGH_BIT == if x >= HIGH_BIT then 1 else 0
  {
  }

  /** Masks of all ones and all zeros select the whole word or nothing. */
  lemma AndMask(x: Word)
    ensures And(x, BASE - 1) == x && And(x, 0) == 0
    ensures And(x, HIGH_BIT) != 0 <==> x >= HIGH_BIT
  {
    assert And(x, BASE - 1) == x by {
      Pow2Constants();
      AndLowMask(x, 32);
    }
    assert And(x, HIGH_BIT) == if x >= HIGH_BIT then HIGH_BIT else 0 by {
      Pow2Constants();
      AndBit(x, 31);
      TopBit(x);
    }
  }

  /** Quotient and remainder are determined by n = q * d + r with 0 <= r < d. */
  lemma DivModUnique(n: int, d: int, q: int, r: int)
    requires d > 0 && n == q * d + r && 0 <= r < d
    ensures q == n / d && r == n % d
  {
    var q', r' := n / d, n % d;
    assert n == q' * d + r';
    assert (q - q') * d == r' - r;
    assert (q' - q) * d == r - r';
    if q > q' {
      MulAtLeast(q - q', d);
    } else if q < q' {
      MulAtLeast(q' - q, d);
    }
  }

  lemma MulAtLeast(x: int, d: int)
    requires x >= 1 && d >= 0
    ensures x * d >= d
  {
  }

  lemma MulMonotone(x: int, y: int, d: int)
    requires x <= y && d >= 0
    ensures x * d <= y * d
  {
  }

  /** Number of zero bits above the highest set bit of a non-zero word. */
  function LeadingZeros(b: Word): (n: nat)
    requires b > 0
    ensures n < 32
    ensures HIGH_BIT <= b * Pow2(n) < BASE
  {
    Pow2Constants();
    LeadingZerosAux(b, 31)
  }

  /** Position of the most significant set bit, counted from 1 at the top; 0 for zero. */
  function FfsMsb(x: Word): (n: nat)
    ensures x == 0 <==> n == 0
    ensures x != 0 ==> n <= 32 && HIGH_BIT <= x * Pow2(n - 1) < BASE
  {
    if x == 0 then 0 else LeadingZeros(x) + 1
  }

  function LeadingZerosAux(b: Word, room: nat): (n: nat)
    requires 0 < b && HIGH_BIT <= b * Pow2(room)
    ensures n <= room
    ensures HIGH_BIT <= b * Pow2(n) < BASE
    decreases room
  {
    if b >= HIGH_BIT then 0
    else
      assert room > 0;
      MulDouble(b, room - 1);
      var n := LeadingZerosAux(2 * b, room - 1);
      MulDouble(b, n);
      n + 1
  }

  lemma MulDouble(b: nat, k: nat)
    ensures b * Pow2(k + 1) == (2 * b) * Pow2(k)
  {
    assert Pow2(k + 1) == 2 * Pow2(k);
  }

  lemma SplitAt(w: Word, p: int, t: int)
    requires p > 0 && t > 0 && p * t == BASE
    ensures 0 <= w / t < p && 0 <= w % t * p <= BASE - p
    ensures w * p == w / t * BASE + w % t * p
  {
    var h, l := w / t, w % t;
    assert w == h * t + l;
    assert (h * t + l) * p == h * (p * t) + l * p;
    MulMonotone(0, l, p);
    MulMonotone(l, t - 1, p);
    assert (t - 1) * p == p * t - p;
    if h >= p {
      MulMonotone(p, h, t);
    }
  }

  /** A left shift by s pushes out the top s bits of a word, which a right shift by 32 - s
      recovers, and leaves room for the s bits of another word. */
  lemma ShiftSplit(w: Word, s: nat)
    requires 1 <= s <= 31
    ensures w * Pow2(s) == ShiftRight(w, 32 - s) * BASE + ShiftLeft(w, s)
    ensures ShiftRight(w, 32 - s) < Pow2(s)
    ensures ShiftLeft(w, s) <= BASE - Pow2(s)
    ensures ShiftLeft(w, s) == w % Pow2(32 - s) * Pow2(s)
  {
    var p, t := Pow2(s), Pow2(32 - s);
    assert p * t == BASE by {
      Pow2Constants();
      Pow2Add(s, 32 - s);
    }
    SplitAt(w, p, t);
    DivModUnique(w * p, BASE, w / t, w % t * p);
  }

  lemma ShiftIn(w: Word, s: nat, low: nat)
    requires 1 <= s <= 31 && low < Pow2(s)
    ensures Or(ShiftLeft(w, s), low) == ShiftLeft(w, s) + low < BASE
  {
    ShiftSplit(w, s);
    OrDisjoint(w % Pow2(32 - s), low, s);
  }
}
