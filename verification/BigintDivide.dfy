/** Division of a multi-limb integer by one limb. */
module BigintDivide {
  import opened Words
  import opened BigintInverse
  import opened Bigint

  lemma ValueCons(d: Word, s: seq<Word>)
    ensures Value([d] + s) == d + BASE * Value(s)
  {
    assert ([d] + s)[1..] == s;
  }

  lemma ValueFrom(s: seq<Word>, i: nat, n: nat)
    requires i < n <= |s|
    ensures Value(s[i..n]) == s[i] + BASE * Value(s[i + 1..n])
  {
    assert s[i..n] == [s[i]] + s[i + 1..n];
    ValueCons(s[i], s[i + 1..n]);
  }

  /** X is the quotient, and r the remainder, of the limbs of A from i to n by b. */
  ghost predicate DividedFrom(A: seq<Word>, X: seq<Word>, i: nat, n: nat, b: int, r: int) {
    i <= n <= |A| && |X| == n - i && 0 <= r < b && Value(A[i..n]) == Value(X) * b + r
  }

  /** One quotient limb: X is the quotient of the limbs of A from i, with remainder r. */
  lemma QuotientLimb(A: seq<Word>, X: seq<Word>, i: nat, n: nat, b: int, r: int, q: Word, r': int)
    requires 1 <= i <= n <= |A|
    requires Value(A[i..n]) == Value(X) * b + r
    requires q * b + r' == r * BASE + A[i - 1]
    ensures Value(A[i - 1..n]) == Value([q] + X) * b + r'
  {
    ValueFrom(A, i - 1, n);
    ValueCons(q, X);
    assert (q + BASE * Value(X)) * b == q * b + BASE * (Value(X) * b);
  }

  /** The first quotient limb for a normalized divisor is 0 or 1; a mask selects what to
      subtract. */
  method FirstLimb(a1: Word, b: Word) returns (q: Word, r: Word)
    requires Normalized(b)
    ensures q * b + r == a1 && r < b
  {
    r := a1;
    q := if r >= b then 1 else 0;
    AndMask(b);
    r := r - And(b, Negate(q));
  }

  lemma TopLimb(A: seq<Word>, n: nat, b: int, q: Word, r: int)
    requires 1 <= n <= |A| && q * b + r == A[n - 1] && 0 <= r < b
    ensures DividedFrom(A, [q], n - 1, n, b, r)
  {
    ValueFrom(A, n - 1, n);
    ValueCons(q, []);
    assert A[n..n] == [] && [q] == [q] + [];
  }

  /** One division step on the next limb down, over the limb sequences. */
  method NextLimb(r: Word, a0: Word, b: Word, b_inverse: Word, ghost A: seq<Word>, ghost X: seq<Word>, ghost i: nat, ghost n: nat)
    returns (q: Word, r': Word)
    requires Normalized(b) && b_inverse == Reciprocal(b)
    requires 1 <= i && DividedFrom(A, X, i, n, b, r) && a0 == A[i - 1]
    ensures DividedFrom(A, [q] + X, i - 1, n, b, r')
  {
    q, r' := PreinvertedDivide(r, a0, b, b_inverse);
    QuotientLimb(A, X, i, n, b, r, q, r');
  }

  /** The remaining limbs of the normalized branch, by multiplication with the reciprocal. */
  method DivideNormalizedLimbs(x: array<Word>, a: array<Word>, n: nat, b: Word, r0: Word,
                               ghost A: seq<Word>, ghost X0: seq<Word>)
    returns (r: Word, ghost X: seq<Word>)
    requires 1 <= n <= x.Length && n <= a.Length && Normalized(b)
    requires |A| == a.Length && forall k :: 0 <= k < n - 1 ==> a[k] == A[k]
    requires DividedFrom(A, X0, n - 1, n, b, r0) && x[n - 1] == X0[0]
    modifies x
    ensures DividedFrom(A, X, 0, n, b, r) && x[..n] == X && x[n..] == old(x[n..])
  {
    ghost var Y := x[..];
    X := X0;
    r := r0;
    var b_inverse := Inverse(b);
    var i := n - 1;
    while i > 0
      invariant 0 <= i < n && DividedFrom(A, X, i, n, b, r)
      invariant forall k :: 0 <= k < i ==> a[k] == A[k]
      invariant x[i..n] == X && x[n..] == Y[n..]
    {
      i := i - 1;
      var q;
      q, r := NextLimb(r, a[i], b, b_inverse, A, X, i + 1, n);
      x[i] := q;
      assert x[i..n] == [q] + X;
      X := [q] + X;
    }
  }

  /** The branch for a divisor whose high bit is set: the first quotient limb is 0 or 1, the
      others come from the precomputed reciprocal. */
  method DivideNormalized(x: array<Word>, a: array<Word>, n: nat, b: Word) returns (r: Word)
    requires 1 <= n <= x.Length && n <= a.Length && Normalized(b)
    modifies x
    ensures old(Value(a[..n])) == Value(x[..n]) * b + r && r < b
    ensures x[n..] == old(x[n..])
  {
    ghost var A, Y := a[..], x[n..];
    var q;
    q, r := FirstLimb(a[n - 1], b);
    TopLimb(A, n, b, q, r);
    x[n - 1] := q;
    assert x[n..] == Y;
    ghost var X;
    r, X := DivideNormalizedLimbs(x, a, n, b, r, A, [q]);
    assert A[0..n] == old(a[..n]);
  }

  /** The invariant of the shifted branch: X is the quotient, and r the remainder, of the limbs
      above i scaled by p = 2^s, with the top s bits hi of limb i already shifted in. */
  ghost predicate ShiftedState(A: seq<Word>, X: seq<Word>, i: nat, n: nat, p: int, d: int, r: int, hi: int)
  {
    i < n <= |A| && |X| == n - 1 - i && 0 <= r < d &&
    p * Value(A[i + 1..n]) + hi == Value(X) * d + r
  }

  lemma ShiftedAdvance(A: seq<Word>, X: seq<Word>, i: nat, n: nat, p: int, d: int, r: int, hi: int,
                       lo: int, top: int, q: Word, r': int)
    requires ShiftedState(A, X, i, n, p, d, r, hi)
    requires A[i] * p == hi * BASE + lo
    requires q * d + r' == r * BASE + lo + top
    ensures p * Value(A[i..n]) + top == Value([q] + X) * d + r'
  {
    ValueFrom(A, i, n);
    ValueCons(q, X);
    AdvanceArithmetic(p, Value(A[i + 1..n]), Value(X), d, r, A[i], hi, lo, top, q, r');
  }

  lemma AdvanceArithmetic(p: int, V: int, Q: int, d: int, r: int, w: int, hi: int, lo: int, top: int, q: int, r': int)
    requires p * V + hi == Q * d + r && w * p == hi * BASE + lo
    requires q * d + r' == r * BASE + lo + top
    ensures p * (w + BASE * V) + top == (q + BASE * Q) * d + r'
  {
    assert p * (w + BASE * V) == w * p + BASE * (p * V);
    assert (q + BASE * Q) * d == q * d + BASE * (Q * d);
  }

  lemma ShiftedFinish(V: nat, Q: nat, b: nat, p: nat, r: nat)
    requires p > 0 && p * V == Q * (b * p) + r && r < b * p
    ensures V == Q * b + r / p && r / p < b
  {
    var h := V - Q * b;
    assert p * h == r by {
      assert p * (V - Q * b) == p * V - Q * (b * p);
    }
    DivModUnique(r, p, h, 0);
    if h >= b {
      MulMonotone(b, h, p);
    }
  }

  lemma ShiftedStart(A: seq<Word>, n: nat, b: nat, p: nat, hi: nat)
    requires 1 <= n <= |A| && hi < p && 0 < b
    ensures ShiftedState(A, [], n - 1, n, p, b * p, hi, hi)
  {
    MulMonotone(1, b, p);
    assert A[n..n] == [];
  }

  /** Skipping the top limb when it is below the divisor: its quotient limb is 0. */
  lemma ShiftedStartSkipped(A: seq<Word>, n: nat, b: nat, p: nat, hi: nat)
    requires 2 <= n <= |A| && hi < p && A[n - 1] < b && b * p < BASE
    ensures ShiftedState(A, [0], n - 2, n, p, b * p, A[n - 1] * p + hi, hi)
  {
    ScaledBelow(A[n - 1], b, p);
    ValueFrom(A, n - 1, n);
    assert A[n..n] == [];
    ValueCons(0, []);
    assert [0] + [] == [0];
    assert p * A[n - 1] == A[n - 1] * p;
  }

  lemma ScaledBelow(w: nat, b: nat, p: nat)
    requires w < b && 1 <= p && b * p < BASE
    ensures 0 <= w * p <= b * p - p
  {
    MulMonotone(w, b - 1, p);
    assert (b - 1) * p == b * p - p;
  }

  /** One division step of the shifted branch, on limb a1 with the top bits of the next limb a0. */
  method NextShiftedLimb(r: Word, a1: Word, a0: Word, s: nat, d: Word, d_inverse: Word,
                         ghost A: seq<Word>, ghost X: seq<Word>, ghost i: nat, ghost n: nat)
    returns (q: Word, r': Word)
    requires Normalized(d) && d_inverse == Reciprocal(d) && 1 <= s <= 31
    requires ShiftedState(A, X, i, n, Pow2(s), d, r, ShiftRight(a1, 32 - s))
    requires 1 <= i && a1 == A[i] && a0 == A[i - 1]
    ensures ShiftedState(A, [q] + X, i - 1, n, Pow2(s), d, r', ShiftRight(a0, 32 - s))
  {
    ghost var top := ShiftRight(a0, 32 - s);
    ShiftSplit(a1, s);
    ShiftSplit(a0, s);
    ShiftIn(a1, s, top);
    q, r' := PreinvertedDivide(r, Or(ShiftLeft(a1, s), ShiftRight(a0, 32 - s)), d, d_inverse);
    ShiftedAdvance(A, X, i, n, Pow2(s), d, r, ShiftRight(a1, 32 - s), ShiftLeft(a1, s), top, q, r');
  }

  /** The last step of the shifted branch, with nothing left to shift in. */
  method LastShiftedLimb(r: Word, a1: Word, s: nat, d: Word, d_inverse: Word,
                         ghost A: seq<Word>, ghost X: seq<Word>, ghost n: nat)
    returns (q: Word, r': Word)
    requires Normalized(d) && d_inverse == Reciprocal(d) && 1 <= s <= 31
    requires ShiftedState(A, X, 0, n, Pow2(s), d, r, ShiftRight(a1, 32 - s)) && a1 == A[0]
    ensures Pow2(s) * Value(A[0..n]) == Value([q] + X) * d + r' && r' < d
  {
    ShiftSplit(a1, s);
    q, r' := PreinvertedDivide(r, ShiftLeft(a1, s), d, d_inverse);
    ShiftedAdvance(A, X, 0, n, Pow2(s), d, r, ShiftRight(a1, 32 - s), ShiftLeft(a1, s), 0, q, r');
  }

  /** The shifted branch once the divisor b2 = b << s is normalized: r holds what has been shifted in so
      far, the limbs of a below m are still to be divided. */
  method DivideShiftedLimbs(x: array<Word>, a: array<Word>, n: nat, m: nat, b2: Word, s: nat, r0: Word,
                             ghost A: seq<Word>, ghost X0: seq<Word>)
    returns (r: Word, ghost X: seq<Word>)
    requires 1 <= m <= n <= x.Length && n <= a.Length && Normalized(b2) && 1 <= s <= 31
    requires |A| == a.Length && forall k :: 0 <= k < m ==> a[k] == A[k]
    requires ShiftedState(A, X0, m - 1, n, Pow2(s), b2, r0, ShiftRight(A[m - 1], 32 - s))
    requires forall k :: m <= k < n ==> x[k] == X0[k - m]
    modifies x
    ensures |X| == n && Pow2(s) * Value(A[..n]) == Value(X) * b2 + r && r < b2
    ensures x[..n] == X && x[n..] == old(x[n..])
  {
    ghost var Y := x[..];
    X := X0;
    r := r0;
    var b_inverse := Inverse(b2);
    var i := m - 1;
    var a1 := a[i];
    var q;
    while i > 0
      invariant 0 <= i < m && a1 == A[i]
      invariant ShiftedState(A, X, i, n, Pow2(s), b2, r, ShiftRight(a1, 32 - s))
      invariant forall k :: 0 <= k < i ==> a[k] == A[k]
      invariant forall k :: i < k < n ==> x[k] == X[k - i - 1]
      invariant forall k :: n <= k < x.Length ==> x[k] == Y[k]
    {
      var a0 := a[i - 1];
      q, r := NextShiftedLimb(r, a1, a0, s, b2, b_inverse, A, X, i, n);
      x[i] := q;
      X := [q] + X;
      i := i - 1;
      a1 := a0;
    }
    q, r := LastShiftedLimb(r, a1, s, b2, b_inverse, A, X, n);
    x[0] := q;
    X := [q] + X;
    assert x[..n] == X && A[0..n] == A[..n];
  }

  /** The branch for a divisor with leading zeros: divide by the shifted divisor, after skipping
      the top limb if it is already smaller. */
  method DivideShifted(x: array<Word>, a: array<Word>, n: nat, b: Word) returns (r: Word)
    requires 1 <= n <= x.Length && n <= a.Length && 0 < b < HIGH_BIT
    modifies x
    ensures old(Value(a[..n])) == Value(x[..n]) * b + r && r < b
    ensures x[n..] == old(x[n..])
  {
    ghost var A := a[..];
    assert A[..n] == a[..n];
    var m := n;
    r := 0;
    ghost var X: seq<Word> := [];
    if a[m - 1] < b {
      r := a[m - 1];
      x[m - 1] := 0;
      m := m - 1;
      X := [0];
    }
    if m != 0 {
      var s := FfsMsb(b) - 1;
      PositiveShift(b, s);
      StartShift(A, n, b, s, m);
      var b2 := ShiftLeft(b, s);
      r := ShiftLeft(r, s);
      r := Or(r, ShiftRight(a[m - 1], 32 - s));
      r, X := DivideShiftedLimbs(x, a, n, m, b2, s, r, A, X);
      ShiftedFinish(Value(A[..n]), Value(X), b, Pow2(s), r);
      r := ShiftRight(r, s);
    } else {
      SingleLimb(A[..n], r);
      SingleLimb(x[..n], 0);
    }
  }

  lemma SingleLimb(s: seq<Word>, w: Word)
    requires s == [w]
    ensures Value(s) == w
  {
    ValueCons(w, []);
    assert [w] + [] == [w];
  }

  lemma PositiveShift(b: Word, s: nat)
    requires 0 < b < HIGH_BIT && HIGH_BIT <= b * Pow2(s) < BASE
    ensures 1 <= s && ShiftLeft(b, s) == b * Pow2(s)
  {
    assert Pow2(0) == 1;
    assert s != 0;
  }

  /** The remainder register before the first shifted division, on both paths. */
  lemma StartShift(A: seq<Word>, n: nat, b: Word, s: nat, m: nat)
    requires 1 <= m <= n <= |A| && 1 <= s <= 31 && 0 < b && b * Pow2(s) < BASE
    requires m == if A[n - 1] < b then n - 1 else n
    ensures var r := if A[n - 1] < b then A[n - 1] else 0;
            var hi := ShiftRight(A[m - 1], 32 - s);
            ShiftedState(A, if A[n - 1] < b then [0] else [], m - 1, n, Pow2(s), b * Pow2(s),
                         Or(ShiftLeft(r, s), hi), hi)
  {
    var hi := ShiftRight(A[m - 1], 32 - s);
    assert hi < Pow2(s) by {
      ShiftSplit(A[m - 1], s);
    }
    if A[n - 1] < b {
      ShiftIn(A[n - 1], s, hi);
      SmallShift(A[n - 1], b, s);
      ShiftedStartSkipped(A, n, b, Pow2(s), hi);
    } else {
      assert ShiftLeft(0, s) == 0;
      ShiftedStart(A, n, b, Pow2(s), hi);
    }
  }

  lemma SmallShift(w: Word, b: Word, s: nat)
    requires w < b && b * Pow2(s) < BASE
    ensures ShiftLeft(w, s) == w * Pow2(s)
  {
    ScaledBelow(w, b, Pow2(s));
  }

  /** x = a / b over n limbs, returning a mod b; x and a may be the same array. */
  method Divide(x: array<Word>, a: array<Word>, n: nat, b: Word) returns (r: Word)
    requires 1 <= n <= x.Length && n <= a.Length && 0 < b
    modifies x
    ensures old(Value(a[..n])) == Value(x[..n]) * b + r && r < b
    ensures x[n..] == old(x[n..])
  {
    AndMask(b);
    if And(b, HIGH_BIT) != 0 {
      r := DivideNormalized(x, a, n, b);
    } else {
      r := DivideShifted(x, a, n, b);
    }
  }
}
