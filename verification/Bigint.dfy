/** Multiple-precision arithmetic on arrays of 32-bit limbs, least significant limb first. */
module Bigint {
  import opened Words
  import opened Integers

  /** The number a sequence of limbs stands for. */
  function Value(s: seq<Word>): nat {
    if s == [] then 0 else s[0] + BASE * Value(s[1..])
  }

  function PowBase(k: nat): (p: nat)
    ensures p >= 1
  {
    if k == 0 then 1 else BASE * PowBase(k - 1)
  }

  lemma {:induction false} ValueSnoc(s: seq<Word>, d: Word)
    ensures Value(s + [d]) == Value(s) + d * PowBase(|s|)
  {
    if s == [] {
      assert s + [d] == [d];
      assert Value([d][1..]) == 0;
    } else {
      ValueSnoc(s[1..], d);
      assert (s + [d])[1..] == s[1..] + [d];
      assert d * PowBase(|s|) == BASE * (d * PowBase(|s| - 1));
    }
  }

  /** Adding two words to a one-limb product never overflows two limbs. */
  lemma CarryStep(x1: Word, x0: Word, c: Word, y: Word)
    requires x1 * BASE + x0 <= (BASE - 1) * (BASE - 1)
    ensures var s := Wrap(x0 + c);
            var c1 := x1 + (if s < c then 1 else 0);
            var t := Wrap(s + y);
            var c2 := c1 + (if t < y then 1 else 0);
            c1 < BASE && s + c1 * BASE == x1 * BASE + x0 + c &&
            c2 < BASE && t + c2 * BASE == x1 * BASE + x0 + c + y
  {
  }

  /** Extending an identity  X + carry * B^i == Y + A * b  by one limb. */
  lemma ExtendIdentity(X: int, Y: int, A: int, b: int, p: int, c: int, t: int, c2: int, ai: int, yi: int)
    requires X + c * p == Y + A * b
    requires t + c2 * BASE == ai * b + c + yi
    ensures X + t * p + c2 * (BASE * p) == Y + yi * p + (A + ai * p) * b
  {
    assert t * p + c2 * (BASE * p) == (t + c2 * BASE) * p;
    assert (ai * b + c + yi) * p == ai * p * b + c * p + yi * p;
    assert (A + ai * p) * b == A * b + ai * p * b;
  }

  /** The same for the limb sequences themselves: X is the part of the result written so far. */
  lemma ExtendPrefix(X: seq<Word>, A: seq<Word>, i: nat, Y: int, y: int, b: int, c: int, t: Word, c2: int)
    requires |X| == i < |A|
    requires Value(X) + c * PowBase(i) == Y + Value(A[..i]) * b
    requires t + c2 * BASE == A[i] * b + c + y
    ensures Value(X + [t]) + c2 * PowBase(i + 1) == Y + y * PowBase(i) + Value(A[..i + 1]) * b
  {
    assert A[..i + 1] == A[..i] + [A[i]];
    ValueSnoc(A[..i], A[i]);
    ValueSnoc(X, t);
    ExtendIdentity(Value(X), Y, Value(A[..i]), b, PowBase(i), c, t, c2, A[i], y);
  }

  lemma AddPrefix(out: seq<Word>, A: seq<Word>, X: seq<Word>, i: nat, b: int, c: int, t: Word, c2: int)
    requires |out| == i < |A| && i < |X|
    requires Value(out) + c * PowBase(i) == Value(X[..i]) + Value(A[..i]) * b
    requires t + c2 * BASE == A[i] * b + c + X[i]
    ensures Value(out + [t]) + c2 * PowBase(i + 1) == Value(X[..i + 1]) + Value(A[..i + 1]) * b
  {
    ExtendPrefix(out, A, i, Value(X[..i]), X[i], b, c, t, c2);
    ValueSnoc(X[..i], X[i]);
    assert X[..i + 1] == X[..i] + [X[i]];
  }

  /** x += a * b over n limbs; x and a may be the same array. The result is the overflow. */
  method MultiplyAdd(x: array<Word>, a: array<Word>, n: nat, b: Word) returns (carry: Word)
    requires 1 <= n <= x.Length && n <= a.Length
    modifies x
    ensures Value(x[..n]) + carry * PowBase(n) == old(Value(x[..n])) + old(Value(a[..n])) * b
    ensures x[n..] == old(x[n..])
  {
    carry := 0;
    var i := 0;
    ghost var X, A, out: seq<Word> := x[..], a[..], [];
    while i < n
      invariant 0 <= i <= n && |out| == i
      invariant Value(out) + carry * PowBase(i) == Value(X[..i]) + Value(A[..i]) * b
      invariant forall k :: 0 <= k < i ==> x[k] == out[k]
      invariant forall k :: i <= k < x.Length ==> x[k] == X[k]
      invariant forall k :: i <= k < a.Length ==> a[k] == A[k]
    {
      ghost var c := carry;
      var x0, x1 := IntMultiply(a[i], b);
      ProductBound(a[i], b);
      CarryStep(x1, x0, carry, x[i]);
      x0 := Wrap(x0 + carry);
      carry := x1 + if x0 < carry then 1 else 0;
      x0 := Wrap(x0 + x[i]);
      carry := carry + if x0 < x[i] then 1 else 0;
      AddPrefix(out, A, X, i, b, c, x0, carry);
      x[i] := x0;
      out := out + [x0];
      i := i + 1;
    }
    assert x[..n] == out && X[..n] == old(x[..n]) && A[..n] == old(a[..n]);
  }

  /** x = a * b + carry over n limbs; the result is the overflow. */
  method Multiply(x: array<Word>, a: array<Word>, n: nat, b: Word, carry0: Word) returns (carry: Word)
    requires 1 <= n <= x.Length && n <= a.Length
    modifies x
    ensures Value(x[..n]) + carry * PowBase(n) == old(Value(a[..n])) * b + carry0
    ensures x[n..] == old(x[n..])
  {
    carry := carry0;
    var i := 0;
    ghost var X, A, out: seq<Word> := x[..], a[..], [];
    while i < n
      invariant 0 <= i <= n && |out| == i
      invariant Value(out) + carry * PowBase(i) == carry0 + Value(A[..i]) * b
      invariant forall k :: 0 <= k < i ==> x[k] == out[k]
      invariant forall k :: i <= k < x.Length ==> x[k] == X[k]
      invariant forall k :: i <= k < a.Length ==> a[k] == A[k]
    {
      ghost var c := carry;
      var x0, x1 := IntMultiply(a[i], b);
      ProductBound(a[i], b);
      CarryStep(x1, x0, carry, 0);
      x0 := Wrap(x0 + carry);
      carry := x1 + if x0 < carry then 1 else 0;
      ExtendPrefix(out, A, i, carry0, 0, b, c, x0, carry);
      x[i] := x0;
      out := out + [x0];
      i := i + 1;
    }
    assert x[..n] == out && A[..n] == old(a[..n]);
  }

  /** One limb times half a limb, from two half-word products. */
  method MultiplyHalfLimb(a: Word, b: Word) returns (x1: Word, x0: Word)
    requires b < HALF
    ensures x1 * BASE + x0 == a * b
  {
    var al, ah := Low(a), High(a);
    HalfProductBound(al, b);
    HalfProductBound(ah, b);
    assert a * b == ah * b * HALF + al * b by {
      assert a == ah * HALF + al;
      assert (ah * HALF + al) * b == ah * b * HALF + al * b;
    }
    AssembleHalf(al * b, ah * b);
    var r0: Word := al * b;
    var r1: Word := ah * b;
    var r2 := Wrap(High(r0) + r1);
    x1 := (if r2 < r1 then HALF else 0) + High(r2);
    x0 := Wrap(r2 * HALF) + Low(r0);
  }

  lemma AssembleHalf(p0: int, p1: int)
    requires 0 <= p0 <= (HALF - 1) * (HALF - 1) && 0 <= p1 <= (HALF - 1) * (HALF - 1)
    ensures var r2 := Wrap(p0 / HALF + p1);
            && !(r2 < p1)
            && Wrap(r2 * HALF) + Low(p0) < BASE
            && High(r2) * BASE + (Wrap(r2 * HALF) + Low(p0)) == p1 * HALF + p0
  {
    var r2 := Wrap(p0 / HALF + p1);
    assert Wrap(r2 * HALF) == Low(r2) * HALF;
  }

  /** x = a * b + carry over n limbs for a half-limb b; the result is the overflow. */
  method MultiplyHalf(x: array<Word>, a: array<Word>, n: nat, b: Word, carry0: Word) returns (carry: Word)
    requires 1 <= n <= x.Length && n <= a.Length && b < HALF
    modifies x
    ensures Value(x[..n]) + carry * PowBase(n) == old(Value(a[..n])) * b + carry0
    ensures x[n..] == old(x[n..])
  {
    carry := carry0;
    var i := 0;
    ghost var X, A, out: seq<Word> := x[..], a[..], [];
    while i < n
      invariant 0 <= i <= n && |out| == i
      invariant Value(out) + carry * PowBase(i) == carry0 + Value(A[..i]) * b
      invariant forall k :: 0 <= k < i ==> x[k] == out[k]
      invariant forall k :: i <= k < x.Length ==> x[k] == X[k]
      invariant forall k :: i <= k < a.Length ==> a[k] == A[k]
    {
      ghost var c := carry;
      var x1, x0 := MultiplyHalfLimb(a[i], b);
      ProductBound(a[i], b);
      CarryStep(x1, x0, carry, 0);
      x0 := Wrap(x0 + carry);
      carry := x1 + if x0 < carry then 1 else 0;
      ExtendPrefix(out, A, i, carry0, 0, b, c, x0, carry);
      x[i] := x0;
      out := out + [x0];
      i := i + 1;
    }
    assert x[..n] == out && A[..n] == old(a[..n]);
  }
}
