/** Writing a multi-limb integer as a digit string by repeated division. */
module BigintUnparse {
  import opened Words
  import opened Bigint
  import opened BigintDivide

  function Power(base: nat, k: nat): nat {
    if k == 0 then 1 else base * Power(base, k - 1)
  }

  function DigitChar(r: nat, uppercase: bool): char
    requires r < 36
  {
    if r <= 9 then ('0' as int + r) as char
    else if uppercase then ('A' as int + r - 10) as char
    else ('a' as int + r - 10) as char
  }

  /** The digit a character stands for, 36 for a character that is no digit. */
  function DigitOf(c: char): nat {
    if '0' <= c <= '9' then c as int - '0' as int
    else if 'a' <= c <= 'z' then c as int - 'a' as int + 10
    else if 'A' <= c <= 'Z' then c as int - 'A' as int + 10
    else 36
  }

  /** The number a digit string denotes, most significant digit first. */
  function NumberOf(s: string, base: nat): nat {
    if s == [] then 0 else NumberOf(s[..|s| - 1], base) * base + DigitOf(s[|s| - 1])
  }

  /** A digit of the alphabet that was asked for. */
  predicate InCase(c: char, uppercase: bool) {
    '0' <= c <= '9' || (if uppercase then 'A' <= c <= 'Z' else 'a' <= c <= 'z')
  }

  lemma DigitRoundTrip(r: nat, uppercase: bool)
    requires r < 36
    ensures DigitOf(DigitChar(r, uppercase)) == r && InCase(DigitChar(r, uppercase), uppercase)
  {
  }

  lemma {:induction false} NumberOfCons(c: char, s: string, base: nat)
    ensures NumberOf([c] + s, base) == DigitOf(c) * Power(base, |s|) + NumberOf(s, base)
  {
    var t := [c] + s;
    if s == [] {
      assert t[..|t| - 1] == [];
      assert NumberOf([], base) == 0;
    } else {
      var s' := s[..|s| - 1];
      assert t[..|t| - 1] == [c] + s';
      NumberOfCons(c, s', base);
      ScaleDigit(DigitOf(c), Power(base, |s'|), NumberOf(s', base), base);
    }
  }

  lemma ScaleDigit(d: nat, p: nat, m: nat, base: nat)
    ensures (d * p + m) * base == d * (base * p) + m * base
  {
    assert (d * p + m) * base == d * p * base + m * base;
    assert d * p * base == d * (base * p);
  }

  lemma {:induction false} ValueBelow(s: seq<Word>)
    ensures Value(s) < Pow2(32 * |s|)
  {
    if s != [] {
      ValueBelow(s[1..]);
      Pow2Constants();
      Pow2Add(32, 32 * |s[1..]|);
    }
  }

  lemma {:induction false} PowerAtLeast(base: nat, div: nat, j: nat)
    requires Pow2(div) <= base
    ensures Pow2(div * j) <= Power(base, j)
  {
    if j > 0 {
      PowerAtLeast(base, div, j - 1);
      assert div * j == div + div * (j - 1);
      Pow2Add(div, div * (j - 1));
      ProductAtLeast(Pow2(div), base, Pow2(div * (j - 1)), Power(base, j - 1));
    }
  }

  lemma ProductAtLeast(x: nat, x': nat, y: nat, y': nat)
    requires x <= x' && y <= y'
    ensures x * y <= x' * y'
  {
    MulMonotone(x, x', y);
    MulMonotone(y, y', x');
  }

  /** Bits one character is sure to carry: the divisor in the buffer size. */
  function BitsPerChar(base: nat): nat {
    if base >= 16 then 4 else if base >= 8 then 3 else 1
  }

  /** While a digit remains to be written, fewer than the reserved characters are in use. */
  lemma BufferSuffices(n: nat, base: nat, j: nat, v: nat, V: nat)
    requires 2 <= base && v >= 1 && v * Power(base, j) <= V < Pow2(32 * n)
    ensures j < n * 32 / BitsPerChar(base) + 1
  {
    var div := BitsPerChar(base);
    assert Pow2(1) == 2 && Pow2(3) == 8 && Pow2(4) == 16;
    PowerAtLeast(base, div, j);
    MulMonotone(1, v, Power(base, j));
    assert Pow2(div * j) < Pow2(32 * n);
    if 32 * n <= div * j {
      Pow2Monotone(32 * n, div * j);
    }
  }

  lemma DropZeroLimb(s: seq<Word>)
    requires |s| >= 1 && s[|s| - 1] == 0
    ensures Value(s) == Value(s[..|s| - 1])
  {
    ValueSnoc(s[..|s| - 1], 0);
    assert s == s[..|s| - 1] + [0];
  }

  lemma NonZeroLimb(s: seq<Word>)
    requires |s| >= 1 && s[|s| - 1] != 0
    ensures Value(s) > 0
  {
    ValueSnoc(s[..|s| - 1], s[|s| - 1]);
    assert s == s[..|s| - 1] + [s[|s| - 1]];
    MulMonotone(1, s[|s| - 1], PowBase(|s| - 1));
  }

  lemma WriteDigit(V: nat, v: nat, v': nat, r: nat, base: nat, c: char, s: string)
    requires V == v * Power(base, |s|) + NumberOf(s, base)
    requires v == v' * base + r && DigitOf(c) == r
    ensures V == v' * Power(base, |[c] + s|) + NumberOf([c] + s, base)
  {
    NumberOfCons(c, s, base);
    assert |[c] + s| == |s| + 1;
    SplitScaled(v', base, r, Power(base, |s|));
  }

  lemma SplitScaled(v: nat, base: nat, r: nat, p: nat)
    ensures (v * base + r) * p == v * (base * p) + r * p
  {
    assert (v * base + r) * p == v * base * p + r * p;
    assert v * base * p == v * (base * p);
  }

  /** The text is a digit string for the part of V already divided away. */
  ghost predicate Written(text: string, base: nat, uppercase: bool, v: nat, V: nat) {
    && V == v * Power(base, |text|) + NumberOf(text, base)
    && (forall k :: 0 <= k < |text| ==> DigitOf(text[k]) < base && InCase(text[k], uppercase))
    && (v == 0 && text != "" ==> DigitOf(text[0]) != 0)
  }

  lemma WrittenNext(text: string, base: nat, uppercase: bool, v: nat, V: nat, v': nat, r: nat, c: char)
    requires Written(text, base, uppercase, v, V) && v > 0
    requires v == v' * base + r && DigitOf(c) == r < base && InCase(c, uppercase)
    ensures Written([c] + text, base, uppercase, v', V) && (base >= 2 ==> v' < v)
  {
    WriteDigit(V, v, v', r, base, c, text);
    if base >= 2 && v' >= 1 {
      MulMonotone(2, base, v');
    }
  }

  /** The limbs left when leading zero limbs are dropped. */
  method SignificantLimbs(x: array<Word>, n: nat) returns (m: nat)
    requires n <= x.Length
    ensures m <= n && Value(x[..m]) == Value(x[..n])
    ensures forall k :: m <= k < n ==> x[k] == 0
    ensures m > 0 ==> Value(x[..m]) > 0
  {
    m := n;
    while m > 0 && x[m - 1] == 0
      invariant m <= n && Value(x[..m]) == Value(x[..n])
      invariant forall k :: m <= k < n ==> x[k] == 0
    {
      DropZeroLimb(x[..m]);
      assert x[..m][..m - 1] == x[..m - 1];
      m := m - 1;
    }
    if m > 0 {
      NonZeroLimb(x[..m]);
    }
  }

  /** Divides the low m limbs of x in place. */
  method DivideInPlace(x: array<Word>, m: nat, b: Word) returns (r: Word)
    requires 1 <= m <= x.Length && 0 < b
    modifies x
    ensures old(Value(x[..m])) == Value(x[..m]) * b + r && r < b
    ensures forall k :: m <= k < x.Length ==> x[k] == old(x[k])
  {
    ghost var Y := x[m..];
    r := Divide(x, x, m, b);
    assert forall k :: m <= k < x.Length ==> x[k] == x[m..][k - m] == Y[k - m];
  }

  /** Divides the next digit away. */
  method NextDigit(x: array<Word>, m: nat, base: nat, uppercase: bool, ghost text: string, ghost V: nat) returns (c: char)
    requires 1 <= m <= x.Length && 2 <= base <= 36
    requires Value(x[..m]) > 0 && Written(text, base, uppercase, Value(x[..m]), V)
    modifies x
    ensures Written([c] + text, base, uppercase, Value(x[..m]), V) && Value(x[..m]) < old(Value(x[..m]))
    ensures forall k :: m <= k < x.Length ==> x[k] == old(x[k])
  {
    ghost var v := Value(x[..m]);
    var r := DivideInPlace(x, m, base);
    c := DigitChar(r, uppercase);
    DigitRoundTrip(r, uppercase);
    WrittenNext(text, base, uppercase, v, V, Value(x[..m]), r, c);
  }

  /** Writes one character in front of the text at the end of the buffer. */
  method Prepend(buffer: array<char>, q: nat, c: char, ghost text: string) returns (q': nat)
    requires 0 < q <= buffer.Length && buffer[q..] == text
    modifies buffer
    ensures q' == q - 1 && buffer[q'..] == [c] + text
  {
    q' := q - 1;
    buffer[q'] := c;
  }

  /** The digits of x in the given base, clearing x. Digits are written backwards into a buffer
      of (n * 32) / div + 1 characters. */
  method UnparseClear(x: array<Word>, n: nat, base: nat, uppercase: bool) returns (s: string)
    requires n <= x.Length && 2 <= base <= 36
    modifies x
    ensures forall k :: 0 <= k < n ==> x[k] == 0
    ensures x[n..] == old(x[n..])
    ensures NumberOf(s, base) == old(Value(x[..n]))
    ensures forall k :: 0 <= k < |s| ==> DigitOf(s[k]) < base && InCase(s[k], uppercase)
    ensures |s| >= 1 && (DigitOf(s[0]) == 0 ==> |s| == 1)
  {
    var div := BitsPerChar(base);
    var buffer := new char[n * 32 / div + 1];
    var q := buffer.Length;
    var m := n;
    ghost var X, V := x[..], Value(x[..n]);
    ValueBelow(x[..n]);
    ghost var text: string := "";
    while true
      invariant 0 <= m <= n && 0 <= q <= buffer.Length
      invariant Written(text, base, uppercase, Value(x[..m]), V)
      invariant forall k :: m <= k < n ==> x[k] == 0
      invariant forall k :: n <= k < x.Length ==> x[k] == X[k]
      invariant buffer[q..] == text
      decreases Value(x[..m])
    {
      m := SignificantLimbs(x, m);
      if m == 0 {
        break;
      }
      ghost var v := Value(x[..m]);
      MulMonotone(0, v, Power(base, |text|));
      BufferSuffices(n, base, |text|, v, V);
      var c := NextDigit(x, m, base, uppercase, text, V);
      q := Prepend(buffer, q, c, text);
      text := [c] + text;
    }
    assert x[..0] == [];
    if q == buffer.Length {
      q := Prepend(buffer, q, '0', text);
      text := "0";
      assert NumberOf("0"[..0], base) == 0;
    }
    s := buffer[q..];
    assert s == text;
  }
}
