/** The tree behind a heap array, heap order under a strict weak order, and what swaps do to it.
    An arity of 2 stands for the binary functions, whose layout is the usual one; for a larger arity
    the parent of i is i / arity, so that node 0 has one child fewer than the others. */
module HeapOrder {
  type Less<!T> = (T, T) -> bool

  ghost predicate StrictWeak<T(!new)>(less: Less<T>) {
    && (forall x, y :: less(x, y) ==> !less(y, x))
    && (forall x, y, z :: !less(x, y) && !less(y, z) ==> !less(x, z))
  }

  function Parent(arity: nat, i: nat): (p: nat)
    requires arity >= 2 && i > 0
    ensures p < i
  {
    if arity == 2 then (i - 1) / 2 else (DivBelow(i, arity); i / arity)
  }

  lemma DivBelow(i: nat, d: nat)
    requires i > 0 && d >= 2
    ensures 0 <= i / d < i
  {
    Quotient(i / d, i, d);
    TimesGrows(i / d, d);
  }

  lemma TimesGrows(q: nat, d: nat)
    requires d >= 2
    ensures q * d >= 2 * q
  {
  }

  function FirstChild(arity: nat, i: nat): nat {
    if arity == 2 then 2 * i + 1 else if i == 0 then 1 else i * arity
  }

  function EndChild(arity: nat, i: nat): nat {
    if arity == 2 then 2 * i + 3 else if i == 0 then arity else i * arity + arity
  }

  lemma ChildrenOf(arity: nat, i: nat, j: nat)
    requires arity >= 2 && j > 0
    ensures Parent(arity, j) == i <==> FirstChild(arity, i) <= j < EndChild(arity, i)
    ensures FirstChild(arity, i) > i
  {
    if arity == 2 {
      assert (j - 1) / 2 == i <==> 2 * i + 1 <= j < 2 * i + 3;
    } else {
      Quotient(i, j, arity);
      TimesGrows(i, arity);
      assert i == 0 ==> i * arity == 0;
    }
  }

  lemma Quotient(i: nat, j: nat, d: nat)
    requires d > 0
    ensures j / d == i <==> i * d <= j < i * d + d
  {
    assert j == j / d * d + j % d;
    if i < j / d {
      assert (i + 1) * d <= j / d * d;
    } else if i > j / d {
      assert (j / d + 1) * d <= i * d;
    }
  }

  ghost predicate InOrder<T(!new)>(arity: nat, less: Less<T>, s: seq<T>, j: nat)
    requires arity >= 2 && 0 < j < |s|
  {
    !less(s[j], s[Parent(arity, j)])
  }

  /** The first n elements form a heap: no element comes before its parent. */
  ghost predicate Heap<T(!new)>(arity: nat, less: Less<T>, s: seq<T>, n: nat)
    requires arity >= 2 && n <= |s|
  {
    forall j :: 0 < j < n ==> InOrder(arity, less, s, j)
  }

  /** A heap apart from element i, which may be misplaced either way. */
  ghost predicate HeapExcept<T(!new)>(arity: nat, less: Less<T>, s: seq<T>, n: nat, i: nat)
    requires arity >= 2 && n <= |s| && i < n
  {
    && (forall j :: 0 < j < n && j != i && Parent(arity, j) != i ==> InOrder(arity, less, s, j))
    && (i > 0 ==> forall j :: 0 < j < n && Parent(arity, j) == i ==> !less(s[j], s[Parent(arity, i)]))
  }

  ghost predicate ChildrenInOrder<T(!new)>(arity: nat, less: Less<T>, s: seq<T>, n: nat, i: nat)
    requires arity >= 2 && n <= |s|
  {
    forall j :: 0 < j < n && Parent(arity, j) == i ==> InOrder(arity, less, s, j)
  }

  /** Changing one element of a heap leaves a heap apart from that element. */
  lemma ChangedElement<T(!new)>(arity: nat, less: Less<T>, s: seq<T>, n: nat, i: nat, x: T)
    requires arity >= 2 && n <= |s| && i < n && StrictWeak(less) && Heap(arity, less, s, n)
    ensures HeapExcept(arity, less, s[i := x], n, i)
  {
    if i > 0 {
      forall j | 0 < j < n && Parent(arity, j) == i
        ensures !less(s[j], s[Parent(arity, i)])
      {
        assert InOrder(arity, less, s, j) && InOrder(arity, less, s, i);
      }
    }
    forall j | 0 < j < n && j != i && Parent(arity, j) != i
      ensures InOrder(arity, less, s[i := x], j)
    {
      assert InOrder(arity, less, s, j);
    }
  }

  /** Being in order with parent and children completes the heap. */
  lemma Completed<T(!new)>(arity: nat, less: Less<T>, s: seq<T>, n: nat, i: nat)
    requires arity >= 2 && n <= |s| && i < n
    requires HeapExcept(arity, less, s, n, i) && ChildrenInOrder(arity, less, s, n, i)
    requires i > 0 ==> InOrder(arity, less, s, i)
    ensures Heap(arity, less, s, n)
  {
  }

  /** No element comes before the root of a heap. */
  lemma {:induction false} RootIsFirst<T(!new)>(arity: nat, less: Less<T>, s: seq<T>, n: nat, k: nat)
    requires arity >= 2 && n <= |s| && k < n && StrictWeak(less) && Heap(arity, less, s, n)
    ensures !less(s[k], s[0])
  {
    if k > 0 {
      assert InOrder(arity, less, s, k);
      RootIsFirst(arity, less, s, n, Parent(arity, k));
    }
  }

  function Swapped<T>(s: seq<T>, i: nat, j: nat): (r: seq<T>)
    requires i < |s| && j < |s|
    ensures |r| == |s|
  {
    s[i := s[j]][j := s[i]]
  }

  lemma SwappedMultiset<T>(s: seq<T>, i: nat, j: nat)
    requires i < |s| && j < |s|
    ensures multiset(Swapped(s, i, j)) == multiset(s)
  {
  }

  /** Moving an element above a parent that it comes before. */
  lemma StepUp<T(!new)>(arity: nat, less: Less<T>, s: seq<T>, n: nat, i: nat)
    requires arity >= 2 && n <= |s| && 0 < i < n && StrictWeak(less)
    requires HeapExcept(arity, less, s, n, i) && less(s[i], s[Parent(arity, i)])
    ensures HeapExcept(arity, less, Swapped(s, i, Parent(arity, i)), n, Parent(arity, i))
    ensures ChildrenInOrder(arity, less, Swapped(s, i, Parent(arity, i)), n, Parent(arity, i))
  {
    var p := Parent(arity, i);
    var t := Swapped(s, i, p);
    forall j | 0 < j < n && Parent(arity, j) == p
      ensures InOrder(arity, less, t, j)
      ensures p > 0 ==> !less(t[j], t[Parent(arity, p)])
    {
      assert j != i ==> InOrder(arity, less, s, j);
      assert p > 0 ==> InOrder(arity, less, s, p);
    }
    forall j | 0 < j < n && j != p && Parent(arity, j) != p
      ensures InOrder(arity, less, t, j)
    {
      if Parent(arity, j) != i {
        assert InOrder(arity, less, s, j);
      }
    }
  }

  /** Moving an element below its first child. */
  lemma StepDown<T(!new)>(arity: nat, less: Less<T>, s: seq<T>, n: nat, i: nat, c: nat)
    requires arity >= 2 && n <= |s| && i < n && 0 < c < n && Parent(arity, c) == i && StrictWeak(less)
    requires HeapExcept(arity, less, s, n, i) && (i > 0 ==> InOrder(arity, less, s, i))
    requires less(s[c], s[i]) && forall j :: 0 < j < n && Parent(arity, j) == i ==> !less(s[j], s[c])
    ensures HeapExcept(arity, less, Swapped(s, i, c), n, c) && InOrder(arity, less, Swapped(s, i, c), c)
  {
    var t := Swapped(s, i, c);
    forall j | 0 < j < n && j != c && Parent(arity, j) != c
      ensures InOrder(arity, less, t, j)
    {
      if j != i && Parent(arity, j) != i {
        assert InOrder(arity, less, s, j);
      }
    }
    forall j | 0 < j < n && Parent(arity, j) == c
      ensures !less(t[j], t[i])
    {
      assert InOrder(arity, less, s, j);
    }
  }

  /** Every one of the first n elements but possibly the i-th has its index recorded. */
  ghost predicate PlacedExcept<T>(pos: map<T, nat>, s: seq<T>, n: nat, i: nat)
    requires n <= |s|
  {
    forall k :: 0 <= k < n && k != i ==> s[k] in pos && pos[s[k]] == k
  }

  ghost predicate Placed<T>(pos: map<T, nat>, s: seq<T>, n: nat)
    requires n <= |s|
  {
    PlacedExcept(pos, s, n, n)
  }

  ghost predicate Distinct<T>(s: seq<T>, n: nat)
    requires n <= |s|
  {
    forall i, j :: 0 <= i < j < n ==> s[i] != s[j]
  }

  /** Records of elements outside the first n have not been touched. */
  ghost predicate OthersKept<T>(pos: map<T, nat>, pos': map<T, nat>, s: seq<T>, n: nat)
    requires n <= |s|
  {
    && (forall x :: x in pos && x !in s[..n] ==> x in pos' && pos'[x] == pos[x])
    && (forall x :: x in pos' && x !in s[..n] ==> x in pos)
  }

  lemma SwapPlaced<T>(pos: map<T, nat>, s: seq<T>, n: nat, i: nat, p: nat)
    requires n <= |s| && i < n && p < n && i != p && Distinct(s, n) && PlacedExcept(pos, s, n, i)
    ensures Distinct(Swapped(s, i, p), n)
    ensures PlacedExcept(pos[s[p] := i], Swapped(s, i, p), n, p)
  {
  }

  /** t is a rearrangement of the first n elements of s. */
  ghost predicate Rearranged<T>(s: seq<T>, t: seq<T>, n: nat)
    requires n <= |s|
  {
    |t| == |s| && multiset(t[..n]) == multiset(s[..n]) && t[n..] == s[n..]
  }

  lemma SwapRearranged<T>(s0: seq<T>, s: seq<T>, n: nat, i: nat, p: nat)
    requires n <= |s0| && Rearranged(s0, s, n) && i < n && p < n
    ensures Rearranged(s0, Swapped(s, i, p), n)
    ensures s[i] in s0[..n] && s[p] in s0[..n]
  {
    assert Swapped(s, i, p)[..n] == Swapped(s[..n], i, p);
    SwappedMultiset(s[..n], i, p);
    assert s[..n][i] in multiset(s[..n]) && s[..n][p] in multiset(s[..n]);
  }

  lemma OthersKeptNext<T>(pos0: map<T, nat>, pos: map<T, nat>, s0: seq<T>, n: nat, x: T, i: nat)
    requires n <= |s0| && OthersKept(pos0, pos, s0, n) && x in s0[..n]
    ensures OthersKept(pos0, pos[x := i], s0, n)
  {
  }
}
