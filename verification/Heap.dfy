/** Binary and d-ary heaps in an array, with a placement call that keeps each element's own record
    of its index right. */
module Heap {
  import opened HeapOrder

  /** The index every element has been told it is at. */
  class Positions<T(==)> {
    var at: map<T, nat>

    constructor ()
      ensures at == map[]
    {
      at := map[];
    }

    method Place(a: array<T>, i: nat)
      requires i < a.Length
      modifies this
      ensures at == old(at)[a[i] := i]
    {
      at := at[a[i] := i];
    }
  }

  /** What holds while element i of the current contents is on its way to its place. */
  ghost predicate Moving<T(!new)>(arity: nat, less: Less<T>, s0: seq<T>, pos0: map<T, nat>, s: seq<T>, pos: map<T, nat>, n: nat, start: nat, i: nat)
    requires arity >= 2 && start < n <= |s0|
  {
    && Rearranged(s0, s, n) && OthersKept(pos0, pos, s0, n) && i < n && s[i] == s0[start]
    && HeapExcept(arity, less, s, n, i)
    && (Distinct(s0, n) && PlacedExcept(pos0, s0, n, start) ==> Distinct(s, n) && PlacedExcept(pos, s, n, i))
    && (i == start ==> s == s0 && pos == pos0)
  }

  lemma MoveUp<T(!new)>(arity: nat, less: Less<T>, s0: seq<T>, pos0: map<T, nat>, s: seq<T>, pos: map<T, nat>, n: nat, start: nat, i: nat)
    requires arity >= 2 && start < n <= |s0| && StrictWeak(less) && 0 < i <= start
    requires Moving(arity, less, s0, pos0, s, pos, n, start, i) && less(s[i], s[Parent(arity, i)])
    ensures var p := Parent(arity, i);
            && Moving(arity, less, s0, pos0, Swapped(s, i, p), pos[s[p] := i], n, start, p)
            && ChildrenInOrder(arity, less, Swapped(s, i, p), n, p)
  {
    var p := Parent(arity, i);
    StepUp(arity, less, s, n, i);
    SwapRearranged(s0, s, n, i, p);
    OthersKeptNext(pos0, pos, s0, n, s[p], i);
    if Distinct(s0, n) && PlacedExcept(pos0, s0, n, start) {
      SwapPlaced(pos, s, n, i, p);
    }
  }

  lemma MoveDown<T(!new)>(arity: nat, less: Less<T>, s0: seq<T>, pos0: map<T, nat>, s: seq<T>, pos: map<T, nat>, n: nat, start: nat, i: nat, c: nat)
    requires arity >= 2 && start < n <= |s0| && StrictWeak(less) && start <= i
    requires Moving(arity, less, s0, pos0, s, pos, n, start, i) && (i > 0 ==> InOrder(arity, less, s, i))
    requires FirstOfChildren(arity, less, s, n, i, c) && c != i
    ensures c > i && Moving(arity, less, s0, pos0, Swapped(s, i, c), pos[s[c] := i], n, start, c)
    ensures InOrder(arity, less, Swapped(s, i, c), c)
  {
    StepDown(arity, less, s, n, i, c);
    SwapRearranged(s0, s, n, i, c);
    OthersKeptNext(pos0, pos, s0, n, s[c], i);
    if Distinct(s0, n) && PlacedExcept(pos0, s0, n, start) {
      SwapPlaced(pos, s, n, i, c);
    }
  }

  /** Moves element start towards the root while it comes before its parent. */
  method SiftUp<T(==,!new)>(arity: nat, a: array<T>, n: nat, start: nat, less: Less<T>, place: Positions<T>) returns (i: nat)
    requires arity >= 2 && start < n <= a.Length && StrictWeak(less)
    requires HeapExcept(arity, less, a[..], n, start)
    modifies a, place
    ensures i <= start && Moving(arity, less, old(a[..]), old(place.at), a[..], place.at, n, start, i)
    ensures i > 0 ==> InOrder(arity, less, a[..], i)
    ensures i < start ==> ChildrenInOrder(arity, less, a[..], n, i)
  {
    ghost var s0, pos0 := a[..], place.at;
    i := start;
    while i > 0 && less(a[i], a[Parent(arity, i)])
      invariant i <= start && Moving(arity, less, s0, pos0, a[..], place.at, n, start, i)
      invariant i < start ==> ChildrenInOrder(arity, less, a[..], n, i)
    {
      ghost var s := a[..];
      var p := Parent(arity, i);
      MoveUp(arity, less, s0, pos0, s, place.at, n, start, i);
      a[i], a[p] := a[p], a[i];
      place.Place(a, i);
      assert a[..] == Swapped(s, i, p);
      i := p;
    }
  }

  /** The child of i that comes before i and all its siblings, or i itself if no child comes before it. */
  ghost predicate FirstOfChildren<T(!new)>(arity: nat, less: Less<T>, s: seq<T>, n: nat, i: nat, c: nat)
    requires arity >= 2 && i < n <= |s|
  {
    && (c == i || (0 < c < n && Parent(arity, c) == i && less(s[c], s[i])))
    && forall j :: 0 < j < n && Parent(arity, j) == i ==> !less(s[j], s[c])
  }

  /** The binary choice: two children, compared one after the other. */
  method FirstChildBinary<T(!new)>(a: array<T>, n: nat, i: nat, less: Less<T>) returns (smallest: nat)
    requires i < n <= a.Length && StrictWeak(less)
    ensures FirstOfChildren(2, less, a[..], n, i, smallest)
  {
    smallest := i;
    var trial := i * 2 + 1;
    if trial < n && less(a[trial], a[smallest]) {
      smallest := trial;
    }
    if trial + 1 < n && less(a[trial + 1], a[smallest]) {
      smallest := trial + 1;
    }
    forall j | 0 < j < n && Parent(2, j) == i
      ensures j == trial || j == trial + 1
    {
      ChildrenOf(2, i, j);
    }
  }

  /** The d-ary choice: node 0 has the children 1 .. arity - 1, node i those from i * arity on. */
  method FirstChildDary<T(!new)>(arity: nat, a: array<T>, n: nat, i: nat, less: Less<T>) returns (smallest: nat)
    requires arity > 2 && i < n <= a.Length && StrictWeak(less)
    ensures FirstOfChildren(arity, less, a[..], n, i, smallest)
  {
    smallest := i;
    var trial := if i != 0 then i * arity else 1;
    var endTrial := if i != 0 then trial + arity else arity;
    endTrial := if endTrial < n then endTrial else n;
    ghost var first := trial;
    ChildrenOf(arity, i, 1);
    while trial < endTrial
      invariant first <= trial
      invariant smallest == i || (first <= smallest < trial && smallest < endTrial && less(a[smallest], a[i]))
      invariant forall j :: first <= j < trial && j < n ==> !less(a[j], a[smallest])
    {
      if less(a[trial], a[smallest]) {
        smallest := trial;
      }
      trial := trial + 1;
    }
    forall j | 0 < j < n
      ensures Parent(arity, j) == i <==> first <= j < endTrial
    {
      ChildrenOf(arity, i, j);
    }
  }

  /** Moves element start, whose parent is in order, away from the root. */
  method SiftDown<T(==,!new)>(arity: nat, a: array<T>, n: nat, start: nat, less: Less<T>, place: Positions<T>) returns (i: nat)
    requires arity >= 2 && start < n <= a.Length && StrictWeak(less)
    requires HeapExcept(arity, less, a[..], n, start) && (start > 0 ==> InOrder(arity, less, a[..], start))
    modifies a, place
    ensures start <= i && Moving(arity, less, old(a[..]), old(place.at), a[..], place.at, n, start, i)
    ensures Heap(arity, less, a[..], n)
    ensures ChildrenInOrder(arity, less, old(a[..]), n, start) ==> i == start
  {
    ghost var s0, pos0 := a[..], place.at;
    i := start;
    while true
      invariant start <= i && Moving(arity, less, s0, pos0, a[..], place.at, n, start, i)
      invariant i > 0 ==> InOrder(arity, less, a[..], i)
      invariant ChildrenInOrder(arity, less, s0, n, start) ==> i == start
      decreases n - i
    {
      var smallest;
      if arity == 2 {
        smallest := FirstChildBinary(a, n, i, less);
      } else {
        smallest := FirstChildDary(arity, a, n, i, less);
      }
      if smallest == i {
        Completed(arity, less, a[..], n, i);
        break;
      }
      ghost var s := a[..];
      assert i == start ==> !InOrder(arity, less, s, smallest);
      MoveDown(arity, less, s0, pos0, s, place.at, n, start, i, smallest);
      a[i], a[smallest] := a[smallest], a[i];
      place.Place(a, i);
      assert a[..] == Swapped(s, i, smallest);
      i := smallest;
    }
  }

  lemma MovingTwice<T(!new)>(arity: nat, less: Less<T>, s0: seq<T>, pos0: map<T, nat>, s1: seq<T>, pos1: map<T, nat>, s2: seq<T>, pos2: map<T, nat>,
      n: nat, start: nat, i: nat, r: nat)
    requires arity >= 2 && start < n <= |s0| && i < n
    requires Moving(arity, less, s0, pos0, s1, pos1, n, start, i) && Moving(arity, less, s1, pos1, s2, pos2, n, i, r)
    requires r == start ==> i == start
    ensures Moving(arity, less, s0, pos0, s2, pos2, n, start, r)
  {
    forall x
      ensures x in s1[..n] <==> x in s0[..n]
    {
      assert x in multiset(s1[..n]) <==> x in multiset(s0[..n]);
    }
  }

  /** A rearrangement of the first n elements that kept all their records right and touched no
      others. */
  ghost predicate ChangedFrom<T(!new)>(s: seq<T>, pos: map<T, nat>, u: seq<T>, pos': map<T, nat>, n: nat)
    requires n <= |s|
  {
    && Rearranged(s, u, n) && OthersKept(pos, pos', s, n)
    && (Distinct(s, n) && Placed(pos, s, n) ==> Placed(pos', u, n))
  }

  /** Telling the moved element its index makes every record right. */
  lemma AllPlaced<T(!new)>(arity: nat, less: Less<T>, s0: seq<T>, pos0: map<T, nat>, s: seq<T>, pos: map<T, nat>, n: nat, start: nat, i: nat)
    requires arity >= 2 && start < n <= |s0| && Moving(arity, less, s0, pos0, s, pos, n, start, i)
    ensures OthersKept(pos0, pos[s[i] := i], s0, n)
    ensures Distinct(s0, n) && PlacedExcept(pos0, s0, n, start) ==> Placed(pos[s[i] := i], s, n)
  {
    assert s0[..n][start] == s0[start];
    OthersKeptNext(pos0, pos, s0, n, s[i], i);
  }

  lemma MovedTwice<T(!new)>(arity: nat, less: Less<T>, s0: seq<T>, pos0: map<T, nat>, s1: seq<T>, pos1: map<T, nat>, s2: seq<T>, pos2: map<T, nat>,
      n: nat, start: nat, i: nat, r: nat)
    requires arity >= 2 && start < n <= |s0| && i < n
    requires Moving(arity, less, s0, pos0, s1, pos1, n, start, i) && Moving(arity, less, s1, pos1, s2, pos2, n, i, r)
    requires r == start ==> i == start
    ensures r < |s2| && s2[r] == s0[start]
    ensures ChangedFrom(s0, pos0, s2, if r != start then pos2[s2[r] := r] else pos2, n)
  {
    MovingTwice(arity, less, s0, pos0, s1, pos1, s2, pos2, n, start, i, r);
    AllPlaced(arity, less, s0, pos0, s2, pos2, n, start, r);
  }

  /** Adds the last of the first n elements to the heap of the others. */
  method PushHeap<T(==,!new)>(arity: nat, a: array<T>, n: nat, less: Less<T>, place: Positions<T>)
    requires arity >= 2 && 0 < n <= a.Length && StrictWeak(less) && Heap(arity, less, a[..], n - 1)
    modifies a, place
    ensures Heap(arity, less, a[..], n) && Rearranged(old(a[..]), a[..], n)
    ensures Distinct(old(a[..]), n) && Placed(old(place.at), old(a[..]), n - 1) ==> Placed(place.at, a[..], n)
    ensures OthersKept(old(place.at), place.at, old(a[..]), n)
  {
    ghost var s0, pos0 := a[..], place.at;
    assert HeapExcept(arity, less, s0, n, n - 1) by {
      assert forall j :: 0 < j < n - 1 ==> InOrder(arity, less, s0, j);
    }
    var i := SiftUp(arity, a, n, n - 1, less, place);
    Completed(arity, less, a[..], n, i);
    AllPlaced(arity, less, s0, pos0, a[..], place.at, n, n - 1, i);
    place.Place(a, i);
  }

  /** Restores the heap after element `element` has changed, and returns its new index. */
  method ChangeHeap<T(==,!new)>(arity: nat, a: array<T>, n: nat, element: nat, less: Less<T>, place: Positions<T>) returns (i: nat)
    requires arity >= 2 && element < n <= a.Length && StrictWeak(less)
    requires HeapExcept(arity, less, a[..], n, element)
    modifies a, place
    ensures Heap(arity, less, a[..], n) && ChangedFrom(old(a[..]), old(place.at), a[..], place.at, n)
    ensures i < n && a[i] == old(a[element])
  {
    ghost var s0, pos0 := a[..], place.at;
    var up := SiftUp(arity, a, n, element, less, place);
    ghost var s1, pos1 := a[..], place.at;
    i := SiftDown(arity, a, n, up, less, place);
    ghost var s2 := a[..];
    MovedTwice(arity, less, s0, pos0, s1, pos1, s2, place.at, n, element, up, i);
    if i != element {
      place.Place(a, i);
    }
    assert a[..] == s2;
  }

  lemma LastInOrder<T(!new)>(arity: nat, less: Less<T>, s: seq<T>, n: nat, e: nat)
    requires arity >= 2 && e + 1 < n <= |s| && HeapExcept(arity, less, s, n, e)
    ensures HeapExcept(arity, less, Swapped(s, e, n - 1), n - 1, e)
  {
    var t := Swapped(s, e, n - 1);
    forall j | 0 < j < n - 1 && j != e && Parent(arity, j) != e
      ensures InOrder(arity, less, t, j)
    {
      assert InOrder(arity, less, s, j);
    }
  }

  lemma LastPlaced<T>(s: seq<T>, pos: map<T, nat>, n: nat, e: nat)
    requires e + 1 < n <= |s| && Distinct(s, n) && Placed(pos, s, n)
    ensures var t := Swapped(s, e, n - 1);
            Distinct(t, n) && Placed(pos[t[e] := e], t, n - 1) && pos[t[e] := e][t[n - 1]] == e
  {
    var t := Swapped(s, e, n - 1);
    forall k | 0 <= k < n - 1
      ensures t[k] in pos[t[e] := e] && pos[t[e] := e][t[k]] == k
    {
      assert k != e ==> t[k] == s[k] && s[k] != s[n - 1];
    }
  }

  lemma RearrangedFirst<T>(s: seq<T>, t: seq<T>, u: seq<T>, n: nat)
    requires 0 < n <= |s| && Rearranged(s, t, n) && Rearranged(t, u, n - 1)
    ensures Rearranged(s, u, n) && u[n - 1] == t[n - 1]
  {
    assert u[n - 1] == u[n - 1..][0] && t[n - 1] == t[n - 1..][0];
    assert t[..n] == t[..n - 1] + [t[n - 1]] && u[..n] == u[..n - 1] + [u[n - 1]];
    assert t[n..] == t[n - 1..][1..] && u[n..] == u[n - 1..][1..];
  }

  lemma OthersKeptLast<T(!new)>(pos0: map<T, nat>, pos1: map<T, nat>, pos2: map<T, nat>, s: seq<T>, t: seq<T>, n: nat)
    requires 0 < n <= |s| && Rearranged(s, t, n) && OthersKept(pos0, pos1, s, n) && OthersKept(pos1, pos2, t, n - 1)
    ensures OthersKept(pos0, pos2, s, n)
    ensures Distinct(t, n) ==> t[n - 1] !in t[..n - 1]
  {
    forall x
      ensures x in t[..n - 1] ==> x in s[..n]
    {
      if x in t[..n - 1] {
        assert t[..n] == t[..n - 1] + [t[n - 1]];
        assert x in t[..n] && x in multiset(t[..n]) && x in multiset(s[..n]);
      }
    }
  }

  /** Exchanges an element with the last one and records where that has gone. */
  method ExchangeWithLast<T(==,!new)>(arity: nat, a: array<T>, n: nat, element: nat, less: Less<T>, place: Positions<T>)
    requires arity >= 2 && element + 1 < n <= a.Length && HeapExcept(arity, less, a[..], n, element)
    modifies a, place
    ensures a[..] == Swapped(old(a[..]), element, n - 1) && place.at == old(place.at)[a[element] := element]
    ensures HeapExcept(arity, less, a[..], n - 1, element)
  {
    ghost var s0 := a[..];
    LastInOrder(arity, less, s0, n, element);
    a[element], a[n - 1] := a[n - 1], a[element];
    place.Place(a, element);
    assert a[..] == Swapped(s0, element, n - 1);
  }

  /** What removing element e makes of the heap and the records. */
  ghost predicate RemovedFrom<T(!new)>(s: seq<T>, pos: map<T, nat>, u: seq<T>, pos': map<T, nat>, n: nat, e: nat)
    requires e < n <= |s|
  {
    && Rearranged(s, u, n) && u[n - 1] == s[e] && OthersKept(pos, pos', s, n)
    && (Distinct(s, n) && Placed(pos, s, n) ==> Placed(pos', u, n - 1) && s[e] in pos' && pos'[s[e]] == e)
  }

  lemma Removed<T(!new)>(s: seq<T>, pos: map<T, nat>, u: seq<T>, pos': map<T, nat>, n: nat, e: nat)
    requires e + 1 < n <= |s|
    requires var t := Swapped(s, e, n - 1);
             var pos1 := pos[t[e] := e];
             ChangedFrom(t, pos1, u, pos', n - 1)
    ensures RemovedFrom(s, pos, u, pos', n, e)
  {
    var t := Swapped(s, e, n - 1);
    var pos1 := pos[t[e] := e];
    SwapRearranged(s, s, n, e, n - 1);
    OthersKeptNext(pos, pos, s, n, t[e], e);
    if Distinct(s, n) && Placed(pos, s, n) {
      LastPlaced(s, pos, n, e);
    }
    RearrangedFirst(s, t, u, n);
    OthersKeptLast(pos, pos1, pos', s, t, n);
  }

  lemma RemovedLast<T(!new)>(arity: nat, less: Less<T>, s: seq<T>, pos: map<T, nat>, n: nat)
    requires arity >= 2 && 0 < n <= |s| && HeapExcept(arity, less, s, n, n - 1)
    ensures Heap(arity, less, s, n - 1) && RemovedFrom(s, pos, s, pos, n, n - 1)
  {
    assert forall j :: 0 < j < n - 1 ==> Parent(arity, j) < j;
  }

  /** Takes an element out of the heap and leaves it behind the others, with its own record alone. */
  method RemoveHeap<T(==,!new)>(arity: nat, a: array<T>, n: nat, element: nat, less: Less<T>, place: Positions<T>)
    requires arity >= 2 && element < n <= a.Length && StrictWeak(less)
    requires HeapExcept(arity, less, a[..], n, element)
    modifies a, place
    ensures Heap(arity, less, a[..], n - 1)
    ensures RemovedFrom(old(a[..]), old(place.at), a[..], place.at, n, element)
  {
    ghost var s, pos := a[..], place.at;
    if element + 1 != n {
      ExchangeWithLast(arity, a, n, element, less, place);
      var i := ChangeHeap(arity, a, n - 1, element, less, place);
      Removed(s, pos, a[..], place.at, n, element);
    } else {
      RemovedLast(arity, less, s, pos, n);
    }
  }

  /** Takes the root out of the heap: nothing that remains comes before it. */
  method PopHeap<T(==,!new)>(arity: nat, a: array<T>, n: nat, less: Less<T>, place: Positions<T>)
    requires arity >= 2 && 0 < n <= a.Length && StrictWeak(less) && Heap(arity, less, a[..], n)
    modifies a, place
    ensures Heap(arity, less, a[..], n - 1)
    ensures RemovedFrom(old(a[..]), old(place.at), a[..], place.at, n, 0)
    ensures forall k :: 0 <= k < n ==> !less(a[k], a[n - 1])
  {
    ghost var s0 := a[..];
    ChangedElement(arity, less, s0, n, 0, s0[0]);
    assert s0[0 := s0[0]] == s0;
    RemoveHeap(arity, a, n, 0, less, place);
    forall k | 0 <= k < n
      ensures !less(a[k], a[n - 1])
    {
      assert a[..n][k] == a[k] && a[..n] == a[..][..n];
      assert a[k] in multiset(a[..][..n]) && a[k] in multiset(s0[..n]);
      var m :| 0 <= m < n && s0[m] == a[k];
      RootIsFirst(arity, less, s0, n, m);
    }
  }
}
