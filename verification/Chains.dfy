/** Bucket chains linked through the elements themselves. Elements are known by number; `next` is
    the link stored in each element, and a place is what the source points at with a pointer to a
    pointer: a bucket head or the link of an element. */
module Chains {
  import opened Options
  import opened Reachability
  import opened Graph

  datatype Place = Head(bucket: nat) | After(elem: nat)

  function First(c: seq<nat>, i: nat): Option<nat> {
    if i < |c| then Some(c[i]) else None
  }

  function PlaceAt(b: nat, c: seq<nat>, i: nat): Place
    requires i <= |c|
  {
    if i == 0 then Head(b) else After(c[i - 1])
  }

  ghost predicate LinkAt(next: map<nat, Option<nat>>, c: seq<nat>, i: nat)
    requires i < |c|
  {
    c[i] in next && next[c[i]] == First(c, i + 1)
  }

  /** Following the links from the head yields exactly c. */
  ghost predicate Linked(head: Option<nat>, next: map<nat, Option<nat>>, c: seq<nat>) {
    && head == First(c, 0)
    && forall i {:trigger LinkAt(next, c, i)} :: 0 <= i < |c| ==> LinkAt(next, c, i)
  }

  /** A chain that ends visits no element twice. */
  lemma LinkedDistinct(head: Option<nat>, next: map<nat, Option<nat>>, c: seq<nat>)
    requires Linked(head, next, c)
    ensures Distinct(c)
  {
    forall i, j | 0 <= i < j < |c|
      ensures c[i] != c[j]
    {
      SuffixesDiffer(head, next, c, i, j);
    }
  }

  lemma {:induction false} SuffixesDiffer(head: Option<nat>, next: map<nat, Option<nat>>, c: seq<nat>, i: nat, j: nat)
    requires Linked(head, next, c) && i < j < |c|
    ensures c[i] != c[j]
    decreases |c| - j
  {
    if c[i] == c[j] {
      assert LinkAt(next, c, i) && LinkAt(next, c, j);
      assert First(c, i + 1) == First(c, j + 1);
      if j + 1 < |c| {
        SuffixesDiffer(head, next, c, i + 1, j + 1);
      }
      assert false;
    }
  }

  /** The head and the links after storing v at position i of a chain. */
  function HeadAfter(head: Option<nat>, i: nat, v: Option<nat>): Option<nat> {
    if i == 0 then v else head
  }

  function NextAfter(next: map<nat, Option<nat>>, c: seq<nat>, i: nat, v: Option<nat>): map<nat, Option<nat>>
    requires i <= |c|
  {
    if i == 0 then next else next[c[i - 1] := v]
  }

  lemma LoadAt(head: Option<nat>, next: map<nat, Option<nat>>, c: seq<nat>, i: nat)
    requires Linked(head, next, c) && i <= |c|
    ensures if i == 0 then head == First(c, 0) else c[i - 1] in next && next[c[i - 1]] == First(c, i)
  {
    if i > 0 {
      assert LinkAt(next, c, i - 1);
    }
  }

  lemma RemovedAt(head: Option<nat>, next: map<nat, Option<nat>>, c: seq<nat>, i: nat)
    requires Linked(head, next, c) && i < |c|
    ensures c[i] in next && next[c[i]] == First(c, i + 1)
    ensures Linked(HeadAfter(head, i, First(c, i + 1)), NextAfter(next, c, i, First(c, i + 1)), c[..i] + c[i + 1..])
  {
    LinkedDistinct(head, next, c);
    assert LinkAt(next, c, i);
    var d := c[..i] + c[i + 1..];
    var next' := NextAfter(next, c, i, First(c, i + 1));
    forall k | 0 <= k < |d|
      ensures LinkAt(next', d, k)
    {
      assert LinkAt(next, c, if k < i then k else k + 1);
    }
  }

  lemma InsertedAt(head: Option<nat>, next: map<nat, Option<nat>>, c: seq<nat>, i: nat, e: nat)
    requires Linked(head, next, c) && i <= |c| && e !in c
    ensures Linked(HeadAfter(head, i, Some(e)), NextAfter(next[e := First(c, i)], c, i, Some(e)), c[..i] + [e] + c[i..])
  {
    LinkedDistinct(head, next, c);
    var d := c[..i] + [e] + c[i..];
    var next' := NextAfter(next[e := First(c, i)], c, i, Some(e));
    forall k | 0 <= k < |d|
      ensures LinkAt(next', d, k)
    {
      if k != i {
        assert LinkAt(next, c, if k < i then k else k - 1);
      }
    }
  }

  lemma ReplacedAt(head: Option<nat>, next: map<nat, Option<nat>>, c: seq<nat>, i: nat, e: nat)
    requires Linked(head, next, c) && i < |c| && e !in c
    ensures c[i] in next && next[c[i]] == First(c, i + 1)
    ensures Linked(HeadAfter(head, i, Some(e)), NextAfter(next[e := First(c, i + 1)], c, i, Some(e)), c[i := e])
  {
    LinkedDistinct(head, next, c);
    assert LinkAt(next, c, i);
    var d := c[i := e];
    var next' := NextAfter(next[e := First(c, i + 1)], c, i, Some(e));
    forall k | 0 <= k < |d|
      ensures LinkAt(next', d, k)
    {
      assert LinkAt(next, c, k);
    }
  }

  /** Links of other elements do not matter to a chain. */
  lemma LinkedElsewhere(head: Option<nat>, next: map<nat, Option<nat>>, next': map<nat, Option<nat>>, c: seq<nat>)
    requires Linked(head, next, c) && forall x :: x in c ==> x in next && x in next' && next'[x] == next[x]
    ensures Linked(head, next', c)
  {
    forall i | 0 <= i < |c|
      ensures LinkAt(next', c, i)
    {
      assert LinkAt(next, c, i) && c[i] in c;
    }
  }

  /** All elements in bucket order, the order iteration follows. */
  function Flatten(chains: seq<seq<nat>>): seq<nat> {
    if chains == [] then [] else chains[0] + Flatten(chains[1..])
  }

  lemma {:induction false} FlattenConcat(s: seq<seq<nat>>, t: seq<seq<nat>>)
    ensures Flatten(s + t) == Flatten(s) + Flatten(t)
  {
    if s == [] {
      assert s + t == t;
    } else {
      assert (s + t)[1..] == s[1..] + t;
      FlattenConcat(s[1..], t);
    }
  }

  lemma FlattenAt(chains: seq<seq<nat>>, b: nat)
    requires b < |chains|
    ensures Flatten(chains[b..]) == chains[b] + Flatten(chains[b + 1..])
    ensures Flatten(chains) == Flatten(chains[..b]) + chains[b] + Flatten(chains[b + 1..])
  {
    assert chains == chains[..b] + chains[b..] && chains[b..][1..] == chains[b + 1..];
    FlattenConcat(chains[..b], chains[b..]);
  }

  lemma FlattenUpdate(chains: seq<seq<nat>>, b: nat, c: seq<nat>)
    requires b < |chains|
    ensures Flatten(chains[b := c]) == Flatten(chains[..b]) + c + Flatten(chains[b + 1..])
    ensures |Flatten(chains[b := c])| == |Flatten(chains)| - |chains[b]| + |c|
  {
    FlattenAt(chains, b);
    FlattenAt(chains[b := c], b);
    assert chains[b := c][..b] == chains[..b] && chains[b := c][b + 1..] == chains[b + 1..];
  }

  ghost predicate Member(chains: seq<seq<nat>>, e: nat) {
    exists b :: 0 <= b < |chains| && e in chains[b]
  }

  lemma {:induction false} FlattenMember(chains: seq<seq<nat>>, e: nat)
    ensures e in Flatten(chains) <==> Member(chains, e)
  {
    if chains != [] {
      FlattenMember(chains[1..], e);
      if b :| 0 <= b < |chains| && e in chains[b] {
        assert b > 0 ==> e in chains[1..][b - 1];
      }
      if b :| 0 <= b < |chains[1..]| && e in chains[1..][b] {
        assert e in chains[b + 1];
      }
    }
  }

  /** The stored elements as a set. */
  function Union(chains: seq<seq<nat>>): set<nat> {
    if chains == [] then {} else Elements(chains[0]) + Union(chains[1..])
  }

  lemma {:induction false} UnionMember(chains: seq<seq<nat>>, e: nat)
    ensures e in Union(chains) <==> Member(chains, e)
  {
    if chains != [] {
      UnionMember(chains[1..], e);
      if Member(chains, e) {
        var b :| 0 <= b < |chains| && e in chains[b];
        assert b > 0 ==> e in chains[1..][b - 1];
      }
      if Member(chains[1..], e) {
        var b :| 0 <= b < |chains[1..]| && e in chains[1..][b];
        assert e in chains[b + 1];
      }
    }
  }

  lemma UnionEmpty(chains: seq<seq<nat>>)
    ensures Union(chains) == {} <==> forall b :: 0 <= b < |chains| ==> chains[b] == []
  {
    if b :| 0 <= b < |chains| && chains[b] != [] {
      UnionMember(chains, chains[b][0]);
      assert chains[b][0] in chains[b] && chains[b][0] in Union(chains);
    } else {
      forall e: nat
        ensures e !in Union(chains)
      {
        UnionMember(chains, e);
      }
    }
  }

  lemma UnionIs(chains: seq<seq<nat>>, s: set<nat>)
    requires forall e: nat :: Member(chains, e) <==> e in s
    ensures Union(chains) == s
  {
    forall e: nat
      ensures e in Union(chains) <==> e in s
    {
      UnionMember(chains, e);
    }
  }

  lemma {:induction false} FlattenEmpty(chains: seq<seq<nat>>)
    ensures Flatten(chains) == [] <==> forall b :: 0 <= b < |chains| ==> chains[b] == []
  {
    if chains != [] {
      FlattenEmpty(chains[1..]);
      assert forall b :: 0 < b < |chains| ==> chains[b] == chains[1..][b - 1];
    }
  }

  lemma SkipEmpty(chains: seq<seq<nat>>, a: nat, b: nat)
    requires a <= b <= |chains| && forall k :: a <= k < b ==> chains[k] == []
    ensures Flatten(chains[a..]) == Flatten(chains[b..])
  {
    assert chains[a..] == chains[a..b] + chains[b..];
    FlattenConcat(chains[a..b], chains[b..]);
    FlattenEmpty(chains[a..b]);
  }

  /** Every bucket's chain is linked. */
  ghost predicate Chained(buckets: seq<Option<nat>>, next: map<nat, Option<nat>>, chains: seq<seq<nat>>) {
    |buckets| == |chains| && forall b :: 0 <= b < |chains| ==> Linked(buckets[b], next, chains[b])
  }

  /** Every element is in the bucket that `home` says. */
  ghost predicate Homed(chains: seq<seq<nat>>, home: map<nat, nat>) {
    forall b, e :: 0 <= b < |chains| && e in chains[b] ==> e in home && home[e] == b
  }

  /** Relinking one chain leaves the others linked. */
  lemma ChainUpdated(buckets: seq<Option<nat>>, next: map<nat, Option<nat>>, chains: seq<seq<nat>>, home: map<nat, nat>,
      b: nat, head: Option<nat>, next': map<nat, Option<nat>>, c: seq<nat>)
    requires Chained(buckets, next, chains) && Homed(chains, home) && b < |chains|
    requires Linked(head, next', c)
    requires forall x :: x in next && x in home && home[x] != b ==> x in next' && next'[x] == next[x]
    requires forall x :: x in c ==> x in home && home[x] == b
    ensures Chained(buckets[b := head], next', chains[b := c]) && Homed(chains[b := c], home)
  {
    forall a | 0 <= a < |chains| && a != b
      ensures Linked(buckets[a], next', chains[a])
    {
      forall x | x in chains[a]
        ensures x in next && x in next' && next'[x] == next[x]
      {
        var i :| 0 <= i < |chains[a]| && chains[a][i] == x;
        assert LinkAt(next, chains[a], i);
      }
      LinkedElsewhere(buckets[a], next, next', chains[a]);
    }
  }

  /** What replacing one chain does to the stored elements. */
  lemma MemberUpdated(chains: seq<seq<nat>>, home: map<nat, nat>, b: nat, d: seq<nat>, x: nat)
    requires Homed(chains, home) && b < |chains|
    ensures Member(chains[b := d], x) <==> x in d || (Member(chains, x) && x !in chains[b])
  {
    if x in d {
      assert x in chains[b := d][b];
    }
    if Member(chains, x) && x !in chains[b] {
      var a :| 0 <= a < |chains| && x in chains[a];
      assert x in chains[b := d][a];
    }
    if Member(chains[b := d], x) && x !in d {
      var a :| 0 <= a < |chains| && x in chains[b := d][a];
      assert a != b && x in chains[a] && home[x] == a;
    }
  }

  /** The part of old chains that a rehash has not relinked yet: from element j of chain b on. */
  ghost predicate Pending(buckets: seq<Option<nat>>, next: map<nat, Option<nat>>, chains: seq<seq<nat>>, b: nat, j: nat)
    requires |buckets| == |chains|
  {
    && (b < |chains| ==> forall m {:trigger LinkAt(next, chains[b], m)} :: j <= m < |chains[b]| ==> LinkAt(next, chains[b], m))
    && forall a :: b < a < |chains| ==> Linked(buckets[a], next, chains[a])
  }

  lemma PendingNext(buckets: seq<Option<nat>>, next: map<nat, Option<nat>>, chains: seq<seq<nat>>, home: map<nat, nat>, b: nat, j: nat, v: Option<nat>)
    requires |buckets| == |chains| && b < |chains| && j < |chains[b]| && Homed(chains, home) && Distinct(chains[b])
    requires Pending(buckets, next, chains, b, j)
    ensures Pending(buckets, next[chains[b][j] := v], chains, b, j + 1)
  {
    var e := chains[b][j];
    var next' := next[e := v];
    forall m | j + 1 <= m < |chains[b]|
      ensures LinkAt(next', chains[b], m)
    {
      assert LinkAt(next, chains[b], m);
    }
    assert home[e] == b by {
      assert e in chains[b];
    }
    forall a | b < a < |chains|
      ensures Linked(buckets[a], next', chains[a])
    {
      forall i | 0 <= i < |chains[a]|
        ensures LinkAt(next', chains[a], i)
      {
        assert LinkAt(next, chains[a], i) && chains[a][i] in chains[a];
      }
    }
  }

  lemma RemovedFrom(buckets: seq<Option<nat>>, next: map<nat, Option<nat>>, chains: seq<seq<nat>>, home: map<nat, nat>, b: nat, i: nat)
    requires Chained(buckets, next, chains) && Homed(chains, home) && b < |chains| && i < |chains[b]|
    ensures var c := chains[b];
            var v := First(c, i + 1);
            && Chained(buckets[b := HeadAfter(buckets[b], i, v)], NextAfter(next, c, i, v), chains[b := c[..i] + c[i + 1..]])
            && Homed(chains[b := c[..i] + c[i + 1..]], home)
            && c[i] in next && next[c[i]] == v && (i > 0 ==> c[i - 1] != c[i])
  {
    var c := chains[b];
    assert Linked(buckets[b], next, c);
    LinkedDistinct(buckets[b], next, c);
    RemovedAt(buckets[b], next, c, i);
    assert forall k :: 0 <= k < |c| ==> c[k] in chains[b];
    ChainUpdated(buckets, next, chains, home, b, HeadAfter(buckets[b], i, First(c, i + 1)), NextAfter(next, c, i, First(c, i + 1)),
                 c[..i] + c[i + 1..]);
  }

  lemma InsertedInto(buckets: seq<Option<nat>>, next: map<nat, Option<nat>>, chains: seq<seq<nat>>, home: map<nat, nat>, b: nat, i: nat, e: nat)
    requires Chained(buckets, next, chains) && Homed(chains, home) && b < |chains| && i <= |chains[b]|
    requires e in home && home[e] == b && e !in chains[b]
    ensures var c := chains[b];
            && Chained(buckets[b := HeadAfter(buckets[b], i, Some(e))], NextAfter(next[e := First(c, i)], c, i, Some(e)),
                       chains[b := c[..i] + [e] + c[i..]])
            && Homed(chains[b := c[..i] + [e] + c[i..]], home)
  {
    var c := chains[b];
    assert Linked(buckets[b], next, c);
    InsertedAt(buckets[b], next, c, i, e);
    assert forall k :: 0 <= k < |c| ==> c[k] in chains[b];
    ChainUpdated(buckets, next, chains, home, b, HeadAfter(buckets[b], i, Some(e)), NextAfter(next[e := First(c, i)], c, i, Some(e)),
                 c[..i] + [e] + c[i..]);
  }

  lemma ReplacedIn(buckets: seq<Option<nat>>, next: map<nat, Option<nat>>, chains: seq<seq<nat>>, home: map<nat, nat>, b: nat, i: nat, e: nat)
    requires Chained(buckets, next, chains) && Homed(chains, home) && b < |chains| && i < |chains[b]|
    requires e in home && home[e] == b && e !in chains[b]
    ensures var c: seq<nat> := chains[b];
            && c[i] in next && next[c[i]] == First(c, i + 1)
            && Chained(buckets[b := HeadAfter(buckets[b], i, Some(e))], NextAfter(next[e := First(c, i + 1)], c, i, Some(e)), chains[b := c[..i] + [e] + c[i + 1..]])
            && Homed(chains[b := c[..i] + [e] + c[i + 1..]], home)
  {
    var c: seq<nat> := chains[b];
    assert Linked(buckets[b], next, c);
    ReplacedAt(buckets[b], next, c, i, e);
    var d := c[..i] + [e] + c[i + 1..];
    assert d == c[i := e];
    assert forall k :: 0 <= k < |c| ==> c[k] in chains[b];
    ChainUpdated(buckets, next, chains, home, b, HeadAfter(buckets[b], i, Some(e)), NextAfter(next[e := First(c, i + 1)], c, i, Some(e)), d);
  }

  lemma LaterElsewhere(chains: seq<seq<nat>>, home: map<nat, nat>, b: nat, e: nat)
    requires Homed(chains, home) && b < |chains| && e in Flatten(chains[b + 1..])
    ensures e !in chains[b]
  {
    var rest := chains[b + 1..];
    FlattenMember(rest, e);
    var k :| 0 <= k < |rest| && e in rest[k];
    assert rest[k] == chains[b + 1 + k];
    assert home[e] == b + 1 + k;
  }

  /** An element is stored at most once. */
  lemma {:induction false} FlattenDistinct(buckets: seq<Option<nat>>, next: map<nat, Option<nat>>, chains: seq<seq<nat>>, home: map<nat, nat>, b: nat)
    requires Chained(buckets, next, chains) && Homed(chains, home) && b <= |chains|
    ensures Distinct(Flatten(chains[b..]))
    decreases |chains| - b
  {
    if b < |chains| {
      FlattenAt(chains, b);
      FlattenDistinct(buckets, next, chains, home, b + 1);
      LinkedDistinct(buckets[b], next, chains[b]);
      var rest := Flatten(chains[b + 1..]);
      forall e | e in rest
        ensures e !in chains[b]
      {
        LaterElsewhere(chains, home, b, e);
      }
      assert Elements(chains[b]) !! Elements(rest);
      DistinctAppend(chains[b], rest);
    }
  }
}
