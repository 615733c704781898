/** The older hash map: chains of pairs that grow at a threshold of two pairs per bucket. */
module HashMap {
  import opened Options
  import opened Words
  import opened Reachability
  import opened Graph
  import opened Chains
  import opened HashContainer
  import opened HashTable

  const MAX_NBUCKETS: nat := 4194303
  const DEFAULT_INITIAL_NBUCKETS: nat := 127
  const RESIZE_THRESHOLD: nat := 2
  const NO_RESIZING: nat := 0x7FFF_FFFF

  class HashMap<K(==,!new), V> {
    const hashcode: K -> nat
    /** Key, value and link of every pair allocated so far. */
    var keys: map<nat, K>
    var values: map<nat, V>
    var links: map<nat, Option<nat>>
    var nextElt: nat
    var buckets: seq<Option<nat>>
    var nbuckets: nat
    var n: nat
    var capacity: nat
    ghost var chains: seq<seq<nat>>
    /** The stored pair of every key. */
    ghost var index: map<K, nat>

    ghost function Home(): map<nat, nat>
      reads this`keys, this`nbuckets
      requires nbuckets > 0
    {
      map e | e in keys :: hashcode(keys[e]) % nbuckets
    }

    /** The buckets hold the chains, every pair in its bucket. */
    ghost predicate Shape()
      reads this`keys, this`nbuckets, this`buckets, this`links, this`chains
    {
      0 < nbuckets <= MAX_NBUCKETS && |chains| == nbuckets && Chained(buckets, links, chains) && Homed(chains, Home())
    }

    function Threshold(): nat
      reads this`nbuckets
    {
      if nbuckets >= MAX_NBUCKETS then 0x7FFF_FFFE else RESIZE_THRESHOLD * nbuckets
    }

    predicate DynamicResizing()
      reads this`capacity
    {
      capacity < NO_RESIZING
    }

    ghost predicate Valid()
      reads this
    {
      && Shape() && n == |Flatten(chains)| && capacity == (if DynamicResizing() then Threshold() else NO_RESIZING)
      && Indexed(Union(chains), keys, values, index) && forall e :: e in keys ==> e < nextElt
    }

    /** There are at most two pairs per bucket as long as the map may still grow. */
    ghost predicate Loaded()
      reads this`n, this`nbuckets, this`capacity
    {
      DynamicResizing() && nbuckets < MAX_NBUCKETS ==> n <= RESIZE_THRESHOLD * nbuckets
    }

    ghost function Map(): map<K, V>
      reads this`keys, this`values, this`chains, this`index
      requires Indexed(Union(chains), keys, values, index)
    {
      MapOf(Union(chains), keys, values, index)
    }

    constructor (hashcode: K -> nat)
      ensures Valid() && Loaded() && DynamicResizing() && Map() == map[] && this.hashcode == hashcode
    {
      this.hashcode := hashcode;
      keys, values, links, nextElt := map[], map[], map[], 0;
      buckets := seq(DEFAULT_INITIAL_NBUCKETS, i => None);
      nbuckets := DEFAULT_INITIAL_NBUCKETS;
      n := 0;
      capacity := RESIZE_THRESHOLD * DEFAULT_INITIAL_NBUCKETS;
      chains := seq(DEFAULT_INITIAL_NBUCKETS, i => []);
      index := map[];
      new;
      FlattenEmpty(chains);
      UnionEmpty(chains);
    }

    method SetDynamicResizing(on: bool)
      modifies this`capacity
      ensures capacity == (if on then Threshold() else NO_RESIZING) && DynamicResizing() == on
      ensures old(Valid()) ==> Valid()
    {
      capacity := if !on then NO_RESIZING else Threshold();
    }

    function Bucket(key: K): (b: nat)
      reads this`nbuckets
      requires nbuckets > 0
      ensures b < nbuckets
    {
      hashcode(key) % nbuckets
    }

    /** The pair with the key in its bucket, and its predecessor in the chain. */
    method Search(key: K) returns (found: Option<nat>, prev: Option<nat>, ghost i: nat)
      requires Valid()
      ensures var c := chains[Bucket(key)];
              found.Some? ==> i < |c| && found.value == c[i] && key in index && index[key] == c[i] &&
                              prev == if i == 0 then None else Some(c[i - 1])
      ensures found.None? ==> key !in index
    {
      var b := Bucket(key);
      ghost var c := chains[b];
      InBucket(b);
      assert Linked(buckets[b], links, c);
      found, prev, i := buckets[b], None, 0;
      while found.Some? && keys[found.value] != key
        invariant i <= |c| && found == First(c, i) && prev == if i == 0 then None else Some(c[i - 1])
        invariant forall k :: 0 <= k < i ==> keys[c[k]] != key
        invariant found.Some? ==> found.value in keys
        decreases |c| - i
      {
        assert LinkAt(links, c, i);
        prev := found;
        found := links[found.value];
        i := i + 1;
        assert i < |c| ==> c[i] in c;
      }
      if found.Some? {
        assert c[i] in c;
      } else {
        KeyInBucket(key);
      }
    }

    lemma InBucket(b: nat)
      requires Valid() && b < nbuckets
      ensures forall e :: e in chains[b] ==> e in keys && e in values && hashcode(keys[e]) % nbuckets == b &&
                                              keys[e] in index && index[keys[e]] == e
    {
      forall e | e in chains[b]
        ensures e in Union(chains) && e in keys && hashcode(keys[e]) % nbuckets == b
      {
        UnionMember(chains, e);
        assert Home()[e] == b;
      }
    }

    lemma KeyInBucket(key: K)
      requires Valid()
      ensures key in index ==> index[key] in chains[Bucket(key)]
    {
      if key in index {
        var e := index[key];
        UnionMember(chains, e);
        var b :| 0 <= b < |chains| && e in chains[b];
        assert Home()[e] == b;
      }
    }

    /** Lookup. */
    method Find(key: K) returns (r: Option<V>)
      requires Valid()
      ensures r == if key in Map() then Some(Map()[key]) else None
    {
      var found, prev;
      ghost var i;
      found, prev, i := Search(key);
      if found.None? {
        return None;
      }
      KeyInBucket(key);
      InBucket(Bucket(key));
      r := Some(values[found.value]);
    }

    /** Apart from one more pair at the head of bucket b the chains are the given ones. */
    ghost predicate AtHead(before: seq<seq<nat>>, b: nat)
      reads this`chains
    {
      b < |before| && exists e :: chains == before[b := [e] + before[b]]
    }

    /** Maps key to value; the result says whether the key is new. */
    method Insert(key: K, value: V) returns (isNew: bool)
      requires Valid()
      modifies this
      ensures Valid() && (old(Loaded()) ==> Loaded()) && DynamicResizing() == old(DynamicResizing())
      ensures Map() == old(Map())[key := value] && isNew == (key !in old(Map()))
      ensures if isNew && old(n) >= old(capacity) then Grown(old(nbuckets), nbuckets) else nbuckets == old(nbuckets)
      ensures !isNew ==> chains == old(chains)
      ensures isNew && nbuckets == old(nbuckets) ==> AtHead(old(chains), Bucket(key))
    {
      var found, prev;
      ghost var i;
      found, prev, i := Search(key);
      if found.Some? {
        values := values[found.value := value];
        return false;
      }
      var e := InsertNew(key, value);
      isNew := true;
    }

    /** The pair of the key, made with a default value if there is none. */
    method FindPairForce(key: K, default: V) returns (e: nat)
      requires Valid()
      modifies this
      ensures Valid() && (old(Loaded()) ==> Loaded()) && DynamicResizing() == old(DynamicResizing())
      ensures key in index && e == index[key]
      ensures Map() == if key in old(Map()) then old(Map()) else old(Map())[key := default]
      ensures if key !in old(Map()) && old(n) >= old(capacity) then Grown(old(nbuckets), nbuckets)
              else nbuckets == old(nbuckets)
      ensures key in old(Map()) ==> chains == old(chains)
      ensures key !in old(Map()) && nbuckets == old(nbuckets) ==> AtHead(old(chains), Bucket(key))
    {
      var found, prev;
      ghost var i;
      found, prev, i := Search(key);
      if found.Some? {
        return found.value;
      }
      e := InsertNew(key, default);
    }

    /** Stores a pair with a new key, after growing a map that has reached its threshold. */
    method InsertNew(key: K, value: V) returns (e: nat)
      requires Valid() && key !in index
      modifies this
      ensures Valid() && (old(Loaded()) ==> Loaded()) && DynamicResizing() == old(DynamicResizing())
      ensures key in index && e == index[key] && Map() == old(Map())[key := value]
      ensures if old(n) >= old(capacity) then Grown(old(nbuckets), nbuckets) else nbuckets == old(nbuckets)
      ensures nbuckets == old(nbuckets) ==> AtHead(old(chains), Bucket(key))
    {
      if n >= capacity {
        Resize(nbuckets + 1);
      }
      e := Allocate(key, value);
      Attach(e);
    }

    /** Everything is in place but pair e, which is in no chain yet. */
    ghost predicate Allocated(e: nat)
      reads this
    {
      && Shape() && n == |Flatten(chains)| && capacity == (if DynamicResizing() then Threshold() else NO_RESIZING)
      && e in keys && !Member(chains, e) && Indexed(Union(chains) + {e}, keys, values, index) && forall x :: x in keys ==> x < nextElt
    }

    method Attach(e: nat)
      requires Allocated(e)
      modifies this`buckets, this`links, this`chains, this`n
      ensures Valid() && n == old(n) + 1 && Map() == old(MapOf(Union(chains) + {e}, keys, values, index))
      ensures chains == old(chains)[Bucket(keys[e]) := [e] + old(chains)[Bucket(keys[e])]]
    {
      StoreFirst(e);
      n := n + 1;
    }

    method Allocate(key: K, value: V) returns (e: nat)
      requires Valid() && key !in index
      modifies this`keys, this`values, this`nextElt, this`index
      ensures Allocated(e) && index == old(index)[key := e] && keys[e] == key
      ensures MapOf(Union(chains) + {e}, keys, values, index) == old(Map())[key := value]
    {
      IndexedInsert(Union(chains), keys, values, index, nextElt, key, value);
      e := nextElt;
      NewPair(key);
      nextElt, keys, values, index := nextElt + 1, keys[e := key], values[e := value], index[key := e];
      assert Home() == old(Home())[e := hashcode(key) % nbuckets];
    }

    /** Puts a pair that is in no chain at the head of its bucket. */
    method StoreFirst(e: nat)
      requires Shape() && e in keys && !Member(chains, e)
      modifies this`buckets, this`links, this`chains
      ensures Shape() && Union(chains) == old(Union(chains)) + {e} && |Flatten(chains)| == |old(Flatten(chains))| + 1
      ensures links == old(links)[e := First(old(chains)[Bucket(keys[e])], 0)]
      ensures chains == old(chains)[Bucket(keys[e]) := [e] + old(chains)[Bucket(keys[e])]]
    {
      var b := Bucket(keys[e]);
      ghost var c := chains[b];
      assert Linked(buckets[b], links, c) && e !in c;
      InsertedInto(buckets, links, chains, Home(), b, 0, e);
      UnionInserted(chains, Home(), b, 0, e);
      assert c[..0] + [e] + c[0..] == [e] + c;
      links := links[e := buckets[b]];
      buckets := buckets[b := Some(e)];
      chains := chains[b := [e] + c];
    }

    /** A number that has not been given out is not stored, and giving it a key moves no pair. */
    lemma NewPair(key: K)
      requires Valid()
      ensures !Member(chains, nextElt) && Homed(chains, Home()[nextElt := hashcode(key) % nbuckets])
    {
      HomedMore(chains, Home(), Home()[nextElt := hashcode(key) % nbuckets], nextElt);
    }

    /** Apart from pair e of bucket b the chains are the given ones. */
    ghost predicate TakenOut(before: seq<seq<nat>>, b: nat, e: nat)
      reads this`chains
    {
      b < |before| && exists i :: 0 <= i < |before[b]| && before[b][i] == e && chains == before[b := before[b][..i] + before[b][i + 1..]]
    }

    /** Removes the key; the result says whether it was there. */
    method Erase(key: K) returns (removed: bool)
      requires Valid()
      modifies this
      ensures Valid() && (old(Loaded()) ==> Loaded()) && DynamicResizing() == old(DynamicResizing())
      ensures Map() == old(Map()) - {key} && removed == (key in old(Map()))
      ensures nbuckets == old(nbuckets)
      ensures if removed then TakenOut(old(chains), Bucket(key), old(index)[key]) else chains == old(chains)
    {
      var found, prev;
      ghost var i;
      found, prev, i := Search(key);
      removed := found.Some?;
      if found.Some? {
        KeyInBucket(key);
        InBucket(Bucket(key));
        EraseFound(key, i, found.value, prev);
      } else {
        assert Map() - {key} == Map();
      }
    }

    method EraseFound(key: K, ghost i: nat, e: nat, prev: Option<nat>)
      requires Valid() && i < |chains[Bucket(key)]| && e == chains[Bucket(key)][i] && e in Union(chains) && keys[e] == key
      requires prev == if i == 0 then None else Some(chains[Bucket(key)][i - 1])
      modifies this`buckets, this`links, this`chains, this`n, this`index
      ensures Valid() && n == old(n) - 1 && Map() == old(Map()) - {key}
      ensures chains == old(chains)[Bucket(key) := old(chains)[Bucket(key)][..i] + old(chains)[Bucket(key)][i + 1..]]
    {
      IndexedErase(Union(chains), keys, values, index, e, key);
      Unlink(Bucket(key), i, e, prev);
      n := n - 1;
      index := index - {key};
    }

    /** Takes a pair out of its chain: its predecessor, or the bucket, gets its link. */
    method Unlink(b: nat, ghost i: nat, e: nat, prev: Option<nat>)
      requires Shape() && b < nbuckets && i < |chains[b]| && e == chains[b][i]
      requires prev == if i == 0 then None else Some(chains[b][i - 1])
      modifies this`buckets, this`links, this`chains
      ensures Shape() && Union(chains) == old(Union(chains)) - {e} && |Flatten(chains)| == |old(Flatten(chains))| - 1
      ensures chains == old(chains)[b := old(chains)[b][..i] + old(chains)[b][i + 1..]]
    {
      ghost var rest := chains[b := chains[b][..i] + chains[b][i + 1..]];
      RemovedFrom(buckets, links, chains, Home(), b, i);
      UnionRemoved(chains, buckets, links, Home(), b, i);
      if prev.Some? {
        links := links[prev.value := links[e]];
      } else {
        buckets := buckets[b := links[e]];
      }
      chains := rest;
    }

    /** Changes the number of buckets to the smallest 2^k - 1 that is at least `want`, or the maximum. */
    method Resize(want: nat)
      requires Valid()
      modifies this`buckets, this`links, this`chains, this`nbuckets, this`capacity
      ensures Valid() && Map() == old(Map()) && DynamicResizing() == old(DynamicResizing())
      ensures (nbuckets >= want || nbuckets == MAX_NBUCKETS) && (nbuckets == 1 || (nbuckets - 1) / 2 < want)
      ensures IsCount(nbuckets) && (nbuckets == old(nbuckets) ==> chains == old(chains))
    {
      var newNbuckets := CountFor(want);
      if nbuckets != newNbuckets {
        Resize0(newNbuckets);
      }
    }

    /** Rehashes into a given number of buckets; the map stays what it is. */
    method Resize0(newNbuckets: nat)
      requires Valid() && 0 < newNbuckets <= MAX_NBUCKETS
      modifies this`buckets, this`links, this`chains, this`nbuckets, this`capacity
      ensures Valid() && nbuckets == newNbuckets && Map() == old(Map()) && DynamicResizing() == old(DynamicResizing())
    {
      var oldNbuckets, oldBuckets := nbuckets, buckets;
      ghost var oldChains, oldHome := chains, Home();
      AllDistinct();
      EmptyBuckets(newNbuckets);
      RelinkAll(oldNbuckets, oldBuckets, oldChains, oldHome);
    }

    method EmptyBuckets(newNbuckets: nat)
      requires capacity == (if DynamicResizing() then Threshold() else NO_RESIZING) && 0 < newNbuckets <= MAX_NBUCKETS
      modifies this`buckets, this`chains, this`nbuckets, this`capacity
      ensures Shape() && nbuckets == newNbuckets && Flatten(chains) == [] && Union(chains) == {}
      ensures capacity == (if DynamicResizing() then Threshold() else NO_RESIZING) && DynamicResizing() == old(DynamicResizing())
    {
      nbuckets := newNbuckets;
      buckets := seq(newNbuckets, i => None);
      chains := seq(newNbuckets, i => []);
      if DynamicResizing() {
        SetDynamicResizing(true);
      }
      FlattenEmpty(chains);
      UnionEmpty(chains);
    }

    lemma AllDistinct()
      requires Valid()
      ensures Distinct(Flatten(chains)) && forall e: nat :: e in Flatten(chains) <==> e in Union(chains)
      ensures forall e: nat :: e in Flatten(chains) ==> e in keys
    {
      FlattenDistinct(buckets, links, chains, Home(), 0);
      assert chains[0..] == chains;
      forall e: nat
        ensures e in Flatten(chains) <==> e in Union(chains)
      {
        FlattenMember(chains, e);
        UnionMember(chains, e);
      }
    }

    method RelinkAll(oldNbuckets: nat, oldBuckets: seq<Option<nat>>, ghost oldChains: seq<seq<nat>>, ghost oldHome: map<nat, nat>)
      requires Shape() && oldNbuckets == |oldChains| && Flatten(chains) == [] && Union(chains) == {}
      requires Chained(oldBuckets, links, oldChains) && Homed(oldChains, oldHome) && Distinct(Flatten(oldChains))
      requires forall x :: x in Flatten(oldChains) ==> x in keys
      modifies this`buckets, this`links, this`chains
      ensures Shape() && |Flatten(chains)| == |Flatten(oldChains)| && Union(chains) == Union(oldChains)
    {
      var b := 0;
      while b < oldNbuckets
        invariant b <= oldNbuckets && Shape()
        invariant forall a :: b <= a < oldNbuckets ==> Linked(oldBuckets[a], links, oldChains[a])
        invariant Union(chains) == Elements(Flatten(oldChains[..b])) && |Flatten(chains)| == |Flatten(oldChains[..b])|
      {
        assert Linked(oldBuckets[b], links, oldChains[b]);
        RelinkChain(oldBuckets[b], oldBuckets, oldChains, oldHome, b);
        b := b + 1;
      }
      assert oldChains[..b] == oldChains;
      FlattenElements(oldChains);
    }

    /** Relinks one old chain, pair by pair. */
    method RelinkChain(first: Option<nat>, ghost oldBuckets: seq<Option<nat>>, ghost oldChains: seq<seq<nat>>, ghost oldHome: map<nat, nat>, ghost b: nat)
      requires Shape() && |oldBuckets| == |oldChains| && b < |oldChains| && first == First(oldChains[b], 0)
      requires Homed(oldChains, oldHome) && Distinct(Flatten(oldChains)) && Pending(oldBuckets, links, oldChains, b, 0)
      requires forall x :: x in Flatten(oldChains) ==> x in keys
      requires Union(chains) == Elements(Flatten(oldChains[..b])) && |Flatten(chains)| == |Flatten(oldChains[..b])|
      modifies this`buckets, this`links, this`chains
      ensures Shape() && Pending(oldBuckets, links, oldChains, b, |oldChains[b]|)
      ensures Union(chains) == Elements(Flatten(oldChains[..b + 1])) && |Flatten(chains)| == |Flatten(oldChains[..b + 1])|
    {
      var e := first;
      ghost var c, done, j := oldChains[b], Flatten(oldChains[..b]), 0;
      OneChain(oldChains, b);
      while e.Some?
        invariant j <= |c| && e == First(c, j) && Shape() && Pending(oldBuckets, links, oldChains, b, j)
        invariant Union(chains) == Elements(done) + Elements(c[..j]) && |Flatten(chains)| == |done| + j
        decreases |c| - j
      {
        assert LinkAt(links, c, j) && e.value == c[j] && c[j] !in c[..j] && c[j] in c;
        assert c[..j + 1] == c[..j] + [c[j]];
        var next := links[e.value];
        UnionMember(chains, e.value);
        ghost var v := First(chains[Bucket(keys[e.value])], 0);
        PendingNext(oldBuckets, links, oldChains, oldHome, b, j, v);
        StoreFirst(e.value);
        j := j + 1;
        e := next;
      }
      assert c[..j] == c;
    }

    /** Empties bucket by bucket. */
    method Clear()
      requires Valid()
      modifies this`buckets, this`chains, this`n, this`index
      ensures Valid() && Map() == map[] && n == 0 && Loaded() && DynamicResizing() == old(DynamicResizing())
    {
      var i := 0;
      while i < nbuckets
        invariant i <= nbuckets == |buckets|
        invariant forall k :: 0 <= k < i ==> buckets[k] == None
      {
        buckets := buckets[i := None];
        i := i + 1;
      }
      n := 0;
      index := map[];
      chains := seq(nbuckets, k => []);
      FlattenEmpty(chains);
      UnionEmpty(chains);
    }

    /** The first pair in bucket b or later. */
    method FirstFrom(b: nat) returns (elt: Option<nat>, bucket: nat)
      requires Shape() && b <= nbuckets
      ensures b <= bucket <= nbuckets && (elt.None? <==> Flatten(chains[b..]) == [])
      ensures elt.Some? ==> bucket < nbuckets && elt == First(chains[bucket], 0) && Flatten(chains[b..]) == Flatten(chains[bucket..])
    {
      bucket := b;
      while bucket < nbuckets
        invariant b <= bucket <= nbuckets && forall k :: b <= k < bucket ==> chains[k] == []
      {
        assert Linked(buckets[bucket], links, chains[bucket]);
        if buckets[bucket].Some? {
          SkipEmpty(chains, b, bucket);
          FlattenAt(chains, bucket);
          return buckets[bucket], bucket;
        }
        bucket := bucket + 1;
      }
      SkipEmpty(chains, b, bucket);
      return None, bucket;
    }

    /** Iterates over all pairs: each is visited once. */
    method Visit() returns (visited: seq<nat>)
      requires Valid()
      ensures visited == Flatten(chains) && Distinct(visited)
    {
      visited := [];
      AllDistinct();
      assert chains[0..] == chains;
      var elt, bucket := FirstFrom(0);
      ghost var rest, i := Flatten(chains), 0;
      if elt.Some? {
        FlattenAt(chains, bucket);
      }
      while elt.Some?
        invariant visited + rest == Flatten(chains) && Stands(elt, bucket, i, rest)
        decreases |rest|
      {
        visited := visited + [elt.value];
        elt, bucket, i, rest := Next(elt.value, bucket, i, rest);
      }
    }

    /** An iterator stands at position i of its bucket, before the pairs in `rest`, or at the end. */
    ghost predicate Stands(elt: Option<nat>, bucket: int, i: int, rest: seq<nat>)
      reads this`nbuckets, this`chains
    {
      if elt.Some? then
        && 0 <= bucket < nbuckets == |chains| && 0 <= i < |chains[bucket]| && elt.value == chains[bucket][i]
        && rest == chains[bucket][i..] + Flatten(chains[bucket + 1..])
      else rest == []
    }

    /** The pair after one in its chain, or the first one in a later bucket. */
    method Next(e: nat, bucket: nat, ghost i: nat, ghost rest: seq<nat>) returns (elt: Option<nat>, bucket': nat, ghost i': nat, ghost rest': seq<nat>)
      requires Shape() && Stands(Some(e), bucket, i, rest)
      ensures rest == [e] + rest' && Stands(elt, bucket', i', rest')
    {
      assert Linked(buckets[bucket], links, chains[bucket]) && LinkAt(links, chains[bucket], i);
      rest' := rest[1..];
      if links[e].Some? {
        return links[e], bucket, i + 1, rest[1..];
      }
      elt, bucket' := FirstFrom(bucket + 1);
      i' := 0;
      if elt.Some? {
        FlattenAt(chains, bucket');
      }
    }
  }

  ghost predicate IsCount(m: nat) {
    exists k: nat :: m + 1 == Pow2(k)
  }

  /** n is the smallest 2^k - 1 above m, or the maximum if m is. */
  ghost predicate Grown(m: nat, n: nat) {
    IsCount(n) && (m < n || n == MAX_NBUCKETS) && n <= MAX_NBUCKETS && (n == 1 || (n - 1) / 2 <= m)
  }

  /** A map of 2^k - 1 buckets grows to 2^(k + 1) - 1, up to the maximum. */
  lemma GrownOnce(m: nat, n: nat)
    requires IsCount(m) && m <= MAX_NBUCKETS && Grown(m, n)
    ensures n == if m < MAX_NBUCKETS then 2 * m + 1 else m
  {
    if m < MAX_NBUCKETS {
      var k: nat :| m + 1 == Pow2(k);
      var l: nat :| n + 1 == Pow2(l);
      if l <= k {
        Pow2Monotone(l, k);
      } else if k + 1 < l {
        Pow2Monotone(k + 2, l);
      }
    }
  }

  /** The smallest 2^k - 1 that is at least `want`, or the maximum. */
  method CountFor(want: nat) returns (m: nat)
    ensures 0 < m <= MAX_NBUCKETS && (m >= want || m == MAX_NBUCKETS) && (m == 1 || (m - 1) / 2 < want)
    ensures IsCount(m)
  {
    m := 1;
    ghost var k: nat := 1;
    TopCount();
    while m < want && m < MAX_NBUCKETS
      invariant 1 <= k <= 22 && m + 1 == Pow2(k) && m <= MAX_NBUCKETS && (m == 1 || (m - 1) / 2 < want)
      decreases 22 - k
    {
      assert k < 22;
      Pow2Monotone(k + 1, 22);
      m := (m + 1) * 2 - 1;
      k := k + 1;
    }
  }

  lemma TopCount()
    ensures Pow2(22) == MAX_NBUCKETS + 1
  {
    Pow2Constants();
    Pow2Add(16, 6);
  }

  lemma UnionInserted(chains: seq<seq<nat>>, home: map<nat, nat>, b: nat, i: nat, e: nat)
    requires Homed(chains, home) && b < |chains| && i <= |chains[b]| && !Member(chains, e)
    ensures var chains' := chains[b := chains[b][..i] + [e] + chains[b][i..]];
            Union(chains') == Union(chains) + {e} && |Flatten(chains')| == |Flatten(chains)| + 1
  {
    var chains' := chains[b := chains[b][..i] + [e] + chains[b][i..]];
    ElementInserted(chains, home, b, i, e);
    forall x: nat
      ensures x in Union(chains') <==> x in Union(chains) + {e}
    {
      UnionMember(chains, x);
      UnionMember(chains', x);
    }
  }

  lemma UnionRemoved(chains: seq<seq<nat>>, buckets: seq<Option<nat>>, next: map<nat, Option<nat>>, home: map<nat, nat>, b: nat, i: nat)
    requires Chained(buckets, next, chains) && Homed(chains, home) && b < |chains| && i < |chains[b]|
    ensures var chains' := chains[b := chains[b][..i] + chains[b][i + 1..]];
            Union(chains') == Union(chains) - {chains[b][i]} && |Flatten(chains')| == |Flatten(chains)| - 1
  {
    var chains' := chains[b := chains[b][..i] + chains[b][i + 1..]];
    ElementRemoved(chains, buckets, next, home, b, i);
    forall x: nat
      ensures x in Union(chains') <==> x in Union(chains) - {chains[b][i]}
    {
      UnionMember(chains, x);
      UnionMember(chains', x);
    }
  }

  lemma FlattenElements(chains: seq<seq<nat>>)
    ensures Elements(Flatten(chains)) == Union(chains)
  {
    forall e: nat
      ensures e in Flatten(chains) <==> e in Union(chains)
    {
      FlattenMember(chains, e);
      UnionMember(chains, e);
    }
  }
}
