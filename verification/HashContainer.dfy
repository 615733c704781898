/** An intrusive hash container: buckets of chained elements, a lazily maintained first bucket, and
    iterators that stay usable while they erase. */
module HashContainer {
  import opened Options
  import opened Words
  import opened Libdivide
  import opened BucketCounts
  import opened Graph
  import opened Chains

  const MAX_BUCKET_COUNT: Word := 0xFFFF_FFFF
  const INITIAL_BUCKET_COUNT: Word := 63

  /** What an iterator holds: the element, where the pointer to it is stored, and the bucket. */
  datatype Iterator = Iterator(element: Option<nat>, pprev: Place, bucket: nat)

  class HashContainer<K(==)> {
    const hash: K -> Word
    /** The key of every element in memory, stored or not. */
    var keys: map<nat, K>
    /** The link inside every element. */
    var hashnext: map<nat, Option<nat>>
    var buckets: seq<Option<nat>>
    var nbuckets: Word
    var firstBucket: nat
    var size: nat
    var bucketDivider: Divisor
    ghost var chains: seq<seq<nat>>

    /** The bucket every element belongs in. */
    ghost function Home(): map<nat, nat>
      reads this
      requires nbuckets > 0
    {
      map e | e in keys :: hash(keys[e]) % nbuckets
    }

    /** The buckets hold the chains, every element in its bucket. */
    ghost predicate Shape()
      reads this
    {
      && nbuckets > 0 && |chains| == nbuckets
      && (forall n: Word :: Do(n, bucketDivider) == n / nbuckets)
      && Chained(buckets, hashnext, chains) && Homed(chains, Home())
    }

    /** The buckets before the first bucket are empty. */
    ghost predicate FirstBucketRight()
      reads this
    {
      firstBucket <= |chains| && forall b :: 0 <= b < firstBucket ==> chains[b] == []
    }

    ghost predicate Valid()
      reads this
    {
      Shape() && FirstBucketRight() && size == |Flatten(chains)|
    }

    /** The stored elements in iteration order. */
    ghost function Contents(): seq<nat>
      reads this
    {
      Flatten(chains)
    }

    ghost predicate Has(e: nat)
      reads this
    {
      Member(chains, e)
    }

    ghost function Stored(): set<nat>
      reads this
    {
      Union(chains)
    }

    lemma StoredHas()
      ensures forall e: nat :: e in Stored() <==> Has(e)
    {
      forall e: nat
        ensures e in Stored() <==> Has(e)
      {
        UnionMember(chains, e);
      }
    }

    /** Every element is stored once, in its bucket. */
    lemma StoredOnce()
      requires Shape()
      ensures Distinct(Contents())
      ensures forall e: nat :: e in Contents() <==> Has(e)
      ensures forall e: nat :: Has(e) ==> e in keys && e in chains[hash(keys[e]) % nbuckets]
    {
      FlattenDistinct(buckets, hashnext, chains, Home(), 0);
      assert chains[0..] == chains;
      forall e: nat
        ensures e in Contents() <==> Has(e)
      {
        FlattenMember(chains, e);
      }
      forall e: nat | Has(e)
        ensures e in keys && e in chains[hash(keys[e]) % nbuckets]
      {
        var b :| 0 <= b < |chains| && e in chains[b];
        assert Home()[e] == b;
      }
    }

    constructor (hash: K -> Word)
      ensures Valid() && Balanced() && this.hash == hash && Contents() == [] && size == 0
      ensures nbuckets == INITIAL_BUCKET_COUNT && keys == map[] && Stored() == {}
      ensures Recover(bucketDivider) != Some(nbuckets)
    {
      InitialCount();
      this.hash := hash;
      keys := map[];
      hashnext := map[];
      size := 0;
      nbuckets := INITIAL_BUCKET_COUNT;
      firstBucket := INITIAL_BUCKET_COUNT;
      var divider := CountDivider(INITIAL_BUCKET_COUNT);
      bucketDivider := divider;
      buckets := seq(INITIAL_BUCKET_COUNT, i => None);
      chains := seq(INITIAL_BUCKET_COUNT, i => []);
      new;
      FlattenEmpty(chains);
      StoredHas();
    }

    /** An empty container with at least n buckets. */
    constructor Sized(hash: K -> Word, n: Word)
      ensures Valid() && Balanced() && this.hash == hash && Contents() == [] && size == 0 && keys == map[]
      ensures nbuckets >= n && (nbuckets == 1 || (nbuckets - 1) / 2 < n) && SelfCheckKnown()
    {
      var b := BucketCountFor(n);
      this.hash := hash;
      keys := map[];
      hashnext := map[];
      size := 0;
      nbuckets := b;
      firstBucket := b;
      var divider := CountDivider(b);
      bucketDivider := divider;
      buckets := seq(b, i => None);
      chains := seq(b, i => []);
      new;
      FlattenEmpty(chains);
    }

    /** The debug check on the divider holds for six bucket counts and fails for the others. */
    ghost predicate SelfCheckKnown()
      reads this
    {
      Recover(bucketDivider) == Some(nbuckets) <==> SelfChecking(nbuckets)
    }

    lemma ContentsStored()
      requires Shape()
      ensures Distinct(Contents()) && forall e: nat :: e in Contents() <==> e in Stored()
    {
      StoredOnce();
      StoredHas();
    }

    /** Gives a new element its key; it is not stored yet. */
    method Allocate(e: nat, key: K)
      requires Valid() && e !in keys
      modifies this`keys
      ensures Valid() && keys == old(keys)[e := key] && !Has(e) && (old(Balanced()) ==> Balanced())
      ensures e !in Stored() && Stored() == old(Stored())
    {
      UnionMember(chains, e);
      ghost var home := Home()[e := hash(key) % nbuckets];
      HomedMore(chains, Home(), home, e);
      keys := keys[e := key];
      assert Home() == home;
    }

    /** Key hash modulo the number of buckets, by the precomputed division. */
    method Bucket(key: K) returns (r: Word)
      requires Shape()
      ensures r == hash(key) % nbuckets
    {
      var h := hash(key);
      var d := Do(h, bucketDivider);
      r := Wrap(h - Wrap(nbuckets * d));
      RemainderWraps(h, nbuckets);
    }

    method Load(p: Place) returns (r: Option<nat>)
      requires match p { case Head(b) => b < |buckets| case After(e) => e in hashnext }
      ensures r == match p { case Head(b) => buckets[b] case After(e) => hashnext[e] }
    {
      r := match p { case Head(b) => buckets[b] case After(e) => hashnext[e] };
    }

    method Store(p: Place, v: Option<nat>, ghost b: nat, ghost c: seq<nat>, ghost i: nat)
      requires b < |buckets| && i <= |c| && p == PlaceAt(b, c, i)
      modifies this`buckets, this`hashnext
      ensures buckets == old(buckets)[b := HeadAfter(old(buckets)[b], i, v)]
      ensures hashnext == NextAfter(old(hashnext), c, i, v)
    {
      match p
      case Head(bucket) => buckets := buckets[bucket := v];
      case After(e) => hashnext := hashnext[e := v];
    }

    /** The iterator's pointer is at position i of its bucket. */
    ghost predicate PlacedAt(it: Iterator, i: nat)
      reads this
    {
      it.bucket < |chains| && i <= |chains[it.bucket]| && it.pprev == PlaceAt(it.bucket, chains[it.bucket], i)
    }

    ghost predicate LiveAt(it: Iterator, i: nat)
      reads this
    {
      PlacedAt(it, i) && i < |chains[it.bucket]| && it.element == Some(chains[it.bucket][i])
    }

    /** The elements an iteration has still to visit from position i of bucket b on. */
    ghost function Rest(b: nat, i: nat): seq<nat>
      reads this
      requires b < |chains| && i <= |chains[b]|
    {
      chains[b][i..] + Flatten(chains[b + 1..])
    }

    /** The iterator stands before exactly the elements of `rest`. */
    ghost predicate Before(it: Iterator, i: nat, rest: seq<nat>)
      reads this
    {
      if it.element.Some? then LiveAt(it, i) && rest == Rest(it.bucket, i) else it.bucket == nbuckets && rest == []
    }

    /** The first element in bucket b0 or later. */
    method FirstFrom(b0: nat, pprev: Place) returns (it: Iterator)
      requires Valid() && b0 <= nbuckets
      ensures Before(it, 0, Flatten(chains[b0..]))
      ensures b0 <= it.bucket <= nbuckets && forall b :: b0 <= b < it.bucket ==> chains[b] == []
    {
      var b, p := b0, pprev;
      while b != nbuckets
        invariant b0 <= b <= nbuckets && forall k :: b0 <= k < b ==> chains[k] == []
        decreases nbuckets - b
      {
        p := Head(b);
        assert Linked(buckets[b], hashnext, chains[b]);
        if buckets[b].Some? {
          SkipEmpty(chains, b0, b);
          FlattenAt(chains, b);
          assert chains[b][0..] == chains[b];
          return Iterator(buckets[b], p, b);
        }
        b := b + 1;
      }
      SkipEmpty(chains, b0, b);
      return Iterator(None, p, b);
    }

    /** Advances an iterator. One whose element has just been erased from the end of its chain moves
        on to a later bucket. */
    method Next(it: Iterator, ghost i: nat) returns (it': Iterator, ghost i': nat)
      requires Valid() && PlacedAt(it, i)
      requires LiveAt(it, i) || (it.element.None? && i == |chains[it.bucket]|)
      ensures Before(it', i', if it.element.Some? then Rest(it.bucket, i)[1..] else Rest(it.bucket, i))
      ensures it.bucket <= it'.bucket
    {
      assert Linked(buckets[it.bucket], hashnext, chains[it.bucket]);
      assert i < |chains[it.bucket]| ==> LinkAt(hashnext, chains[it.bucket], i);
      if it.element.Some? && hashnext[it.element.value].Some? {
        var e := it.element.value;
        it' := Iterator(hashnext[e], After(e), it.bucket);
        i' := i + 1;
        assert Rest(it.bucket, i)[1..] == Rest(it.bucket, i + 1);
      } else {
        it' := FirstFrom(it.bucket + 1, it.pprev);
        i' := 0;
        assert it.element.Some? ==> Rest(it.bucket, i)[1..] == Flatten(chains[it.bucket + 1..]);
        assert it.element.None? ==> Rest(it.bucket, i) == Flatten(chains[it.bucket + 1..]);
      }
    }

    /** An iterator before all elements. Starting an iteration moves the first bucket up over the
        empty ones. */
    method Begin() returns (it: Iterator)
      requires Valid()
      modifies this`firstBucket
      ensures Valid() && Before(it, 0, Contents()) && firstBucket == it.bucket
    {
      FromFirst(chains, firstBucket);
      var b := firstBucket;
      if b == nbuckets {
        return Iterator(None, Head(b), b);
      }
      assert Linked(buckets[b], hashnext, chains[b]);
      if buckets[b].Some? {
        it := Iterator(buckets[b], Head(b), b);
      } else {
        it := FirstFrom(b + 1, Head(b));
        firstBucket := it.bucket;
      }
    }

    /** An iterator at the head of a bucket. */
    method BeginBucket(b: nat) returns (it: Iterator)
      requires Shape() && b < nbuckets
      ensures PlacedAt(it, 0) && it.bucket == b && it.element == First(chains[b], 0)
    {
      assert Linked(buckets[b], hashnext, chains[b]);
      it := Iterator(buckets[b], Head(b), b);
    }

    /** Walks the container from begin to end: every element is visited once, in the order of
        Contents. */
    method Visit() returns (visited: seq<nat>)
      requires Valid()
      modifies this`firstBucket
      ensures Valid() && visited == Contents()
    {
      visited := [];
      ghost var i := 0;
      var it := Begin();
      ghost var all, rest := Contents(), Contents();
      while it.element.Some?
        invariant Valid() && Contents() == all && Before(it, i, rest) && visited + rest == all
        decreases |rest|
      {
        BeforeFirst(it, i, rest);
        FirstMoved(visited, rest, all);
        visited := visited + [it.element.value];
        it, i := Next(it, i);
        rest := rest[1..];
      }
    }

    /** Walks the chain of a bucket to the first element with the key. */
    method Search(b: nat, key: K) returns (it: Iterator, ghost i: nat)
      requires Valid() && b < nbuckets
      ensures it.bucket == b && PlacedAt(it, i)
      ensures it.element.Some? ==> LiveAt(it, i) && it.element.value in keys && keys[it.element.value] == key
      ensures it.element.None? ==> i == 0 && forall e :: e in chains[b] ==> e in keys && keys[e] != key
      ensures forall k :: 0 <= k < i ==> chains[b][k] in keys && keys[chains[b][k]] != key
    {
      ghost var c := chains[b];
      assert Linked(buckets[b], hashnext, c);
      InHome(b);
      var pprev := Head(b);
      i := 0;
      var current := Load(pprev);
      while current.Some?
        invariant i <= |c| && pprev == PlaceAt(b, c, i) && current == First(c, i)
        invariant forall k :: 0 <= k < i ==> keys[c[k]] != key
        decreases |c| - i
      {
        var e := current.value;
        assert e == c[i] && e in chains[b];
        if keys[e] == key {
          return Iterator(current, pprev, b), i;
        }
        assert LinkAt(hashnext, c, i);
        pprev := After(e);
        i := i + 1;
        current := Load(pprev);
      }
      return Iterator(None, Head(b), b), 0;
    }

    lemma ElsewhereOtherKey(b: nat, key: K)
      requires Valid() && b == hash(key) % nbuckets && forall e :: e in chains[b] ==> e in keys && keys[e] != key
      ensures forall e: nat :: Has(e) ==> e in keys && keys[e] != key
    {
      StoredOnce();
    }

    /** The first element with the key, or the head of its bucket, where one can be inserted. */
    method Find(key: K) returns (it: Iterator, ghost i: nat)
      requires Valid()
      ensures it.bucket == hash(key) % nbuckets && PlacedAt(it, i)
      ensures it.element.Some? ==> LiveAt(it, i) && it.element.value in keys && keys[it.element.value] == key
      ensures it.element.None? ==> i == 0 && forall e: nat :: Has(e) ==> e in keys && keys[e] != key
      ensures forall k :: 0 <= k < i ==> chains[it.bucket][k] in keys && keys[chains[it.bucket][k]] != key
      ensures it.element.Some? ==> it.element.value in Stored()
      ensures it.element.None? ==> forall e :: e in Stored() ==> e in keys && keys[e] != key
    {
      var b := Bucket(key);
      it, i := Search(b, key);
      if it.element.None? {
        ElsewhereOtherKey(b, key);
      }
      LiveIsStored(it, i);
      StoredHas();
    }

    /** Takes element i out of the chain of bucket b. */
    method Unlink(ghost b: nat, ghost i: nat, p: Place, e: nat)
      requires Shape() && b < nbuckets && i < |chains[b]| && p == PlaceAt(b, chains[b], i) && e == chains[b][i] && e in hashnext
      modifies this`buckets, this`hashnext, this`chains
      ensures Shape() && chains == old(chains)[b := old(chains)[b][..i] + old(chains)[b][i + 1..]]
      ensures e in hashnext && hashnext[e] == First(old(chains)[b], i + 1)
    {
      ghost var c := chains[b];
      RemovedFrom(buckets, hashnext, chains, Home(), b, i);
      Store(p, hashnext[e], b, c, i);
      chains := chains[b := c[..i] + c[i + 1..]];
    }

    /** Puts element e into the chain of bucket b before position i. */
    method Link(ghost b: nat, ghost i: nat, p: Place, e: nat) returns (wasLast: bool)
      requires Shape() && b < nbuckets && i <= |chains[b]| && p == PlaceAt(b, chains[b], i)
      requires e in keys && hash(keys[e]) % nbuckets == b && e !in chains[b]
      modifies this`buckets, this`hashnext, this`chains
      ensures Shape() && chains == old(chains)[b := old(chains)[b][..i] + [e] + old(chains)[b][i..]]
      ensures wasLast <==> i == |old(chains)[b]|
      ensures i == 0 ==> hashnext == old(hashnext)[e := First(old(chains)[b], 0)]
    {
      ghost var c := chains[b];
      InsertedInto(buckets, hashnext, chains, Home(), b, i, e);
      LoadAt(buckets[b], hashnext, c, i);
      var successor := Load(p);
      hashnext := hashnext[e := successor];
      Store(p, Some(e), b, c, i);
      chains := chains[b := c[..i] + [e] + c[i..]];
      wasLast := successor.None?;
    }

    /** Puts element e in the place of element i of bucket b. */
    method Exchange(ghost b: nat, ghost i: nat, p: Place, old_: nat, e: nat)
      requires Shape() && b < nbuckets && i < |chains[b]| && p == PlaceAt(b, chains[b], i) && old_ == chains[b][i]
      requires e in keys && hash(keys[e]) % nbuckets == b && e !in chains[b]
      modifies this`buckets, this`hashnext, this`chains
      ensures Shape() && chains == old(chains)[b := old(chains)[b][..i] + [e] + old(chains)[b][i + 1..]]
    {
      ghost var c := chains[b];
      ReplacedIn(buckets, hashnext, chains, Home(), b, i, e);
      hashnext := hashnext[e := hashnext[old_]];
      Store(p, Some(e), b, c, i);
      chains := chains[b := c[..i] + [e] + c[i + 1..]];
    }

    /** Finds an element and moves it to the front of its chain. */
    method FindPrefer(key: K) returns (it: Iterator, ghost i: nat)
      requires Valid()
      modifies this`buckets, this`hashnext, this`chains
      ensures Valid() && it.bucket == hash(key) % nbuckets && PlacedAt(it, 0)
      ensures it.element.Some? ==> LiveAt(it, 0) && it.element.value in keys && keys[it.element.value] == key
      ensures var c := old(chains)[it.bucket];
              if it.element.Some? then i < |c| && chains == old(chains)[it.bucket := [c[i]] + c[..i] + c[i + 1..]]
              else chains == old(chains) && forall e: nat :: Has(e) ==> e in keys && keys[e] != key
    {
      it, i := Find(key);
      if it.element.Some? {
        MoveToFront(it.bucket, i, it.pprev, it.element.value);
        it := Iterator(it.element, Head(it.bucket), it.bucket);
      }
    }

    method MoveToFront(b: nat, ghost i: nat, p: Place, e: nat)
      requires Valid() && b < nbuckets && i < |chains[b]| && p == PlaceAt(b, chains[b], i) && e == chains[b][i]
      modifies this`buckets, this`hashnext, this`chains
      ensures Valid() && chains == old(chains)[b := [e] + old(chains)[b][..i] + old(chains)[b][i + 1..]]
    {
      ghost var c := chains[b];
      assert Linked(buckets[b], hashnext, c);
      LinkedDistinct(buckets[b], hashnext, c);
      InHome(b);
      assert c[i] in chains[b] && LinkAt(hashnext, c, i);
      MovedToFront(chains, b, i);
      Unlink(b, i, p, e);
      var _ := Link(b, 0, Head(b), e);
      assert chains == old(chains)[b := [e] + c[..i] + c[i + 1..]];
    }

    predicate Unbalanced()
      reads this
    {
      size > Wrap(2 * nbuckets) && nbuckets < MAX_BUCKET_COUNT
    }

    /** Takes an element out and counts it out. */
    method RemoveAt(ghost b: nat, ghost i: nat, p: Place, e: nat)
      requires Valid() && b < nbuckets && i < |chains[b]| && p == PlaceAt(b, chains[b], i) && e == chains[b][i]
      modifies this`size, this`buckets, this`hashnext, this`chains
      ensures Valid() && size == old(size) - 1
      ensures chains == old(chains)[b := old(chains)[b][..i] + old(chains)[b][i + 1..]]
      ensures forall x: nat :: Has(x) <==> old(Has(x)) && x != e
      ensures e in hashnext && hashnext[e] == First(old(chains)[b], i + 1)
    {
      assert Linked(buckets[b], hashnext, chains[b]) && LinkAt(hashnext, chains[b], i);
      ElementRemoved(chains, buckets, hashnext, Home(), b, i);
      size := size - 1;
      Unlink(b, i, p, e);
    }

    /** Removes the element the iterator stands at and moves the iterator to the next one. */
    method Remove(it: Iterator, ghost i: nat) returns (it': Iterator, ghost i': nat)
      requires Valid() && LiveAt(it, i)
      modifies this`size, this`buckets, this`hashnext, this`chains
      ensures Valid() && size == old(size) - 1
      ensures chains == old(chains)[it.bucket := old(chains)[it.bucket][..i] + old(chains)[it.bucket][i + 1..]]
      ensures forall x: nat :: Has(x) <==> old(Has(x)) && x != it.element.value
      ensures Before(it', i', old(Rest(it.bucket, i))[1..])
    {
      RestRemoved(chains, it.bucket, i);
      RemoveAt(it.bucket, i, it.pprev, it.element.value);
      it', i' := Iterator(hashnext[it.element.value], it.pprev, it.bucket), i;
      if it'.element.None? {
        it', i' := Next(it', i');
      }
    }

    /** Puts another element with the same key in the place of the one the iterator stands at. */
    method Replace(it: Iterator, ghost i: nat, e: nat) returns (it': Iterator)
      requires Valid() && LiveAt(it, i) && e in keys && it.element.value in keys && keys[e] == keys[it.element.value] && !Has(e)
      modifies this`buckets, this`hashnext, this`chains
      ensures Valid()
      ensures chains == old(chains)[it.bucket := old(chains)[it.bucket][..i] + [e] + old(chains)[it.bucket][i + 1..]]
      ensures forall x: nat :: Has(x) <==> x == e || (old(Has(x)) && x != it.element.value)
      ensures LiveAt(it', i) && it'.element == Some(e)
    {
      var b := it.bucket;
      ElementReplaced(chains, buckets, hashnext, Home(), b, i, e);
      InHome(b);
      assert chains[b][i] in chains[b];
      Exchange(b, i, it.pprev, it.element.value, e);
      it' := Iterator(Some(e), it.pprev, b);
    }

    /** Puts an element that is not stored yet before the iterator's place and counts it in. */
    method InsertBefore(ghost b: nat, ghost i: nat, p: Place, e: nat)
      requires Shape() && FirstBucketRight() && size == |Flatten(chains)| + 1
      requires b < nbuckets && i <= |chains[b]| && p == PlaceAt(b, chains[b], i)
      requires e in keys && hash(keys[e]) % nbuckets == b && !Has(e)
      modifies this`buckets, this`hashnext, this`chains, this`firstBucket
      ensures Valid() && chains == old(chains)[b := old(chains)[b][..i] + [e] + old(chains)[b][i..]]
      ensures forall x: nat :: Has(x) <==> old(Has(x)) || x == e
      ensures e in hashnext && hashnext[e] == First(old(chains)[b], i)
    {
      ghost var c := chains[b];
      ElementInserted(chains, Home(), b, i, e);
      var wasLast := Link(b, i, p, e);
      if wasLast {
        firstBucket := 0;
      }
      assert Linked(buckets[b], hashnext, chains[b]) && LinkAt(hashnext, chains[b], i);
    }

    /** Inserts an element at the iterator's place and leaves the iterator behind it. */
    method InsertAt(it: Iterator, ghost i: nat, e: nat) returns (it': Iterator)
      requires Valid() && PlacedAt(it, i) && e in keys && hash(keys[e]) % nbuckets == it.bucket && !Has(e)
      modifies this`size, this`buckets, this`hashnext, this`chains, this`firstBucket
      ensures Valid() && size == old(size) + 1 && Stored() == old(Stored()) + {e}
      ensures chains == old(chains)[it.bucket := old(chains)[it.bucket][..i] + [e] + old(chains)[it.bucket][i..]]
      ensures PlacedAt(it', i + 1) && it'.element == it.element && it'.bucket == it.bucket
    {
      StoredHas();
      ghost var stored := Stored() + {e};
      it' := InsertCounted(it, i, e);
      UnionIs(chains, stored);
    }

    method InsertCounted(it: Iterator, ghost i: nat, e: nat) returns (it': Iterator)
      requires Valid() && PlacedAt(it, i) && e in keys && hash(keys[e]) % nbuckets == it.bucket && !Has(e)
      modifies this`size, this`buckets, this`hashnext, this`chains, this`firstBucket
      ensures Valid() && size == old(size) + 1 && forall x: nat :: Has(x) <==> old(Has(x)) || x == e
      ensures chains == old(chains)[it.bucket := old(chains)[it.bucket][..i] + [e] + old(chains)[it.bucket][i..]]
      ensures PlacedAt(it', i + 1) && it'.element == it.element && it'.bucket == it.bucket
    {
      size := size + 1;
      InsertBefore(it.bucket, i, it.pprev, e);
      it' := Iterator(it.element, After(e), it.bucket);
    }

    /** One element of an old bucket's chain goes to the head of its new bucket. */
    method Relink(e: nat, ghost oldBuckets: seq<Option<nat>>, ghost oldChains: seq<seq<nat>>, ghost oldHome: map<nat, nat>,
        ghost b: nat, ghost j: nat)
      requires Shape() && e in keys && |oldBuckets| == |oldChains| && b < |oldChains| && j < |oldChains[b]| && e == oldChains[b][j]
      requires Homed(oldChains, oldHome) && Distinct(oldChains[b]) && Pending(oldBuckets, hashnext, oldChains, b, j)
      requires !Has(e)
      modifies this`buckets, this`hashnext, this`chains
      ensures Shape() && Pending(oldBuckets, hashnext, oldChains, b, j + 1)
      ensures forall x: nat :: Has(x) <==> old(Has(x)) || x == e
      ensures |Flatten(chains)| == |old(Flatten(chains))| + 1
    {
      var newB := Bucket(keys[e]);
      ElementInserted(chains, Home(), newB, 0, e);
      ghost var first := First(chains[newB], 0);
      var _ := Link(newB, 0, Head(newB), e);
      PendingNext(oldBuckets, old(hashnext), oldChains, oldHome, b, j, first);
    }

    /** Relinks one old chain. */
    method RelinkChain(element: Option<nat>, ghost oldBuckets: seq<Option<nat>>, ghost oldChains: seq<seq<nat>>, ghost oldHome: map<nat, nat>,
        ghost b: nat)
      requires Shape() && |oldBuckets| == |oldChains| && b < |oldChains| && element == First(oldChains[b], 0)
      requires Homed(oldChains, oldHome) && Distinct(Flatten(oldChains)) && Pending(oldBuckets, hashnext, oldChains, b, 0)
      requires forall x :: x in Flatten(oldChains) ==> x in keys
      requires forall x: nat :: Has(x) <==> x in Flatten(oldChains[..b])
      requires |Flatten(chains)| == |Flatten(oldChains[..b])|
      modifies this`buckets, this`hashnext, this`chains
      ensures Shape() && Pending(oldBuckets, hashnext, oldChains, b, |oldChains[b]|)
      ensures forall x: nat :: Has(x) <==> x in Flatten(oldChains[..b + 1])
      ensures |Flatten(chains)| == |Flatten(oldChains[..b + 1])|
    {
      var current := element;
      ghost var c, done, j := oldChains[b], Flatten(oldChains[..b]), 0;
      OneChain(oldChains, b);
      while current.Some?
        invariant j <= |c| && current == First(c, j) && Shape() && Pending(oldBuckets, hashnext, oldChains, b, j)
        invariant forall x: nat :: Has(x) <==> x in done || x in c[..j]
        invariant |Flatten(chains)| == |done| + j
        decreases |c| - j
      {
        var e := current.value;
        assert LinkAt(hashnext, c, j) && e == c[j] && e !in c[..j] && e in c;
        var next := hashnext[e];
        Relink(e, oldBuckets, oldChains, oldHome, b, j);
        assert c[..j + 1] == c[..j] + [e];
        j := j + 1;
        current := next;
      }
      assert c[..j] == c;
    }

    /** Changes the number of buckets to the smallest 2^k - 1 that is at least n. */
    method Rehash(n: Word)
      requires Shape() && FirstBucketRight()
      modifies this`buckets, this`hashnext, this`chains, this`nbuckets, this`firstBucket, this`bucketDivider
      ensures Shape() && FirstBucketRight() && (old(Valid()) ==> Valid())
      ensures |Flatten(chains)| == |old(Flatten(chains))| && forall x: nat :: Has(x) <==> old(Has(x))
      ensures nbuckets >= n && IsBucketCount(nbuckets) && (nbuckets == 1 || (nbuckets - 1) / 2 < n)
      ensures nbuckets != old(nbuckets) ==> SelfCheckKnown()
      ensures nbuckets == old(nbuckets) ==> chains == old(chains) && hashnext == old(hashnext) && firstBucket == old(firstBucket)
    {
      var newNbuckets := BucketCountFor(n);
      if nbuckets == newNbuckets {
        return;
      }
      StoredOnce();
      ghost var oldChains, oldHome := chains, Home();
      var oldNbuckets, oldBuckets := nbuckets, buckets;
      EmptyBuckets(newNbuckets);
      RelinkAll(oldNbuckets, oldBuckets, oldChains, oldHome);
    }

    /** Starts over with a number of empty buckets. */
    method EmptyBuckets(m: Word)
      requires m > 0 && IsBucketCount(m)
      modifies this`buckets, this`chains, this`nbuckets, this`firstBucket, this`bucketDivider
      ensures SelfCheckKnown()
      ensures Shape() && nbuckets == m && firstBucket == 0 && Flatten(chains) == [] && forall x: nat :: !Has(x)
    {
      nbuckets := m;
      buckets := seq(m, i => None);
      chains := seq(m, i => []);
      firstBucket := 0;
      bucketDivider := CountDivider(nbuckets);
      FlattenEmpty(chains);
    }

    method RelinkAll(oldNbuckets: nat, oldBuckets: seq<Option<nat>>, ghost oldChains: seq<seq<nat>>, ghost oldHome: map<nat, nat>)
      requires Shape() && firstBucket == 0 && oldNbuckets == |oldChains| && Flatten(chains) == [] && forall x: nat :: !Has(x)
      requires Chained(oldBuckets, hashnext, oldChains) && Homed(oldChains, oldHome) && Distinct(Flatten(oldChains))
      requires forall x :: x in Flatten(oldChains) ==> x in keys
      modifies this`buckets, this`hashnext, this`chains
      ensures Shape() && FirstBucketRight() && |Flatten(chains)| == |Flatten(oldChains)|
      ensures forall x: nat :: Has(x) <==> x in Flatten(oldChains)
    {
      var b := 0;
      while b < oldNbuckets
        invariant b <= oldNbuckets && Shape()
        invariant forall a :: b <= a < oldNbuckets ==> Linked(oldBuckets[a], hashnext, oldChains[a])
        invariant forall x: nat :: Has(x) <==> x in Flatten(oldChains[..b])
        invariant |Flatten(chains)| == |Flatten(oldChains[..b])|
      {
        assert Linked(oldBuckets[b], hashnext, oldChains[b]);
        RelinkChain(oldBuckets[b], oldBuckets, oldChains, oldHome, b);
        b := b + 1;
      }
      assert oldChains[..b] == oldChains;
    }

    /** The load the container keeps when it may rebalance itself. */
    ghost predicate Balanced()
      reads this
    {
      IsBucketCount(nbuckets) && (size <= 2 * nbuckets || nbuckets == MAX_BUCKET_COUNT)
    }

    /** Rehashes a container that is about to hold one more element, and finds the element's place. */
    method Rebalance(e: nat) returns (it: Iterator)
      requires Shape() && FirstBucketRight() && e in keys && nbuckets < MAX_BUCKET_COUNT
      modifies this`buckets, this`hashnext, this`chains, this`nbuckets, this`firstBucket, this`bucketDivider
      ensures Shape() && FirstBucketRight() && |Flatten(chains)| == |old(Flatten(chains))| && forall x: nat :: Has(x) <==> old(Has(x))
      ensures PlacedAt(it, 0) && it.bucket == hash(keys[e]) % nbuckets && it.element.None?
      ensures NextCount(old(nbuckets), nbuckets)
    {
      Rehash(nbuckets + 1);
      var b := Bucket(keys[e]);
      it := Iterator(None, Head(b), b);
    }

    /** Inserts an element with a new key at the iterator's place. With `balance`, a container that
        has become too full is rehashed first, and the place found again. */
    method Insert(it: Iterator, ghost i: nat, e: nat, balance: bool) returns (it': Iterator, ghost i': nat)
      requires Valid() && PlacedAt(it, i) && e in keys && hash(keys[e]) % nbuckets == it.bucket && !Has(e)
      modifies this`size, this`buckets, this`hashnext, this`chains, this`firstBucket, this`nbuckets, this`bucketDivider
      ensures Valid() && size == old(size) + 1
      ensures forall x: nat :: Has(x) <==> old(Has(x)) || x == e
      ensures LiveAt(it', i') && it'.element == Some(e)
      ensures nbuckets == old(nbuckets) ==>
          && i' == i && it'.bucket == it.bucket
          && chains == old(chains)[it.bucket := old(chains)[it.bucket][..i] + [e] + old(chains)[it.bucket][i..]]
      ensures if balance && old(size) + 1 > Wrap(2 * old(nbuckets)) && old(nbuckets) < MAX_BUCKET_COUNT
              then NextCount(old(nbuckets), nbuckets) else nbuckets == old(nbuckets)
      ensures balance && old(Balanced()) ==> Balanced()
    {
      ghost var m := nbuckets;
      if nbuckets < MAX_BUCKET_COUNT && IsBucketCount(nbuckets) {
        BucketCountFits(nbuckets);
      }
      size := size + 1;
      it', i' := it, i;
      if Unbalanced() && balance {
        it' := Rebalance(e);
        i' := 0;
        if IsBucketCount(m) {
          BucketCountGrows(m, nbuckets);
        }
      }
      InsertBefore(it'.bucket, i', it'.pprev, e);
      it' := Iterator(Some(e), it'.pprev, it'.bucket);
    }

    /** The chains with a new element inserted at, put in the place of, or removed from position i of
        bucket b; all other positions and chains stay. */
    ghost function SetChains(chains: seq<seq<nat>>, b: nat, i: nat, previous: Option<nat>, element: Option<nat>): seq<seq<nat>> {
      if element == previous || b >= |chains| || i > |chains[b]| then chains
      else if previous.None? then chains[b := chains[b][..i] + [element.value] + chains[b][i..]]
      else if i == |chains[b]| then chains
      else if element.None? then chains[b := chains[b][..i] + chains[b][i + 1..]]
      else chains[b := chains[b][..i] + [element.value] + chains[b][i + 1..]]
    }

    /** The general update at an iterator: removes, replaces or inserts. Returns the element that was
        there. */
    method Set(it: Iterator, ghost i: nat, element: Option<nat>, balance: bool) returns (previous: Option<nat>, it': Iterator, ghost i': nat)
      requires Valid() && (it.element.Some? ==> LiveAt(it, i) && it.element.value in keys)
      requires element.Some? && element != it.element ==>
          PlacedAt(it, i) && element.value in keys && !Has(element.value) && hash(keys[element.value]) % nbuckets == it.bucket &&
          (it.element.Some? ==> keys[element.value] == keys[it.element.value])
      modifies this`size, this`buckets, this`hashnext, this`chains, this`firstBucket, this`nbuckets, this`bucketDivider
      ensures Valid() && previous == it.element
      ensures size == old(size) + (if element.Some? then 1 else 0) - (if previous.Some? then 1 else 0)
      ensures element.Some? && element != previous ==> LiveAt(it', i') && it'.element == element
      ensures element.None? && previous.Some? ==> Before(it', i', old(Rest(it.bucket, i))[1..])
      ensures element == previous ==> it' == it && i' == i && hashnext == old(hashnext) && firstBucket == old(firstBucket)
      ensures nbuckets == old(nbuckets) ==> chains == SetChains(old(chains), it.bucket, i, previous, element)
      ensures if balance && element.Some? && previous.None? && old(size) + 1 > Wrap(2 * old(nbuckets)) && old(nbuckets) < MAX_BUCKET_COUNT
              then NextCount(old(nbuckets), nbuckets) else nbuckets == old(nbuckets)
      ensures Stored() == if element == previous then old(Stored()) else old(Stored()) - AsSet(previous) + AsSet(element)
      ensures (balance || element.None? || previous.Some?) && old(Balanced()) ==> Balanced()
    {
      if it.element == element {
        LiveIsStored(it, i);
        return it.element, it, i;
      }
      ghost var before := chains;
      it', i' := Change(it, i, element, balance);
      previous := it.element;
      UnionChanged(before, chains, previous, element);
    }

    /** Puts something else where the iterator stands: removes, replaces or inserts. */
    method Change(it: Iterator, ghost i: nat, element: Option<nat>, balance: bool) returns (it': Iterator, ghost i': nat)
      requires Valid() && (it.element.Some? ==> LiveAt(it, i) && it.element.value in keys) && element != it.element
      requires element.Some? ==>
          PlacedAt(it, i) && element.value in keys && !Has(element.value) && hash(keys[element.value]) % nbuckets == it.bucket &&
          (it.element.Some? ==> keys[element.value] == keys[it.element.value])
      modifies this`size, this`buckets, this`hashnext, this`chains, this`firstBucket, this`nbuckets, this`bucketDivider
      ensures Valid()
      ensures size == old(size) + (if element.Some? then 1 else 0) - (if it.element.Some? then 1 else 0)
      ensures forall x: nat :: Has(x) <==> Some(x) == element || (old(Has(x)) && Some(x) != it.element)
      ensures element.Some? ==> LiveAt(it', i') && it'.element == element
      ensures element.None? ==> Before(it', i', old(Rest(it.bucket, i))[1..])
      ensures nbuckets == old(nbuckets) ==> chains == SetChains(old(chains), it.bucket, i, it.element, element)
      ensures if balance && element.Some? && it.element.None? && old(size) + 1 > Wrap(2 * old(nbuckets)) && old(nbuckets) < MAX_BUCKET_COUNT
              then NextCount(old(nbuckets), nbuckets) else nbuckets == old(nbuckets)
      ensures (balance || element.None? || it.element.Some?) && old(Balanced()) ==> Balanced()
    {
      if element.None? {
        it', i' := Remove(it, i);
      } else if it.element.Some? {
        it' := Replace(it, i, element.value);
        i' := i;
      } else {
        it', i' := Insert(it, i, element.value, balance);
      }
    }

    lemma BeforeFirst(it: Iterator, i: nat, rest: seq<nat>)
      requires Before(it, i, rest) && it.element.Some?
      ensures rest != [] && rest == [it.element.value] + rest[1..]
    {
    }

    lemma LiveInKeys(it: Iterator, i: nat)
      requires Shape() && LiveAt(it, i)
      ensures it.element.value in keys && hash(keys[it.element.value]) % nbuckets == it.bucket
    {
      InHome(it.bucket);
      assert chains[it.bucket][i] in chains[it.bucket];
    }

    lemma LiveIsStored(it: Iterator, i: nat)
      requires it.element.Some? ==> LiveAt(it, i)
      ensures it.element.Some? ==> Has(it.element.value)
    {
    }

    /** Removes the element at an iterator, which moves on to the next. */
    method Erase(it: Iterator, ghost i: nat) returns (previous: Option<nat>, it': Iterator, ghost i': nat)
      requires Valid() && (it.element.Some? ==> LiveAt(it, i) && it.element.value in keys)
      modifies this`size, this`buckets, this`hashnext, this`chains, this`firstBucket, this`nbuckets, this`bucketDivider
      ensures Valid() && previous == it.element && (old(Balanced()) ==> Balanced())
      ensures size == old(size) - (if previous.Some? then 1 else 0)
      ensures Stored() == old(Stored()) - AsSet(previous)
      ensures previous.Some? ==> Before(it', i', old(Rest(it.bucket, i))[1..])
      ensures nbuckets == old(nbuckets) && chains == SetChains(old(chains), it.bucket, i, previous, None)
    {
      previous, it', i' := Set(it, i, None, false);
    }

    /** Removes the first element with the key, if there is one. */
    method EraseKey(key: K) returns (previous: Option<nat>, ghost i: nat)
      requires Valid()
      modifies this`size, this`buckets, this`hashnext, this`chains, this`firstBucket, this`nbuckets, this`bucketDivider
      ensures Valid() && (old(Balanced()) ==> Balanced())
      ensures previous.Some? ==> previous.value in old(Stored()) && previous.value in keys && keys[previous.value] == key
      ensures previous.None? ==> forall x :: x in old(Stored()) ==> x in keys && keys[x] != key
      ensures size == old(size) - (if previous.Some? then 1 else 0)
      ensures Stored() == old(Stored()) - AsSet(previous)
      ensures nbuckets == old(nbuckets) && chains == SetChains(old(chains), hash(key) % nbuckets, i, previous, None)
      ensures var c := old(chains)[hash(key) % nbuckets];
              i <= |c| && forall k :: 0 <= k < i ==> c[k] in keys && keys[c[k]] != key
    {
      StoredHas();
      var it;
      it, i := Find(key);
      LiveIsStored(it, i);
      ghost var i';
      previous, it, i' := Erase(it, i);
    }

    /** Erases from an iterator until nothing is left, as the owner of the elements does to free
        them. Every element comes out once, in iteration order. */
    method EraseAll() returns (erased: seq<nat>)
      requires Valid()
      modifies this`size, this`buckets, this`hashnext, this`chains, this`firstBucket, this`nbuckets, this`bucketDivider
      ensures Valid() && erased == old(Contents()) && Contents() == [] && size == 0 && (old(Balanced()) ==> Balanced())
      ensures Stored() == {} && nbuckets == old(nbuckets)
    {
      erased := [];
      ghost var all, rest, i := Contents(), Contents(), 0;
      var it := Begin();
      while it.element.Some?
        invariant Valid() && Before(it, i, rest) && erased + rest == all && size == |rest|
        invariant (old(Balanced()) ==> Balanced()) && nbuckets == old(nbuckets)
        decreases |rest|
      {
        LiveInKeys(it, i);
        BeforeFirst(it, i, rest);
        FirstMoved(erased, rest, all);
        erased := erased + [it.element.value];
        var previous;
        previous, it, i := Erase(it, i);
        rest := rest[1..];
      }
      FlattenUnion(chains);
    }

    /** Forgets all elements. */
    method Clear()
      requires Valid()
      modifies this`size, this`buckets, this`chains
      ensures Valid() && Contents() == [] && size == 0
    {
      buckets := seq(nbuckets, i => None);
      chains := seq(nbuckets, i => []);
      size := 0;
      FlattenEmpty(chains);
    }

    lemma InHome(b: nat)
      requires Shape() && b < nbuckets
      ensures forall x :: x in chains[b] ==> x in keys && x in Home() && Home()[x] == b
    {
    }
  }

  lemma ElementRemoved(chains: seq<seq<nat>>, buckets: seq<Option<nat>>, next: map<nat, Option<nat>>, home: map<nat, nat>, b: nat, i: nat)
    requires Chained(buckets, next, chains) && Homed(chains, home) && b < |chains| && i < |chains[b]|
    ensures var d := chains[b][..i] + chains[b][i + 1..];
            && (forall x: nat :: Member(chains[b := d], x) <==> Member(chains, x) && x != chains[b][i])
            && |Flatten(chains[b := d])| == |Flatten(chains)| - 1
  {
    var c := chains[b];
    var d := c[..i] + c[i + 1..];
    FlattenUpdate(chains, b, d);
    LinkedDistinct(buckets[b], next, c);
    assert forall x :: x in d <==> x in c && x != c[i] by {
      assert c == c[..i] + [c[i]] + c[i + 1..];
    }
    forall x: nat
      ensures Member(chains[b := d], x) <==> Member(chains, x) && x != c[i]
    {
      MemberUpdated(chains, home, b, d, x);
    }
  }

  lemma ElementReplaced(chains: seq<seq<nat>>, buckets: seq<Option<nat>>, next: map<nat, Option<nat>>, home: map<nat, nat>, b: nat, i: nat, e: nat)
    requires Chained(buckets, next, chains) && Homed(chains, home) && b < |chains| && i < |chains[b]|
    ensures var d := chains[b][..i] + [e] + chains[b][i + 1..];
            && (forall x: nat :: Member(chains[b := d], x) <==> x == e || (Member(chains, x) && x != chains[b][i]))
            && |Flatten(chains[b := d])| == |Flatten(chains)|
  {
    var c: seq<nat> := chains[b];
    var d := c[..i] + [e] + c[i + 1..];
    FlattenUpdate(chains, b, d);
    LinkedDistinct(buckets[b], next, c);
    assert forall x :: x in d <==> x == e || (x in c && x != c[i]) by {
      assert c == c[..i] + [c[i]] + c[i + 1..];
    }
    forall x: nat
      ensures Member(chains[b := d], x) <==> x == e || (Member(chains, x) && x != c[i])
    {
      MemberUpdated(chains, home, b, d, x);
    }
  }

  lemma ElementInserted(chains: seq<seq<nat>>, home: map<nat, nat>, b: nat, i: nat, e: nat)
    requires Homed(chains, home) && b < |chains| && i <= |chains[b]| && !Member(chains, e)
    ensures var d := chains[b][..i] + [e] + chains[b][i..];
            && (forall x: nat :: Member(chains[b := d], x) <==> Member(chains, x) || x == e)
            && |Flatten(chains[b := d])| == |Flatten(chains)| + 1
            && e !in chains[b]
  {
    var c: seq<nat> := chains[b];
    var d := c[..i] + [e] + c[i..];
    FlattenUpdate(chains, b, d);
    assert forall x :: x in d <==> x == e || x in c by {
      assert c == c[..i] + c[i..];
    }
    forall x: nat
      ensures Member(chains[b := d], x) <==> Member(chains, x) || x == e
    {
      MemberUpdated(chains, home, b, d, x);
    }
  }

  lemma OneChain(chains: seq<seq<nat>>, b: nat)
    requires b < |chains| && Distinct(Flatten(chains))
    ensures Flatten(chains[..b + 1]) == Flatten(chains[..b]) + chains[b]
    ensures Distinct(chains[b]) && forall x :: x in chains[b] ==> x !in Flatten(chains[..b]) && x in Flatten(chains)
  {
    OneMore(chains, b);
    FlattenAt(chains, b);
    PartDistinct(Flatten(chains[..b]), chains[b], Flatten(chains[b + 1..]));
  }

  lemma OneMore(chains: seq<seq<nat>>, b: nat)
    requires b < |chains|
    ensures Flatten(chains[..b + 1]) == Flatten(chains[..b]) + chains[b]
  {
    assert chains[..b + 1] == chains[..b] + [chains[b]] && Flatten([chains[b]]) == chains[b];
    FlattenConcat(chains[..b], [chains[b]]);
  }

  lemma PartDistinct(s: seq<nat>, c: seq<nat>, rest: seq<nat>)
    requires Distinct(s + c + rest)
    ensures Distinct(c) && forall x :: x in c ==> x !in s && x in s + c + rest
  {
    var all := s + c + rest;
    forall i, j | 0 <= i < |c| && 0 <= j < |s|
      ensures c[i] != s[j]
    {
      assert all[|s| + i] == c[i] && all[j] == s[j];
    }
    forall i, j | 0 <= i < j < |c|
      ensures c[i] != c[j]
    {
      assert all[|s| + i] == c[i] && all[|s| + j] == c[j];
    }
  }

  lemma RestRemoved(chains: seq<seq<nat>>, b: nat, i: nat)
    requires b < |chains| && i < |chains[b]|
    ensures var d := chains[b][..i] + chains[b][i + 1..];
            && d[i..] + Flatten(chains[b := d][b + 1..]) == (chains[b][i..] + Flatten(chains[b + 1..]))[1..]
            && PlaceAt(b, d, i) == PlaceAt(b, chains[b], i) && First(d, i) == First(chains[b], i + 1)
  {
    var d := chains[b][..i] + chains[b][i + 1..];
    assert chains[b := d][b + 1..] == chains[b + 1..];
    assert chains[b][i..] == [chains[b][i]] + chains[b][i + 1..];
  }

  lemma InitialCount()
    ensures IsBucketCount(INITIAL_BUCKET_COUNT) && !SelfChecking(INITIAL_BUCKET_COUNT)
  {
    assert Pow2(6) == 64;
  }

  /** The divider for a bucket count, and whether it gives the count back. */
  method CountDivider(m: Word) returns (divider: Divisor)
    requires m > 0 && IsBucketCount(m)
    ensures forall n: Word :: Do(n, divider) == n / m
    ensures Recover(divider) == Some(m) <==> SelfChecking(m)
  {
    divider := Gen(m);
    SelfCheckIff(divider, m);
  }

  /** Rounds a number of buckets up to 2^k - 1. */
  method BucketCountFor(n: Word) returns (m: Word)
    ensures n <= m && 0 < m && IsBucketCount(m) && (m == 1 || (m - 1) / 2 < n)
  {
    m := 1;
    ghost var k: nat := 1;
    Pow2Constants();
    while m < n && m < MAX_BUCKET_COUNT
      invariant 1 <= k <= 32 && m + 1 == Pow2(k) && (m == 1 || (m - 1) / 2 < n)
      decreases 32 - k
    {
      DoubledCount(m, k);
      m := Wrap(ShiftLeft(Wrap(m + 1), 1) - 1);
      k := k + 1;
    }
  }

  lemma BelowTop(m: Word, k: nat)
    requires m < MAX_BUCKET_COUNT && k <= 32 && m + 1 == Pow2(k)
    ensures k < 32 && m + 1 <= HIGH_BIT
  {
    Pow2Constants();
    if k < 32 {
      Pow2Monotone(k, 31);
    }
  }

  lemma DoubleWraps(x: Word)
    requires 1 <= x <= HIGH_BIT
    ensures Wrap(Wrap(x * 2) - 1) == 2 * x - 1
  {
  }

  lemma DoubledCount(m: Word, k: nat)
    requires m < MAX_BUCKET_COUNT && k <= 32 && m + 1 == Pow2(k)
    ensures k < 32 && Wrap(ShiftLeft(Wrap(m + 1), 1) - 1) == 2 * m + 1 && 2 * m + 2 == Pow2(k + 1)
  {
    BelowTop(m, k);
    DoubleWraps(m + 1);
    assert Pow2(1) == 2;
  }

  /** n is the smallest 2^k - 1 above m. */
  ghost predicate NextCount(m: Word, n: Word) {
    IsBucketCount(n) && m < n && (n - 1) / 2 <= m
  }

  /** After 2^k - 1 comes 2^(k + 1) - 1. */
  lemma BucketCountGrows(m: Word, n: Word)
    requires m < MAX_BUCKET_COUNT && IsBucketCount(m) && NextCount(m, n)
    ensures n == 2 * m + 1
  {
    var k: nat :| k <= 32 && m + 1 == Pow2(k);
    var l: nat :| l <= 32 && n + 1 == Pow2(l);
    if l <= k {
      Pow2Monotone(l, k);
    } else {
      Pow2Monotone(k + 1, l);
    }
  }

  lemma BucketCountFits(m: Word)
    requires m < MAX_BUCKET_COUNT && IsBucketCount(m)
    ensures Wrap(2 * m) == 2 * m
  {
    var k: nat :| k <= 32 && m + 1 == Pow2(k);
    BelowTop(m, k);
  }

  lemma HomedMore(chains: seq<seq<nat>>, home: map<nat, nat>, home': map<nat, nat>, e: nat)
    requires Homed(chains, home) && e !in home
    requires forall x :: x in home ==> x in home' && home'[x] == home[x]
    ensures Homed(chains, home') && !Member(chains, e)
  {
  }

  lemma UnionChanged(chains: seq<seq<nat>>, chains': seq<seq<nat>>, previous: Option<nat>, element: Option<nat>)
    requires forall x: nat :: Member(chains', x) <==> Some(x) == element || (Member(chains, x) && Some(x) != previous)
    ensures Union(chains') == Union(chains) - AsSet(previous) + AsSet(element)
  {
    forall x: nat
      ensures x in Union(chains') <==> x in Union(chains) - AsSet(previous) + AsSet(element)
    {
      UnionMember(chains, x);
      UnionMember(chains', x);
    }
  }

  function AsSet(e: Option<nat>): set<nat> {
    if e.Some? then {e.value} else {}
  }

  lemma FlattenUnion(chains: seq<seq<nat>>)
    requires Flatten(chains) == []
    ensures Union(chains) == {}
  {
    forall e: nat
      ensures e !in Union(chains)
    {
      FlattenMember(chains, e);
      UnionMember(chains, e);
    }
  }

  lemma FromFirst(chains: seq<seq<nat>>, b: nat)
    requires b <= |chains| && forall k :: 0 <= k < b ==> chains[k] == []
    ensures b == |chains| ==> Flatten(chains) == []
    ensures b < |chains| ==> Flatten(chains) == chains[b][0..] + Flatten(chains[b + 1..])
    ensures b < |chains| && chains[b] == [] ==> Flatten(chains) == Flatten(chains[b + 1..])
  {
    SkipEmpty(chains, 0, b);
    assert chains[0..] == chains;
    if b < |chains| {
      FlattenAt(chains, b);
    }
  }

  lemma FirstMoved(s: seq<nat>, rest: seq<nat>, all: seq<nat>)
    requires s + rest == all && rest != []
    ensures s + [rest[0]] + rest[1..] == all
  {
  }

  /** Appending to the last non-empty chain appends to the whole. */
  lemma FlattenAppend(chains: seq<seq<nat>>, b: nat, e: nat)
    requires b < |chains| && forall k :: b < k < |chains| ==> chains[k] == []
    ensures Flatten(chains[b := chains[b] + [e]]) == Flatten(chains) + [e]
  {
    FlattenAt(chains, b);
    FlattenUpdate(chains, b, chains[b] + [e]);
    FlattenEmpty(chains[b + 1..]);
  }

  lemma MovedToFront(chains: seq<seq<nat>>, b: nat, i: nat)
    requires b < |chains| && i < |chains[b]| && Distinct(chains[b])
    ensures var c := chains[b];
            var d := c[..i] + c[i + 1..];
            && c[i] !in d && d[..0] + [c[i]] + d[0..] == [c[i]] + c[..i] + c[i + 1..]
            && |Flatten(chains[b := [c[i]] + c[..i] + c[i + 1..]])| == |Flatten(chains)|
  {
    FlattenUpdate(chains, b, [chains[b][i]] + chains[b][..i] + chains[b][i + 1..]);
  }

  lemma RemainderWraps(h: Word, n: Word)
    requires n > 0
    ensures Wrap(h - Wrap(n * (h / n))) == h % n
  {
    assert h == n * (h / n) + h % n;
    assert 0 <= n * (h / n) <= h;
  }
}
