/** A hash table that owns its elements: a finite map from keys to values. */
module HashTable {
  import opened Options
  import opened Words
  import opened Graph
  import opened Chains
  import opened HashContainer

  /** Every stored element is the one of its key. */
  ghost predicate Indexed<K(!new), V>(stored: set<nat>, keys: map<nat, K>, values: map<nat, V>, index: map<K, nat>) {
    && (forall e :: e in stored ==> e in keys && e in values && keys[e] in index && index[keys[e]] == e)
    && (forall k :: k in index ==> index[k] in stored && index[k] in keys && index[k] in values && keys[index[k]] == k)
  }

  ghost function MapOf<K(!new), V>(stored: set<nat>, keys: map<nat, K>, values: map<nat, V>, index: map<K, nat>): (m: map<K, V>)
    requires Indexed(stored, keys, values, index)
  {
    map k | k in index :: values[index[k]]
  }

  lemma IndexedInsert<K(!new), V>(stored: set<nat>, keys: map<nat, K>, values: map<nat, V>, index: map<K, nat>, e: nat, key: K, v: V)
    requires Indexed(stored, keys, values, index) && e !in keys && key !in index
    ensures Indexed(stored + {e}, keys[e := key], values[e := v], index[key := e])
    ensures MapOf(stored + {e}, keys[e := key], values[e := v], index[key := e]) == MapOf(stored, keys, values, index)[key := v]
  {
  }

  lemma IndexedErase<K(!new), V>(stored: set<nat>, keys: map<nat, K>, values: map<nat, V>, index: map<K, nat>, e: nat, key: K)
    requires Indexed(stored, keys, values, index) && e in stored && keys[e] == key
    ensures Indexed(stored - {e}, keys, values, index - {key})
    ensures MapOf(stored - {e}, keys, values, index - {key}) == MapOf(stored, keys, values, index) - {key}
  {
  }

  /** Position by position, the elements of c have the keys and values of those of d. */
  ghost predicate Mirrors<K(!new), V>(c: seq<nat>, keys: map<nat, K>, values: map<nat, V>, d: seq<nat>, keys': map<nat, K>, values': map<nat, V>) {
    |c| == |d| && forall k :: 0 <= k < |c| ==>
      && c[k] in keys && c[k] in values && d[k] in keys' && d[k] in values'
      && keys[c[k]] == keys'[d[k]] && values[c[k]] == values'[d[k]]
  }

  lemma MirrorsNext<K(!new), V>(c: seq<nat>, keys: map<nat, K>, values: map<nat, V>, d: seq<nat>, keys': map<nat, K>, values': map<nat, V>,
      e: nat, x: nat)
    requires Mirrors(c, keys, values, d, keys', values') && e !in keys && x in keys' && x in values'
    ensures Mirrors(c + [e], keys[e := keys'[x]], values[e := values'[x]], d + [x], keys', values')
  {
  }

  /** The key of an element that is still to be copied has not been copied. */
  lemma KeyIsNew<K(!new), V>(c: seq<nat>, keys: map<nat, K>, values: map<nat, V>, index: map<K, nat>,
      d: seq<nat>, rest: seq<nat>, keys': map<nat, K>, values': map<nat, V>, index': map<K, nat>)
    requires Mirrors(c, keys, values, d, keys', values') && rest != [] && Distinct(d + rest)
    requires forall k :: k in index ==> index[k] in c && index[k] in keys && keys[index[k]] == k
    requires forall x :: x in d + rest ==> x in keys' && keys'[x] in index' && index'[keys'[x]] == x
    ensures rest[0] in keys' && keys'[rest[0]] !in index
  {
    var x := rest[0];
    assert (d + rest)[|d|] == x && x in d + rest;
    forall k | 0 <= k < |d|
      ensures keys'[d[k]] != keys'[x]
    {
      assert (d + rest)[k] == d[k] && d[k] in d + rest;
    }
    forall key | key in index
      ensures key != keys'[x]
    {
      var k :| 0 <= k < |c| && c[k] == index[key];
    }
  }

  /** Mirrored contents make the same map. */
  lemma MirrorsMap<K(!new), V>(c: seq<nat>, stored: set<nat>, keys: map<nat, K>, values: map<nat, V>, index: map<K, nat>,
      d: seq<nat>, stored': set<nat>, keys': map<nat, K>, values': map<nat, V>, index': map<K, nat>)
    requires Mirrors(c, keys, values, d, keys', values')
    requires Indexed(stored, keys, values, index) && Indexed(stored', keys', values', index')
    requires (forall e :: e in stored <==> e in c) && (forall e :: e in stored' <==> e in d)
    ensures MapOf(stored, keys, values, index) == MapOf(stored', keys', values', index')
  {
    forall k | k in index
      ensures k in index' && values[index[k]] == values'[index'[k]]
    {
      var i :| 0 <= i < |c| && c[i] == index[k];
      assert d[i] in stored';
    }
    forall k | k in index'
      ensures k in index
    {
      var i :| 0 <= i < |d| && d[i] == index'[k];
      assert c[i] in stored;
    }
  }

  class HashTable<K(==,!new), V> {
    const rep: HashContainer<K>
    /** The value in every element allocated so far. */
    var values: map<nat, V>
    var nextElement: nat
    /** The stored element of every key. */
    ghost var index: map<K, nat>

    ghost predicate Valid()
      reads this, rep
    {
      && rep.Valid() && rep.Balanced() && (forall e: nat :: e in rep.keys ==> e < nextElement)
      && Indexed(rep.Stored(), rep.keys, values, index)
    }

    ghost function Map(): (m: map<K, V>)
      reads this, rep
      requires Indexed(rep.Stored(), rep.keys, values, index)
    {
      MapOf(rep.Stored(), rep.keys, values, index)
    }

    /** The next new key makes the table grow. */
    ghost predicate Full()
      reads rep
    {
      rep.size + 1 > Wrap(2 * rep.nbuckets) && rep.nbuckets < MAX_BUCKET_COUNT
    }

    constructor (hash: K -> Word)
      ensures Valid() && Map() == map[] && fresh(rep) && rep.hash == hash
    {
      rep := new HashContainer(hash);
      values := map[];
      nextElement := 0;
      index := map[];
      new;
    }

    method Find(key: K) returns (r: Option<V>)
      requires Valid()
      ensures r == if key in Map() then Some(Map()[key]) else None
    {
      var it;
      ghost var i;
      it, i := rep.Find(key);
      if it.element.Some? {
        return Some(values[it.element.value]);
      }
      return None;
    }

    /** The element with the key, made with the given value if there is none. */
    method FindInsert(key: K, v: V) returns (e: nat)
      requires Valid()
      modifies this, rep
      ensures Valid() && key in index && e == index[key]
      ensures Map() == if key in old(Map()) then old(Map()) else old(Map())[key := v]
      ensures key in old(Map()) ==> rep.chains == old(rep.chains)
      ensures if key !in old(Map()) && old(Full()) then NextCount(old(rep.nbuckets), rep.nbuckets)
              else rep.nbuckets == old(rep.nbuckets)
    {
      var it;
      ghost var i;
      it, i := rep.Find(key);
      if it.element.Some? {
        return it.element.value;
      }
      e := InsertNew(it, i, key, v);
    }

    /** Stores a new element at the place where the key was not found. */
    method InsertNew(it: Iterator, ghost i: nat, key: K, v: V) returns (e: nat)
      requires Valid() && rep.PlacedAt(it, i) && it.bucket == rep.hash(key) % rep.nbuckets && it.element.None?
      requires key !in index
      modifies this, rep
      ensures Valid() && key in index && e == index[key]
      ensures Map() == old(Map())[key := v]
      ensures if old(Full()) then NextCount(old(rep.nbuckets), rep.nbuckets) else rep.nbuckets == old(rep.nbuckets)
    {
      e := NewElement(key, v);
      ghost var stored := rep.Stored();
      ghost var i';
      var previous, it';
      previous, it', i' := rep.Set(it, i, Some(e), true);
      assert rep.Stored() == stored + {e};
      index := index[key := e];
    }

    /** Makes an element that is not stored yet; storing it under its key is all that is missing. */
    method NewElement(key: K, v: V) returns (e: nat)
      requires Valid() && key !in index
      modifies this`values, this`nextElement, rep`keys
      ensures rep.Valid() && rep.Balanced() && !rep.Has(e) && e !in old(rep.keys)
      ensures rep.keys == old(rep.keys)[e := key] && values == old(values)[e := v]
      ensures forall x: nat :: x in rep.keys ==> x < nextElement
      ensures Indexed(rep.Stored() + {e}, rep.keys, values, index[key := e])
      ensures MapOf(rep.Stored() + {e}, rep.keys, values, index[key := e]) == old(Map())[key := v]
    {
      e := nextElement;
      IndexedInsert(rep.Stored(), rep.keys, values, index, e, key, v);
      nextElement := nextElement + 1;
      values := values[e := v];
      rep.Allocate(e, key);
    }

    /** Maps key to value; the result says whether the key is new. */
    method Set(key: K, value: V) returns (isNew: bool)
      requires Valid()
      modifies this, rep
      ensures Valid() && Map() == old(Map())[key := value] && isNew == (key !in old(Map()))
      ensures !isNew ==> rep.chains == old(rep.chains)
      ensures if isNew && old(Full()) then NextCount(old(rep.nbuckets), rep.nbuckets) else rep.nbuckets == old(rep.nbuckets)
    {
      var it;
      ghost var i;
      it, i := rep.Find(key);
      if it.element.Some? {
        values := values[it.element.value := value];
        return false;
      }
      var e := InsertNew(it, i, key, value);
      isNew := true;
    }

    /** Removes the key; the result is the number of elements removed. */
    method Erase(key: K) returns (count: nat)
      requires Valid()
      modifies this, rep
      ensures Valid() && Map() == old(Map()) - {key} && count == if key in old(Map()) then 1 else 0
      ensures rep.nbuckets == old(rep.nbuckets)
    {
      ghost var stored := rep.Stored();
      var previous;
      ghost var i;
      previous, i := rep.EraseKey(key);
      if previous.Some? {
        IndexedErase(stored, rep.keys, values, index, previous.value, key);
        index := index - {key};
        return 1;
      }
      return 0;
    }

    /** Erases element after element from the start of an iteration. */
    method Clear()
      requires Valid()
      modifies this, rep
      ensures Valid() && Map() == map[] && rep.nbuckets == old(rep.nbuckets)
    {
      var erased := rep.EraseAll();
      index := map[];
    }

    /** Appends a new element to the last chain in use, at an iterator that stands at its end. */
    method AppendNew(j: Iterator, key: K, v: V) returns (j': Iterator, e: nat)
      requires Valid() && key !in index && AtEnd(j) && j.bucket == rep.hash(key) % rep.nbuckets
      requires rep.size + 1 <= 2 * rep.nbuckets || rep.nbuckets == MAX_BUCKET_COUNT
      modifies this, rep
      ensures Valid() && AtEnd(j') && j'.bucket == j.bucket && rep.nbuckets == old(rep.nbuckets)
      ensures rep.Contents() == old(rep.Contents()) + [e] && rep.size == old(rep.size) + 1
      ensures e !in old(rep.keys) && rep.keys == old(rep.keys)[e := key] && values == old(values)[e := v]
      ensures index == old(index)[key := e]
    {
      e := NewElement(key, v);
      j' := AppendElement(j, e);
      index := index[key := e];
    }

    method AppendElement(j: Iterator, e: nat) returns (j': Iterator)
      requires rep.Valid() && rep.Balanced() && !rep.Has(e) && e in rep.keys
      requires AtEnd(j) && j.bucket == rep.hash(rep.keys[e]) % rep.nbuckets
      requires rep.size + 1 <= 2 * rep.nbuckets || rep.nbuckets == MAX_BUCKET_COUNT
      modifies rep`size, rep`buckets, rep`hashnext, rep`chains, rep`firstBucket
      ensures rep.Valid() && rep.Balanced() && AtEnd(j') && j'.bucket == j.bucket
      ensures rep.Contents() == old(rep.Contents()) + [e] && rep.size == old(rep.size) + 1
      ensures rep.Stored() == old(rep.Stored()) + {e}
    {
      ghost var chains, b := rep.chains, j.bucket;
      FlattenAppend(chains, b, e);
      assert chains[b][..|chains[b]|] + [e] + chains[b][|chains[b]|..] == chains[b] + [e];
      j' := rep.InsertAt(j, |chains[b]|, e);
    }

    /** The iterator stands at the end of its chain, and no later bucket is in use. */
    ghost predicate AtEnd(j: Iterator)
      reads rep
    {
      j.bucket < |rep.chains| && rep.PlacedAt(j, |rep.chains[j.bucket]|) &&
      forall b :: j.bucket < b < |rep.chains| ==> rep.chains[b] == []
    }

    /** Fills an empty table with copies of another table's elements, bucket by bucket behind a live
        iterator: the same map, and the same iteration order. */
    method CloneElements(o: HashTable<K, V>)
      requires Valid() && index == map[] && o.Valid() && o != this && o.rep != rep
      requires rep.hash == o.rep.hash && rep.nbuckets == o.rep.nbuckets
      modifies this, rep, o.rep`firstBucket
      ensures Valid() && o.Valid() && o.Map() == old(o.Map()) && Map() == o.Map()
      ensures Mirrors(rep.Contents(), rep.keys, values, o.rep.Contents(), o.rep.keys, o.values)
    {
      ghost var i: nat, visited: seq<nat>, rest := 0, [], o.rep.Contents();
      var b, j := -1, Iterator(None, Head(0), 0);
      var it := o.rep.Begin();
      EmptyBuckets();
      while it.element.Some?
        invariant Copying(o, visited, b, j) && Reading(o, it, i, visited, rest) && (it.element.Some? ==> b <= it.bucket)
        decreases |rest|
      {
        ghost var x := it.element.value;
        j := CloneOne(o, it, i, b, j, visited, rest);
        b := it.bucket;
        it, i := Advance(o, it, i, visited, rest);
        visited, rest := visited + [x], rest[1..];
      }
      Cloned(o, visited);
    }

    /** The elements of `visited` have been copied, the last ones to bucket b. */
    ghost predicate Copying(o: HashTable<K, V>, visited: seq<nat>, b: int, j: Iterator)
      reads this, rep, o, o.rep
    {
      && Valid() && o != this && o.rep != rep && rep.hash == o.rep.hash && rep.nbuckets == o.rep.nbuckets
      && rep.size == |visited| && CopiedUpTo(b, j) && Mirrors(rep.Contents(), rep.keys, values, visited, o.rep.keys, o.values)
    }

    /** The iterator has passed the elements of `visited` and is before those of `rest`. */
    ghost predicate Reading(o: HashTable<K, V>, it: Iterator, i: nat, visited: seq<nat>, rest: seq<nat>)
      reads o, o.rep
    {
      o.Valid() && o.rep.Before(it, i, rest) && visited + rest == o.rep.Contents()
    }

    method Advance(o: HashTable<K, V>, it: Iterator, ghost i: nat, ghost visited: seq<nat>, ghost rest: seq<nat>)
      returns (it': Iterator, ghost i': nat)
      requires Reading(o, it, i, visited, rest) && it.element.Some?
      ensures rest != [] && Reading(o, it', i', visited + [it.element.value], rest[1..]) && it.bucket <= it'.bucket
    {
      o.rep.BeforeFirst(it, i, rest);
      it', i' := o.rep.Next(it, i);
    }

    lemma Cloned(o: HashTable<K, V>, visited: seq<nat>)
      requires Valid() && o.Valid() && visited == o.rep.Contents()
      requires Mirrors(rep.Contents(), rep.keys, values, visited, o.rep.keys, o.values)
      ensures Map() == o.Map()
    {
      rep.ContentsStored();
      o.rep.ContentsStored();
      MirrorsMap(rep.Contents(), rep.Stored(), rep.keys, values, index, visited, o.rep.Stored(), o.rep.keys, o.values, o.index);
    }

    /** Nothing has been copied to buckets behind bucket b, and j stands at the end of bucket b. */
    ghost predicate CopiedUpTo(b: int, j: Iterator)
      reads rep
    {
      if b < 0 then forall k :: 0 <= k < |rep.chains| ==> rep.chains[k] == [] else j.bucket == b && AtEnd(j)
    }

    lemma EmptyBuckets()
      requires Valid() && index == map[]
      ensures rep.Contents() == [] && forall k :: 0 <= k < |rep.chains| ==> rep.chains[k] == []
    {
      UnionEmpty(rep.chains);
      FlattenEmpty(rep.chains);
    }

    /** The iterator for appending to bucket `next`: the one in use, or a new one for a later bucket. */
    method BucketEnd(next: nat, b: int, j: Iterator) returns (j': Iterator)
      requires Valid() && CopiedUpTo(b, j) && b <= next < rep.nbuckets
      ensures j'.bucket == next && AtEnd(j')
    {
      j' := j;
      if b != next {
        j' := rep.BeginBucket(next);
      }
    }

    /** Copies the element at the iterator to the end of its bucket. */
    method CloneOne(o: HashTable<K, V>, it: Iterator, ghost i: nat, b: int, j: Iterator, ghost visited: seq<nat>, ghost rest: seq<nat>)
      returns (j': Iterator)
      requires Copying(o, visited, b, j) && Reading(o, it, i, visited, rest) && it.element.Some? && b <= it.bucket
      modifies this, rep
      ensures Copying(o, visited + [it.element.value], it.bucket, j')
    {
      var x := it.element.value;
      NotCopiedYet(o, it, i, b, j, visited, rest);
      ghost var c, keys, vals := rep.Contents(), rep.keys, values;
      var e;
      j' := BucketEnd(it.bucket, b, j);
      j', e := AppendNew(j', o.rep.keys[x], o.values[x]);
      MirrorsNext(c, keys, vals, visited, o.rep.keys, o.values, e, x);
    }

    lemma NotCopiedYet(o: HashTable<K, V>, it: Iterator, i: nat, b: int, j: Iterator, visited: seq<nat>, rest: seq<nat>)
      requires Copying(o, visited, b, j) && Reading(o, it, i, visited, rest) && it.element.Some?
      ensures var x := it.element.value;
              && x in o.rep.keys && x in o.values && o.rep.keys[x] !in index && it.bucket < rep.nbuckets
              && it.bucket == rep.hash(o.rep.keys[x]) % rep.nbuckets
              && (rep.size + 1 <= 2 * rep.nbuckets || rep.nbuckets == MAX_BUCKET_COUNT)
    {
      rep.ContentsStored();
      o.rep.ContentsStored();
      o.rep.BeforeFirst(it, i, rest);
      o.rep.LiveInKeys(it, i);
      KeyIsNew(rep.Contents(), rep.keys, values, index, visited, rest, o.rep.keys, o.values, o.index);
      assert rest[0] in o.rep.Contents();
    }
  }
}
