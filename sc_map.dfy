/** The separate-chaining hash map: a backing array of buckets whose
    capacity is kept prime, each bucket a list of (key, value) pairs. The
    buckets represent the ghost map Contents, in the sense of Chained, and
    every method is proved to update Contents as a dictionary would. */
module SeparateChaining {
  import opened Primes
  import opened Common
  import opened ChainingTable

  class HashMap<V> {
    var buckets: array<seq<(string, V)>>
    var capacity: nat
    var size: nat
    const hash: string -> nat
    /** The dictionary the buckets represent. */
    ghost var Contents: map<string, V>

    /** The capacity is the array's length and prime, the buckets represent
        Contents, the size counts its keys, and the load factor is at
        most 1. */
    ghost predicate Valid()
      reads this, buckets
    {
      && buckets.Length == capacity
      && Prime(capacity)
      && Chained(buckets[..], hash, Contents)
      && size == |Contents|
      && size <= capacity
    }

    /** A map of the smallest odd prime capacity at least the requested one,
        every bucket empty. */
    constructor (requested: nat, hash: string -> nat)
      ensures Valid() && fresh(buckets)
      ensures this.hash == hash && size == 0 && Contents == map[]
      ensures capacity == LeastOddPrimeAtLeast(requested)
      ensures buckets[..] == FreshBuckets(capacity)
    {
      var c := NextPrime(requested);
      this.hash := hash;
      capacity := c;
      buckets := new seq<(string, V)>[c](_ => []);
      size := 0;
      Contents := map[];
      new;
      assert buckets[..] == FreshBuckets(c);
      EmptyChained<V>(c, hash);
    }

    /** get_index(key): the bucket that holds key if the map has it. */
    function GetIndex(key: string): (i: nat)
      reads this, buckets
      requires Valid()
      ensures i < capacity
      ensures Find(buckets[i], key) == (if key in Contents then Some(Contents[key]) else None)
    {
      ChainedFind(buckets[..], hash, Contents, key);
      hash(key) % capacity
    }

    /** put(key, value): grow when the size has reached the capacity, then
        put the pair into key's bucket. */
    method Put(key: string, value: V)
      requires Valid()
      modifies this, buckets
      ensures Valid()
      ensures Contents == old(Contents)[key := value]
      ensures size == old(size) + (if key in old(Contents) then 0 else 1)
      ensures old(size) < old(capacity) ==> buckets == old(buckets) && capacity == old(capacity)
      ensures old(size) >= old(capacity) ==> fresh(buckets) && capacity == PrimeCapacity(2 * old(capacity)) >= 2 * old(capacity)
      ensures buckets == old(buckets) || fresh(buckets)
      ensures old(size) < old(capacity) ==>
                Stored(old(buckets[..]), buckets[..], hash(key) % capacity, key, value)
      decreases Max0(size + 1 - capacity), 0, 0
    {
      if size >= capacity {
        ResizeTable(2 * capacity);
      }
      PutInBucket(key, value);
    }

    /** The part of put after the growth check: overwrite the value of
        key's pair in its bucket, or add the pair to that bucket. */
    method PutInBucket(key: string, value: V)
      requires Valid() && size < capacity
      modifies buckets, this`Contents, this`size
      ensures Valid()
      ensures Contents == old(Contents)[key := value]
      ensures size == old(size) + (if key in old(Contents) then 0 else 1)
      ensures Stored(old(buckets[..]), buckets[..], hash(key) % capacity, key, value)
    {
      var index := GetIndex(key);
      var bucket := buckets[index];
      ghost var bs := buckets[..];
      var node := Find(bucket, key);
      if node.Some? {
        ChainedReplace(bs, hash, Contents, key, value);
        buckets[index] := Replaced(bucket, key, value);
        assert buckets[..] == bs[index := Replaced(bucket, key, value)];
        Contents := Contents[key := value];
      } else {
        var pos :| 0 <= pos <= |bucket|;
        ChainedInsert(bs, hash, Contents, key, value, pos);
        buckets[index] := bucket[..pos] + [(key, value)] + bucket[pos..];
        assert buckets[..] == bs[index := bucket[..pos] + [(key, value)] + bucket[pos..]];
        Contents := Contents[key := value];
        size := size + 1;
      }
    }

    /** resize_table(n): nothing when n is below 1; otherwise a fresh array
        of capacity PrimeCapacity(n), into which every pair of the old
        buckets is put again, bucket by bucket. The puts may grow the new
        array once more, which happens exactly when there are more pairs
        than PrimeCapacity(n). */
    method ResizeTable(n: int)
      requires Valid()
      modifies this
      ensures Valid()
      ensures Contents == old(Contents) && size == old(size)
      ensures n < 1 ==> buckets == old(buckets) && capacity == old(capacity)
      ensures n >= 1 ==> fresh(buckets) && n <= capacity
      ensures n >= 1 && old(size) <= PrimeCapacity(n) ==> capacity == PrimeCapacity(n)
      decreases Max0(size - n), 1, 0
    {
      if n < 1 {
        return;
      }
      var newCapacity := ResizeCapacity(n);
      ghost var olds := buckets[..];
      ghost var total := size;
      ghost var before := Contents;
      ChainedFlatten(olds, hash, Contents);
      var oldBuckets := buckets;
      ResetBuckets(newCapacity);
      FlattenEnds(olds);
      var i := 0;
      while i < oldBuckets.Length
        invariant 0 <= i <= oldBuckets.Length == |olds|
        invariant oldBuckets[..] == olds && fresh(buckets)
        invariant Valid()
        invariant Contents == PutAll(map[], Flatten(olds[..i]))
        invariant n <= capacity
        invariant total <= newCapacity ==> capacity == newCapacity
        decreases oldBuckets.Length - i
      {
        var current := oldBuckets[i];
        FlattenPrefixLength(olds, i);
        PutAllConcat(map[], Flatten(olds[..i]), current);
        ResizeCallMeasure(size, |Flatten(olds[..i])|, |current|, total, capacity, n);
        PutPairs(current);
        i := i + 1;
      }
    }

    /** The inner loop of resize_table: put every pair of one old bucket in
        turn. The array grows only if the pairs do not all fit. */
    method PutPairs(pairs: seq<(string, V)>)
      requires Valid()
      modifies this, buckets
      ensures Valid()
      ensures Contents == PutAll(old(Contents), pairs)
      ensures capacity >= old(capacity)
      ensures old(size) + |pairs| <= old(capacity) ==> capacity == old(capacity)
      ensures buckets == old(buckets) || fresh(buckets)
      decreases Max0(size + |pairs| - capacity), 0, |pairs|
    {
      PutAllPrefixEnds(Contents, pairs);
      var j := 0;
      while j < |pairs|
        invariant 0 <= j <= |pairs|
        invariant Valid()
        invariant Contents == PutAll(old(Contents), pairs[..j])
        invariant size <= old(size) + j && capacity >= old(capacity)
        invariant old(size) + |pairs| <= old(capacity) ==> capacity == old(capacity)
        invariant buckets == old(buckets) || fresh(buckets)
        decreases |pairs| - j
      {
        PutAllPrefixStep(old(Contents), pairs, j);
        PutCallMeasure(size, old(size), j, |pairs|, capacity, old(capacity));
        Put(pairs[j].0, pairs[j].1);
        j := j + 1;
      }
    }

    /** empty_buckets: how many buckets are empty, which is at least the
        capacity minus the size, since every other bucket holds a pair. */
    method EmptyBuckets() returns (r: nat)
      requires Valid()
      ensures r == EmptyCount(buckets[..])
      ensures capacity - size <= r <= capacity
    {
      r := 0;
      var i := 0;
      while i < capacity
        invariant 0 <= i <= capacity
        invariant r == EmptyCount(buckets[..i])
      {
        assert buckets[..i + 1][..i] == buckets[..i];
        if |buckets[i]| == 0 {
          r := r + 1;
        }
        i := i + 1;
      }
      assert buckets[..i] == buckets[..];
      EmptyCountBound(buckets[..]);
      ChainedFlatten(buckets[..], hash, Contents);
    }

    /** get(key): the value stored for key, or nothing. */
    method Get(key: string) returns (r: Option<V>)
      requires Valid()
      ensures r == (if key in Contents then Some(Contents[key]) else None)
    {
      var present := ContainsKey(key);
      if !present {
        return None;
      }
      var index := GetIndex(key);
      var bucket := buckets[index];
      var j := 0;
      while j < |bucket|
        invariant 0 <= j <= |bucket|
        invariant forall t :: 0 <= t < j ==> bucket[t].0 != key
      {
        if bucket[j].0 == key {
          ChainedPair(buckets[..], hash, Contents, index, bucket[j]);
          return Some(bucket[j].1);
        }
        j := j + 1;
      }
      assert false;
      return None;
    }

    /** contains_key(key): whether some bucket that is key's own bucket
        holds key, which is whether the map has key. Buckets are distinct
        objects, so the identity test on buckets is the test on their
        indices. */
    method ContainsKey(key: string) returns (b: bool)
      requires Valid()
      ensures b == (key in Contents)
      ensures b == Find(buckets[hash(key) % capacity], key).Some?
    {
      var index := GetIndex(key);
      var i := 0;
      while i < capacity
        invariant 0 <= i <= capacity
        invariant forall t :: 0 <= t < i ==> !(t == index && Find(buckets[t], key).Some?)
      {
        if i == index && Find(buckets[i], key).Some? {
          return true;
        }
        i := i + 1;
      }
      return false;
    }

    /** remove(key): take key's pair out of its bucket if the map has key;
        otherwise nothing changes. */
    method Remove(key: string)
      requires Valid()
      modifies this, buckets
      ensures Valid() && buckets == old(buckets) && capacity == old(capacity)
      ensures Contents == old(Contents) - {key}
      ensures size == old(size) - (if key in old(Contents) then 1 else 0)
      ensures var i := hash(key) % capacity;
              buckets[..] == old(buckets[..])[i := Without(old(buckets[..])[i], key)]
    {
      var present := ContainsKey(key);
      if !present {
        var i := hash(key) % capacity;
        assert buckets[..][i := Without(buckets[..][i], key)] == buckets[..];
        MapsEqual(Contents - {key}, Contents);
        return;
      }
      var index := GetIndex(key);
      ChainedRemove(buckets[..], hash, Contents, key);
      buckets[index] := Without(buckets[index], key);
      Contents := Contents - {key};
      size := size - 1;
    }

    /** get_keys_and_values: every stored pair exactly once, bucket 0
        first, as many as the size. */
    method GetKeysAndValues() returns (r: seq<(string, V)>)
      requires Valid()
      ensures r == Flatten(buckets[..]) && |r| == size && KeysDistinct(r)
      ensures forall p :: p in r <==> p.0 in Contents && Contents[p.0] == p.1
    {
      r := [];
      var i := 0;
      while i < capacity
        invariant 0 <= i <= capacity
        invariant r == Flatten(buckets[..i])
      {
        assert buckets[..i + 1][..i] == buckets[..i];
        var current := buckets[i];
        var j := 0;
        while j < |current|
          invariant 0 <= j <= |current|
          invariant r == Flatten(buckets[..i]) + current[..j]
        {
          assert current[..j + 1] == current[..j] + [current[j]];
          r := r + [current[j]];
          j := j + 1;
        }
        assert current[..j] == current;
        i := i + 1;
      }
      assert buckets[..i] == buckets[..];
      ChainedFlatten(buckets[..], hash, Contents);
    }

    /** clear: a fresh array of the same capacity, every bucket empty. */
    method Clear()
      requires Valid()
      modifies this
      ensures Valid() && fresh(buckets)
      ensures capacity == old(capacity) && size == 0 && Contents == map[]
      ensures buckets[..] == FreshBuckets(capacity)
      ensures EmptyCount(buckets[..]) == capacity
    {
      ResetBuckets(capacity);
      EmptyBucketsCount<V>(capacity);
    }

    /** A fresh array of c empty buckets, as clear and resize_table build
        it: the map is then empty. */
    method ResetBuckets(c: nat)
      requires Prime(c)
      modifies this
      ensures Valid() && fresh(buckets)
      ensures capacity == c && size == 0 && Contents == map[]
      ensures buckets[..] == FreshBuckets(c)
    {
      buckets := new seq<(string, V)>[c](_ => []);
      capacity := c;
      size := 0;
      Contents := map[];
      assert buckets[..] == FreshBuckets(c);
      EmptyChained<V>(c, hash);
    }
  }

  /** after is before once put has stored (key, value) in bucket i: the
      value of key's pair replaced when the bucket holds key, otherwise the
      pair added at some position; every other bucket unchanged. */
  ghost predicate Stored<V>(before: seq<seq<(string, V)>>, after: seq<seq<(string, V)>>, i: nat, key: string, value: V) {
    && |after| == |before| && i < |before|
    && (forall t :: 0 <= t < |before| && t != i ==> after[t] == before[t])
    && (HasKey(before[i], key) ==> after[i] == Replaced(before[i], key, value))
    && (!HasKey(before[i], key) ==>
          exists pos :: 0 <= pos <= |before[i]| && after[i] == before[i][..pos] + [(key, value)] + before[i][pos..])
  }

  /** The buckets before index k list no more pairs than the buckets up to
      and including k, which list the pairs before k and those of k. */
  lemma {:induction false} FlattenPrefixLength<V>(bs: seq<seq<(string, V)>>, k: nat)
    requires k < |bs|
    ensures Flatten(bs[..k + 1]) == Flatten(bs[..k]) + bs[k]
    ensures |Flatten(bs[..k])| + |bs[k]| <= |Flatten(bs)|
    decreases |bs|
  {
    assert bs[..k + 1][..k] == bs[..k];
    if k < |bs| - 1 {
      var front := bs[..|bs| - 1];
      FlattenPrefixLength(front, k);
      assert front[..k] == bs[..k];
      assert front[..k + 1] == bs[..k + 1];
    }
  }

  /** No buckets list nothing, and all of them list everything. */
  lemma FlattenEnds<V>(bs: seq<seq<(string, V)>>)
    ensures Flatten(bs[..0]) == []
    ensures Flatten(bs[..|bs|]) == Flatten(bs)
  {
    assert bs[..0] == [];
    assert bs[..|bs|] == bs;
  }

  /** Putting none of the pairs changes nothing; putting all of them is
      putting the list. */
  lemma PutAllPrefixEnds<V>(m: map<string, V>, ps: seq<(string, V)>)
    ensures PutAll(m, ps[..0]) == m
    ensures PutAll(m, ps[..|ps|]) == PutAll(m, ps)
  {
    assert ps[..0] == [];
    assert ps[..|ps|] == ps;
  }

  /** Putting pair j after the first j pairs. */
  lemma PutAllPrefixStep<V>(m: map<string, V>, ps: seq<(string, V)>, j: nat)
    requires j < |ps|
    ensures PutAll(m, ps[..j + 1]) == PutAll(m, ps[..j])[ps[j].0 := ps[j].1]
  {
    assert ps[..j + 1][..j] == ps[..j];
  }

  /** Putting one list of pairs and then another is putting the two one
      after the other. */
  lemma {:induction false} PutAllConcat<V>(m: map<string, V>, a: seq<(string, V)>, b: seq<(string, V)>)
    ensures PutAll(PutAll(m, a), b) == PutAll(m, a + b)
    decreases |b|
  {
    if b == [] {
      assert a + b == a;
    } else {
      var front := b[..|b| - 1];
      PutAllConcat(m, a, front);
      assert (a + b)[..|a + b| - 1] == a + front;
    }
  }

  /** The puts of resize_table's inner loop have a smaller measure than
      the resize_table that makes them, and each put a smaller one than the
      loop that makes it. */
  lemma ResizeCallMeasure(size: nat, done: nat, count: nat, total: nat, capacity: nat, n: int)
    requires size <= done && done + count <= total && n <= capacity
    ensures Max0(size + count - capacity) <= Max0(total - n)
  {
  }

  lemma PutCallMeasure(size: nat, start: nat, j: nat, count: nat, capacity: nat, first: nat)
    requires size <= start + j && j < count && first <= capacity
    ensures Max0(size + 1 - capacity) <= Max0(start + count - first)
  {
  }
}
