/** The open-addressing hash map: a backing array of slots whose capacity
    is kept prime, probed quadratically, with tombstones for removed
    entries. Every method is proved to do to the array what the table
    functions of OpenAddressingTable say. */
module OpenAddressing {
  import opened Primes
  import opened Common
  import opened OpenAddressingTable
  import opened OpenAddressingProofs

  class HashMap<V> {
    var buckets: array<Slot<V>>
    var capacity: nat
    var size: nat
    const hash: string -> nat

    /** The capacity is the array's length and prime, and the size counts
        the live slots. */
    ghost predicate Valid()
      reads this, buckets
    {
      buckets.Length == capacity && Prime(capacity) && size == LiveCount(buckets[..])
    }

    /** A map of the smallest odd prime capacity at least the requested one,
        every slot empty. */
    constructor (requested: nat, hash: string -> nat)
      ensures Valid() && fresh(buckets)
      ensures this.hash == hash && size == 0
      ensures capacity == LeastOddPrimeAtLeast(requested)
      ensures buckets[..] == EmptyTable(capacity)
    {
      var c := NextPrime(requested);
      this.hash := hash;
      capacity := c;
      buckets := new Slot<V>[c](_ => Empty);
      size := 0;
      new;
      assert buckets[..] == EmptyTable(c);
    }

    /** The slot where every probe sequence for key starts. */
    function GetIndex(key: string): (i: nat)
      reads this
      requires capacity > 0
      ensures i < capacity && i == Probe(hash(key), 0, capacity)
    {
      hash(key) % capacity
    }

    /** put(key, value): grow when at least half the slots are live, then
        overwrite key's live slot or fill the first empty or tombstoned
        slot on key's probe sequence, whichever comes first. */
    method Put(key: string, value: V)
      requires Valid()
      modifies this, buckets
      ensures Valid()
      ensures buckets[..] == Inserted(old(buckets[..]), hash, key, value)
      ensures buckets == old(buckets) || fresh(buckets)
      ensures 2 * old(size) < old(capacity) ==> capacity == old(capacity)
      ensures 2 * old(size) >= old(capacity) ==> capacity == PrimeCapacity(2 * old(capacity))
      decreases 2 * size >= capacity, 0, 1
    {
      if 2 * size >= capacity {
        ResizeTable(2 * capacity);
      }
      InsertedUnfold(old(buckets[..]), hash, key, value);
      PlaceInTable(key, value);
    }

    /** The probe loop of put: overwrite key's live slot or fill the first
        empty or tombstoned slot on key's probe sequence, whichever comes
        first; nothing when the probe sequence holds neither. */
    method PlaceInTable(key: string, value: V)
      requires Valid()
      modifies this`size, buckets
      ensures Valid()
      ensures buckets[..] == Placed(old(buckets[..]), hash(key), key, value)
    {
      ghost var before := buckets[..];
      var j := 0;
      while j < capacity
        invariant 0 <= j <= capacity
        invariant Valid() && buckets[..] == before
        invariant FirstStop(before, hash(key), key, ForPut, j) == FirstStop(before, hash(key), key, ForPut, 0)
        decreases capacity - j
      {
        var index := Probe(hash(key), j, capacity);
        var current := buckets[index];
        if current.Empty? || current.Tomb? {
          PlacedAt(before, hash(key), key, value, j);
          buckets[index] := Live(key, value);
          assert buckets[..] == before[index := Live(key, value)];
          size := size + 1;
          return;
        } else if current.key == key {
          PlacedAt(before, hash(key), key, value, j);
          buckets[index] := Live(key, value);
          assert buckets[..] == before[index := Live(key, value)];
          return;
        }
        j := j + 1;
      }
    }

    /** resize_table(n): nothing when n is below the size; otherwise a
        fresh array of capacity PrimeCapacity(n), into which the live
        entries of the old array are put again in slot order. */
    method ResizeTable(n: int)
      requires Valid()
      modifies this
      ensures Valid()
      ensures buckets[..] == Resized(old(buckets[..]), hash, n)
      ensures n < old(size) ==> buckets == old(buckets) && size == old(size)
      ensures n >= old(size) ==> fresh(buckets) && n <= capacity
      ensures n >= old(size) && 2 * old(size) <= PrimeCapacity(n) + 1 ==> capacity == PrimeCapacity(n)
      decreases 2 * size > n, 2, 0
    {
      if n < size {
        return;
      }
      var newCapacity := ResizeCapacity(n);
      ghost var olds := buckets[..];
      ghost var total := size;
      var oldBuckets := buckets;
      buckets := new Slot<V>[newCapacity](_ => Empty);
      capacity := newCapacity;
      size := 0;
      assert buckets[..] == EmptyTable(newCapacity);
      assert olds[0..] == olds;
      var i := 0;
      while i < oldBuckets.Length
        invariant 0 <= i <= oldBuckets.Length == |olds|
        invariant oldBuckets[..] == olds && fresh(buckets)
        invariant Valid()
        invariant Reinserted(buckets[..], olds, hash, i) == Resized(olds, hash, n)
        invariant n <= capacity && size + LiveCount(olds[i..]) <= total
        decreases oldBuckets.Length - i
      {
        SliceFrontCount(olds, i);
        ReinsertedStep(buckets[..], olds, hash, i);
        var current := oldBuckets[i];
        if current.Live? {
          ResizeCallMeasure(size, LiveCount(olds[i + 1..]), total, capacity, n);
          Put(current.key, current.value);
        }
        i := i + 1;
      }
      assert olds[i..] == [];
    }

    /** empty_buckets: the capacity minus the size, which counts every slot
        without a live entry, tombstones included. */
    function EmptyBuckets(): (r: nat)
      reads this, buckets
      requires Valid()
      ensures r == |buckets[..]| - LiveCount(buckets[..])
    {
      capacity - size
    }

    /** get(key): the value of the first slot on key's probe sequence that
        holds key, if that slot is live and no empty slot comes first. */
    method Get(key: string) returns (r: Option<V>)
      requires Valid()
      ensures r == Lookup(buckets[..], hash(key), key)
    {
      var j := 0;
      while j < capacity
        invariant 0 <= j <= capacity
        invariant FirstStop(buckets[..], hash(key), key, ForGet, j) == FirstStop(buckets[..], hash(key), key, ForGet, 0)
        decreases capacity - j
      {
        var index := Probe(hash(key), j, capacity);
        var current := buckets[index];
        if current.Empty? {
          return None;
        } else if current.key == key && current.Tomb? {
          return None;
        } else if current.key == key && current.Live? {
          return Some(current.value);
        }
        j := j + 1;
      }
      return None;
    }

    /** contains_key(key): whether get(key) finds a value. */
    method ContainsKey(key: string) returns (b: bool)
      requires Valid()
      ensures b == Lookup(buckets[..], hash(key), key).Some?
    {
      var j := 0;
      while j < capacity
        invariant 0 <= j <= capacity
        invariant FirstStop(buckets[..], hash(key), key, ForGet, j) == FirstStop(buckets[..], hash(key), key, ForGet, 0)
        decreases capacity - j
      {
        var index := Probe(hash(key), j, capacity);
        var current := buckets[index];
        if current.Empty? {
          return false;
        } else if current.key == key && current.Tomb? {
          return false;
        } else if current.key == key && current.Live? {
          return true;
        }
        j := j + 1;
      }
      return false;
    }

    /** remove(key): tombstone the first live slot holding key on key's
        probe sequence, unless an empty slot comes first. */
    method Remove(key: string)
      requires Valid()
      modifies this, buckets
      ensures Valid() && buckets == old(buckets) && capacity == old(capacity)
      ensures buckets[..] == Removed(old(buckets[..]), hash(key), key)
    {
      ghost var before := buckets[..];
      var j := 0;
      while j < capacity
        invariant 0 <= j <= capacity
        invariant buckets[..] == before && Valid()
        invariant FirstStop(before, hash(key), key, ForRemove, j) == FirstStop(before, hash(key), key, ForRemove, 0)
        decreases capacity - j
      {
        var index := Probe(hash(key), j, capacity);
        var current := buckets[index];
        if current.Empty? {
          return;
        } else if current.key == key && current.Live? {
          buckets[index] := Tomb(current.key, current.value);
          LiveCountUpdate(before, index, Tomb(current.key, current.value));
          size := size - 1;
          return;
        }
        j := j + 1;
      }
    }

    /** get_keys_and_values: the (key, value) pairs of the live slots in
        slot order, as many as the size. */
    method GetKeysAndValues() returns (r: seq<(string, V)>)
      requires Valid()
      ensures r == LivePairs(buckets[..]) && |r| == size
    {
      r := [];
      var i := 0;
      while i < capacity
        invariant 0 <= i <= capacity
        invariant r == LivePairs(buckets[..i])
      {
        assert buckets[..i + 1][..i] == buckets[..i];
        var current := buckets[i];
        if current.Live? {
          r := r + [(current.key, current.value)];
        }
        i := i + 1;
      }
      assert buckets[..i] == buckets[..];
    }

    /** clear: a fresh array of the same capacity, every slot empty. */
    method Clear()
      requires Valid()
      modifies this
      ensures Valid() && fresh(buckets)
      ensures capacity == old(capacity) && size == 0
      ensures buckets[..] == EmptyTable(capacity)
    {
      buckets := new Slot<V>[capacity](_ => Empty);
      size := 0;
      assert buckets[..] == EmptyTable(capacity);
    }

    /** get_bucket(index): the slot at index, or nothing outside the array. */
    function GetBucket(index: int): (s: Slot<V>)
      reads this, buckets
      requires Valid()
      ensures 0 <= index < capacity ==> s == buckets[index]
      ensures !(0 <= index < capacity) ==> s == Empty
    {
      if 0 <= index < capacity then buckets[index] else Empty
    }
  }

  /** Where put's probe loop stops, it writes the entry, and the live count
      grows by one unless the slot was live. */
  lemma PlacedAt<V>(slots: seq<Slot<V>>, home: nat, key: string, value: V, j: nat)
    requires |slots| > 0 && j < |slots|
    requires FirstStop(slots, home, key, ForPut, j) == FirstStop(slots, home, key, ForPut, 0)
    requires Stops(ForPut, slots[Probe(home, j, |slots|)], key)
    ensures var i := Probe(home, j, |slots|);
            && Placed(slots, home, key, value) == slots[i := Live(key, value)]
            && LiveCount(slots[i := Live(key, value)]) == LiveCount(slots) + (if slots[i].Live? then 0 else 1)
  {
    LiveCountUpdate(slots, Probe(home, j, |slots|), Live(key, value));
  }

  /** Inserted is the placement into the grown table. */
  lemma InsertedUnfold<V>(slots: seq<Slot<V>>, hash: string -> nat, key: string, value: V)
    requires |slots| > 0
    ensures Inserted(slots, hash, key, value) == Placed(Grown(slots, hash), hash(key), key, value)
  {
  }

  /** A put made by the re-insertion loop of resize_table has a smaller
      measure than the resize_table that makes it. */
  lemma ResizeCallMeasure(size: nat, rest: nat, total: nat, capacity: nat, n: int)
    requires size + rest + 1 <= total && n <= capacity
    ensures 2 * size >= capacity ==> 2 * total > n
  {
  }

  /** One step of the re-insertion loop. */
  lemma ReinsertedStep<V>(acc: seq<Slot<V>>, olds: seq<Slot<V>>, hash: string -> nat, i: nat)
    requires |acc| > 0 && i < |olds|
    ensures olds[i].Live? ==>
              Reinserted(acc, olds, hash, i) == Reinserted(Inserted(acc, hash, olds[i].key, olds[i].value), olds, hash, i + 1)
    ensures !olds[i].Live? ==> Reinserted(acc, olds, hash, i) == Reinserted(acc, olds, hash, i + 1)
  {
  }

  /** Iteration over an open-addressing map, one slot index at a time. */
  class HashMapIterator<V> {
    var currentIndex: nat
    const hashMap: HashMap<V>

    constructor (hashMap: HashMap<V>)
      ensures this.hashMap == hashMap && currentIndex == 0
    {
      this.hashMap := hashMap;
      currentIndex := 0;
    }

    /** __next__: past the last slot, stop without moving; otherwise move to
        the next slot and yield the current one's entry if it is live, or
        stop if it is empty or tombstoned. What the successive calls yield
        from index 0 is Walk(slots, 0). */
    method Next() returns (r: Option<(string, V)>)
      requires hashMap.Valid()
      modifies this
      ensures old(currentIndex) >= hashMap.capacity ==> currentIndex == old(currentIndex)
      ensures old(currentIndex) < hashMap.capacity ==> currentIndex == old(currentIndex) + 1
      ensures r.None? ==> Walk(hashMap.buckets[..], old(currentIndex)) == []
      ensures r.Some? ==>
                Walk(hashMap.buckets[..], old(currentIndex)) == [r.value] + Walk(hashMap.buckets[..], currentIndex)
    {
      if currentIndex >= hashMap.capacity {
        return None;
      }
      var current := hashMap.GetBucket(currentIndex);
      currentIndex := currentIndex + 1;
      if current.Live? {
        return Some((current.key, current.value));
      }
      return None;
    }
  }
}
