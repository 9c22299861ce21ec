/** A concrete open-addressing table on which the probing rules of put,
    get and remove disagree about tombstones. */
module OpenAddressingScenarios {
  import opened Primes
  import opened Common
  import opened OpenAddressingTable
  import opened OpenAddressingProofs

  /** The first probe steps from slot 0 land on the squares. */
  lemma ProbeSquare(j: nat, cap: nat)
    requires j * j < cap
    ensures Probe(0, j, cap) == j * j
  {
    ModUnique(0, cap, 0, 0);
    ModUnique(j * j, cap, 0, j * j);
  }

  /** A 3-slot table holding a tombstone for key a and a live copy of key
      k, both hashing to slot 0, has one live slot of three, so put does
      not grow it. put(k, 5) stops at the tombstone and stores a second
      live copy of k; remove(k) tombstones that copy, after which get(k)
      stops at the tombstone and finds nothing while get_keys_and_values
      still lists (k, 2); a second remove(k) passes the tombstone and
      removes the remaining copy. */
  lemma TombstoneTrap(a: string, k: string, before: seq<Slot<int>>)
    requires a != k && before == [Tomb(a, 1), Live(k, 2), Empty]
    ensures var t := Placed(before, 0, k, 5);
            var u := Removed(t, 0, k);
            && 2 * LiveCount(before) < |before|
            && t == [Live(k, 5), Live(k, 2), Empty]
            && LiveCount(t) == 2
            && Lookup(t, 0, k) == Some(5)
            && u == [Tomb(k, 5), Live(k, 2), Empty]
            && Lookup(u, 0, k) == None
            && LivePairs(u) == [(k, 2)]
            && Removed(u, 0, k) == [Tomb(k, 5), Tomb(k, 2), Empty]
  {
    TrapPut(a, k, before);
    var t := Placed(before, 0, k, 5);
    TrapRemoveFirst(k, t);
    var u := Removed(t, 0, k);
    TrapRemoveSecond(k, u);
    TrapCounts(a, k, before, t, u);
  }

  lemma TrapPut(a: string, k: string, before: seq<Slot<int>>)
    requires a != k && before == [Tomb(a, 1), Live(k, 2), Empty]
    ensures Placed(before, 0, k, 5) == [Live(k, 5), Live(k, 2), Empty]
  {
    assert before[0 := Live(k, 5)] == [Live(k, 5), Live(k, 2), Empty];
    ProbeSquare(0, |before|);
    FirstStopAt(before, 0, k, ForPut, 0);
  }

  lemma TrapRemoveFirst(k: string, t: seq<Slot<int>>)
    requires t == [Live(k, 5), Live(k, 2), Empty]
    ensures Lookup(t, 0, k) == Some(5)
    ensures Removed(t, 0, k) == [Tomb(k, 5), Live(k, 2), Empty]
  {
    assert t[0 := Tomb(k, 5)] == [Tomb(k, 5), Live(k, 2), Empty];
    ProbeSquare(0, |t|);
    FirstStopAt(t, 0, k, ForGet, 0);
    FirstStopAt(t, 0, k, ForRemove, 0);
  }

  lemma TrapRemoveSecond(k: string, u: seq<Slot<int>>)
    requires u == [Tomb(k, 5), Live(k, 2), Empty]
    ensures Lookup(u, 0, k) == None
    ensures Removed(u, 0, k) == [Tomb(k, 5), Tomb(k, 2), Empty]
  {
    assert u[1 := Tomb(k, 2)] == [Tomb(k, 5), Tomb(k, 2), Empty];
    ProbeSquare(0, |u|);
    ProbeSquare(1, |u|);
    FirstStopAt(u, 0, k, ForGet, 0);
    FirstStopAt(u, 0, k, ForRemove, 1);
  }

  lemma TrapCounts(a: string, k: string, before: seq<Slot<int>>, t: seq<Slot<int>>, u: seq<Slot<int>>)
    requires before == [Tomb(a, 1), Live(k, 2), Empty]
    requires t == [Live(k, 5), Live(k, 2), Empty]
    requires u == [Tomb(k, 5), Live(k, 2), Empty]
    ensures LiveCount(before) == 1 && LiveCount(t) == 2
    ensures LivePairs(u) == [(k, 2)]
  {
    assert before[..2] == [Tomb(a, 1), Live(k, 2)] && before[..2][..1] == [Tomb(a, 1)];
    assert [Tomb(a, 1)][..0] == [];
    assert LiveCount(before[..2][..1]) == 0;
    assert LiveCount(before[..2]) == 1;
    assert t[..2] == [Live(k, 5), Live(k, 2)] && t[..2][..1] == [Live(k, 5)];
    assert [Live(k, 5)][..0] == [];
    assert LiveCount(t[..2][..1]) == 1;
    assert LiveCount(t[..2]) == 2;
    assert u[..2] == [Tomb(k, 5), Live(k, 2)] && u[..2][..1] == [Tomb(k, 5)];
    assert [Tomb(k, 5)][..0] == [];
    assert LivePairs(u[..2][..1]) == [];
    assert LivePairs(u[..2]) == [(k, 2)];
  }

  /** resize_table on the table put left with two live copies of k keeps
      only the later copy: the size drops from 2 to 1 and get finds 2. */
  lemma TrapResize(k: string, t: seq<Slot<int>>, hash: string -> nat, n: int)
    requires t == [Live(k, 5), Live(k, 2), Empty] && n >= 2
    ensures LiveCount(t) == 2
    ensures LiveCount(Resized(t, hash, n)) == 1
    ensures Lookup(Resized(t, hash, n), hash(k), k) == Some(2)
  {
    assert t[..2] == [Live(k, 5), Live(k, 2)] && t[..2][..1] == [Live(k, 5)];
    assert [Live(k, 5)][..0] == [];
    assert LiveCount(t[..2][..1]) == 1 && LiveMap(t[..2][..1]) == map[k := 5];
    assert LiveCount(t[..2]) == 2 && LiveMap(t[..2]) == map[k := 2];
    assert LiveMap(t) == map[k := 2];
    ResizedSize(t, hash, n);
    ResizedKeepsEntries(t, hash, n, k);
  }

  /** On the table remove(k) left in TombstoneTrap, where get(k) finds
      nothing, put(z, 9) for another key z hashing to slot 0 reuses the
      tombstone in slot 0, and get(k) then passes it and finds 2 again:
      an unrelated put brings the removed key back. */
  lemma TrapPutRevives(k: string, z: string, u: seq<Slot<int>>, hash: string -> nat)
    requires z != k && hash(k) == 0 && hash(z) == 0
    requires u == [Tomb(k, 5), Live(k, 2), Empty]
    ensures Lookup(u, hash(k), k) == None
    ensures Inserted(u, hash, z, 9) == [Live(z, 9), Live(k, 2), Empty]
    ensures Lookup(Inserted(u, hash, z, 9), hash(k), k) == Some(2)
  {
    TrapRemoveSecond(k, u);
    assert u[..2] == [Tomb(k, 5), Live(k, 2)] && u[..2][..1] == [Tomb(k, 5)];
    assert [Tomb(k, 5)][..0] == [];
    assert LiveCount(u[..2][..1]) == 0;
    assert LiveCount(u[..2]) == 1;
    var v := u[0 := Live(z, 9)];
    assert v == [Live(z, 9), Live(k, 2), Empty];
    ProbeSquare(0, |u|);
    ProbeSquare(1, |u|);
    FirstStopAt(u, 0, z, ForPut, 0);
    FirstStopAt(v, 0, k, ForGet, 1);
  }

  /** The first resize demo: a map created for 20 slots gets capacity 23;
      after one put, resize_table(30) settles on capacity 31 and keeps the
      entry. */
  lemma ResizeDemo(hash: string -> nat, k: string)
    ensures LeastOddPrimeAtLeast(20) == 23
    ensures var t := Inserted(EmptyTable<int>(23), hash, k, 10);
            var r := Resized(t, hash, 30);
            |t| == 23 && LiveCount(t) == 1 && |r| == 31 && LiveCount(r) == 1
            && Lookup(r, hash(k), k) == Some(10)
  {
    NoSmallFactorPrime(23, 5);
    assert 21 % 3 == 0;
    LeastOddPrimeUnique(20, 23);
    NoSmallFactorPrime(31, 7);
    assert 30 % 2 == 0;
    LeastOddPrimeUnique(30, 31);
    assert PrimeCapacity(30) == 31;
    var e := EmptyTable<int>(23);
    EmptyTableWellFormed<int>(23, hash);
    InsertedWellFormed(e, hash, k, 10);
    var t := Inserted(e, hash, k, 10);
    assert LiveMap(t) == map[k := 10];
    WellFormedLiveCount(t, hash);
    ResizedSize(t, hash, 30);
    ResizedKeepsEntries(t, hash, 30, k);
  }

  /** resize_table does not keep the load at or under one half: three live
      keys (say, after three puts into a map of capacity 7) and
      resize_table(5) leave capacity 5 with load 3/5. */
  lemma ResizeAboveHalf<V>(t: seq<Slot<V>>, hash: string -> nat)
    requires LiveCount(t) == 3 && LiveKeysDistinct(t)
    ensures var r := Resized(t, hash, 5);
            |r| == 5 && LiveCount(r) == 3 && 2 * LiveCount(r) > |r|
  {
    NoSmallFactorPrime(5, 3);
    assert PrimeCapacity(5) == 5;
    ResizedSize(t, hash, 5);
  }
}
