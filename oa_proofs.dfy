/** What the open-addressing table functions promise: put always finds a
    slot in a prime table at most half full, the put/get and put/remove
    round trips, what resize_table keeps, and the places where the
    probing rules let a key be stored twice. */
module OpenAddressingProofs {
  import opened Primes
  import opened Common
  import opened OpenAddressingTable

  // ---------------------------------------------------------------------
  // Quadratic probes modulo a prime reach (cap + 1) / 2 distinct slots

  /** The slots visited in the first h probe steps. */
  function ProbeSet(home: nat, h: nat, cap: nat): (r: set<nat>)
    requires cap > 0
    ensures forall j :: 0 <= j < h ==> Probe(home, j, cap) in r
    ensures forall x :: x in r ==> exists j :: 0 <= j < h && x == Probe(home, j, cap)
  {
    if h == 0 then {} else ProbeSet(home, h - 1, cap) + {Probe(home, h - 1, cap)}
  }

  /** Two probe steps below p / 2 visit different slots of a prime table. */
  lemma ProbesDistinct(p: nat, home: nat, a: nat, b: nat)
    requires Prime(p) && a < b && 2 * b < p
    ensures Probe(home, a, p) != Probe(home, b, p)
  {
    if Probe(home, a, p) == Probe(home, b, p) {
      var x := home % p;
      ModDifference(x + a * a, x + b * b, p);
      assert (x + b * b) - (x + a * a) == (b - a) * (b + a);
      PrimeProductNonzero(p, b - a, b + a);
    }
  }

  /** Probe step h - 1 visits a slot that no earlier step visited. */
  lemma ProbeFresh(p: nat, home: nat, h: nat)
    requires Prime(p) && 0 < h && 2 * h <= p + 1
    ensures Probe(home, h - 1, p) !in ProbeSet(home, h - 1, p)
  {
    if Probe(home, h - 1, p) in ProbeSet(home, h - 1, p) {
      var j :| 0 <= j < h - 1 && Probe(home, h - 1, p) == Probe(home, j, p);
      ProbesDistinct(p, home, j, h - 1);
    }
  }

  /** The first h probe steps, for h up to (p + 1) / 2, visit h distinct
      slots. */
  lemma {:induction false} ProbeSetSize(p: nat, home: nat, h: nat)
    requires Prime(p) && 2 * h <= p + 1
    ensures |ProbeSet(home, h, p)| == h
  {
    if h > 0 {
      ProbeSetSize(p, home, h - 1);
      ProbeFresh(p, home, h);
    }
  }

  /** A set of live slots is no larger than the live count. */
  lemma {:induction false} LiveCountAtLeast<V>(slots: seq<Slot<V>>, live: set<nat>)
    requires forall i :: i in live ==> i < |slots| && slots[i].Live?
    ensures LiveCount(slots) >= |live|
    decreases |slots|
  {
    if slots == [] {
      assert live == {};
    } else {
      var n := |slots| - 1;
      var rest := live - {n};
      LiveCountAtLeast(slots[..n], rest);
      if n in live {
        assert live == rest + {n};
        assert rest * {n} == {};
      } else {
        assert live == rest;
      }
    }
  }

  /** In a prime table with fewer than half its slots live, put's probe
      loop always finds a slot: it never silently drops the entry. */
  lemma PutLands<V>(slots: seq<Slot<V>>, home: nat, key: string)
    requires |slots| > 0 && Prime(|slots|) && 2 * LiveCount(slots) < |slots|
    ensures FirstStop(slots, home, key, ForPut, 0).Some?
  {
    var p := |slots|;
    if FirstStop(slots, home, key, ForPut, 0).None? {
      var h := (p + 1) / 2;
      ProbeSetSize(p, home, h);
      LiveCountAtLeast(slots, ProbeSet(home, h, p));
    }
  }

  /** Growing first always leaves room: the table put probes into is prime
      and less than half live. */
  lemma GrownRoom<V>(slots: seq<Slot<V>>, hash: string -> nat)
    requires |slots| > 0 && Prime(|slots|)
    ensures var g := Grown(slots, hash); Prime(|g|) && 2 * LiveCount(g) < |g|
  {
    EvenNotPrime(2 * |slots|);
  }

  // ---------------------------------------------------------------------
  // Round trips on any prime table

  /** After put(key, value), get(key) returns value (and contains_key(key)
      is true), whatever tombstones or duplicates the table held. */
  lemma InsertedThenLookup<V>(slots: seq<Slot<V>>, hash: string -> nat, key: string, value: V)
    requires |slots| > 0 && Prime(|slots|)
    ensures Lookup(Inserted(slots, hash, key, value), hash(key), key) == Some(value)
  {
    var g := Grown(slots, hash);
    GrownRoom(slots, hash);
    PutLands(g, hash(key), key);
    PlacedEffect(g, hash(key), key, value);
    var j := FirstStop(g, hash(key), key, ForPut, 0).value;
    var r := Placed(g, hash(key), key, value);
    forall j' | 0 <= j' < j
      ensures !Stops(ForGet, r[Probe(hash(key), j', |r|)], key)
    {
    }
    FirstStopAt(r, hash(key), key, ForGet, j);
  }

  /** After put(key, value) then remove(key), get(key) returns None and
      one live entry fewer is left than after the put. */
  lemma InsertedRemovedLookup<V>(slots: seq<Slot<V>>, hash: string -> nat, key: string, value: V)
    requires |slots| > 0 && Prime(|slots|)
    ensures var t := Inserted(slots, hash, key, value);
            var u := Removed(t, hash(key), key);
            Lookup(u, hash(key), key) == None && LiveCount(u) == LiveCount(t) - 1
  {
    var g := Grown(slots, hash);
    GrownRoom(slots, hash);
    PutLands(g, hash(key), key);
    PlacedEffect(g, hash(key), key, value);
    var j := FirstStop(g, hash(key), key, ForPut, 0).value;
    var t := Placed(g, hash(key), key, value);
    var i := Probe(hash(key), j, |t|);
    forall j' | 0 <= j' < j
      ensures !Stops(ForRemove, t[Probe(hash(key), j', |t|)], key)
    {
    }
    FirstStopAt(t, hash(key), key, ForRemove, j);
    RemovedEffect(t, hash(key), key);
    var u := Removed(t, hash(key), key);
    forall j' | 0 <= j' < j
      ensures !Stops(ForGet, u[Probe(hash(key), j', |u|)], key)
    {
    }
    FirstStopAt(u, hash(key), key, ForGet, j);
  }

  /** Two tables on which a search stops at the same slots give the same
      first stop. */
  lemma {:induction false} FirstStopAgree<V>(a: seq<Slot<V>>, b: seq<Slot<V>>, home: nat, key: string, why: Search, j: nat)
    requires |a| == |b| > 0
    requires forall i :: 0 <= i < |a| ==> Stops(why, a[i], key) == Stops(why, b[i], key)
    ensures FirstStop(a, home, key, why, j) == FirstStop(b, home, key, why, j)
    decreases |a| - j
  {
    if j < |a| {
      FirstStopAgree(a, b, home, key, why, j + 1);
    }
  }

  /** remove(key) leaves what get returns for every other key unchanged, on
      any table: the tombstone it writes still carries key, so get's probe
      loop for another key passes it as it passed the live slot. */
  lemma RemovedOtherKeys<V>(slots: seq<Slot<V>>, home: nat, key: string, otherHome: nat, other: string)
    requires |slots| > 0 && other != key
    ensures Lookup(Removed(slots, home, key), otherHome, other) == Lookup(slots, otherHome, other)
  {
    RemovedEffect(slots, home, key);
    var r := Removed(slots, home, key);
    FirstStopAgree(slots, r, otherHome, other, ForGet, 0);
  }

  // ---------------------------------------------------------------------
  // The entries a table holds, and well-formed tables (as resize_table leaves them)

  /** The live entries as a map. When a key is live in several slots the
      last one in slot order wins, as it does when resize_table puts the
      entries again one after the other. */
  function LiveMap<V>(slots: seq<Slot<V>>): (m: map<string, V>)
  {
    if slots == [] then map[]
    else
      var s := slots[|slots| - 1];
      LiveMap(slots[..|slots| - 1]) + (if s.Live? then map[s.key := s.value] else map[])
  }

  lemma {:induction false} LiveMapConcat<V>(a: seq<Slot<V>>, b: seq<Slot<V>>)
    ensures LiveMap(a + b) == LiveMap(a) + LiveMap(b)
    decreases |b|
  {
    if b == [] {
      assert a + b == a;
    } else {
      var front, s := b[..|b| - 1], b[|b| - 1];
      var t: map<string, V> := if s.Live? then map[s.key := s.value] else map[];
      assert (a + b)[..|a + b| - 1] == a + front;
      assert LiveMap(a + b) == LiveMap(a + front) + t;
      assert LiveMap(b) == LiveMap(front) + t;
      LiveMapConcat(a, front);
      MapUnionAssociative(LiveMap(a), LiveMap(front), t);
    }
  }

  lemma MapUnionAssociative<V>(a: map<string, V>, b: map<string, V>, c: map<string, V>)
    ensures (a + b) + c == a + (b + c)
  {
  }

  /** Every key of the map comes from a live slot holding that value. */
  lemma {:induction false} LiveMapSource<V>(slots: seq<Slot<V>>, k: string)
    requires k in LiveMap(slots)
    ensures exists i :: 0 <= i < |slots| && slots[i] == Live(k, LiveMap(slots)[k])
    decreases |slots|
  {
    var n := |slots| - 1;
    if slots[n].Live? && slots[n].key == k {
      assert slots[n] == Live(k, LiveMap(slots)[k]);
    } else {
      LiveMapSource(slots[..n], k);
      var i :| 0 <= i < n && slots[..n][i] == Live(k, LiveMap(slots[..n])[k]);
      assert slots[i] == Live(k, LiveMap(slots)[k]);
    }
  }

  /** A live slot with no later live slot for the same key gives the map's value. */
  lemma {:induction false} LiveMapLast<V>(slots: seq<Slot<V>>, i: nat)
    requires i < |slots| && slots[i].Live?
    requires forall i' :: i < i' < |slots| && slots[i'].Live? ==> slots[i'].key != slots[i].key
    ensures slots[i].key in LiveMap(slots) && LiveMap(slots)[slots[i].key] == slots[i].value
    decreases |slots|
  {
    var n := |slots| - 1;
    if i < n {
      LiveMapLast(slots[..n], i);
    }
  }

  lemma {:induction false} LiveMapNoLive<V>(slots: seq<Slot<V>>)
    requires forall i :: 0 <= i < |slots| ==> !slots[i].Live?
    ensures LiveMap(slots) == map[]
    decreases |slots|
  {
    if slots != [] {
      LiveMapNoLive(slots[..|slots| - 1]);
    }
  }

  /** The slot at which get's probe loop stops for key, if any. */
  function GetStop<V>(slots: seq<Slot<V>>, home: nat, key: string): Option<nat>
    requires |slots| > 0
  {
    match FirstStop(slots, home, key, ForGet, 0)
    case None => None
    case Some(j) => Some(Probe(home, j, |slots|))
  }

  /** No tombstones, and every live entry sits exactly where get's probe
      loop for its key stops: the shape of a table resize_table builds. */
  ghost predicate WellFormed<V>(slots: seq<Slot<V>>, hash: string -> nat) {
    && |slots| > 0
    && (forall i :: 0 <= i < |slots| ==> !slots[i].Tomb?)
    && (forall i :: 0 <= i < |slots| && slots[i].Live? ==>
          GetStop(slots, hash(slots[i].key), slots[i].key) == Some(i))
  }

  /** Without tombstones put's probe loop stops where get's does. */
  lemma FirstStopPutGet<V>(slots: seq<Slot<V>>, home: nat, key: string, j: nat)
    requires |slots| > 0 && forall i :: 0 <= i < |slots| ==> !slots[i].Tomb?
    ensures FirstStop(slots, home, key, ForPut, j) == FirstStop(slots, home, key, ForGet, j)
    decreases |slots| - j
  {
    if j < |slots| {
      FirstStopPutGet(slots, home, key, j + 1);
    }
  }

  /** In a well-formed table a live slot holds the map's value for its key. */
  lemma LiveMapOfWellFormed<V>(slots: seq<Slot<V>>, hash: string -> nat, i: nat)
    requires WellFormed(slots, hash) && i < |slots| && slots[i].Live?
    ensures slots[i].key in LiveMap(slots) && LiveMap(slots)[slots[i].key] == slots[i].value
  {
    LiveMapLast(slots, i);
  }

  /** In a well-formed table get returns exactly the value the table holds
      for key, and None for a key it does not hold. */
  lemma LookupWellFormed<V>(slots: seq<Slot<V>>, hash: string -> nat, key: string)
    requires WellFormed(slots, hash)
    ensures Lookup(slots, hash(key), key) ==
            if key in LiveMap(slots) then Some(LiveMap(slots)[key]) else None
  {
    if key in LiveMap(slots) {
      LiveMapSource(slots, key);
    } else if Lookup(slots, hash(key), key).Some? {
      var i :| 0 <= i < |slots| && slots[i] == Live(key, Lookup(slots, hash(key), key).value);
      LiveMapOfWellFormed(slots, hash, i);
    }
  }

  lemma EmptyTableWellFormed<V>(cap: nat, hash: string -> nat)
    requires cap > 0
    ensures WellFormed(EmptyTable<V>(cap), hash) && LiveMap(EmptyTable<V>(cap)) == map[]
  {
    LiveMapNoLive(EmptyTable<V>(cap));
  }

  /** After put's probe loop lands, get's probe loop for the same key stops
      at the slot written. */
  lemma PlacedFindsNew<V>(slots: seq<Slot<V>>, hash: string -> nat, key: string, value: V)
    requires WellFormed(slots, hash) && FirstStop(slots, hash(key), key, ForPut, 0).Some?
    ensures var j := FirstStop(slots, hash(key), key, ForPut, 0).value;
            GetStop(Placed(slots, hash(key), key, value), hash(key), key) == Some(Probe(hash(key), j, |slots|))
  {
    var home := hash(key);
    var j := FirstStop(slots, home, key, ForPut, 0).value;
    PlacedEffect(slots, home, key, value);
    var r := Placed(slots, home, key, value);
    forall j' | 0 <= j' < j
      ensures !Stops(ForGet, r[Probe(home, j', |r|)], key)
    {
    }
    FirstStopAt(r, home, key, ForGet, j);
  }

  /** After put's probe loop lands, get's probe loop for any other live
      key still stops at that key's slot. */
  lemma PlacedFindsOld<V>(slots: seq<Slot<V>>, hash: string -> nat, key: string, value: V, i': nat)
    requires WellFormed(slots, hash) && FirstStop(slots, hash(key), key, ForPut, 0).Some?
    requires i' < |slots| && slots[i'].Live?
    requires i' != Probe(hash(key), FirstStop(slots, hash(key), key, ForPut, 0).value, |slots|)
    ensures GetStop(Placed(slots, hash(key), key, value), hash(slots[i'].key), slots[i'].key) == Some(i')
  {
    var home := hash(key);
    PlacedEffect(slots, home, key, value);
    FirstStopPutGet(slots, home, key, 0);
    var r := Placed(slots, home, key, value);
    var k2 := slots[i'].key;
    var h2 := hash(k2);
    var j2 := FirstStop(slots, h2, k2, ForGet, 0).value;
    forall j' | 0 <= j' < j2
      ensures !Stops(ForGet, r[Probe(h2, j', |r|)], k2)
    {
    }
    FirstStopAt(r, h2, k2, ForGet, j2);
  }

  /** put's probe loop, when it lands, keeps a table well formed. */
  lemma PlacedWellFormed<V>(slots: seq<Slot<V>>, hash: string -> nat, key: string, value: V)
    requires WellFormed(slots, hash) && FirstStop(slots, hash(key), key, ForPut, 0).Some?
    ensures WellFormed(Placed(slots, hash(key), key, value), hash)
  {
    var home := hash(key);
    var i := Probe(home, FirstStop(slots, home, key, ForPut, 0).value, |slots|);
    PlacedEffect(slots, home, key, value);
    var r := Placed(slots, home, key, value);
    forall i' | 0 <= i' < |r| && r[i'].Live?
      ensures GetStop(r, hash(r[i'].key), r[i'].key) == Some(i')
    {
      if i' == i {
        PlacedFindsNew(slots, hash, key, value);
      } else {
        PlacedFindsOld(slots, hash, key, value, i');
      }
    }
  }

  /** Every entry the table holds after put's probe loop lands is either
      the new one or one it held before. */
  lemma PlacedLiveMapFrom<V>(slots: seq<Slot<V>>, hash: string -> nat, key: string, value: V, k: string)
    requires WellFormed(slots, hash) && FirstStop(slots, hash(key), key, ForPut, 0).Some?
    requires k in LiveMap(Placed(slots, hash(key), key, value))
    ensures var m := LiveMap(slots)[key := value];
            k in m && LiveMap(Placed(slots, hash(key), key, value))[k] == m[k]
  {
    var home := hash(key);
    PlacedEffect(slots, home, key, value);
    FirstStopPutGet(slots, home, key, 0);
    PlacedWellFormed(slots, hash, key, value);
    var r := Placed(slots, home, key, value);
    LiveMapSource(r, k);
    var i' :| 0 <= i' < |r| && r[i'] == Live(k, LiveMap(r)[k]);
    LiveMapOfWellFormed(r, hash, i');
    if k != key {
      LiveMapOfWellFormed(slots, hash, i');
    }
  }

  /** Every entry the table held before put's probe loop lands, and the new
      one, is held after it. */
  lemma PlacedLiveMapTo<V>(slots: seq<Slot<V>>, hash: string -> nat, key: string, value: V, k: string)
    requires WellFormed(slots, hash) && FirstStop(slots, hash(key), key, ForPut, 0).Some?
    requires k in LiveMap(slots)[key := value]
    ensures k in LiveMap(Placed(slots, hash(key), key, value))
  {
    var home := hash(key);
    var i := Probe(home, FirstStop(slots, home, key, ForPut, 0).value, |slots|);
    PlacedEffect(slots, home, key, value);
    FirstStopPutGet(slots, home, key, 0);
    PlacedWellFormed(slots, hash, key, value);
    var r := Placed(slots, home, key, value);
    if k == key {
      LiveMapOfWellFormed(r, hash, i);
    } else {
      LiveMapSource(slots, k);
      var i' :| 0 <= i' < |slots| && slots[i'] == Live(k, LiveMap(slots)[k]);
      LiveMapOfWellFormed(r, hash, i');
    }
  }

  /** put's probe loop, when it lands on a well-formed table, stores value
      under key and leaves every other key as it was. */
  lemma PlacedLiveMap<V>(slots: seq<Slot<V>>, hash: string -> nat, key: string, value: V)
    requires WellFormed(slots, hash) && FirstStop(slots, hash(key), key, ForPut, 0).Some?
    ensures LiveMap(Placed(slots, hash(key), key, value)) == LiveMap(slots)[key := value]
  {
    var r := Placed(slots, hash(key), key, value);
    var m := LiveMap(slots)[key := value];
    forall k | k in LiveMap(r)
      ensures k in m && LiveMap(r)[k] == m[k]
    {
      PlacedLiveMapFrom(slots, hash, key, value, k);
    }
    forall k | k in m
      ensures k in LiveMap(r)
    {
      PlacedLiveMapTo(slots, hash, key, value, k);
    }
    MapsAgree(LiveMap(r), m);
  }

  /** Two maps with the same keys and the same value at each key are equal. */
  lemma MapsAgree<V>(a: map<string, V>, b: map<string, V>)
    requires forall k :: k in a ==> k in b && a[k] == b[k]
    requires forall k :: k in b ==> k in a
    ensures a == b
  {
    assert a.Keys == b.Keys;
  }

  // ---------------------------------------------------------------------
  // resize_table: the mutual recursion of put and resize_table, proved

  /** put on a well-formed prime table keeps it well formed and stores
      value under key; other keys keep their values. */
  lemma {:induction false} InsertedWellFormed<V>(slots: seq<Slot<V>>, hash: string -> nat, key: string, value: V)
    requires WellFormed(slots, hash) && Prime(|slots|)
    ensures var r := Inserted(slots, hash, key, value);
            WellFormed(r, hash) && LiveMap(r) == LiveMap(slots)[key := value]
    decreases 2 * LiveCount(slots) >= |slots|, 0, 1
  {
    var g := Grown(slots, hash);
    if 2 * LiveCount(slots) >= |slots| {
      ResizedWellFormed(slots, hash, 2 * |slots|);
    }
    GrownRoom(slots, hash);
    PutLands(g, hash(key), key);
    PlacedWellFormed(g, hash, key, value);
    PlacedLiveMap(g, hash, key, value);
  }

  /** resize_table on any table (tombstones and duplicate live copies
      included) builds a well-formed table holding the same entries, the
      last live copy of a key giving its value. */
  lemma {:induction false} ResizedWellFormed<V>(slots: seq<Slot<V>>, hash: string -> nat, n: int)
    requires n >= LiveCount(slots)
    ensures var r := Resized(slots, hash, n);
            WellFormed(r, hash) && LiveMap(r) == LiveMap(slots)
    decreases 2 * LiveCount(slots) > n, 2, 0
  {
    var c := PrimeCapacity(n);
    EmptyTableWellFormed<V>(c, hash);
    assert slots[0..] == slots;
    ReinsertedWellFormed(EmptyTable(c), slots, hash, 0);
    assert map[] + LiveMap(slots) == LiveMap(slots);
  }

  lemma MapUnionStep<V>(a: map<string, V>, k: string, v: V, b: map<string, V>)
    ensures a[k := v] + b == a + (map[k := v] + b)
  {
  }

  /** The re-insertion loop adds the entries of the old slots from i on. */
  lemma {:induction false} ReinsertedWellFormed<V>(acc: seq<Slot<V>>, olds: seq<Slot<V>>, hash: string -> nat, i: nat)
    requires WellFormed(acc, hash) && Prime(|acc|) && i <= |olds|
    ensures var r := Reinserted(acc, olds, hash, i);
            WellFormed(r, hash) && LiveMap(r) == LiveMap(acc) + LiveMap(olds[i..])
    decreases 2 * (LiveCount(acc) + LiveCount(olds[i..])) > |acc|, 1, |olds| - i
  {
    if i == |olds| {
      assert olds[i..] == [];
      assert LiveMap(acc) + LiveMap<V>([]) == LiveMap(acc);
    } else if olds[i].Live? {
      var k, v := olds[i].key, olds[i].value;
      SliceFrontCount(olds, i);
      SliceFrontMap(olds, i);
      var next := Inserted(acc, hash, k, v);
      ReinsertMeasure(acc, next, olds, i);
      assert WellFormed(next, hash) && Prime(|next|) && LiveMap(next) == LiveMap(acc)[k := v] by {
        InsertedWellFormed(acc, hash, k, v);
      }
      ReinsertedWellFormed(next, olds, hash, i + 1);
      MapUnionStep(LiveMap(acc), k, v, LiveMap(olds[i + 1..]));
    } else {
      SliceFrontCount(olds, i);
      SliceFrontMap(olds, i);
      ReinsertedWellFormed(acc, olds, hash, i + 1);
    }
  }

  /** Re-putting one live entry does not raise the re-insertion measure. */
  lemma ReinsertMeasure<V>(acc: seq<Slot<V>>, next: seq<Slot<V>>, olds: seq<Slot<V>>, i: nat)
    requires i < |olds| && olds[i].Live?
    requires LiveCount(next) <= LiveCount(acc) + 1 && |next| >= |acc|
    ensures 2 * (LiveCount(next) + LiveCount(olds[i + 1..])) > |next|
        ==> 2 * (LiveCount(acc) + LiveCount(olds[i..])) > |acc|
  {
    SliceFrontCount(olds, i);
  }

  /** Splitting the first slot off a suffix of the old table. */
  lemma SliceFrontCount<V>(olds: seq<Slot<V>>, i: nat)
    requires i < |olds|
    ensures LiveCount(olds[i..]) == (if olds[i].Live? then 1 else 0) + LiveCount(olds[i + 1..])
  {
    assert olds[i..] == [olds[i]] + olds[i + 1..];
    LiveCountConcat([olds[i]], olds[i + 1..]);
    assert [olds[i]][..0] == [];
  }

  lemma SliceFrontMap<V>(olds: seq<Slot<V>>, i: nat)
    requires i < |olds|
    ensures olds[i].Live? ==> LiveMap(olds[i..]) == map[olds[i].key := olds[i].value] + LiveMap(olds[i + 1..])
    ensures !olds[i].Live? ==> LiveMap(olds[i..]) == LiveMap(olds[i + 1..])
  {
    assert olds[i..] == [olds[i]] + olds[i + 1..];
    LiveMapConcat([olds[i]], olds[i + 1..]);
    assert [olds[i]][..0] == [];
    assert LiveMap([olds[i]]) == if olds[i].Live? then map[olds[i].key := olds[i].value] else map[];
  }

  /** resize_table(n) with n at least the size: the capacity becomes a prime
      at least n, no tombstone is left, every live key is still found by
      get with its value (the value of its last live copy), and every
      other key is absent. */
  lemma ResizedKeepsEntries<V>(slots: seq<Slot<V>>, hash: string -> nat, n: int, key: string)
    requires n >= LiveCount(slots)
    ensures var r := Resized(slots, hash, n);
            && n <= |r| && Prime(|r|)
            && (forall i :: 0 <= i < |r| ==> !r[i].Tomb?)
            && Lookup(r, hash(key), key) ==
               if key in LiveMap(slots) then Some(LiveMap(slots)[key]) else None
  {
    ResizedWellFormed(slots, hash, n);
    LookupWellFormed(Resized(slots, hash, n), hash, key);
  }

  /** In a well-formed table (as resize_table leaves it) put(key, value)
      leaves every other key with the value get returned before. */
  lemma InsertedOtherKeys<V>(slots: seq<Slot<V>>, hash: string -> nat, key: string, value: V, other: string)
    requires WellFormed(slots, hash) && Prime(|slots|) && other != key
    ensures Lookup(Inserted(slots, hash, key, value), hash(other), other) == Lookup(slots, hash(other), other)
  {
    InsertedWellFormed(slots, hash, key, value);
    LookupWellFormed(slots, hash, other);
    LookupWellFormed(Inserted(slots, hash, key, value), hash, other);
  }

  // ---------------------------------------------------------------------
  // Sizes: the live count after resize_table and put

  /** No key is live in two slots. */
  ghost predicate LiveKeysDistinct<V>(slots: seq<Slot<V>>) {
    forall i, j :: 0 <= i < j < |slots| && slots[i].Live? && slots[j].Live? ==> slots[i].key != slots[j].key
  }

  /** Dropping the last slot keeps live keys distinct, and the last slot,
      when live, holds a key none of the others does. */
  lemma DistinctFront<V>(slots: seq<Slot<V>>)
    requires slots != [] && LiveKeysDistinct(slots)
    ensures var n := |slots| - 1;
            && LiveKeysDistinct(slots[..n])
            && (slots[n].Live? ==> slots[n].key !in LiveMap(slots[..n]))
  {
    var n := |slots| - 1;
    var front := slots[..n];
    forall a, b | 0 <= a < b < n && front[a].Live? && front[b].Live?
      ensures front[a].key != front[b].key
    {
      assert front[a] == slots[a] && front[b] == slots[b];
    }
    if slots[n].Live? {
      forall k | k in LiveMap(front)
        ensures k != slots[n].key
      {
        LiveMapSource(front, k);
        var a :| 0 <= a < n && front[a] == Live(k, LiveMap(front)[k]);
        assert slots[a] == front[a];
      }
    }
  }

  /** A live last slot with a new key adds one key to the live-entry map;
      any other last slot adds none. */
  lemma LiveMapSnocSize<V>(slots: seq<Slot<V>>)
    requires slots != []
    ensures var n := |slots| - 1;
            && (slots[n].Live? && slots[n].key !in LiveMap(slots[..n]) ==>
                  |LiveMap(slots)| == |LiveMap(slots[..n])| + 1)
            && (!slots[n].Live? ==> LiveMap(slots) == LiveMap(slots[..n]))
  {
    var n := |slots| - 1;
    var s := slots[n];
    if s.Live? {
      assert LiveMap(slots) == LiveMap(slots[..n]) + map[s.key := s.value];
      if s.key !in LiveMap(slots[..n]) {
        MapAddFresh(LiveMap(slots[..n]), s.key, s.value);
      }
    }
  }

  lemma MapAddFresh<V>(m: map<string, V>, k: string, v: V)
    requires k !in m
    ensures |m + map[k := v]| == |m| + 1
  {
    assert m + map[k := v] == m[k := v];
  }

  /** When no key is live twice, the live slots are as many as the keys of
      the live-entry map. */
  lemma {:induction false} DistinctLiveCount<V>(slots: seq<Slot<V>>)
    requires LiveKeysDistinct(slots)
    ensures LiveCount(slots) == |LiveMap(slots)|
    decreases |slots|
  {
    if slots != [] {
      var n := |slots| - 1;
      var front, s := slots[..n], slots[n];
      DistinctFront(slots);
      DistinctLiveCount(front);
      LiveMapSnocSize(slots);
    }
  }

  /** In a well-formed table each live key sits in one slot only, so the
      size is the number of keys get can find. */
  lemma WellFormedLiveCount<V>(slots: seq<Slot<V>>, hash: string -> nat)
    requires WellFormed(slots, hash)
    ensures LiveKeysDistinct(slots) && LiveCount(slots) == |LiveMap(slots)|
  {
    DistinctLiveCount(slots);
  }

  /** resize_table(n) with n at least the size leaves one live slot per key
      live before: the size is kept unless some key was live twice. */
  lemma ResizedSize<V>(slots: seq<Slot<V>>, hash: string -> nat, n: int)
    ensures n < LiveCount(slots) ==> LiveCount(Resized(slots, hash, n)) == LiveCount(slots)
    ensures n >= LiveCount(slots) ==> LiveCount(Resized(slots, hash, n)) == |LiveMap(slots)|
    ensures n >= LiveCount(slots) && LiveKeysDistinct(slots) ==>
              LiveCount(Resized(slots, hash, n)) == LiveCount(slots)
  {
    if n >= LiveCount(slots) {
      ResizedWellFormed(slots, hash, n);
      WellFormedLiveCount(Resized(slots, hash, n), hash);
      if LiveKeysDistinct(slots) {
        DistinctLiveCount(slots);
      }
    }
  }

  /** On a well-formed table put(key, value), growth included, adds one to
      the size exactly when get did not find key before. */
  lemma InsertedSize<V>(slots: seq<Slot<V>>, hash: string -> nat, key: string, value: V)
    requires WellFormed(slots, hash) && Prime(|slots|)
    ensures LiveCount(Inserted(slots, hash, key, value)) ==
            LiveCount(slots) + (if Lookup(slots, hash(key), key).Some? then 0 else 1)
  {
    InsertedWellFormed(slots, hash, key, value);
    LookupWellFormed(slots, hash, key);
    WellFormedLiveCount(slots, hash);
    WellFormedLiveCount(Inserted(slots, hash, key, value), hash);
  }

  // ---------------------------------------------------------------------
  // Listing the entries: get_keys_and_values and the iterator

  lemma {:induction false} LivePairsConcat<V>(a: seq<Slot<V>>, b: seq<Slot<V>>)
    ensures LivePairs(a + b) == LivePairs(a) + LivePairs(b)
    decreases |b|
  {
    if b == [] {
      assert a + b == a;
    } else {
      assert (a + b)[..|a + b| - 1] == a + b[..|b| - 1];
      LivePairsConcat(a, b[..|b| - 1]);
    }
  }

  /** get_keys_and_values lists exactly the entries of the live slots;
      tombstoned and empty slots contribute nothing. */
  lemma {:induction false} LivePairsMember<V>(slots: seq<Slot<V>>, key: string, value: V)
    ensures (key, value) in LivePairs(slots) <==>
            exists i :: 0 <= i < |slots| && slots[i] == Live(key, value)
    decreases |slots|
  {
    if slots != [] {
      var n := |slots| - 1;
      LivePairsMember(slots[..n], key, value);
      var last := slots[n];
      var tail := if last.Live? then [(last.key, last.value)] else [];
      assert LivePairs(slots) == LivePairs(slots[..n]) + tail;
      assert (key, value) in tail <==> last == Live(key, value);
      if (key, value) in LivePairs(slots[..n]) {
        var i :| 0 <= i < n && slots[..n][i] == Live(key, value);
        assert slots[i] == Live(key, value);
      }
      if exists i :: 0 <= i < |slots| && slots[i] == Live(key, value) {
        var i :| 0 <= i < |slots| && slots[i] == Live(key, value);
        if i < n {
          assert slots[..n][i] == Live(key, value);
        }
      }
    }
  }

  /** What iterating over the map yields from slot i on: the entries of
      the live slots up to the first empty or tombstoned one, where the
      iteration stops. */
  function Walk<V>(slots: seq<Slot<V>>, i: nat): (r: seq<(string, V)>)
    decreases |slots| - i
  {
    if i >= |slots| || !slots[i].Live? then []
    else [(slots[i].key, slots[i].value)] + Walk(slots, i + 1)
  }

  /** The iteration yields a prefix of get_keys_and_values, in slot order. */
  lemma {:induction false} WalkPrefix<V>(slots: seq<Slot<V>>, i: nat)
    requires i <= |slots|
    ensures Walk(slots, i) <= LivePairs(slots[i..])
    decreases |slots| - i
  {
    if i < |slots| && slots[i].Live? {
      WalkPrefix(slots, i + 1);
      assert slots[i..] == [slots[i]] + slots[i + 1..];
      LivePairsConcat([slots[i]], slots[i + 1..]);
      assert [slots[i]][..0] == [];
    }
  }

  /** An empty slot in front of a live entry ends the iteration at once,
      though get_keys_and_values lists that entry. */
  lemma WalkStopsEarly()
    ensures var slots := [Empty, Live("k", 1)];
            Walk(slots, 0) == [] && LivePairs(slots) == [("k", 1)]
  {
    var slots := [Empty, Live("k", 1)];
    assert slots[..1] == [Empty];
    assert slots[..1][..0] == [];
  }
}
