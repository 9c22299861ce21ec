/** The open-addressing table as a value: the sequence of slots of the
    backing array, and what put, get, contains_key, remove and
    resize_table do to it, written as functions. The class in
    oa_map.dfy is proved to follow these functions step for step. */
module OpenAddressingTable {
  import opened Primes
  import opened Common

  /** A slot of the backing array. Removing an entry turns it into a
      tombstone that keeps its key and value. */
  datatype Slot<V> = Empty | Live(key: string, value: V) | Tomb(key: string, value: V)

  /** The three probe loops stop at different slots. */
  datatype Search = ForPut | ForGet | ForRemove

  /** Whether the probe loop of put, of get/contains_key or of remove stops
      at slot s when looking for key. put stops at any empty or tombstoned
      slot and at a live slot holding key; get at an empty slot and at any
      slot holding key, live or not; remove at an empty slot and at a live
      slot holding key. */
  predicate Stops<V>(why: Search, s: Slot<V>, key: string) {
    match why
    case ForPut => !s.Live? || s.key == key
    case ForGet => s.Empty? || s.key == key
    case ForRemove => s.Empty? || (s.Live? && s.key == key)
  }

  /** The slot visited at step j of the quadratic probe sequence from the
      hash value home. */
  function Probe(home: nat, j: nat, cap: nat): (i: nat)
    requires cap > 0
    ensures i < cap
  {
    (home % cap + j * j) % cap
  }

  /** The first probe step, from j on and below the capacity, at which the
      search stops; None when every remaining step passes by. */
  function FirstStop<V>(slots: seq<Slot<V>>, home: nat, key: string, why: Search, j: nat): (r: Option<nat>)
    requires |slots| > 0
    ensures r.Some? ==> j <= r.value < |slots| && Stops(why, slots[Probe(home, r.value, |slots|)], key)
    ensures forall j' :: j <= j' < (if r.Some? then r.value else |slots|) ==>
              !Stops(why, slots[Probe(home, j', |slots|)], key)
    decreases |slots| - j
  {
    if j >= |slots| then None
    else if Stops(why, slots[Probe(home, j, |slots|)], key) then Some(j)
    else FirstStop(slots, home, key, why, j + 1)
  }

  /** A step at which the search stops, with no stop before it, is the first stop. */
  lemma FirstStopAt<V>(slots: seq<Slot<V>>, home: nat, key: string, why: Search, j: nat)
    requires |slots| > 0 && j < |slots|
    requires Stops(why, slots[Probe(home, j, |slots|)], key)
    requires forall j' :: 0 <= j' < j ==> !Stops(why, slots[Probe(home, j', |slots|)], key)
    ensures FirstStop(slots, home, key, why, 0) == Some(j)
  {
  }

  // ---------------------------------------------------------------------
  // Counting and listing live entries

  /** The number of live slots. */
  function LiveCount<V>(slots: seq<Slot<V>>): (n: nat)
    ensures n <= |slots|
  {
    if slots == [] then 0
    else LiveCount(slots[..|slots| - 1]) + (if slots[|slots| - 1].Live? then 1 else 0)
  }

  lemma {:induction false} LiveCountConcat<V>(a: seq<Slot<V>>, b: seq<Slot<V>>)
    ensures LiveCount(a + b) == LiveCount(a) + LiveCount(b)
    decreases |b|
  {
    if b == [] {
      assert a + b == a;
    } else {
      assert (a + b)[..|a + b| - 1] == a + b[..|b| - 1];
      LiveCountConcat(a, b[..|b| - 1]);
    }
  }

  /** Overwriting one slot changes the live count by what the slot was and is. */
  lemma LiveCountUpdate<V>(slots: seq<Slot<V>>, i: nat, x: Slot<V>)
    requires i < |slots|
    ensures LiveCount(slots[i := x]) ==
            LiveCount(slots) - (if slots[i].Live? then 1 else 0) + (if x.Live? then 1 else 0)
  {
    assert slots == slots[..i] + [slots[i]] + slots[i + 1..];
    assert slots[i := x] == slots[..i] + [x] + slots[i + 1..];
    LiveCountConcat(slots[..i] + [slots[i]], slots[i + 1..]);
    LiveCountConcat(slots[..i], [slots[i]]);
    LiveCountConcat(slots[..i] + [x], slots[i + 1..]);
    LiveCountConcat(slots[..i], [x]);
    assert [x][..0] == [];
    assert [slots[i]][..0] == [];
  }

  /** The live entries as (key, value) pairs in slot order: what
      get_keys_and_values returns. */
  function LivePairs<V>(slots: seq<Slot<V>>): (r: seq<(string, V)>)
    ensures |r| == LiveCount(slots)
  {
    if slots == [] then []
    else
      var s := slots[|slots| - 1];
      LivePairs(slots[..|slots| - 1]) + (if s.Live? then [(s.key, s.value)] else [])
  }

  /** A freshly allocated backing array: every slot empty. */
  function EmptyTable<V>(cap: nat): (r: seq<Slot<V>>)
    ensures |r| == cap && LiveCount(r) == 0
    ensures forall i :: 0 <= i < cap ==> r[i] == Empty
  {
    if cap == 0 then []
    else
      var t := EmptyTable(cap - 1);
      assert (t + [Empty])[..cap - 1] == t;
      t + [Empty]
  }

  // ---------------------------------------------------------------------
  // The probe loops of put, get/contains_key and remove

  /** The probe loop of put on a table that is not grown: write the entry
      at the first slot where the put search stops; nothing when it never
      stops. */
  function Placed<V>(slots: seq<Slot<V>>, home: nat, key: string, value: V): (r: seq<Slot<V>>)
    requires |slots| > 0
    ensures |r| == |slots|
  {
    match FirstStop(slots, home, key, ForPut, 0)
    case None => slots
    case Some(j) => slots[Probe(home, j, |slots|) := Live(key, value)]
  }

  /** The probe loop of get: the value of the first slot holding key, if
      that slot is live and no empty slot comes first. */
  function Lookup<V>(slots: seq<Slot<V>>, home: nat, key: string): (r: Option<V>)
    requires |slots| > 0
    ensures r.Some? ==> exists i :: 0 <= i < |slots| && slots[i] == Live(key, r.value)
  {
    match FirstStop(slots, home, key, ForGet, 0)
    case None => None
    case Some(j) =>
      var s := slots[Probe(home, j, |slots|)];
      if s.Live? then Some(s.value) else None
  }

  /** The probe loop of remove: tombstone the first live slot holding key,
      unless an empty slot comes first. */
  function Removed<V>(slots: seq<Slot<V>>, home: nat, key: string): (r: seq<Slot<V>>)
    requires |slots| > 0
    ensures |r| == |slots|
  {
    match FirstStop(slots, home, key, ForRemove, 0)
    case None => slots
    case Some(j) =>
      var i := Probe(home, j, |slots|);
      if slots[i].Live? then slots[i := Tomb(slots[i].key, slots[i].value)] else slots
  }

  /** put's probe loop overwrites the first live slot holding key, or fills
      the first empty or tombstoned slot, whichever comes first on the
      probe sequence; every slot passed is live with another key, and no
      other slot changes. When no slot qualifies nothing is written. */
  lemma PlacedEffect<V>(slots: seq<Slot<V>>, home: nat, key: string, value: V)
    requires |slots| > 0
    ensures var r := Placed(slots, home, key, value);
      match FirstStop(slots, home, key, ForPut, 0)
      case None =>
        && r == slots
        && (forall j :: 0 <= j < |slots| ==>
              slots[Probe(home, j, |slots|)].Live? && slots[Probe(home, j, |slots|)].key != key)
      case Some(j) =>
        var i := Probe(home, j, |slots|);
        && r[i] == Live(key, value)
        && (forall i' :: 0 <= i' < |slots| && i' != i ==> r[i'] == slots[i'])
        && (forall j' :: 0 <= j' < j ==>
              slots[Probe(home, j', |slots|)].Live? && slots[Probe(home, j', |slots|)].key != key)
        && (slots[i].Live? ==> slots[i].key == key && LiveCount(r) == LiveCount(slots))
        && (!slots[i].Live? ==> LiveCount(r) == LiveCount(slots) + 1)
  {
    match FirstStop(slots, home, key, ForPut, 0)
    case None =>
    case Some(j) =>
      LiveCountUpdate(slots, Probe(home, j, |slots|), Live(key, value));
  }

  /** remove's probe loop tombstones the first live slot holding key met
      before an empty slot, leaving its key and value and every other slot
      as they were, and the live count drops by one; when there is no such
      slot nothing changes. */
  lemma RemovedEffect<V>(slots: seq<Slot<V>>, home: nat, key: string)
    requires |slots| > 0
    ensures var r := Removed(slots, home, key);
      match FirstStop(slots, home, key, ForRemove, 0)
      case None => r == slots
      case Some(j) =>
        var i := Probe(home, j, |slots|);
        && (forall j' :: 0 <= j' < j ==>
              !slots[Probe(home, j', |slots|)].Empty? &&
              !(slots[Probe(home, j', |slots|)].Live? && slots[Probe(home, j', |slots|)].key == key))
        && (slots[i].Empty? ==> r == slots)
        && (slots[i].Live? ==>
              && slots[i].key == key
              && r[i] == Tomb(key, slots[i].value)
              && (forall i' :: 0 <= i' < |slots| && i' != i ==> r[i'] == slots[i'])
              && LiveCount(r) == LiveCount(slots) - 1)
  {
    match FirstStop(slots, home, key, ForRemove, 0)
    case None =>
    case Some(j) =>
      var i := Probe(home, j, |slots|);
      if slots[i].Live? {
        LiveCountUpdate(slots, i, Tomb(slots[i].key, slots[i].value));
      }
  }

  // ---------------------------------------------------------------------
  // Growth: put and resize_table call each other
  //
  // Each decreases clause leads with whether the live entries still
  // crowd the table (false before true): a resize makes room, so the
  // mutual recursion ends.

  /** The table put probes into: resize_table(2 * capacity) when at least
      half the slots are live (a load factor of 0.5 or more), otherwise the
      table as it is. The grown capacity is exactly PrimeCapacity(2 * capacity):
      the re-puts never grow it again. */
  ghost function Grown<V>(slots: seq<Slot<V>>, hash: string -> nat): (r: seq<Slot<V>>)
    requires |slots| > 0
    ensures 2 * LiveCount(slots) < |slots| ==> r == slots
    ensures 2 * LiveCount(slots) >= |slots| ==>
              2 * |slots| <= |r| == PrimeCapacity(2 * |slots|) && LiveCount(r) <= LiveCount(slots)
    decreases 2 * LiveCount(slots) >= |slots|, 0, 0
  {
    if 2 * LiveCount(slots) >= |slots| then Resized(slots, hash, 2 * |slots|) else slots
  }

  /** The table after put(key, value): the probe loop run on the grown table. */
  ghost function Inserted<V>(slots: seq<Slot<V>>, hash: string -> nat, key: string, value: V): (r: seq<Slot<V>>)
    requires |slots| > 0
    ensures |r| >= |slots|
    ensures 2 * LiveCount(slots) < |slots| ==> |r| == |slots|
    ensures 2 * LiveCount(slots) >= |slots| ==> |r| == PrimeCapacity(2 * |slots|)
    ensures LiveCount(r) <= LiveCount(slots) + 1
    ensures Prime(|slots|) ==> Prime(|r|)
    decreases 2 * LiveCount(slots) >= |slots|, 0, 1
  {
    var grown := Grown(slots, hash);
    PlacedEffect(grown, hash(key), key, value);
    Placed(grown, hash(key), key, value)
  }

  /** The table after resize_table(n): unchanged when n is below the live
      count; otherwise a fresh table of capacity PrimeCapacity(n) into which
      the live entries are put again in slot order. That capacity is final
      whenever the live entries fill at most half of it, rounded up; only
      more entries than that make a re-put grow the new table. */
  ghost function Resized<V>(slots: seq<Slot<V>>, hash: string -> nat, n: int): (r: seq<Slot<V>>)
    ensures n < LiveCount(slots) ==> r == slots
    ensures n >= LiveCount(slots) ==> n <= |r| && Prime(|r|) && LiveCount(r) <= LiveCount(slots)
    ensures n >= LiveCount(slots) && 2 * LiveCount(slots) <= PrimeCapacity(n) + 1 ==> |r| == PrimeCapacity(n)
    decreases 2 * LiveCount(slots) > n, 2, 0
  {
    if n < LiveCount(slots) then slots
    else
      assert slots[0..] == slots;
      Reinserted(EmptyTable(PrimeCapacity(n)), slots, hash, 0)
  }

  /** The re-insertion loop of resize_table from old slot i on: each live
      entry is put into acc, which may itself grow; it keeps its length
      when acc and the entries left fill at most half of it, rounded up. */
  ghost function Reinserted<V>(acc: seq<Slot<V>>, olds: seq<Slot<V>>, hash: string -> nat, i: nat): (r: seq<Slot<V>>)
    requires |acc| > 0 && i <= |olds|
    ensures |r| >= |acc|
    ensures 2 * (LiveCount(acc) + LiveCount(olds[i..])) <= |acc| + 1 ==> |r| == |acc|
    ensures LiveCount(r) <= LiveCount(acc) + LiveCount(olds[i..])
    ensures Prime(|acc|) ==> Prime(|r|)
    decreases 2 * (LiveCount(acc) + LiveCount(olds[i..])) > |acc|, 1, |olds| - i
  {
    if i == |olds| then acc
    else
      assert olds[i..] == [olds[i]] + olds[i + 1..];
      LiveCountConcat([olds[i]], olds[i + 1..]);
      assert [olds[i]][..0] == [];
      if olds[i].Live? then
        Reinserted(Inserted(acc, hash, olds[i].key, olds[i].value), olds, hash, i + 1)
      else
        Reinserted(acc, olds, hash, i + 1)
  }
}
