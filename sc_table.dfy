/** The buckets of the separate-chaining map as values: each bucket is the
    list of (key, value) pairs of one linked list, and Chained says when a
    sequence of buckets represents a map from keys to values. */
module ChainingTable {
  import opened Common

  /** No key occurs twice in a list of pairs. */
  ghost predicate KeysDistinct<V>(ps: seq<(string, V)>) {
    forall a, b :: 0 <= a < b < |ps| ==> ps[a].0 != ps[b].0
  }

  /** Some pair of the list holds key. */
  ghost predicate HasKey<V>(ps: seq<(string, V)>, key: string) {
    exists j :: 0 <= j < |ps| && ps[j].0 == key
  }

  /** The linked list's contains(key): the value of the first pair that
      holds key, if any. */
  function Find<V>(bucket: seq<(string, V)>, key: string): (r: Option<V>)
    ensures r.Some? <==> HasKey(bucket, key)
    ensures r.Some? ==> (key, r.value) in bucket
  {
    if bucket == [] then None
    else if bucket[0].0 == key then Some(bucket[0].1)
    else
      var r := Find(bucket[1..], key);
      assert HasKey(bucket, key) ==> HasKey(bucket[1..], key) by {
        if HasKey(bucket, key) {
          var j :| 0 <= j < |bucket| && bucket[j].0 == key;
          assert bucket[1..][j - 1].0 == key;
        }
      }
      assert HasKey(bucket[1..], key) ==> HasKey(bucket, key) by {
        if HasKey(bucket[1..], key) {
          var j :| 0 <= j < |bucket[1..]| && bucket[1..][j].0 == key;
          assert bucket[j + 1].0 == key;
        }
      }
      r
  }

  /** In a list without repeated keys, Find returns the value paired with
      the key. */
  lemma FindDistinct<V>(bucket: seq<(string, V)>, key: string, value: V)
    requires KeysDistinct(bucket) && (key, value) in bucket
    ensures Find(bucket, key) == Some(value)
  {
    var r := Find(bucket, key);
    var j :| 0 <= j < |bucket| && bucket[j] == (key, value);
    assert HasKey(bucket, key);
    var i :| 0 <= i < |bucket| && bucket[i] == (key, r.value);
    assert i == j;
  }

  /** node.value = value on the node contains(key) returns: the first pair
      holding key gets the new value; nothing else changes. */
  function Replaced<V>(bucket: seq<(string, V)>, key: string, value: V): (r: seq<(string, V)>)
    ensures |r| == |bucket|
    ensures forall j :: 0 <= j < |r| ==> r[j].0 == bucket[j].0
    ensures KeysDistinct(bucket) ==>
              forall j :: 0 <= j < |r| ==> r[j] == (if bucket[j].0 == key then (key, value) else bucket[j])
  {
    if bucket == [] then []
    else if bucket[0].0 == key then
      assert KeysDistinct(bucket) ==> forall j :: 1 <= j < |bucket| ==> bucket[j].0 != key by {
        if KeysDistinct(bucket) {
          forall j | 1 <= j < |bucket|
            ensures bucket[j].0 != key
          {
            assert bucket[0].0 != bucket[j].0;
          }
        }
      }
      [(key, value)] + bucket[1..]
    else
      var rest := Replaced(bucket[1..], key, value);
      assert KeysDistinct(bucket) ==> KeysDistinct(bucket[1..]) by {
        if KeysDistinct(bucket) {
          forall a, b | 0 <= a < b < |bucket[1..]|
            ensures bucket[1..][a].0 != bucket[1..][b].0
          {
            assert bucket[a + 1].0 != bucket[b + 1].0;
          }
        }
      }
      [bucket[0]] + rest
  }

  /** The linked list's remove(key): the first pair holding key is
      dropped. */
  function Without<V>(bucket: seq<(string, V)>, key: string): (r: seq<(string, V)>)
    ensures HasKey(bucket, key) ==> |r| == |bucket| - 1
    ensures !HasKey(bucket, key) ==> r == bucket
  {
    if bucket == [] then []
    else if bucket[0].0 == key then bucket[1..]
    else
      var rest := Without(bucket[1..], key);
      assert HasKey(bucket, key) <==> HasKey(bucket[1..], key) by {
        if HasKey(bucket, key) {
          var j :| 0 <= j < |bucket| && bucket[j].0 == key;
          assert bucket[1..][j - 1].0 == key;
        }
        if HasKey(bucket[1..], key) {
          var j :| 0 <= j < |bucket[1..]| && bucket[1..][j].0 == key;
          assert bucket[j + 1].0 == key;
        }
      }
      [bucket[0]] + rest
  }

  /** In a list without repeated keys, remove drops exactly the pair of the
      key and keeps the keys distinct. */
  lemma {:induction false} WithoutMembers<V>(bucket: seq<(string, V)>, key: string)
    requires KeysDistinct(bucket)
    ensures KeysDistinct(Without(bucket, key))
    ensures forall p :: p in Without(bucket, key) ==> p in bucket && p.0 != key
    ensures forall p :: p in bucket && p.0 != key ==> p in Without(bucket, key)
    decreases |bucket|
  {
    if bucket != [] {
      DistinctTail(bucket);
      if bucket[0].0 != key {
        var rest := Without(bucket[1..], key);
        WithoutMembers(bucket[1..], key);
        var r := [bucket[0]] + rest;
        forall a, b | 0 <= a < b < |r|
          ensures r[a].0 != r[b].0
        {
          if a == 0 {
            assert r[b] in rest;
            assert r[b] in bucket[1..];
          } else {
            assert r[a] == rest[a - 1] && r[b] == rest[b - 1];
          }
        }
      }
    }
  }

  /** Dropping the first pair keeps the keys distinct, and the first key
      occurs nowhere else. */
  lemma DistinctTail<V>(bucket: seq<(string, V)>)
    requires |bucket| > 0
    ensures KeysDistinct(bucket) ==> KeysDistinct(bucket[1..])
    ensures KeysDistinct(bucket) ==> forall p :: p in bucket[1..] ==> p.0 != bucket[0].0
  {
    if KeysDistinct(bucket) {
      forall a, b | 0 <= a < b < |bucket[1..]|
        ensures bucket[1..][a].0 != bucket[1..][b].0
      {
        assert bucket[a + 1].0 != bucket[b + 1].0;
      }
      forall p | p in bucket[1..]
        ensures p.0 != bucket[0].0
      {
        var k :| 0 <= k < |bucket[1..]| && bucket[1..][k] == p;
        assert bucket[k + 1] == p;
      }
    }
  }

  /** The buckets represent the map m under hash: there is at least one
      bucket, every bucket is well formed, and every entry of m is in its
      bucket. */
  ghost predicate Chained<V>(bs: seq<seq<(string, V)>>, hash: string -> nat, m: map<string, V>) {
    && |bs| > 0
    && (forall i {:trigger BucketOk(bs, i, hash, m)} :: 0 <= i < |bs| ==> BucketOk(bs, i, hash, m))
    && (forall k {:trigger EntryOk(bs, k, hash, m)} :: EntryOk(bs, k, hash, m))
  }

  /** Bucket i repeats no key, and each of its pairs sits in the bucket its
      key hashes to and agrees with m. */
  ghost predicate BucketOk<V>(bs: seq<seq<(string, V)>>, i: int, hash: string -> nat, m: map<string, V>)
    requires 0 <= i < |bs|
  {
    KeysDistinct(bs[i]) && forall j :: 0 <= j < |bs[i]| ==> InPlace(bs[i][j], i, |bs|, hash, m)
  }

  /** If m has k, its entry is in the bucket k hashes to. */
  ghost predicate EntryOk<V>(bs: seq<seq<(string, V)>>, k: string, hash: string -> nat, m: map<string, V>) {
    k in m ==> |bs| > 0 && (k, m[k]) in bs[hash(k) % |bs|]
  }

  /** The pair belongs in bucket i of n and agrees with m. */
  ghost predicate InPlace<V>(p: (string, V), i: nat, n: nat, hash: string -> nat, m: map<string, V>) {
    n > 0 && hash(p.0) % n == i && p.0 in m && m[p.0] == p.1
  }

  /** What Chained says, spelled out. */
  lemma ChainedOpen<V>(bs: seq<seq<(string, V)>>, hash: string -> nat, m: map<string, V>)
    requires Chained(bs, hash, m)
    ensures forall i :: 0 <= i < |bs| ==> KeysDistinct(bs[i])
    ensures forall i, j :: 0 <= i < |bs| && 0 <= j < |bs[i]| ==> InPlace(bs[i][j], i, |bs|, hash, m)
    ensures forall k :: k in m ==> (k, m[k]) in bs[hash(k) % |bs|]
  {
    forall i | 0 <= i < |bs|
      ensures KeysDistinct(bs[i])
    {
      assert BucketOk(bs, i, hash, m);
    }
    forall i, j | 0 <= i < |bs| && 0 <= j < |bs[i]|
      ensures InPlace(bs[i][j], i, |bs|, hash, m)
    {
      assert BucketOk(bs, i, hash, m);
    }
    forall k | k in m
      ensures (k, m[k]) in bs[hash(k) % |bs|]
    {
      assert EntryOk(bs, k, hash, m);
    }
  }

  /** Chained established from its conditions spelled out. */
  lemma ChainedClose<V>(bs: seq<seq<(string, V)>>, hash: string -> nat, m: map<string, V>)
    requires |bs| > 0
    requires forall i :: 0 <= i < |bs| ==> KeysDistinct(bs[i])
    requires forall i, j :: 0 <= i < |bs| && 0 <= j < |bs[i]| ==> InPlace(bs[i][j], i, |bs|, hash, m)
    requires forall k :: k in m ==> (k, m[k]) in bs[hash(k) % |bs|]
    ensures Chained(bs, hash, m)
  {
    forall i | 0 <= i < |bs|
      ensures BucketOk(bs, i, hash, m)
    {
    }
    forall k
      ensures EntryOk(bs, k, hash, m)
    {
    }
  }

  /** A pair held by a bucket of chained buckets is in place. */
  lemma ChainedPair<V>(bs: seq<seq<(string, V)>>, hash: string -> nat, m: map<string, V>, i: nat, p: (string, V))
    requires Chained(bs, hash, m) && i < |bs| && p in bs[i]
    ensures InPlace(p, i, |bs|, hash, m)
  {
    ChainedOpen(bs, hash, m);
    var j :| 0 <= j < |bs[i]| && bs[i][j] == p;
  }

  /** A fresh bucket array: n empty linked lists. */
  function FreshBuckets<V>(n: nat): (r: seq<seq<(string, V)>>)
    ensures |r| == n && forall i :: 0 <= i < n ==> r[i] == []
  {
    seq(n, _ => [])
  }

  /** Empty buckets represent the empty map. */
  lemma EmptyChained<V>(n: nat, hash: string -> nat)
    requires n > 0
    ensures Chained(FreshBuckets<V>(n), hash, map[])
  {
    ChainedClose(FreshBuckets<V>(n), hash, map[]);
  }

  /** get(key) and contains_key(key) only look at the bucket key hashes to;
      Find there gives the map's value, and nothing for an absent key. */
  lemma ChainedFind<V>(bs: seq<seq<(string, V)>>, hash: string -> nat, m: map<string, V>, key: string)
    requires Chained(bs, hash, m)
    ensures Find(bs[hash(key) % |bs|], key) == (if key in m then Some(m[key]) else None)
  {
    ChainedOpen(bs, hash, m);
    var bucket := bs[hash(key) % |bs|];
    if key in m {
      FindDistinct(bucket, key, m[key]);
    }
  }

  /** Replacing bucket i keeps the buckets chained when the new bucket has
      distinct keys, holds exactly the entries of the new map that hash to
      i, and the map is unchanged for keys of other buckets. */
  lemma ChainedUpdate<V>(bs: seq<seq<(string, V)>>, hash: string -> nat, m: map<string, V>,
                         i: nat, b: seq<(string, V)>, m': map<string, V>)
    requires Chained(bs, hash, m) && i < |bs|
    requires KeysDistinct(b)
    requires forall j :: 0 <= j < |b| ==> InPlace(b[j], i, |bs|, hash, m')
    requires forall k :: k in m' && hash(k) % |bs| == i ==> (k, m'[k]) in b
    requires forall k :: hash(k) % |bs| != i ==> (k in m' <==> k in m)
    requires forall k :: hash(k) % |bs| != i && k in m ==> m'[k] == m[k]
    ensures Chained(bs[i := b], hash, m')
  {
    ChainedOpen(bs, hash, m);
    var n, bs' := |bs|, bs[i := b];
    forall t, j | 0 <= t < n && 0 <= j < |bs'[t]|
      ensures InPlace(bs'[t][j], t, n, hash, m')
    {
      if t != i {
        assert InPlace(bs[t][j], t, n, hash, m);
      }
    }
    forall k | k in m'
      ensures (k, m'[k]) in bs'[hash(k) % n]
    {
      if hash(k) % n != i {
        assert (k, m[k]) in bs[hash(k) % n];
      }
    }
    ChainedClose(bs', hash, m');
  }

  /** put of a key already present: its bucket's pair gets the new value,
      and the buckets represent the updated map. */
  lemma ChainedReplace<V>(bs: seq<seq<(string, V)>>, hash: string -> nat, m: map<string, V>, key: string, value: V)
    requires Chained(bs, hash, m) && key in m
    ensures var i := hash(key) % |bs|;
            Chained(bs[i := Replaced(bs[i], key, value)], hash, m[key := value])
  {
    ChainedOpen(bs, hash, m);
    var n, i := |bs|, hash(key) % |bs|;
    var old_ := bs[i];
    var new_ := Replaced(old_, key, value);
    var m' := m[key := value];
    assert KeysDistinct(old_);
    forall a, b | 0 <= a < b < |new_|
      ensures new_[a].0 != new_[b].0
    {
      assert old_[a].0 != old_[b].0;
    }
    forall j | 0 <= j < |new_|
      ensures InPlace(new_[j], i, n, hash, m')
    {
      assert InPlace(old_[j], i, n, hash, m);
    }
    forall k | k in m' && hash(k) % n == i
      ensures (k, m'[k]) in new_
    {
      assert (k, m[k]) in old_;
      var j :| 0 <= j < |old_| && old_[j] == (k, m[k]);
      assert new_[j] == (k, m'[k]);
    }
    ChainedUpdate(bs, hash, m, i, new_, m');
  }

  /** put of a new key: the pair goes into its bucket at any position, and
      the buckets represent the map with one more entry. */
  lemma ChainedInsert<V>(bs: seq<seq<(string, V)>>, hash: string -> nat, m: map<string, V>, key: string, value: V, pos: nat)
    requires Chained(bs, hash, m) && key !in m && pos <= |bs[hash(key) % |bs|]|
    ensures var i := hash(key) % |bs|;
            Chained(bs[i := bs[i][..pos] + [(key, value)] + bs[i][pos..]], hash, m[key := value])
    ensures |m[key := value]| == |m| + 1
  {
    ChainedOpen(bs, hash, m);
    var n, i := |bs|, hash(key) % |bs|;
    var old_ := bs[i];
    var new_ := old_[..pos] + [(key, value)] + old_[pos..];
    var m' := m[key := value];
    InsertedBucket(old_, key, value, pos);
    forall j | 0 <= j < |old_|
      ensures InPlace(old_[j], i, n, hash, m) && old_[j].0 != key
    {
      assert InPlace(bs[i][j], i, n, hash, m);
    }
    assert KeysDistinct(old_);
    forall a, b | 0 <= a < b < |new_|
      ensures new_[a].0 != new_[b].0
    {
      if a != pos && b != pos {
        var a' := if a < pos then a else a - 1;
        var b' := if b < pos then b else b - 1;
        assert old_[a'].0 != old_[b'].0;
      }
    }
    forall j | 0 <= j < |new_|
      ensures InPlace(new_[j], i, n, hash, m')
    {
      if j < pos {
        assert InPlace(old_[j], i, n, hash, m);
      } else if j > pos {
        assert InPlace(old_[j - 1], i, n, hash, m);
      }
    }
    forall k | k in m' && hash(k) % n == i
      ensures (k, m'[k]) in new_
    {
      if k != key {
        assert (k, m[k]) in old_;
      }
    }
    ChainedUpdate(bs, hash, m, i, new_, m');
    MapAddSize(m, key, value);
  }

  /** Where the new pair of an insertion at pos sits. */
  lemma InsertedBucket<V>(old_: seq<(string, V)>, key: string, value: V, pos: nat)
    requires pos <= |old_|
    ensures var new_ := old_[..pos] + [(key, value)] + old_[pos..];
            && |new_| == |old_| + 1
            && (forall j :: 0 <= j < |new_| ==>
                  new_[j] == (if j < pos then old_[j] else if j == pos then (key, value) else old_[j - 1]))
            && forall p :: p in old_ ==> p in new_
  {
    assert old_ == old_[..pos] + old_[pos..];
  }

  /** remove of a present key: its pair leaves its bucket, and the buckets
      represent the map without the key. */
  lemma ChainedRemove<V>(bs: seq<seq<(string, V)>>, hash: string -> nat, m: map<string, V>, key: string)
    requires Chained(bs, hash, m) && key in m
    ensures var i := hash(key) % |bs|;
            Chained(bs[i := Without(bs[i], key)], hash, m - {key})
    ensures |m - {key}| == |m| - 1
  {
    ChainedOpen(bs, hash, m);
    var i := hash(key) % |bs|;
    RemovedBucket(bs, hash, m, key);
    ChainedUpdate(bs, hash, m, i, Without(bs[i], key), m - {key});
    MapRemoveSize(m, key);
  }

  lemma MapRemoveSize<V>(m: map<string, V>, key: string)
    requires key in m
    ensures |m - {key}| == |m| - 1
  {
    assert m.Keys == (m - {key}).Keys + {key};
  }

  lemma MapAddSize<V>(m: map<string, V>, key: string, value: V)
    requires key !in m
    ensures |m[key := value]| == |m| + 1
  {
    assert m[key := value].Keys == m.Keys + {key};
    assert m.Keys * {key} == {};
  }

  /** The bucket remove leaves behind holds exactly the entries of the
      smaller map that hash to it. */
  lemma RemovedBucket<V>(bs: seq<seq<(string, V)>>, hash: string -> nat, m: map<string, V>, key: string)
    requires Chained(bs, hash, m) && key in m
    ensures var i := hash(key) % |bs|;
            var new_ := Without(bs[i], key);
            && KeysDistinct(new_)
            && (forall j :: 0 <= j < |new_| ==> InPlace(new_[j], i, |bs|, hash, m - {key}))
            && (forall k :: k in m - {key} && hash(k) % |bs| == i ==> (k, (m - {key})[k]) in new_)
  {
    ChainedOpen(bs, hash, m);
    var n, i := |bs|, hash(key) % |bs|;
    var old_ := bs[i];
    var new_ := Without(old_, key);
    assert KeysDistinct(old_);
    WithoutMembers(old_, key);
    forall j | 0 <= j < |new_|
      ensures InPlace(new_[j], i, n, hash, m - {key})
    {
      var p := new_[j];
      assert p in new_;
      assert p in old_;
      ChainedPair(bs, hash, m, i, p);
    }
    forall k | k in m - {key} && hash(k) % n == i
      ensures (k, m[k]) in new_
    {
      assert (k, m[k]) in old_;
      var j :| 0 <= j < |old_| && old_[j] == (k, m[k]);
    }
  }

  // ---------------------------------------------------------------------
  // get_keys_and_values and empty_buckets

  /** The pairs of all buckets, bucket 0 first, each bucket in its own
      order. */
  function Flatten<V>(bs: seq<seq<(string, V)>>): (r: seq<(string, V)>)
  {
    if bs == [] then [] else Flatten(bs[..|bs| - 1]) + bs[|bs| - 1]
  }

  /** A pair is listed exactly when some bucket holds it. */
  lemma {:induction false} FlattenMember<V>(bs: seq<seq<(string, V)>>, p: (string, V))
    ensures p in Flatten(bs) <==> exists i :: 0 <= i < |bs| && p in bs[i]
    decreases |bs|
  {
    if bs != [] {
      var n := |bs| - 1;
      FlattenMember(bs[..n], p);
      assert Flatten(bs) == Flatten(bs[..n]) + bs[n];
      if p in Flatten(bs[..n]) {
        var i :| 0 <= i < n && p in bs[..n][i];
        assert p in bs[i];
      }
      if exists i :: 0 <= i < |bs| && p in bs[i] {
        var i :| 0 <= i < |bs| && p in bs[i];
        if i < n {
          assert p in bs[..n][i];
        }
      }
    }
  }

  /** The map after putting each pair of ps in turn into m, so a later
      pair for a key wins. From the empty map, the map a list of pairs
      denotes. */
  function PutAll<V>(m: map<string, V>, ps: seq<(string, V)>): (r: map<string, V>)
    ensures |r| <= |m| + |ps|
  {
    if ps == [] then m
    else
      var front := PutAll(m, ps[..|ps| - 1]);
      var last := ps[|ps| - 1];
      assert front[last.0 := last.1].Keys <= front.Keys + {last.0};
      CardinalityGrowth(front.Keys, last.0);
      front[last.0 := last.1]
  }

  lemma CardinalityGrowth(s: set<string>, k: string)
    ensures |s + {k}| <= |s| + 1
  {
    if k in s {
      assert s + {k} == s;
    } else {
      assert s * {k} == {};
    }
  }

  /** Without repeated keys the denoted map has one entry per pair, each
      pair's value under its key. */
  lemma {:induction false} PutAllDistinct<V>(ps: seq<(string, V)>)
    requires KeysDistinct(ps)
    ensures |PutAll(map[], ps)| == |ps|
    ensures forall p :: p in ps ==> p.0 in PutAll(map[], ps) && PutAll(map[], ps)[p.0] == p.1
    decreases |ps|
  {
    if ps != [] {
      var n := |ps| - 1;
      var front := ps[..n];
      var last := ps[n];
      assert KeysDistinct(front) by {
        forall a, b | 0 <= a < b < |front|
          ensures front[a].0 != front[b].0
        {
          assert ps[a].0 != ps[b].0;
        }
      }
      PutAllDistinct(front);
      var m := PutAll(map[], front);
      PutAllSource(front);
      assert last.0 !in m;
      MapAddSize(m, last.0, last.1);
      forall p | p in ps
        ensures p.0 in PutAll(map[], ps) && PutAll(map[], ps)[p.0] == p.1
      {
        if p != last {
          var j :| 0 <= j < |ps| && ps[j] == p;
          assert j < n;
          assert p in front;
          assert ps[j].0 != ps[n].0;
        }
      }
    }
  }

  /** Every entry of the denoted map comes from one of the pairs. */
  lemma {:induction false} PutAllSource<V>(ps: seq<(string, V)>)
    ensures forall k :: k in PutAll(map[], ps) ==> (k, PutAll(map[], ps)[k]) in ps
    decreases |ps|
  {
    if ps != [] {
      var front := ps[..|ps| - 1];
      PutAllSource(front);
      forall k | k in PutAll(map[], ps)
        ensures (k, PutAll(map[], ps)[k]) in ps
      {
        if k != ps[|ps| - 1].0 {
          assert (k, PutAll(map[], front)[k]) in front;
        }
      }
    }
  }

  /** Chained buckets list every entry of the map exactly once: no key
      repeats across the buckets, and the listed pairs denote the map. */
  lemma ChainedFlatten<V>(bs: seq<seq<(string, V)>>, hash: string -> nat, m: map<string, V>)
    requires Chained(bs, hash, m)
    ensures KeysDistinct(Flatten(bs))
    ensures forall p :: p in Flatten(bs) <==> p.0 in m && m[p.0] == p.1
    ensures PutAll(map[], Flatten(bs)) == m
    ensures |Flatten(bs)| == |m|
  {
    ChainedOpen(bs, hash, m);
    FlattenDistinct(bs, hash, m, |bs|);
    assert bs[..|bs|] == bs;
    var ps := Flatten(bs);
    forall p: (string, V)
      ensures p in ps <==> p.0 in m && m[p.0] == p.1
    {
      FlattenMember(bs, p);
      if p.0 in m && m[p.0] == p.1 {
        assert p in bs[hash(p.0) % |bs|];
      }
    }
    PutAllDistinct(ps);
    PutAllSource(ps);
    var pm := PutAll(map[], ps);
    forall k | k in pm
      ensures k in m && m[k] == pm[k]
    {
      assert (k, pm[k]) in ps;
    }
    forall k | k in m
      ensures k in pm
    {
      assert (k, m[k]) in ps;
    }
    MapsEqual(pm, m);
  }

  lemma MapsEqual<V>(a: map<string, V>, b: map<string, V>)
    requires forall k :: k in a <==> k in b
    requires forall k :: k in a ==> a[k] == b[k]
    ensures a == b
  {
  }

  /** The first n buckets together repeat no key. */
  lemma {:induction false} FlattenDistinct<V>(bs: seq<seq<(string, V)>>, hash: string -> nat, m: map<string, V>, n: nat)
    requires Chained(bs, hash, m) && n <= |bs|
    ensures KeysDistinct(Flatten(bs[..n]))
    ensures forall p :: p in Flatten(bs[..n]) ==> hash(p.0) % |bs| < n
    decreases n
  {
    ChainedOpen(bs, hash, m);
    if n > 0 {
      FlattenDistinct(bs, hash, m, n - 1);
      var front := Flatten(bs[..n - 1]);
      var b := bs[n - 1];
      assert bs[..n][..n - 1] == bs[..n - 1];
      assert Flatten(bs[..n]) == front + b;
      var r := front + b;
      forall a, c | 0 <= a < c < |r|
        ensures r[a].0 != r[c].0
      {
        if c < |front| {
          assert r[a] == front[a] && r[c] == front[c];
        } else if a >= |front| {
          assert r[a] == b[a - |front|] && r[c] == b[c - |front|];
        } else {
          assert r[a] in front && r[c] in b;
        }
      }
      forall p | p in r
        ensures hash(p.0) % |bs| < n
      {
        if p !in front {
          assert p in b;
        }
      }
    }
  }

  /** How many buckets are empty. */
  function EmptyCount<V>(bs: seq<seq<(string, V)>>): (r: nat)
    ensures r <= |bs|
  {
    if bs == [] then 0
    else EmptyCount(bs[..|bs| - 1]) + (if bs[|bs| - 1] == [] then 1 else 0)
  }

  /** Every non-empty bucket holds at least one listed pair. */
  lemma {:induction false} EmptyCountBound<V>(bs: seq<seq<(string, V)>>)
    ensures |bs| - EmptyCount(bs) <= |Flatten(bs)|
    decreases |bs|
  {
    if bs != [] {
      EmptyCountBound(bs[..|bs| - 1]);
    }
  }

  /** A fresh bucket array has all its buckets empty and lists nothing. */
  lemma {:induction false} EmptyBucketsCount<V>(n: nat)
    ensures EmptyCount(FreshBuckets<V>(n)) == n
    ensures Flatten(FreshBuckets<V>(n)) == []
  {
    if n > 0 {
      EmptyBucketsCount<V>(n - 1);
      assert FreshBuckets<V>(n)[..n - 1] == FreshBuckets<V>(n - 1);
    }
  }
}
