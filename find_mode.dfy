/** find_mode: the most frequent values of a sequence and their
    frequency, counted in a single pass with a separate-chaining map. */
module FindMode {
  import opened Common
  import opened SeparateChaining

  // ---------------------------------------------------------------------
  // The specification

  /** How often x occurs in s. */
  function Count(s: seq<string>, x: string): (r: nat)
    ensures r <= |s|
  {
    if s == [] then 0 else Count(s[..|s| - 1], x) + (if s[|s| - 1] == x then 1 else 0)
  }

  /** The largest number of occurrences of any value of s, 0 when s is
      empty. */
  function MaxCount(s: seq<string>): (r: nat)
    ensures r <= |s|
  {
    if s == [] then 0
    else
      var front, c := MaxCount(s[..|s| - 1]), Count(s, s[|s| - 1]);
      if front < c then c else front
  }

  /** The values of s in the order in which their counts reach f: the value
      at each position whose occurrence there is its f-th. */
  function Reaching(s: seq<string>, f: nat): seq<string>
  {
    if s == [] then []
    else Reaching(s[..|s| - 1], f) + (if Count(s, s[|s| - 1]) == f then [s[|s| - 1]] else [])
  }

  /** The counts of the values of s, as the counting map holds them. */
  ghost function Counts(s: seq<string>): map<string, nat>
  {
    if s == [] then map[] else Counts(s[..|s| - 1])[s[|s| - 1] := Count(s, s[|s| - 1])]
  }

  // ---------------------------------------------------------------------
  // Properties of the specification

  /** A value occurs in s exactly when its count is positive. */
  lemma {:induction false} CountPositive(s: seq<string>, x: string)
    ensures Count(s, x) > 0 <==> x in s
    decreases |s|
  {
    if s != [] {
      var front := s[..|s| - 1];
      CountPositive(front, x);
      assert s == front + [s[|s| - 1]];
    }
  }

  /** No value occurs more often than MaxCount says. */
  lemma {:induction false} CountAtMostMax(s: seq<string>, x: string)
    ensures Count(s, x) <= MaxCount(s)
    decreases |s|
  {
    if s != [] {
      CountAtMostMax(s[..|s| - 1], x);
    }
  }

  /** Some value of a non-empty sequence occurs MaxCount times. */
  lemma {:induction false} MaxCountAttained(s: seq<string>)
    requires s != []
    ensures exists x :: x in s && Count(s, x) == MaxCount(s)
    decreases |s|
  {
    var front, last := s[..|s| - 1], s[|s| - 1];
    if front == [] || MaxCount(front) < Count(s, last) {
      assert last in s;
    } else {
      MaxCountAttained(front);
      var x :| x in front && Count(front, x) == MaxCount(front);
      CountAtMostMax(s, x);
      CountAtMostMax(front, last);
      assert x in s;
    }
  }

  /** The counting map has exactly the values of s, each with its count. */
  lemma {:induction false} CountsLookup(s: seq<string>, x: string)
    ensures x in Counts(s) <==> x in s
    ensures x in Counts(s) ==> Counts(s)[x] == Count(s, x)
    decreases |s|
  {
    if s != [] {
      var front, last := s[..|s| - 1], s[|s| - 1];
      CountsLookup(front, x);
      assert s == front + [last];
    }
  }

  /** A value is listed by Reaching(s, f), for f at least 1, exactly when it
      occurs at least f times. */
  lemma {:induction false} ReachingMembers(s: seq<string>, f: nat, x: string)
    requires f >= 1
    ensures x in Reaching(s, f) <==> Count(s, x) >= f
    decreases |s|
  {
    if s != [] {
      var front, last := s[..|s| - 1], s[|s| - 1];
      ReachingMembers(front, f, x);
    }
  }

  /** Reaching(s, f), for f at least 1, lists no value twice: a count passes
      f only once. */
  lemma {:induction false} ReachingDistinct(s: seq<string>, f: nat)
    requires f >= 1
    ensures forall a, b :: 0 <= a < b < |Reaching(s, f)| ==> Reaching(s, f)[a] != Reaching(s, f)[b]
    decreases |s|
  {
    if s != [] {
      var front, last := s[..|s| - 1], s[|s| - 1];
      ReachingDistinct(front, f);
      if Count(s, last) == f {
        ReachingMembers(front, f, last);
        assert last !in Reaching(front, f);
      }
    }
  }

  /** No value reaches a count above the maximum. */
  lemma {:induction false} ReachingAboveMax(s: seq<string>, f: nat)
    requires f > MaxCount(s)
    ensures Reaching(s, f) == []
    decreases |s|
  {
    if s != [] {
      ReachingAboveMax(s[..|s| - 1], f);
    }
  }

  /** The modes are exactly the values of s that occur MaxCount times, each
      listed once. */
  lemma ModesExact(s: seq<string>, x: string)
    ensures x in Reaching(s, MaxCount(s)) <==> x in s && Count(s, x) == MaxCount(s)
    ensures forall a, b :: 0 <= a < b < |Reaching(s, MaxCount(s))| ==>
              Reaching(s, MaxCount(s))[a] != Reaching(s, MaxCount(s))[b]
  {
    CountAtMostMax(s, x);
    CountPositive(s, x);
    if s == [] {
      assert Reaching(s, 0) == [];
    } else {
      MaxCountAttained(s);
      var y :| y in s && Count(s, y) == MaxCount(s);
      CountPositive(s, y);
      ReachingMembers(s, MaxCount(s), x);
      ReachingDistinct(s, MaxCount(s));
    }
  }

  // ---------------------------------------------------------------------
  // The single pass

  /** Appending x to s raises the maximum to the new count of x when that is
      larger. */
  lemma SnocMax(s: seq<string>, x: string)
    ensures MaxCount(s + [x]) == if MaxCount(s) < Count(s + [x], x) then Count(s + [x], x) else MaxCount(s)
  {
    assert (s + [x])[..|s|] == s;
  }

  /** Appending x to s lists x among the values reaching f when its new count
      is f. */
  lemma SnocReaching(s: seq<string>, x: string, f: nat)
    ensures Reaching(s + [x], f) == Reaching(s, f) + (if Count(s + [x], x) == f then [x] else [])
  {
    assert (s + [x])[..|s|] == s;
  }

  /** One step of the pass over s[i]: its count grows by one and the
      counting map follows. */
  lemma CountStep(s: seq<string>, i: nat)
    requires i < |s|
    ensures Count(s[..i + 1], s[i]) == Count(s[..i], s[i]) + 1
    ensures Counts(s[..i + 1]) == Counts(s[..i])[s[i] := Count(s[..i + 1], s[i])]
  {
    assert s[..i + 1][..i] == s[..i];
  }

  /** One step of the pass over s[i], with c its new count: the maximum and
      the modes are replaced when c passes the maximum, extended when it
      meets it, and kept otherwise. */
  lemma ModeStep(s: seq<string>, i: nat, c: nat, frequency: nat, modes: seq<string>,
                 frequency': nat, modes': seq<string>)
    requires i < |s| && c == Count(s[..i + 1], s[i])
    requires frequency == MaxCount(s[..i]) && modes == Reaching(s[..i], frequency)
    requires frequency' == if c > frequency then c else frequency
    requires modes' == if c > frequency then [s[i]] else if c == frequency then modes + [s[i]] else modes
    ensures frequency' == MaxCount(s[..i + 1]) && modes' == Reaching(s[..i + 1], frequency')
  {
    assert s[..i + 1] == s[..i] + [s[i]];
    SnocMax(s[..i], s[i]);
    SnocReaching(s[..i], s[i], frequency');
    if c > frequency {
      ReachingAboveMax(s[..i], c);
    }
  }

  /** The body of the pass at da[i]: look its count up in the map, store
      it increased by one (1 when da[i] is new), and replace or extend the
      modes. */
  method Visit(counts: HashMap<nat>, da: seq<string>, i: nat, frequency: nat, modes: seq<string>)
    returns (frequency': nat, modes': seq<string>)
    requires i < |da| && counts.Valid() && counts.Contents == Counts(da[..i])
    requires frequency == MaxCount(da[..i]) && modes == Reaching(da[..i], frequency)
    modifies counts, counts.buckets
    ensures counts.Valid() && counts.Contents == Counts(da[..i + 1])
    ensures counts.buckets == old(counts.buckets) || fresh(counts.buckets)
    ensures frequency' == MaxCount(da[..i + 1]) && modes' == Reaching(da[..i + 1], frequency')
  {
    var value := da[i];
    CountsLookup(da[..i], value);
    CountPositive(da[..i], value);
    CountStep(da, i);
    var current := counts.Get(value);
    var count;
    if current.None? {
      counts.Put(value, 1);
      count := 1;
    } else {
      counts.Put(value, current.value + 1);
      count := current.value + 1;
    }
    frequency', modes' := frequency, modes;
    if count > frequency {
      frequency', modes' := count, [value];
    } else if count == frequency {
      modes' := modes + [value];
    }
    ModeStep(da, i, count, frequency, modes, frequency', modes');
  }

  /** find_mode(da): the values of da reaching the largest count, in the
      order they reach it, and that count. The counts live in a chaining
      map built with the given hash function and capacity 11. */
  method FindMode(da: seq<string>, hash: string -> nat) returns (modes: seq<string>, frequency: nat)
    ensures frequency == MaxCount(da)
    ensures modes == Reaching(da, frequency)
  {
    var counts := new HashMap<nat>(11, hash);
    frequency := 0;
    modes := [];
    var i := 0;
    while i < |da|
      invariant 0 <= i <= |da|
      invariant counts.Valid() && fresh(counts.buckets)
      invariant counts.Contents == Counts(da[..i])
      invariant frequency == MaxCount(da[..i])
      invariant modes == Reaching(da[..i], frequency)
    {
      frequency, modes := Visit(counts, da, i, frequency, modes);
      i := i + 1;
    }
    assert da[..i] == da;
  }

  // ---------------------------------------------------------------------
  // Examples from the source

  /** The first example of find_mode: "apple" alone occurs twice. */
  lemma AppleExample()
    ensures MaxCount(["apple", "apple", "grape", "melon", "peach"]) == 2
    ensures Reaching(["apple", "apple", "grape", "melon", "peach"], 2) == ["apple"]
  {
    assert ["apple", "apple", "grape", "melon", "peach"][..4] == ["apple", "apple", "grape", "melon"];
    assert ["apple", "apple", "grape", "melon"][..3] == ["apple", "apple", "grape"];
    assert ["apple", "apple", "grape"][..2] == ["apple", "apple"];
    assert ["apple", "apple"][..1] == ["apple"];
    assert ["apple"][..0] == [];
  }

  /** Two values tie at three occurrences; both are modes, "Mint" first
      because it reaches three first. */
  lemma DistroExample()
    ensures MaxCount(["Arch", "Manjaro", "Manjaro", "Mint", "Mint", "Mint", "Ubuntu", "Ubuntu", "Ubuntu"]) == 3
    ensures Reaching(["Arch", "Manjaro", "Manjaro", "Mint", "Mint", "Mint", "Ubuntu", "Ubuntu", "Ubuntu"], 3) == ["Mint", "Ubuntu"]
  {
    assert ["Arch", "Manjaro", "Manjaro", "Mint", "Mint", "Mint", "Ubuntu", "Ubuntu", "Ubuntu"][..8] == ["Arch", "Manjaro", "Manjaro", "Mint", "Mint", "Mint", "Ubuntu", "Ubuntu"];
    assert ["Arch", "Manjaro", "Manjaro", "Mint", "Mint", "Mint", "Ubuntu", "Ubuntu"][..7] == ["Arch", "Manjaro", "Manjaro", "Mint", "Mint", "Mint", "Ubuntu"];
    assert ["Arch", "Manjaro", "Manjaro", "Mint", "Mint", "Mint", "Ubuntu"][..6] == ["Arch", "Manjaro", "Manjaro", "Mint", "Mint", "Mint"];
    assert ["Arch", "Manjaro", "Manjaro", "Mint", "Mint", "Mint"][..5] == ["Arch", "Manjaro", "Manjaro", "Mint", "Mint"];
    assert ["Arch", "Manjaro", "Manjaro", "Mint", "Mint"][..4] == ["Arch", "Manjaro", "Manjaro", "Mint"];
    assert ["Arch", "Manjaro", "Manjaro", "Mint"][..3] == ["Arch", "Manjaro", "Manjaro"];
    assert ["Arch", "Manjaro", "Manjaro"][..2] == ["Arch", "Manjaro"];
    assert ["Arch", "Manjaro"][..1] == ["Arch"];
    assert ["Arch"][..0] == [];
  }

  /** Every value occurs once, so every value is a mode, in input order. */
  lemma AllOnceExample()
    ensures MaxCount(["one", "two", "three", "four", "five"]) == 1
    ensures Reaching(["one", "two", "three", "four", "five"], 1) == ["one", "two", "three", "four", "five"]
  {
    assert ["one", "two", "three", "four", "five"][..4] == ["one", "two", "three", "four"];
    assert ["one", "two", "three", "four"][..3] == ["one", "two", "three"];
    assert ["one", "two", "three"][..2] == ["one", "two"];
    assert ["one", "two"][..1] == ["one"];
    assert ["one"][..0] == [];
  }

  /** The first five values of the digits example. */
  lemma DigitsFirstFive()
    ensures var s := ["2", "4", "2", "6", "8"];
            && Count(s, "2") == 2 && Count(s, "4") == 1 && Count(s, "1") == 0
            && Count(s, "3") == 0 && Count(s, "5") == 0 && Count(s, "7") == 0
            && MaxCount(s) == 2 && Reaching(s, 3) == []
  {
    assert ["2", "4", "2", "6", "8"][..4] == ["2", "4", "2", "6"];
    assert ["2", "4", "2", "6"][..3] == ["2", "4", "2"];
    assert ["2", "4", "2"][..2] == ["2", "4"];
    assert ["2", "4"][..1] == ["2"];
    assert ["2"][..0] == [];
  }

  /** The first ten values of the digits example: "4" has reached three. */
  lemma DigitsFirstTen()
    ensures var s := ["2", "4", "2", "6", "8", "4", "1", "3", "4", "5"];
            && Count(s, "2") == 2 && Count(s, "3") == 1 && Count(s, "7") == 0
            && MaxCount(s) == 3 && Reaching(s, 3) == ["4"]
  {
    DigitsFirstFive();
    assert ["2", "4", "2", "6", "8", "4", "1", "3", "4", "5"][..9] == ["2", "4", "2", "6", "8", "4", "1", "3", "4"];
    assert ["2", "4", "2", "6", "8", "4", "1", "3", "4"][..8] == ["2", "4", "2", "6", "8", "4", "1", "3"];
    assert ["2", "4", "2", "6", "8", "4", "1", "3"][..7] == ["2", "4", "2", "6", "8", "4", "1"];
    assert ["2", "4", "2", "6", "8", "4", "1"][..6] == ["2", "4", "2", "6", "8", "4"];
    assert ["2", "4", "2", "6", "8", "4"][..5] == ["2", "4", "2", "6", "8"];
  }

  /** Modes are listed in the order their counts reach the maximum, not in
      the order of first occurrence: "2", "4" and "3" first occur in that
      order but reach three occurrences as "4", "3", "2". */
  lemma DigitsExample()
    ensures MaxCount(["2", "4", "2", "6", "8", "4", "1", "3", "4", "5", "7", "3", "3", "2"]) == 3
    ensures Reaching(["2", "4", "2", "6", "8", "4", "1", "3", "4", "5", "7", "3", "3", "2"], 3) == ["4", "3", "2"]
  {
    DigitsFirstTen();
    assert ["2", "4", "2", "6", "8", "4", "1", "3", "4", "5", "7", "3", "3", "2"][..13] == ["2", "4", "2", "6", "8", "4", "1", "3", "4", "5", "7", "3", "3"];
    assert ["2", "4", "2", "6", "8", "4", "1", "3", "4", "5", "7", "3", "3"][..12] == ["2", "4", "2", "6", "8", "4", "1", "3", "4", "5", "7", "3"];
    assert ["2", "4", "2", "6", "8", "4", "1", "3", "4", "5", "7", "3"][..11] == ["2", "4", "2", "6", "8", "4", "1", "3", "4", "5", "7"];
    assert ["2", "4", "2", "6", "8", "4", "1", "3", "4", "5", "7"][..10] == ["2", "4", "2", "6", "8", "4", "1", "3", "4", "5"];
  }
}
