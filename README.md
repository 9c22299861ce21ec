# Verified model of two string-keyed hash maps

This project models a course-assignment hash map library in Dafny. There are two independent maps from string keys to values, plus a small client.

- **Open addressing (`hash_map_oa.py`).** A prime-sized array of slots. Each slot is empty, holds a live entry, or holds a tombstoned entry that still keeps its key and value. `put`, `get`, `contains_key` and `remove` walk the quadratic probe sequence `(h(key) % capacity + j*j) % capacity` for `j` in `0 .. capacity-1`. Each stops at a slot chosen by its own rule:
  - `put` stops at the first empty slot, the first tombstone, or the first live slot with the key.
  - `get` stops at the first empty slot or the first slot with the key, live or tombstoned.
  - `remove` stops at the first empty slot or the first live slot with the key.

  Before probing, `put` doubles the capacity (re-primed) when the load factor is at least one half. `resize_table` re-puts the live entries in slot order, so `put` and `resize_table` are mutually recursive.
- **Separate chaining (`hash_map_sc.py`).** A prime-sized array of buckets, each a list of `(key, value)` pairs. `put` grows the table when the load factor is at least 1.
- **`find_mode`.** Counts the values of an array with a chaining map. It returns the values of highest frequency, in the order they reached it, together with that frequency.

Both maps are Dafny classes whose fields the methods update in place:
- `buckets`, an `array`;
- `capacity` and `size`;
- `hash`, a constant field of type `string -> nat` that stands for the hash function.

Each method is proved against a specification.

- **Open-addressing methods.** The new slot sequence is tied to a pure function of the old one:
  - `Placed`, `Lookup` and `Removed` (module `OpenAddressingTable`) for one probe loop;
  - `Inserted` and `Resized` for `put` and `resize_table`, including the nested growth.

  The lemmas of `OpenAddressingProofs` prove what those functions mean:
  - the probe sequence modulo a prime visits `(p+1)/2` distinct slots, so `put` always lands under the growth policy;
  - `get` finds what `put` stored;
  - `resize_table` leaves a table without tombstones that holds one entry per live key, with the value of its last live copy in slot order;
  - the size after `resize_table` is the number of distinct live keys, and on a well-formed table (no tombstones, every live entry in the slot where `get`'s probe loop for its key stops, as `resize_table` leaves it) `put` adds one to the size exactly when the key was absent;
  - the iterator yields a prefix of `get_keys_and_values`.
- **Separate-chaining class.** It keeps a ghost `Contents` dictionary that the buckets represent (`ChainingTable.Chained`). Every method states its effect on `Contents`, on `size` and on the buckets.

Module `Primes` models the shared helpers `_is_prime` and `_next_prime`, and the re-priming step of `resize_table`. Module `FindMode` specifies `find_mode` by occurrence counts.

Behaviours of the code a reader may not expect, which the model keeps as written:
- **`_next_prime`** never returns 2: it maps 0, 1 and 2 to 3, although its docstring speaks of the closest prime. `resize_table` does keep a request of 2, because 2 passes `_is_prime`.
- **Open-addressing `put`** takes the first tombstone it meets. It does not look further along for a live copy of the key, so a key can have two live copies (`OpenAddressingScenarios.TombstoneTrap`). "No two live entries share a key" is therefore not an invariant. "`size` is the number of live slots" is one. A later `resize_table` keeps only the last copy, so the size drops (`OpenAddressingScenarios.TrapResize`). After `remove(k)` hides the remaining copy from `get`, a `put` of an unrelated key can take the tombstone in front of it, and `get(k)` then finds the removed key again (`OpenAddressingScenarios.TrapPutRevives`).
- **Open-addressing `resize_table`** does not keep the load at or below one half. It sets the capacity to the re-primed request, so three live keys and `resize_table(5)` leave capacity 5 and load 3/5 (`OpenAddressingScenarios.ResizeAboveHalf`). The demo at hash_map_oa.py:313-317 treats a load above 0.5 after `resize_table` as a mistake. The capacity only ends above the re-primed request when twice the size exceeds that request plus one, and then a re-put grows the table.
- **The iterator** (hash_map_oa.py:259-270) raises `StopIteration` at the first empty or tombstoned slot, so a `for` loop over the map can end before the last live entry (`OpenAddressingProofs.WalkStopsEarly`).
- **Separate-chaining `put`** inserts a new pair through the list's `insert`. Where it puts the pair is not visible in these files, so the model leaves the position open.

## Model

| member | source | states |
|---|---|---|
| Primes.IsPrime | hash_map_oa.py:54-71 | for every n ≥ 0 the trial-division loop answers exactly whether n is prime |
| Primes.NoSmallFactorPrime | hash_map_oa.py:65-71 | an odd n ≥ 5 with no odd factor below some f with f * f > n is prime, which is what the loop's exit means |
| Primes.EvenNotPrime | hash_map_oa.py:62-63 | an even number of at least 4 is not prime |
| Primes.NextPrime | hash_map_oa.py:40-51 | the result is an odd prime at least n, and no odd number between n and it is prime, so it is the least odd prime at least n |
| Primes.NextPrimeOfSmall | hash_map_oa.py:45-51 | 0, 1 and 2 are all sized up to 3; 2 itself is never returned |
| Primes.OddPrimeAtLeast | hash_map_oa.py:48-49 | an odd prime at least n always exists, so the search terminates |
| Primes.LeastOddPrimeUnique | hash_map_oa.py:40-51 | an odd prime p ≥ n with no odd prime in between is the search's answer |
| Primes.ResizeCapacity | hash_map_oa.py:127-128 | the capacity resize_table settles on is the request itself when it is prime, else the next odd prime; always a prime at least the request |
| Primes.PrimeCapacityKeepsPrimes | hash_map_oa.py:127-128 | the re-priming step leaves n unchanged exactly when n is prime, 2 included |
| OpenAddressingTable.Probe | hash_map_oa.py:98-100 | every probe index lies inside the table |
| OpenAddressingTable.FirstStop | hash_map_oa.py:99-110 | the probe step returned is one where the loop stops and no earlier step stops; none means no step of the loop stops |
| OpenAddressingTable.LiveCount | hash_map_oa.py:105 | the number of live slots never exceeds the capacity |
| OpenAddressingTable.LiveCountUpdate | hash_map_oa.py:103-110 | overwriting one slot changes the live count by exactly the change at that slot |
| OpenAddressingTable.EmptyTable | hash_map_oa.py:130-134 | a fresh table has the requested length, every slot empty, no live slot |
| OpenAddressingTable.PlacedEffect | hash_map_oa.py:98-110 | put's probe loop writes Live(key, value) into the slot where it stops (a live copy of key keeps its size, an empty or tombstoned slot adds one); no other slot changes, and if the loop never stops nothing changes |
| OpenAddressingTable.Lookup | hash_map_oa.py:158-175 | a value get returns is stored in some live slot under the key |
| OpenAddressingTable.RemovedEffect | hash_map_oa.py:196-212 | remove tombstones the live copy of key where its loop stops, keeping its key and value, and lowers the live count by one; otherwise nothing changes |
| OpenAddressingTable.LivePairs | hash_map_oa.py:214-223 | get_keys_and_values has exactly as many pairs as there are live slots |
| OpenAddressingTable.Grown | hash_map_oa.py:94-95 | below half load the table is untouched; at half load or more it becomes a table of capacity exactly _next_prime(2 * capacity) (the re-puts never grow it again) with no more live slots |
| OpenAddressingTable.Inserted | hash_map_oa.py:89-110 | put keeps the capacity below half load and sets it to exactly _next_prime(2 * capacity) at half load or more; it adds at most one live slot and keeps the capacity prime |
| OpenAddressingTable.Resized | hash_map_oa.py:119-142 | a request below the size changes nothing; otherwise the capacity becomes a prime at least the request, exactly the re-primed request whenever twice the size is at most that capacity plus one, and no live entry is gained |
| OpenAddressingTable.Reinserted | hash_map_oa.py:139-142 | the re-insertion loop never shrinks the table, keeps its capacity when the live entries present and still to come fill at most half of it (rounded up), adds no more live slots than it re-puts and keeps the capacity prime |
| OpenAddressingProofs.ProbesDistinct | hash_map_oa.py:99-100 | modulo a prime p, two different probe steps below p/2 land on different slots |
| OpenAddressingProofs.ProbeSetSize | hash_map_oa.py:99-100 | the first h ≤ (p+1)/2 probe steps visit h distinct slots |
| OpenAddressingProofs.PutLands | hash_map_oa.py:98-106 | on a prime table under half load, put's probe loop always stops, so put never silently drops the entry |
| OpenAddressingProofs.GrownRoom | hash_map_oa.py:94-95 | after the growth check the table is prime and under half load |
| OpenAddressingProofs.FirstStopPutGet | hash_map_oa.py:103-175 | without tombstones, put's loop stops exactly where get's does |
| OpenAddressingProofs.InsertedThenLookup | hash_map_oa.py:89-175 | after put(k, v), get(k) returns v, on any prime table with tombstones and duplicates included |
| OpenAddressingProofs.InsertedRemovedLookup | hash_map_oa.py:196-212 | after put(k, v) then remove(k), get(k) returns nothing and one live entry fewer is left than after the put |
| OpenAddressingProofs.FirstStopAgree | hash_map_oa.py:99-110 | a probe loop run on two tables whose slots stop it alike stops at the same step |
| OpenAddressingProofs.RemovedOtherKeys | hash_map_oa.py:196-212 | on any table, remove(k) leaves what get returns for every other key unchanged |
| OpenAddressingProofs.LookupWellFormed | hash_map_oa.py:158-175 | on a well-formed table (as resize_table leaves it: no tombstones, every live entry where get's probe loop for its key stops) get returns exactly the dictionary of live entries |
| OpenAddressingProofs.EmptyTableWellFormed | hash_map_oa.py:130-136 | an empty table is well formed and represents the empty dictionary |
| OpenAddressingProofs.PlacedWellFormed | hash_map_oa.py:98-110 | a probe-loop insertion into a well-formed table leaves it well formed |
| OpenAddressingProofs.PlacedLiveMap | hash_map_oa.py:98-110 | a probe-loop insertion into a well-formed table updates its dictionary at exactly one key |
| OpenAddressingProofs.InsertedWellFormed | hash_map_oa.py:89-110 | put, nested resizes included, keeps a well-formed table well formed and maps key to value, others unchanged |
| OpenAddressingProofs.ResizedWellFormed | hash_map_oa.py:119-142 | resize_table of any table, tombstones and duplicate live copies included, builds a well-formed table with the same dictionary of live entries |
| OpenAddressingProofs.ReinsertedWellFormed | hash_map_oa.py:138-142 | the re-insertion loop adds exactly the live entries of the old slots it visits, later copies overriding earlier ones |
| OpenAddressingProofs.ResizedKeepsEntries | hash_map_oa.py:119-142 | after resize_table(n) with n ≥ size: the capacity is a prime ≥ n (its exact value is in `Resized`), no tombstone remains, every live key is found with the value of its last live copy in slot order, every other key is absent |
| OpenAddressingProofs.DistinctLiveCount | hash_map_oa.py:214-223 | when no key is live in two slots, the number of live slots equals the number of keys of the live-entry dictionary |
| OpenAddressingProofs.WellFormedLiveCount | hash_map_oa.py:158-175 | a well-formed table has each live key in one slot, so its size is the number of keys get can find |
| OpenAddressingProofs.ResizedSize | hash_map_oa.py:119-142 | after resize_table(n) the size is unchanged when n is below it; otherwise it is the number of distinct live keys, which is the old size when no key was live twice |
| OpenAddressingProofs.InsertedSize | hash_map_oa.py:89-110 | on a well-formed table put(k, v), growth included, adds one to the size exactly when get(k) found nothing before |
| OpenAddressingProofs.InsertedOtherKeys | hash_map_oa.py:89-110 | on a well-formed table (as resize_table leaves it), put(k, v) leaves every other key's lookup unchanged |
| OpenAddressingProofs.LivePairsMember | hash_map_oa.py:214-223 | a pair is listed exactly when some slot holds it live |
| OpenAddressingProofs.WalkPrefix | hash_map_oa.py:259-270 | what the iterator yields is a prefix of get_keys_and_values, in slot order |
| OpenAddressingProofs.WalkStopsEarly | hash_map_oa.py:267-270 | an empty slot ahead of a live one ends the iteration although get_keys_and_values lists the entry |
| OpenAddressing.HashMap.constructor | hash_map_oa.py:14-28 | capacity is the least odd prime at least the request, every slot empty, size 0 |
| OpenAddressing.HashMap.GetIndex | hash_map_oa.py:112-117 | the home slot is within the table and is probe step 0 |
| OpenAddressing.HashMap.Put | hash_map_oa.py:89-110 | the new slots are put's specification applied to the old ones (grow at half load, then probe); the capacity is unchanged below half load and exactly _next_prime(2 * capacity) after growth; it stays prime and size stays the live count |
| OpenAddressing.HashMap.PlaceInTable | hash_map_oa.py:97-110 | the probe loop's result is exactly Placed of the slots before it, and size stays the live count |
| OpenAddressing.HashMap.ResizeTable | hash_map_oa.py:119-142 | a request below size leaves the map unchanged; otherwise a fresh prime table of capacity at least the request, exactly the re-primed request when twice the size is at most it plus one, whose slots are the resize specification |
| OpenAddressing.HashMap.EmptyBuckets | hash_map_oa.py:151-156 | capacity minus size is the number of slots not holding a live entry |
| OpenAddressing.HashMap.Get | hash_map_oa.py:158-175 | the probe loop returns the lookup specification's answer, tombstone and empty-slot stops included |
| OpenAddressing.HashMap.ContainsKey | hash_map_oa.py:177-194 | true exactly when get would return a value |
| OpenAddressing.HashMap.Remove | hash_map_oa.py:196-212 | same array and capacity; the slots are remove's specification applied to the old ones, size stays the live count |
| OpenAddressing.HashMap.GetKeysAndValues | hash_map_oa.py:214-223 | the live entries in slot order, as many as size |
| OpenAddressing.HashMap.Clear | hash_map_oa.py:225-232 | a fresh all-empty array of the same capacity, size 0 |
| OpenAddressing.HashMap.GetBucket | hash_map_oa.py:234-239 | the slot at an index within the table, nothing outside it |
| OpenAddressing.HashMapIterator.constructor | hash_map_oa.py:246-251 | iteration starts at slot 0 of the given map |
| OpenAddressing.HashMapIterator.Next | hash_map_oa.py:259-270 | advances one slot while inside the table; the entry yielded and the rest of the iteration together make up the walk from the old index, and a stop means that walk is empty |
| OpenAddressing.PlacedAt | hash_map_oa.py:103-110 | writing at the probe loop's stop yields Placed |
| OpenAddressing.InsertedUnfold | hash_map_oa.py:93-110 | put is growth followed by the probe loop |
| OpenAddressing.ReinsertedStep | hash_map_oa.py:139-142 | each step of the re-insertion loop re-puts a live slot and skips an empty or tombstoned one |
| OpenAddressingScenarios.ProbeSquare | hash_map_oa.py:100 | from home slot 0 the probe steps land on the squares |
| OpenAddressingScenarios.TombstoneTrap | hash_map_oa.py:103-106 | on [Tomb(a), Live(k, 2), Empty], put(k, 5) leaves two live copies of k; remove(k) hides both from get although one is still listed; a second remove finds it |
| OpenAddressingScenarios.TrapPut | hash_map_oa.py:103-106 | put stops at the tombstone ahead of the live copy of k |
| OpenAddressingScenarios.TrapRemoveFirst | hash_map_oa.py:196-212 | get finds the first copy and remove tombstones it |
| OpenAddressingScenarios.TrapRemoveSecond | hash_map_oa.py:171-209 | get stops at the tombstoned copy of k while remove passes it and tombstones the live copy behind it |
| OpenAddressingScenarios.TrapCounts | hash_map_oa.py:214-223 | the live counts and the listing of the scenario's tables |
| OpenAddressingScenarios.TrapResize | hash_map_oa.py:138-142 | resize_table on the table holding two live copies of k keeps only the later one: the size drops from 2 to 1 and get finds the later value |
| OpenAddressingScenarios.TrapPutRevives | hash_map_oa.py:103-106 | after the trap's remove(k), where get(k) finds nothing, put(z, 9) of another key takes the tombstone in front, and get(k) finds 2 again |
| OpenAddressingScenarios.ResizeDemo | hash_map_oa.py:298-302 | HashMap(20) has capacity 23; after one put, resize_table(30) gives capacity 31, size 1, and the entry is still found |
| OpenAddressingScenarios.ResizeAboveHalf | hash_map_oa.py:119-142 | three distinct live keys and resize_table(5) end at capacity 5 with load 3/5, above one half |
| ChainingTable.Find | hash_map_sc.py:105-108 | a bucket yields a value exactly when it holds the key, and the pair is in the bucket |
| ChainingTable.FindDistinct | hash_map_sc.py:164-166 | in a bucket with distinct keys, the pair for the key is the one found |
| ChainingTable.Replaced | hash_map_sc.py:106-108 | overwriting a value keeps the bucket's length and keys, and stores the new value under the key |
| ChainingTable.Without | hash_map_sc.py:185-187 | removing a present key shortens the bucket by one, an absent key leaves it unchanged |
| ChainingTable.WithoutMembers | hash_map_sc.py:185-187 | the bucket after removal holds exactly the other pairs, still with distinct keys |
| ChainingTable.EmptyChained | hash_map_sc.py:23-31 | all-empty buckets represent the empty dictionary |
| ChainingTable.ChainedFind | hash_map_sc.py:156-167 | the key's own bucket yields its value exactly when the dictionary has it |
| ChainingTable.ChainedReplace | hash_map_sc.py:106-108 | overwriting in the key's bucket represents the dictionary updated at that key |
| ChainingTable.ChainedInsert | hash_map_sc.py:109-112 | inserting an absent key's pair anywhere in its bucket represents the updated dictionary, one larger |
| ChainingTable.ChainedRemove | hash_map_sc.py:183-188 | removing a present key from its bucket represents the dictionary without it, one smaller |
| ChainingTable.FlattenMember | hash_map_sc.py:190-199 | a pair is listed exactly when some bucket holds it |
| ChainingTable.ChainedFlatten | hash_map_sc.py:190-199 | the listing repeats no key, holds exactly the dictionary's entries, has its size, and re-putting it rebuilds the dictionary |
| ChainingTable.PutAllDistinct | hash_map_sc.py:134-137 | re-putting pairs with distinct keys into an empty map yields a map of that many keys holding each pair |
| ChainingTable.PutAllSource | hash_map_sc.py:134-137 | every entry after re-putting pairs comes from one of the pairs |
| ChainingTable.FlattenDistinct | hash_map_sc.py:134-137 | the pairs of the first n buckets have distinct keys, all hashing below n |
| ChainingTable.EmptyCountBound | hash_map_sc.py:146-154 | the non-empty buckets are at most as many as the stored pairs |
| ChainingTable.EmptyBucketsCount | hash_map_sc.py:201-208 | fresh buckets are all empty and list nothing |
| SeparateChaining.HashMap.constructor | hash_map_sc.py:15-31 | capacity is the least odd prime at least the request, all buckets empty, the dictionary empty |
| SeparateChaining.HashMap.GetIndex | hash_map_sc.py:210-215 | the index is within the table, and that bucket yields exactly the dictionary's value for the key |
| SeparateChaining.HashMap.Put | hash_map_sc.py:92-112 | the dictionary maps key to value; size grows by one exactly for a new key; at load 1 or more the table is rebuilt at capacity exactly _next_prime(2 * capacity), and the re-puts never grow it again, otherwise only the key's bucket changes, by overwrite or insertion |
| SeparateChaining.HashMap.PutInBucket | hash_map_sc.py:101-112 | overwrite the key's value in its bucket, or insert the pair there and count it; every other bucket unchanged |
| SeparateChaining.HashMap.ResizeTable | hash_map_sc.py:114-137 | the dictionary and size are kept; below 1 nothing changes; otherwise a fresh table of capacity at least the request, exactly the re-primed request unless the re-puts grow it |
| SeparateChaining.HashMap.PutPairs | hash_map_sc.py:134-137 | re-putting the old pairs yields the dictionary they spell, and the capacity only grows when they overflow it |
| SeparateChaining.HashMap.EmptyBuckets | hash_map_sc.py:146-154 | counts the empty buckets, between capacity minus size and capacity |
| SeparateChaining.HashMap.Get | hash_map_sc.py:156-167 | the dictionary's value for the key, none for an absent key |
| SeparateChaining.HashMap.ContainsKey | hash_map_sc.py:169-177 | true exactly when the dictionary has the key, which is when the key's own bucket holds it |
| SeparateChaining.HashMap.Remove | hash_map_sc.py:179-188 | the dictionary loses the key and size drops by one when it was present; only the key's bucket changes, losing exactly that pair |
| SeparateChaining.HashMap.GetKeysAndValues | hash_map_sc.py:190-199 | the buckets' pairs in bucket order, each stored pair exactly once, as many as size |
| SeparateChaining.HashMap.Clear | hash_map_sc.py:201-208 | same capacity, size 0, empty dictionary, and every bucket empty |
| SeparateChaining.PutAllConcat | hash_map_sc.py:134-137 | re-putting two runs of pairs one after the other is re-putting their concatenation |
| SeparateChaining.FlattenPrefixLength | hash_map_sc.py:195-198 | the listing of the first k+1 buckets is that of the first k followed by bucket k |
| FindMode.Count | hash_map_sc.py:227-237 | a value occurs at most as often as the array is long |
| FindMode.CountPositive | hash_map_sc.py:229-233 | a value has a positive count exactly when it occurs |
| FindMode.CountAtMostMax | hash_map_sc.py:240-246 | no count exceeds the maximum frequency |
| FindMode.MaxCountAttained | hash_map_sc.py:240-241 | in a non-empty array some value attains the maximum frequency |
| FindMode.CountsLookup | hash_map_sc.py:229-237 | the counting map holds exactly the values seen, each with its number of occurrences |
| FindMode.ReachingMembers | hash_map_sc.py:240-246 | for f ≥ 1, a value is listed as having reached f exactly when it occurs at least f times |
| FindMode.ReachingDistinct | hash_map_sc.py:240-246 | no value is listed twice |
| FindMode.ReachingAboveMax | hash_map_sc.py:240-246 | nothing reaches a frequency above the maximum |
| FindMode.ModesExact | hash_map_sc.py:216-248 | the modes are exactly the distinct values whose count is the maximum, each once |
| FindMode.SnocMax | hash_map_sc.py:240-241 | one more value raises the maximum to its new count exactly when that count exceeds it |
| FindMode.SnocReaching | hash_map_sc.py:242-246 | one more value is appended to the values reaching f exactly when its new count is f |
| FindMode.CountStep | hash_map_sc.py:229-237 | visiting a value raises its count by one and updates the counting map at that value only |
| FindMode.ModeStep | hash_map_sc.py:240-246 | the reset-or-append rule keeps frequency the running maximum and the modes the values that reached it, in order |
| FindMode.Visit | hash_map_sc.py:228-246 | one iteration keeps the map holding the counts of the prefix seen and the running maximum and modes of that prefix |
| FindMode.FindMode | hash_map_sc.py:216-248 | frequency is the maximum occurrence count (0 for an empty array) and the modes are the values that reached it, in the order they reached it |
| FindMode.AppleExample | hash_map_sc.py:435-437 | ["apple", "apple", "grape", "melon", "peach"] gives ["apple"] and 2 |
| FindMode.DistroExample | hash_map_sc.py:442 | the distribution list gives ["Mint", "Ubuntu"] and 3 |
| FindMode.AllOnceExample | hash_map_sc.py:443 | five distinct values give all five, in order, and 1 |
| FindMode.DigitsExample | hash_map_sc.py:444 | the fourteen digits give ["4", "3", "2"] and 3: "4" reaches 3 first and "2" last |

## Left out

- `table_load` (hash_map_oa.py:144-149, hash_map_sc.py:139-144): it returns a float. Where it triggers growth, the model compares integers instead: `2 * size >= capacity` (open addressing) and `size >= capacity` (chaining).
- `__str__`, `get_size`, `get_capacity` and `__iter__`: debug text and plain field reads. The fields `size` and `capacity` are public in the model.
- The demonstration blocks under `__main__` print their results. Only the `find_mode` examples are restated, as lemmas.
- `DynamicArray`, `LinkedList`, `HashEntry`, `hash_function_1` and `hash_function_2` come from `a6_include`, which is not part of this model.
  - Arrays become Dafny arrays.
  - A bucket becomes a sequence of pairs.
  - An entry becomes the `Slot` datatype.
  - The hash function becomes the constant field `hash`.
- SeparateChaining.HashMap.PutInBucket: the position at which `LinkedList.insert` places a new pair is left open (any position is allowed), because that code is not part of this model. No within-bucket order is asserted.
- SeparateChaining.HashMap.ContainsKey: comparing bucket objects (hash_map_sc.py:175) is modelled as comparing bucket indices. How `LinkedList.__eq__` behaves is not part of this model.
- Negative capacities are excluded by the `nat` parameter type. `_is_prime` of a negative number is not modelled.
- The duplicated prime helpers of hash_map_sc.py:43-74 are identical to those of hash_map_oa.py and share one model in `Primes`.
- Aliasing: a bucket list shared between maps, and mutation of a map while an iterator walks it, are not modelled. The iterator reads the map as it is at each call.
- FindMode.FindMode: the counting map is built with the default capacity 11. The hash function is a parameter instead of `hash_function_1`.
- `OpenAddressing.HashMap.PlaceInTable`, `SeparateChaining.HashMap.PutInBucket`, `SeparateChaining.HashMap.PutPairs`, `SeparateChaining.HashMap.ResetBuckets`, `OpenAddressingProofs.MapsAgree` and `FindMode.Visit` are helpers. Each names a loop body, the second half of a source method, a map equality step, or the bucket-array reset shared by `clear` and `resize_table` (hash_map_sc.py:127-131, 205-208). None is a separate operation of the source.
