# Incremental hash map: a verified model

This project models the two versions of the non-relocating hash map of
constexpr_hashmap, and the set built on each, in Dafny.

A map is a root chunk followed by a singly linked chain of further chunks.
A chunk has a fixed number of slots, each with an occupancy flag, and a
stored element never moves. An insertion that finds no room for its key
appends a chunk to the chain.

- **Current engine** (`swl/incremental_hashmap.hpp`, default `BucketSize` 32).
  A lookup probes a window of `max(3, BucketSize / 5)` slots per chunk.
  The window starts at `hash(key) % BucketSize` and wraps from the last slot to slot 0.
  The lookup stops at a free slot or at the key, and otherwise goes on to the next chunk.
- **Legacy engine** (`incremental_hashmap.hpp`, default `Bucket` 16).
  A lookup probes from the home slot up to the last slot of each chunk, without wrapping.
  When the last chunk is used up, it answers the home slot of that chunk together with a "must allocate" flag.
- **Sets** (`swl/incremental_hashset.hpp`, `incremental_hashset.hpp`).
  Each is a map from keys to the empty value `empty`.

How the model is organised:

- Each map is a `class` whose chunks are `Chunk` objects. A chunk holds two arrays, `flag` and `elems`, and a `next` link.
- Every map carries a ghost view:
  - `Chunks`: the chain;
  - `Rows`: a `Table`, one row of optional elements per chunk;
  - `Contents`: the abstract map;
  - `Pos`: each key's address, as (chunk, slot).
- `Linked()` ties the heap to the ghost view.
- The pure modules `Probing` and `LegacyProbing` define the lookup each engine performs on a `Table` (`Locate`, `Lookup`). They also define the placement invariant `Inv`, and they prove two things:
  - lookup is correct under `Inv`;
  - insertion preserves `Inv`.
- The methods of the classes are proved to compute those functions. Their new state is stated in terms of them.
- Iteration order is the function `Slots.Occupants`: occupied slots in chain order, and within a chunk in slot order.
- Each iterator's `Increment` is proved to step to the next entry of that order.
- The hash functor and the bucket size are constructor parameters.
- `Hashing.IntegralHash` is the default hash for integral keys, a conversion to the 64-bit `size_t`.
- `Scenarios` replays the repository's tests and states their checks as postconditions.

## Model

| member | source | states |
|---|---|---|
| Probing.ProbingSteps | swl/incremental_hashmap.hpp:30 | the window length is 3 when BucketSize / 5 <= 3 and BucketSize / 5 otherwise, so it is at least both |
| Probing.DefaultWindows | swl/incremental_hashmap.hpp:30 | 32 slots per chunk probe 6 slots; 16 probe 3 |
| Probing.Succ | swl/incremental_hashmap.hpp:135-136 | the slot after k wraps from the last slot to 0, i.e. (k + 1) % BucketSize |
| Probing.ProbeRow | swl/incremental_hashmap.hpp:127-137 | probing one chunk ends at a slot holding the key, or at the first free slot of the window behind occupied slots, or reports the window full of other keys |
| Probing.Locate | swl/incremental_hashmap.hpp:120-146 | the lookup of a key starts at its home slot hash(key) % BucketSize in the root and stops inside the chain: at a slot holding the key, at a free slot, or in the last chunk with the window used up |
| Probing.Inv | swl/incremental_hashmap.hpp:120-146 | the map's invariant: the table stores the map, each key is in its window behind occupied slots, with the windows of all earlier chunks full, and each chunk after the root holds an element |
| Probing.Search | swl/incremental_hashmap.hpp:120-146 | a lookup that finds the key stops at a slot holding it; one that stops without it stops at a free slot; one that exhausts the window stops in the last chunk |
| Probing.SearchWindows | swl/incremental_hashmap.hpp:125-145 | every chunk a lookup passes over has a full window; a free slot where it stops lies in the window behind occupied slots |
| Probing.LocateCorrect | swl/incremental_hashmap.hpp:120-146 | under the invariant, the lookup finds a key exactly when the key is in the map, at the one slot that holds it with its value |
| Probing.ExhaustedFull | swl/incremental_hashmap.hpp:139-144 | a lookup that used up the last chunk's window passed full windows in every chunk |
| Probing.InsertVacant | swl/incremental_hashmap.hpp:287-293 | storing an absent key in the free slot where its lookup stopped keeps the invariant and adds the key |
| Probing.InsertAppend | swl/incremental_hashmap.hpp:143-144 | storing an absent key at its home slot of an appended chunk, after every window was full, keeps the invariant and adds the key |
| Probing.Overwrite | swl/incremental_hashmap.hpp:282-283 | replacing the value of a present key in its slot keeps the invariant |
| Probing.EmptyInv | swl/incremental_hashmap.hpp:87-92 | a single empty chunk satisfies the invariant for the empty map |
| IncrementalMap.HashMap.constructor | swl/incremental_hashmap.hpp:236 | the default map is one chunk, every slot free, holding the empty map |
| IncrementalMap.HashMap.ConstructAt | swl/incremental_hashmap.hpp:99-102 | sets the slot's flag and stores the element there; no other slot of any chunk changes |
| IncrementalMap.HashMap.SetValue | swl/incremental_hashmap.hpp:283 | assigns the new value to the element of an occupied slot; the key, every other slot, the chain and the addresses stay as they were |
| IncrementalMap.HashMap.MakeNextChunk | swl/incremental_hashmap.hpp:110-114 | links a fresh chunk with every slot free behind the last chunk; the abstract map is unchanged |
| IncrementalMap.HashMap.TryFind | swl/incremental_hashmap.hpp:120-146 | the loops return exactly the chunk, slot, found flag and exhaustion that Probing.Locate specifies |
| IncrementalMap.HashMap.FindForEmplace | swl/incremental_hashmap.hpp:139-144 | with the emplace flag, an exhausted lookup links a new chunk and answers its home slot; otherwise nothing changes |
| IncrementalMap.HashMap.TryEmplace | swl/incremental_hashmap.hpp:287-294 | inserts exactly when the key is absent and keeps the invariant; a present key leaves the map untouched; an absent key lands where Locate stopped or at its home slot of an appended chunk; no element moves; the result is the key's address |
| IncrementalMap.HashMap.Emplace | swl/incremental_hashmap.hpp:279-285 | like TryEmplace, but a present key gets the new value in place: the map becomes old[key := v] in every case |
| IncrementalMap.HashMap.Contains | swl/incremental_hashmap.hpp:296-299 | true exactly when the key is in the map |
| IncrementalMap.HashMap.Find | swl/incremental_hashmap.hpp:301-304 | the key's value, or None (the null pointer) when absent |
| IncrementalMap.HashMap.AssignFrom | swl/incremental_hashmap.hpp:166-187 | copying into an empty map reproduces the other map's chunks slot for slot, hence the same table, map and addresses |
| IncrementalMap.HashMap.CopyChunk | swl/incremental_hashmap.hpp:173-180 | one round of the copy: each occupied slot of the source chunk is stored in the same slot of the target chunk |
| IncrementalMap.HashMap.Begin | swl/incremental_hashmap.hpp:262-264 | the first iterator is the first occupied slot in walk order, or the end position for an empty map |
| IncrementalMap.HashMap.End | swl/incremental_hashmap.hpp:266-268 | the end position is (null, BucketSize) |
| IncrementalMap.Iterator.constructor | swl/incremental_hashmap.hpp:193-195 | an iterator holds the chunk pointer and slot index it is given |
| IncrementalMap.Iterator.Increment | swl/incremental_hashmap.hpp:198-215 | steps to the next occupied slot in walk order (Occupants), or to the end position; the end position stays put |
| IncrementalMap.Iterator.Deref | swl/incremental_hashmap.hpp:217 | the element at an occupied position is a stored key with its value, located at that position |
| IncrementalMap.Iterator.Equals | swl/incremental_hashmap.hpp:221-223 | comparing chunk pointer and slot index is the same as comparing positions in the chain |
| Slots.Chunk.constructor | swl/incremental_hashmap.hpp:87-89 | a new chunk has every flag false, every slot free and no successor |
| Slots.Chunk.Scan | swl/incremental_hashmap.hpp:203-213 | the first slot at or after `from` whose flag is set, or the slot count; every slot skipped is free |
| Slots.Occupants | swl/incremental_hashmap.hpp:198-215 | the walk order visits only occupied slots, none before the start |
| Slots.OccupantsComplete | swl/incremental_hashmap.hpp:198-215 | every occupied slot at or after the start is visited |
| Slots.OccupantsAscending | swl/incremental_hashmap.hpp:198-215 | the walk is strictly ascending in (chunk, slot) order, so no slot is visited twice |
| Slots.WalkFollowsOccupants | swl/incremental_hashmap.hpp:198-215 | from the j-th visited slot, the walk continues with exactly the remaining visits |
| Slots.EmptyWalk | swl/incremental_hashmap.hpp:262-264 | a table storing the empty map has nothing to visit |
| Slots.StoreAbstracts | swl/incremental_hashmap.hpp:99-102 | storing a new key in a free slot stores the map with that key added |
| Slots.OverwriteAbstracts | swl/incremental_hashmap.hpp:282-283 | rewriting a present key's element stores the map with the new value |
| Hashing.IntegralHash | swl/hash.hpp:15 | the hash of an integral key is the key modulo 2^64, below 2^64 and congruent to the key |
| Hashing.HashOfNegative | swl/hash.hpp:15 | a negative 64-bit key hashes to its two's-complement pattern v + 2^64 |
| LegacyProbing.ScanRow | incremental_hashmap.hpp:77-82 | probing one chunk from the home slot to its last slot finds the first slot that is free or holds the key, or reports all of them full of other keys |
| LegacyProbing.Lookup | incremental_hashmap.hpp:71-90 | the lookup of a key stops inside the chain at a free slot or one holding the key, or asks for a new chunk answering the home slot hash(key) % Bucket of the last chunk |
| LegacyProbing.Inv | incremental_hashmap.hpp:71-90 | the legacy map's invariant: the table stores the map, each key is in its range behind occupied slots, with its ranges full in all earlier chunks |
| LegacyProbing.Walk | incremental_hashmap.hpp:71-90 | the lookup stops at a free or matching slot, or, after the last chunk, at the home slot of the last chunk with the must-allocate flag |
| LegacyProbing.WalkRanges | incremental_hashmap.hpp:77-88 | every chunk the lookup passes over is full from the home slot on; a free slot where it stops lies behind occupied slots |
| LegacyProbing.LookupCorrect | incremental_hashmap.hpp:71-90 | a stored key is found at its slot; for an absent key the answered slot is occupied exactly when the flag asks for a new chunk |
| LegacyProbing.ContainsAsWritten | incremental_hashmap.hpp:156-159 | the flag read by contains is set exactly when the key is stored or the lookup asks for a new chunk, and the latter happens exactly for an absent key whose range is full in every chunk |
| LegacyProbing.FindAsWritten | incremental_hashmap.hpp:161-164 | for such a key, the answered slot holds another stored key, whose value find returns |
| LegacyProbing.ContainsCorrected | incremental_hashmap.hpp:84-85 | the key is stored exactly when the lookup did not ask for a new chunk and the answered slot is occupied |
| LegacyProbing.AllocFull | incremental_hashmap.hpp:84-85 | a lookup that asks for a new chunk passed full ranges in every chunk |
| LegacyProbing.InsertVacant | incremental_hashmap.hpp:148-153 | storing an absent key in the free slot where its lookup stopped keeps the invariant and adds the key |
| LegacyProbing.InsertAppend | incremental_hashmap.hpp:92-98 | storing an absent key at its home slot of an appended chunk, after every range was full, keeps the invariant |
| LegacyProbing.InsertAbsent | incremental_hashmap.hpp:148-154 | an absent key stored where its lookup leads keeps the invariant: in the free slot where the lookup stopped, or in its home slot of an empty chunk appended to the chain |
| LegacyProbing.TailFalsePositive | incremental_hashmap.hpp:84-85 | with Bucket 16 and only key 15 stored, the lookup of 31 answers the occupied slot 15 with the must-allocate flag, although 31 is absent |
| LegacyMap.HashMap.constructor | incremental_hashmap.hpp:46-51 | the default map is one chunk with every flag false, holding the empty map |
| LegacyMap.HashMap.ConstructAt | incremental_hashmap.hpp:59-63 | sets the slot's flag and stores the element; no other slot changes |
| LegacyMap.HashMap.FindImpl | incremental_hashmap.hpp:71-90 | the loop returns exactly the chunk, slot and must-allocate flag that LegacyProbing.Lookup specifies |
| LegacyMap.HashMap.AllocNext | incremental_hashmap.hpp:97 | links a fresh, empty chunk behind the last one; the abstract map is unchanged |
| LegacyMap.HashMap.FindOrAlloc | incremental_hashmap.hpp:92-99 | when the lookup asks for a new chunk, one is appended and the home slot in it is answered; otherwise nothing changes |
| LegacyMap.HashMap.Insert | incremental_hashmap.hpp:148-154 | inserts exactly when the key is absent and keeps the invariant; a present key leaves the map untouched; no element moves; the result is the key's address |
| LegacyMap.HashMap.Contains | incremental_hashmap.hpp:156-159 | as written: true exactly when the key is stored or its lookup asks for a new chunk |
| LegacyMap.HashMap.Find | incremental_hashmap.hpp:161-164 | as written: a stored key's value; for an absent key, None, or, when its lookup asks for a new chunk, the value of the other key in the answered slot |
| LegacyMap.HashMap.ContainsFixed | incremental_hashmap.hpp:156-159 | corrected: true exactly when the key is stored |
| LegacyMap.HashMap.FindFixed | incremental_hashmap.hpp:161-164 | corrected: the key's value, or None when absent |
| LegacyMap.HashMap.Begin | incremental_hashmap.hpp:139-142 | the first iterator is the first occupied slot in walk order, or (null, 0) for an empty map |
| LegacyMap.HashMap.End | incremental_hashmap.hpp:144-146 | the end position is (null, 0) |
| LegacyMap.Iterator.constructor | incremental_hashmap.hpp:105-107 | an iterator holds the chunk pointer and slot index it is given |
| LegacyMap.Iterator.Increment | incremental_hashmap.hpp:110-125 | steps to the next occupied slot in walk order, crossing to slot 0 of the next chunk, or to (null, 0) when the chain runs out |
| LegacyMap.Iterator.Deref | incremental_hashmap.hpp:127-129 | the element at an occupied position is a stored key with its value, located there |
| LegacyMap.Iterator.Equals | incremental_hashmap.hpp:131-133 | comparing chunk pointer and slot index is the same as comparing positions |
| IncrementalSet.HashSet.constructor | swl/incremental_hashset.hpp:15 | a new set is empty |
| IncrementalSet.HashSet.Emplace | swl/incremental_hashset.hpp:17-20 | adds the key; reports insertion exactly when it was absent; a present key leaves chunks, slots and addresses as they were; an absent key lands where Probing.Locate stopped or at its home slot of an appended chunk; every earlier key keeps its address and the earlier chunks stay a prefix of the chain; the result is the stored key's address |
| IncrementalSet.HashSet.TryEmplace | swl/incremental_hashset.hpp:22-25 | the same as Emplace, through the map's try_emplace |
| IncrementalSet.HashSet.Contains | swl/incremental_hashset.hpp:27 | true exactly when the key is a member |
| IncrementalSet.HashSet.KeyAt | swl/incremental_hashset.hpp:29-33 | the key at an occupied iterator position is a member stored at that position |
| IncrementalSet.HashSet.Begin | swl/incremental_hashset.hpp:38 | the first position of the walk over the keys |
| IncrementalSet.HashSet.End | swl/incremental_hashset.hpp:39 | the end position of the walk |
| LegacySet.HashSet.Insert | incremental_hashset.hpp:17-21 | adds the key; returns true exactly when it was absent; a present key leaves chunks, slots and addresses as they were; an absent key lands where LegacyProbing.Lookup stopped or at its home slot of an appended chunk; every earlier key keeps its address and the earlier chunks stay a prefix of the chain |
| LegacySet.HashSet.Contains | incremental_hashset.hpp:23 | the inherited test as written: true exactly when the key is a member or its lookup asks for a new chunk |
| LegacySet.HashSet.ContainsFixed | incremental_hashset.hpp:23 | the inherited test over the corrected lookup: true exactly when the key is a member |
| LegacySet.HashSet.KeyAt | incremental_hashset.hpp:25-28 | the key at an occupied iterator position is a member stored there |
| LegacySet.HashSet.Begin | incremental_hashset.hpp:30 | the first position of the walk over the keys, or (null, 0) |
| LegacySet.HashSet.End | incremental_hashset.hpp:31 | the end position (null, 0) |
| Scenarios.Test1 | tests/test.cpp:20-34 | after emplace(4, 5), key 4 is present with 5; after emplace(20, 8), both keys are present with their values |
| Scenarios.Test2 | tests/test.cpp:36-51 | after emplacing (i, 4i) for i below 324, find(i) returns 4i for each i |
| Scenarios.TestSet | tests/test.cpp:54-67 | after emplacing the 20 listed values, each is a member |
| Scenarios.LegacyTest1 | test.cpp:20-34 | test1 against the legacy map with the lookups as written |
| Scenarios.LegacyTest2 | test.cpp:36-51 | test2 against the legacy map |
| Scenarios.LegacyTestSet | test.cpp:54-67 | test_set against the legacy set |
| Scenarios.LegacyFalsePositive | incremental_hashmap.hpp:156-164 | on a legacy map holding only (15, 7), contains(31) as written is true and find(31) returns 7; the corrected lookups say absent |

## Left out

- Memory lifecycle is not modelled:
  - `ElemStorage`, `destroy`, `destroy_for_reuse` and the destructors (swl/incremental_hashmap.hpp:42-55, 75-85, 148-164, 257-260; incremental_hashmap.hpp:38-44);
  - deallocation of chunks. The model's memory is garbage collected.
- The move constructors (swl/incremental_hashmap.hpp:61-72, 244-247) are not modelled:
  - the root's elements are move-constructed into the new root, so keys stored in the root get new addresses, while keys in later chunks keep theirs;
  - the moved-from root keeps its flags set and loses its chain (`next` becomes null), so the moved-from map still reports the keys of its root and no longer the others.
- The copy constructor (swl/incremental_hashmap.hpp:238-242) has no member of its own. It is the empty map followed by `IncrementalMap.HashMap.AssignFrom`.
- Copy assignment (swl/incremental_hashmap.hpp:249-255) is not modelled. It first destroys this map's elements and chunks, so self-assignment empties the map.
- The legacy engine's implicit copy is not modelled. It copies the `next` pointer, and both copies later delete the same chain.
- The floating-point hash (swl/hash.hpp:18-27) is left out, since floating point is not modelled. Integral keys are modelled as mathematical integers.
- The `const` overloads of `begin`, `end` and `find`, the `const_cast` between them, and `operator->` of the iterators are not modelled. They duplicate the modelled members.
- `[[no_unique_address]]` is not modelled.
- `dump` and `ensure` in the tests (output and exceptions) are not modelled.
- IncrementalMap.HashMap.Begin: requires that every chunk after the root holds an element, the fact the source's increment relies on (swl/incremental_hashmap.hpp:211). Insertion only appends a chunk to store an element in it.
- IncrementalMap.Iterator.Increment: requires the same fact for the chunk it steps into.
- LegacyMap.Iterator.Increment: requires a position other than the end, since incrementing the end dereferences a null pointer in the source.
- IncrementalMap.HashMap.Find, LegacyMap.HashMap.Find, LegacyMap.HashMap.FindFixed: return the stored value (or None), not a `Val*` into the slot (swl/incremental_hashmap.hpp:301-304; incremental_hashmap.hpp:161-164). A caller's later write through that pointer is not modelled; the modelled ways to change a present key's value are `IncrementalMap.HashMap.Emplace` and `IncrementalMap.HashMap.SetValue`.
- The template parameters `BucketSize` and `Bucket` are constructor arguments. The hash functor is a function-valued constructor argument.
- The platform width of `size_t` is fixed at 64 bits in Hashing.IntegralHash.

## Findings

| source | as written | input that shows it | evidently intended | confidence | as-written member | corrected member |
|---|---|---|---|---|---|---|
| incremental_hashmap.hpp:84-85, 156-164 | when the probe range of the last chunk is full, `find_impl` answers the occupied home slot with `must_alloc`; `contains` and `find` ignore `must_alloc` and read that slot's flag | Bucket 16, integral hash: `insert(15, 7)`, then `contains(31)` is true and `*find(31)` is 7 | an absent key is reported absent: `contains` is false and `find` returns nullptr when `must_alloc` is set | not executed | LegacyMap.HashMap.Contains, LegacyMap.HashMap.Find, LegacySet.HashSet.Contains, LegacyProbing.TailFalsePositive, Scenarios.LegacyFalsePositive | LegacyMap.HashMap.ContainsFixed, LegacyMap.HashMap.FindFixed, LegacySet.HashSet.ContainsFixed, LegacyProbing.ContainsCorrected |
