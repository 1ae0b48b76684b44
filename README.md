# A verified model of the shramko.maksim containers and dictionary tool

This project models, in Dafny, the data structures of the `shramko.maksim`
repository and the two programs built on them.

The containers:

- **`HashTable`**: the open-addressing hash table. It uses linear probing and
  tombstones. Each slot is a record of a key, a value and the two independent
  flags `occupied` and `deleted`, kept in an `array`.
- **`HashIterator`**: the table's slot iterator.
- **`SearchTree`**: the unbalanced binary search tree `UBstTree`, with its
  three traversals.
- **`TreeIterator`**: the tree's in-order const iterator.
- **`ForwardLists`**: the singly linked `ForwardList`, with its bubble sort.
- **`LinkedStack`** and **`LinkedQueue`**: the linked stack and queue.

The programs:

- **`Graph`**: the directed multigraph of the graph tool. Each ordered vertex
  pair maps to its list of weights, and a separate set holds the vertex
  names.
- **The dictionary tool**: the dictionary manager (`Dictionaries`), its
  eleven commands (`Commands`), and the front end (`CommandLine`). The front
  end loads a file into `main`, tokenizes a line, splits off the command
  name and dispatches through the command table.

Support modules: `Decimal` models `std::stoi`, `std::stoul` and the printing
of integers. `CType` models the C-locale character classes. `Ordering`
defines strict total orders, sorting, and sorted views of sets. `HashNode`
is the slot record, and `Wrappers` holds `Option`, `Result` and the
exception kinds.

Objects that the source updates in place are classes with `modifies`
frames:

- the hash table and both iterators;
- the list, stack and queue, whose nodes are real heap nodes; a ghost
  `spine` lists a structure's nodes and a ghost `contents` lists its values;
- the graph and the dictionary manager.

The search tree is a class holding a `Tree` datatype value: its node
structure is a value, not parent-linked heap nodes.

Loops in the source are `while` loops with invariants. Each such method is
proved against a specification function, and the lemmas that state what the
source promises are about those functions.

The hash function is a parameter `K -> nat`. The maximum load factor is a
rational `loadNum / loadDen`; the default 0.75 is `3 / 4`. File contents and
the command line arguments are parameters. Each command's output stream is
the string it returns.

## Model

| member | source | states |
|---|---|---|
| HashTable.Probe | shramko.maksim/common/HashTable/hash_table.hpp:414-425 | the `e`-th probe from a home slot is a slot index inside the array |
| HashTable.Offset | shramko.maksim/common/HashTable/hash_table.hpp:414-425 | every slot is reached from any home after some number of probe steps below the capacity; with ProbeInjective, the probe is a bijection onto the slots |
| HashTable.Home | shramko.maksim/common/HashTable/hash_table.hpp:414 | `hash(key) % capacity_` is a slot index |
| HashTable.Steps | shramko.maksim/common/HashTable/hash_table.hpp:412-442 | the number of probe steps before the probe stops: every earlier slot does not stop it, and the slot reached does, unless the whole array was walked |
| HashTable.FindPos | shramko.maksim/common/HashTable/hash_table.hpp:412-427 | `find_position`: either the capacity, or a live slot (`occupied && !deleted`) holding the key |
| HashTable.InsertPos | shramko.maksim/common/HashTable/hash_table.hpp:430-442 | `get_insert_position`: either the capacity, or a slot that is not occupied, or an occupied slot holding the key |
| HashTable.ProbeEndsWithin | shramko.maksim/common/HashTable/hash_table.hpp:415-426 | under the termination condition, the probe stops within the capacity |
| HashTable.RoomMeansPlacementEnds | shramko.maksim/common/HashTable/hash_table.hpp:430-442 | while some slot is not occupied, `get_insert_position` terminates |
| HashTable.RoomMeansLookupEnds | shramko.maksim/common/HashTable/hash_table.hpp:412-427 | in a table with no tombstones and a free slot, `find_position` terminates |
| HashTable.StepsIsFirst | shramko.maksim/common/HashTable/hash_table.hpp:415-426 | the probe count is the first step at which the probe stops |
| HashTable.CountsBounded | shramko.maksim/common/HashTable/hash_table.hpp:266-269 | the live slots are at most the occupied slots, and those at most the capacity |
| HashTable.LookupReachesLive | shramko.maksim/common/HashTable/hash_table.hpp:412-427 | in a coherent table, the lookup for a live slot's key stops exactly at that slot |
| HashTable.FindPosMatchesEntries | shramko.maksim/common/HashTable/hash_table.hpp:412-427 | in a coherent table, `find_position` succeeds exactly for the keys in the table's map, and returns the slot holding that key's value |
| HashTable.PlacementBeforeKey | shramko.maksim/common/HashTable/hash_table.hpp:430-442 | for a present key, the placement probe stops at the key's own live slot or at an earlier tombstone |
| HashTable.PlaceOnEmpty | shramko.maksim/common/HashTable/hash_table.hpp:326-333 | an insertion that lands on a never-used slot adds exactly the new key with its value, and keeps the table coherent |
| HashTable.PlaceOnTombstone | shramko.maksim/common/HashTable/hash_table.hpp:326-333 | an insertion that lands on a tombstone leaves the slot hidden (`occupied && deleted`) and leaves the map of live entries unchanged |
| HashTable.PlaceKeepsCoherent | shramko.maksim/common/HashTable/hash_table.hpp:326-333 | both cases together: coherence is kept, and the new key is added only when the slot was never used |
| HashTable.InsertedOnEmptyIsFound | shramko.maksim/common/HashTable/hash_table.hpp:319-335 | round trip: after an insertion on a never-used slot, `find_position` finds the key at that slot |
| HashTable.ReusedTombstoneHidesKey | shramko.maksim/common/HashTable/hash_table.hpp:319-335 | as written: a new key inserted on a reused tombstone is not found afterwards, although one more slot is counted as occupied |
| HashTable.TombstoneReuseExample | shramko.maksim/common/HashTable/hash_table.hpp:319-335 | concrete run with every key hashing to 0: insert 1, erase 1, insert 2; key 2 sits hidden in slot 0 and is not found |
| HashTable.InsertFixed | shramko.maksim/common/HashTable/hash_table.hpp:319-335 | the corrected insertion keeps the slot count |
| HashTable.InsertFixedAdds | shramko.maksim/common/HashTable/hash_table.hpp:319-335 | the corrected insertion keeps coherence; a new key is added with its value and is found afterwards, and a present key changes nothing |
| HashTable.TombstoneKeepsCoherent | shramko.maksim/common/HashTable/hash_table.hpp:378-389 | erasing a live slot removes exactly its key from the map, keeps the table coherent and frees one occupied slot |
| HashTable.EraseThenFindFails | shramko.maksim/common/HashTable/hash_table.hpp:378-389 | round trip: after erasing a found key, `find_position` no longer finds it |
| HashTable.ClearedIsEmpty | shramko.maksim/common/HashTable/hash_table.hpp:401-409 | slots with both flags false form an empty, coherent table without tombstones, for any hash |
| HashTable.BlankIsEmpty | shramko.maksim/common/HashTable/hash_table.hpp:278-288 | a freshly allocated slot array is an empty, coherent table without tombstones |
| HashTable.ReinsertFresh | shramko.maksim/common/HashTable/hash_table.hpp:289-295 | re-inserting an absent key during `rehash` adds it with its value, occupies one more slot and makes no tombstone |
| HashTable.RebuildRoom | shramko.maksim/common/HashTable/hash_table.hpp:289-295 | after going over part of the old slots, the new array occupies at most as many slots as there were live ones |
| HashTable.RebuildFacts | shramko.maksim/common/HashTable/hash_table.hpp:289-295 | after going over the first `i` old slots, the new array is coherent, has no tombstones, and holds exactly the live entries among them |
| HashTable.RehashKeepsEntries | shramko.maksim/common/HashTable/hash_table.hpp:278-296 | `rehash` keeps exactly the live entries with their values, drops tombstones and hidden slots, and sets the size to the number of live slots |
| HashTable.DoublingRestoresLoad | shramko.maksim/common/HashTable/hash_table.hpp:212-215 | when the maximum load factor is at least 1/2, doubling the capacity brings the load back under it |
| HashTable.Table.constructor | shramko.maksim/common/HashTable/hash_table.hpp:81-84 | `HashTable(capacity)`: all slots empty, size 0, maximum load factor 3/4, empty map |
| HashTable.Table.Default | shramko.maksim/common/HashTable/hash_table.hpp:75-78 | the default constructor: 16 empty slots, size 0, maximum load factor 3/4 |
| HashTable.Table.FindPosition | shramko.maksim/common/HashTable/hash_table.hpp:412-427 | the probe loop computes FindPos; it succeeds exactly for the keys in the map and lands on the slot holding the key's value |
| HashTable.Table.InsertPosition | shramko.maksim/common/HashTable/hash_table.hpp:430-442 | the probe loop computes InsertPos, and that position is inside the array |
| HashTable.Table.At | shramko.maksim/common/HashTable/hash_table.hpp:180-188 | `at`: the stored value for a present key, and `out_of_range` exactly for an absent one |
| HashTable.Table.Find | shramko.maksim/common/HashTable/hash_table.hpp:238-246 | `find`: an iterator on the key's live slot when present, and `end()` when absent |
| HashTable.Table.Begin | shramko.maksim/common/HashTable/hash_table.hpp:156-159 | `begin()`: an iterator at the first live slot |
| HashTable.Table.End | shramko.maksim/common/HashTable/hash_table.hpp:168-171 | `end()`: an iterator at the capacity |
| HashTable.Table.Rehash | shramko.maksim/common/HashTable/hash_table.hpp:278-296 | `rehash(n)`: a new array of `n` slots (1 when `n` is 0), filled by re-inserting the live entries in slot order; it holds the same map, has no tombstones, sizes as the live count, and keeps the maximum load factor |
| HashTable.Table.ReinsertAll | shramko.maksim/common/HashTable/hash_table.hpp:289-295 | the re-insertion loop of `rehash` builds Rebuild over all old slots, with the size equal to the occupied count |
| HashTable.Table.Assign | shramko.maksim/common/HashTable/hash_table.hpp:202-211 | a re-insertion `(*this)[key] = value` on the new array (the growth check is left out) |
| HashTable.Table.PlaceAndGrow | shramko.maksim/common/HashTable/hash_table.hpp:326-333 | writes a new entry at its placement slot, then doubles the capacity exactly when `size / capacity` exceeds the maximum load factor; the map gains the key unless the slot was a tombstone; with a maximum load of at least 1/2 the table is not overloaded afterwards |
| HashTable.Table.Insert | shramko.maksim/common/HashTable/hash_table.hpp:319-335 | `insert`: for a key live before the first non-occupied slot of its probe, returns false and changes nothing (no overwrite); otherwise (a new key, or a live key behind a tombstone) returns true, places the entry at the first non-occupied slot (a tombstone keeps `deleted`), grows by doubling when overloaded, and returns the iterator at the old position |
| HashTable.Table.Index | shramko.maksim/common/HashTable/hash_table.hpp:202-218 | `operator[]`: a key that is live before the first non-occupied slot of its probe leaves everything unchanged; otherwise the key (new, or live behind a tombstone) gets a default value at the first non-occupied slot with the same placement and growth as `insert`; the position returned holds the key only when no rehash happened |
| HashTable.Table.EraseKey | shramko.maksim/common/HashTable/hash_table.hpp:378-389 | `erase(key)`: returns 1 and turns the key's slot into a tombstone when the key is present, else returns 0 and changes nothing; the map loses exactly the key |
| HashTable.Table.EraseAt | shramko.maksim/common/HashTable/hash_table.hpp:347-357 | `erase(iterator)`: tombstones the slot only when the index is inside the array and the slot is live, then returns the iterator at the next live slot; otherwise nothing changes |
| HashTable.Table.Clear | shramko.maksim/common/HashTable/hash_table.hpp:401-409 | `clear`: both flags false in every slot (keys and values kept), size 0, same capacity, empty map |
| HashTable.Table.SetMaxLoadFactor | shramko.maksim/common/HashTable/hash_table.hpp:305-316 | `max_load_factor(ml)`: `invalid_argument` with no change unless `0 < ml <= 1`; otherwise records `ml`, and doubles with a rehash exactly when the current load exceeds it; the model's single-level rehash keeps the map, which the source does only for `ml >= 1/2` (see "## Left out") |
| HashIterator.NextLive | shramko.maksim/common/HashTable/iterator.hpp:73-79 | the first live slot at or after a position, or the capacity; no live slot is skipped |
| HashIterator.WalkMatches | shramko.maksim/common/HashTable/iterator.hpp:44-49 | walking with `++` from the first live slot at or after `i` visits the live indices from `i` on |
| HashIterator.LiveIndicesMembers | shramko.maksim/common/HashTable/iterator.hpp:73-79 | the visited indices are exactly the live slots from `i` on |
| HashIterator.LiveIndicesIncreasing | shramko.maksim/common/HashTable/iterator.hpp:44-49 | the visited indices strictly increase, so each live slot is visited once |
| HashIterator.WalkFromBeginVisitsLiveSlots | shramko.maksim/common/HashTable/hash_table.hpp:156-171 | the walk from `begin()` to `end()` visits exactly the live slots, each once, in increasing index order |
| HashIterator.Iterator.constructor | shramko.maksim/common/HashTable/iterator.hpp:25-31 | an iterator built at index `i` sits at the first live slot at or after `i`, or at the capacity |
| HashIterator.Iterator.FindOccupied | shramko.maksim/common/HashTable/iterator.hpp:73-79 | the skip loop moves the cursor to NextLive of where it was |
| HashIterator.Iterator.Increment | shramko.maksim/common/HashTable/iterator.hpp:44-49 | `++`: the next live slot strictly after the cursor, never past the capacity when starting before it |
| HashIterator.Iterator.PostIncrement | shramko.maksim/common/HashTable/iterator.hpp:51-56 | `++(int)`: returns an iterator at the previous position and advances this one |
| HashIterator.Iterator.Copy | shramko.maksim/common/HashTable/iterator.hpp:53 | a copy has the same array, capacity and cursor |
| HashIterator.Iterator.Get | shramko.maksim/common/HashTable/iterator.hpp:33-37 | dereference, allowed only on a live slot as the assertion demands: the slot's key and value |
| Graph.FirstIndex | shramko.maksim/S7/graph.hpp:77 | `std::find`: the index of the first occurrence of the weight, and the length exactly when it is absent |
| Graph.RemoveFirstDropsOne | shramko.maksim/S7/graph.hpp:77-79 | erasing the first occurrence removes exactly one copy of the weight; an absent weight changes nothing |
| Graph.AddThenDeleteKeepsMultiset | shramko.maksim/S7/graph.hpp:29-33 | appending a weight and then removing its first occurrence restores the multiset of weights |
| Graph.DeleteWeightOnEdge | shramko.maksim/S7/graph.hpp:73-85 | `delete_edge` on the edge itself: one copy of the weight goes; the entry goes when its list empties; an absent weight changes nothing |
| Graph.DeleteWeightElsewhere | shramko.maksim/S7/graph.hpp:73-85 | `delete_edge` keeps the graph well formed and leaves every other edge's weights unchanged |
| Graph.MergedFacts | shramko.maksim/S7/graph.hpp:91-98 | merging keeps well-formedness, and every edge's weights become its own followed by the other graph's |
| Graph.InducedFacts | shramko.maksim/S7/graph.hpp:100-110 | the extracted graph keeps exactly the edges with both endpoints kept, with their weights; its vertexes are the endpoints of kept edges, all inside the kept set |
| Graph.PairLessIsStrictTotal | shramko.maksim/S7/graph.hpp:58 | the `std::pair` order used to sort `(to, weights)` pairs is a strict total order |
| Graph.Graph.GetEdges | shramko.maksim/S7/graph.hpp:35-41 | `getEdges`: the stored weights, or the empty list, which by the invariant happens exactly for absent edges |
| Graph.Graph.HasVertex | shramko.maksim/S7/graph.hpp:47-49 | `has_vertex` is set membership |
| Graph.Graph.AddEdge | shramko.maksim/S7/graph.hpp:29-33 | `add_edge`: appends the weight to the edge's list (starting empty) and adds both endpoints |
| Graph.Graph.AddVertex | shramko.maksim/S7/graph.hpp:87-89 | `add_vertex` adds the name and leaves the edges alone |
| Graph.Graph.DeleteEdge | shramko.maksim/S7/graph.hpp:73-85 | `delete_edge` removes the first occurrence of the weight as DeleteWeight says; vertexes never change |
| Graph.Graph.GetVertexes | shramko.maksim/S7/graph.hpp:43-45 | `get_vertexes`: the vertex set in ascending order, without duplicates |
| Graph.Graph.GetOutbound | shramko.maksim/S7/graph.hpp:51-60 | `get_outbound(v)`: sorted pairs `(to, weights)` for exactly the edges leaving `v` |
| Graph.Graph.GetInbound | shramko.maksim/S7/graph.hpp:62-71 | `get_inbound(v)`: sorted pairs `(from, weights)` for exactly the edges entering `v` |
| Graph.Graph.Merge | shramko.maksim/S7/graph.hpp:91-98 | `merge`: appends the other graph's weights after each edge's own and unions the vertex sets |
| Graph.Graph.Extract | shramko.maksim/S7/graph.hpp:100-110 | `extract(g, S)`: clears, then keeps the edges of `g` inside `S`; vertexes are their endpoints only; extracting from itself leaves it empty |
| Graph.AppendAll | shramko.maksim/S7/graph.hpp:92-94 | the edge loop of `merge` computes Merged |
| Graph.InsertAll | shramko.maksim/S7/graph.hpp:95-97 | the vertex loop of `merge` computes the union |
| Graph.CopyInduced | shramko.maksim/S7/graph.hpp:103-109 | the loop of `extract` computes Induced and collects its endpoints |
| Graph.AddThenDeleteEdge | shramko.maksim/S7/graph.hpp:29-33 | `add_edge` then `delete_edge` with the same weight restores the edge's multiset of weights |
| Dictionaries.Lowered | shramko.maksim/F0/dictionary_manager.cpp:95 | `std::transform(..., ::tolower)`: the same length, each character lowered |
| Dictionaries.Letters | shramko.maksim/F0/dictionary_manager.cpp:96-99 | `remove_if(!isalpha)`: only letters remain, all taken from the word |
| Dictionaries.NormaliseFacts | shramko.maksim/F0/dictionary_manager.cpp:95-99 | a normalised word is all lower-case letters, no longer than the word, and is the letters of the word lowered |
| Dictionaries.NormaliseIdempotent | shramko.maksim/F0/dictionary_manager.cpp:95-99 | normalising twice is normalising once, and an all-lower-case word is unchanged |
| Dictionaries.LowerWordsAreFixed | shramko.maksim/F0/dictionary_manager.cpp:95-99 | a word of lower-case letters is its own normal form |
| Dictionaries.TallyCounts | shramko.maksim/F0/dictionary_manager.cpp:93-104 | counting words adds, for each non-empty normal form, its number of occurrences to the old count |
| Dictionaries.LoadedCounts | shramko.maksim/F0/dictionary_manager.cpp:86-104 | starting from an empty dictionary, each non-empty normal form that occurs is counted exactly, and nothing else is stored |
| Dictionaries.Created | shramko.maksim/F0/dictionary_manager.cpp:7-11 | a new name gets an empty dictionary; an existing one is left untouched |
| Dictionaries.WithWord | shramko.maksim/F0/dictionary_manager.cpp:19-21 | `(*dict)[word] += freq`: the word's count (0 if absent) grows by `freq`; every other word and dictionary is unchanged |
| Dictionaries.WithoutWord | shramko.maksim/F0/dictionary_manager.cpp:34-36 | the word leaves its dictionary; every other entry and dictionary is unchanged |
| Dictionaries.AddTwice | shramko.maksim/F0/dictionary_manager.cpp:13-22 | two additions of one word are one addition of the sum |
| Dictionaries.AddThenRemove | shramko.maksim/F0/dictionary_manager.cpp:13-37 | removing after adding is removing, and restores the dictionaries when the word was absent |
| Dictionaries.DictionaryManager.constructor | shramko.maksim/F0/dictionary_manager.cpp:7-11 | a new manager holds no dictionaries |
| Dictionaries.DictionaryManager.CreateDict | shramko.maksim/F0/dictionary_manager.cpp:7-11 | `createDict`: true exactly when the name was absent, with the effect of Created |
| Dictionaries.DictionaryManager.GetDict | shramko.maksim/F0/dictionary_manager.cpp:55-77 | `getDict`/`getDictMutable`: no dictionary exactly when the name is unknown, else that dictionary |
| Dictionaries.DictionaryManager.GetFreq | shramko.maksim/F0/dictionary_manager.cpp:39-53 | `getFreq`: true exactly when both the dictionary and the word exist, then the count; otherwise `freq` is left as given |
| Dictionaries.DictionaryManager.AddWord | shramko.maksim/F0/dictionary_manager.cpp:13-22 | `addWord`: false with no change for an unknown dictionary; otherwise true with the effect of WithWord |
| Dictionaries.DictionaryManager.RemoveWord | shramko.maksim/F0/dictionary_manager.cpp:24-37 | `removeWord`: false with no change when the dictionary or the word is absent; otherwise true with the effect of WithoutWord |
| Dictionaries.DictionaryManager.LoadFromFile | shramko.maksim/F0/dictionary_manager.cpp:79-106 | `loadFromFile`: an unknown dictionary gives false with no change; otherwise the dictionary is cleared first, stays empty with false when the file cannot be opened, and else holds the counts of the file's words; no other dictionary changes |
| Dictionaries.NormaliseWord | shramko.maksim/F0/dictionary_manager.cpp:95-99 | the two in-place passes over a word compute Normalise |
| Dictionaries.LowerAll | shramko.maksim/F0/dictionary_manager.cpp:95 | the lowering loop computes Lowered |
| Dictionaries.KeepLetters | shramko.maksim/F0/dictionary_manager.cpp:96-99 | the filtering loop computes Letters |
| CType.ToLower | shramko.maksim/F0/dictionary_manager.cpp:95 | `tolower` in the C locale: an upper-case letter becomes its lower-case letter 32 code points up; everything else is unchanged; letters stay letters |
| Decimal.NatToString | shramko.maksim/F0/commands.cpp:63 | the decimal digits of a number, with no leading zero |
| Decimal.ValueOfNatToString | shramko.maksim/F0/commands.cpp:63 | reading back the printed digits gives the number |
| Decimal.Stoi | shramko.maksim/F0/commands.cpp:51-59 | `std::stoi`: the value of the longest signed-decimal prefix after white space, `invalid_argument` without digits, `out_of_range` outside 32 bits |
| Decimal.Stoul | shramko.maksim/F0/commands.cpp:207-215 | `std::stoul`: like `stoi` with a 64-bit unsigned range; a negative number wraps modulo 2^64 |
| Decimal.StoiOfWritten | shramko.maksim/F0/commands.cpp:51-63 | round trip: `stoi` of a printed 32-bit integer, followed by anything that is not a digit, gives the integer back |
| Decimal.StoulOfWritten | shramko.maksim/F0/commands.cpp:207-215 | round trip: `stoul` of a printed unsigned number gives it back |
| Decimal.NoDigitsRejected | shramko.maksim/F0/commands.cpp:51-59 | text that starts with neither a digit nor a sign is rejected with `invalid_argument` |
| Ordering.StrLessIsStrictTotal | shramko.maksim/F0/commands.cpp:239 | `std::string` `operator<` is a strict total order |
| Ordering.IntsLessIsStrictTotal | shramko.maksim/S7/graph.hpp:58 | `std::vector<int>` `operator<` is a strict total order |
| Ordering.InsertBy | shramko.maksim/F0/commands.cpp:233-240 | insertion into a sorted sequence adds exactly the element |
| Ordering.SortBy | shramko.maksim/F0/commands.cpp:233-240 | `std::sort`: a permutation of the input |
| Ordering.SortByIsSorted | shramko.maksim/F0/commands.cpp:233-240 | for a strict total order and distinct elements, the sort is strictly increasing with the same elements |
| Ordering.SortByIsNonDescending | shramko.maksim/F0/commands.cpp:423-428 | with repeated elements, the sort is non-descending |
| Ordering.SortedUnique | shramko.maksim/F0/commands.cpp:233-240 | two strictly sorted sequences with the same elements are equal, so the sorted order is unique |
| Ordering.AscendingFacts | shramko.maksim/S7/graph.hpp:43-45 | the ascending listing of a set (the order of `std::set`) is sorted and holds each element exactly once |
| Ordering.SetToSorted | shramko.maksim/S7/graph.hpp:43-45 | the loop that lists a set in order computes Ascending |
| Commands.ListingFacts | shramko.maksim/F0/commands.cpp:183-191 | the walk over a dictionary lists each entry once, in ascending word order |
| Commands.Walk | shramko.maksim/F0/commands.cpp:229-232 | the loop over a dictionary collects Listing |
| Commands.JoinedThenSpace | shramko.maksim/F0/commands.cpp:241-252 | the `first`-flag join of entries followed by a space equals the entries each followed by a space |
| Commands.JoinAll | shramko.maksim/F0/commands.cpp:181-192 | the `dump` loop writes the entries as `word:freq`, separated by single spaces |
| Commands.Create | shramko.maksim/F0/commands.cpp:11-28 | `create`: `INVALID COMMAND` with no change unless there is one argument; otherwise creates the dictionary, reporting `OK` or `DICT EXISTS` |
| Commands.Front | shramko.maksim/F0/commands.cpp:46 | `substr(0, n)`: a prefix of length `min(n, size)` |
| Commands.AmountFacts | shramko.maksim/F0/commands.cpp:41-60 | the default amount is 1; a prefixed printed integer parses to itself; a token without the prefix is refused; `freq:` and `by:` parse alike |
| Commands.Adjust | shramko.maksim/F0/commands.cpp:30-110 | `add` / `increment`: `INVALID COMMAND` with no change for a bad count or a bad amount; `DICT NOT FOUND` with no change for an unknown dictionary; otherwise WithWord by the amount and the `OK` line |
| Commands.Search | shramko.maksim/F0/commands.cpp:112-138 | `search`: `INVALID COMMAND`, `DICT NOT FOUND`, `NOT FOUND`, or `FOUND: freq=` and the count |
| Commands.Delete | shramko.maksim/F0/commands.cpp:140-159 | `delete`: `INVALID COMMAND` with no change; `WORD NOT FOUND` with no change for a missing dictionary or word; otherwise removes the word |
| Commands.Dump | shramko.maksim/F0/commands.cpp:161-193 | `dump`: the error lines, `EMPTY DICT`, or all entries in ascending word order followed by a space |
| Commands.TopLessIsStrictTotal | shramko.maksim/F0/commands.cpp:233-240 | the `top` order (frequency descending, then word ascending) is a strict total order |
| Commands.BotLessIsStrictTotal | shramko.maksim/F0/commands.cpp:293-300 | the `bot` order (frequency ascending, then word ascending) is a strict total order |
| Commands.Take | shramko.maksim/F0/commands.cpp:243-251 | the loop stopping at `cnt >= N`: the first `min(N, size)` elements |
| Commands.RankingFacts | shramko.maksim/F0/commands.cpp:227-252 | the `top`/`bot` listing has `min(N, size)` entries of the dictionary, sorted, and each ranks before every entry left out |
| Commands.TrailFirst | shramko.maksim/F0/commands.cpp:241-252 | the output loop writes the first N entries, each followed by a space |
| Commands.Ranked | shramko.maksim/F0/commands.cpp:195-313 | `top` / `bot`: `INVALID COMMAND` for a bad count or a bad N; `DICT NOT FOUND`; `EMPTY DICT`; otherwise the title, N and the ranking |
| Commands.KeptMembers | shramko.maksim/F0/commands.cpp:342-356 | the filter keeps exactly the entries passing the threshold |
| Commands.FilterFacts | shramko.maksim/F0/commands.cpp:342-356 | `minfreq` keeps the entries with frequency `>= m`, and `maxfreq` those with frequency `> m`, in ascending word order |
| Commands.JoinKept | shramko.maksim/F0/commands.cpp:342-356 | the filtering loop with the `first` flag writes exactly the kept entries, separated by single spaces |
| Commands.Threshold | shramko.maksim/F0/commands.cpp:315-401 | `minfreq` / `maxfreq`: `INVALID COMMAND` for a bad count or a bad integer; `DICT NOT FOUND`; otherwise the line of kept entries, and no `EMPTY DICT` check |
| Commands.MedianFacts | shramko.maksim/F0/commands.cpp:423-440 | the sorted frequencies are a non-descending permutation of the dictionary's; the two middle values bound the lower and upper halves |
| Commands.CollectFreqs | shramko.maksim/F0/commands.cpp:423-428 | the collecting loop gathers the frequencies in word order |
| Commands.Median | shramko.maksim/F0/commands.cpp:403-441 | `median`: the error lines or `EMPTY DICT`; otherwise the middle element of the sorted frequencies for an odd size, and the two middle ones for an even size |
| Commands.Register | shramko.maksim/F0/commands.cpp:446-456 | one `map.insert` into the 16-slot command table adds exactly that name, without growth |
| Commands.RegistrationsFacts | shramko.maksim/F0/commands.cpp:443-458 | the eleven registrations have distinct names and together form the registry |
| Commands.CreateCommandMap | shramko.maksim/F0/commands.cpp:443-458 | `createCommandMap`: a table of 16 slots holding exactly the eleven command names with their commands |
| CommandLine.RunLength | shramko.maksim/F0/main.cpp:22-41 | the length of the leading run of non-white-space characters |
| CommandLine.WordsFacts | shramko.maksim/F0/main.cpp:10-43 | every token is non-empty and has no white space; the tokens joined give the line without white space; there are no tokens exactly for an all-white-space line |
| CommandLine.WordsOfRun | shramko.maksim/F0/main.cpp:22-41 | a maximal non-white-space run is the first token |
| CommandLine.SkipSpaces | shramko.maksim/F0/main.cpp:17-20 | the leading skip stops at the first non-white-space character without changing the tokens |
| CommandLine.SplitString | shramko.maksim/F0/main.cpp:10-43 | `splitString` computes Words, the maximal runs of non-white-space |
| CommandLine.SplitCommand | shramko.maksim/F0/main.cpp:77-85 | the command name is the first token and the arguments are the rest, in order |
| CommandLine.Execute | shramko.maksim/F0/main.cpp:87-101 | running a command changes the dictionaries as Effect says: `create`, `add`, `increment` and `delete` as their commands do, every other command not at all; it writes Written, the reply of that command to its arguments over the dictionaries before the call (for example `dump` writes the ascending `word:freq` entries, `top` the first N of the ranking); the empty function object writes the `bad_function_call` error line |
| CommandLine.Query | shramko.maksim/F0/main.cpp:92 | `search`, `dump`, `top`, `bot`, `minfreq`, `maxfreq` and `median` write exactly Written: their refusal line, or the text built from the dictionary's listing, ranking, filter or sorted frequencies |
| CommandLine.HandleLine | shramko.maksim/F0/main.cpp:66-106 | one input line: an empty or blank line writes nothing; an unknown name writes `INVALID COMMAND` with no change; a known name runs its command on the remaining tokens, with that command's effect on the dictionaries and its reply Written |
| CommandLine.DispatchByRegistry | shramko.maksim/F0/main.cpp:87-106 | with the command map, a line is dispatched exactly when its first token is one of the eleven names, and never to an empty function |
| CommandLine.Start | shramko.maksim/F0/main.cpp:50-61 | start-up: with a file argument, `main` is created and loaded; `DICT EXISTS` when it already exists; `FILE NOT FOUND` leaves it empty |
| ForwardLists.SwapNext | shramko.maksim/common/FwdList/FwdList.hpp:322-326 | `std::swap(*prev, *curr)` on adjacent elements: a permutation that exchanges exactly those two |
| ForwardLists.SwapRemovesInversion | shramko.maksim/common/FwdList/FwdList.hpp:322-326 | swapping an adjacent pair out of order removes exactly one inversion, so the bubble sort terminates |
| ForwardLists.AdjacentSortedIsSorted | shramko.maksim/common/FwdList/FwdList.hpp:304-331 | when the comparison's negation is transitive, no adjacent pair out of order means the whole list is non-descending |
| ForwardLists.ForwardList.constructor | shramko.maksim/common/FwdList/FwdList.hpp:71-76 | the empty list |
| ForwardLists.ForwardList.Copy | shramko.maksim/common/FwdList/FwdList.hpp:78-88 | the copy constructor: the same values in the same order, in new nodes |
| ForwardLists.ForwardList.IsEmpty | shramko.maksim/common/FwdList/FwdList.hpp:208-212 | `isEmpty` holds exactly when there are no values |
| ForwardLists.ForwardList.GetSize | shramko.maksim/common/FwdList/FwdList.hpp:214-218 | `getSize` is the number of values |
| ForwardLists.ForwardList.GetFront | shramko.maksim/common/FwdList/FwdList.hpp:168-196 | `getFront`: the first value, or `logic_error` exactly on an empty list |
| ForwardLists.ForwardList.GetBack | shramko.maksim/common/FwdList/FwdList.hpp:178-206 | `getBack`: the last value, or `logic_error` exactly on an empty list |
| ForwardLists.ForwardList.AddToFront | shramko.maksim/common/FwdList/FwdList.hpp:220-242 | `addToFront` prepends the value in a new node |
| ForwardLists.ForwardList.AddToBack | shramko.maksim/common/FwdList/FwdList.hpp:260-285 | `addToBack` appends the value in a new node, keeping the earlier values as a prefix |
| ForwardLists.ForwardList.RemoveFront | shramko.maksim/common/FwdList/FwdList.hpp:244-258 | `removeFront` drops the first value, and does nothing on an empty list |
| ForwardLists.ForwardList.ClearAll | shramko.maksim/common/FwdList/FwdList.hpp:295-302 | `clearAll` leaves an empty list of size 0 |
| ForwardLists.ForwardList.SwapLists | shramko.maksim/common/FwdList/FwdList.hpp:287-293 | `swapLists` exchanges the two lists' contents and nodes |
| ForwardLists.ForwardList.Assign | shramko.maksim/common/FwdList/FwdList.hpp:100-109 | copy assignment: a copy of the other list swapped in, so the list holds the other list's values (nothing changes for self-assignment) |
| ForwardLists.ForwardList.Sort | shramko.maksim/common/FwdList/FwdList.hpp:304-331 | `sort(comp)`: the same nodes now hold a permutation of the values with no adjacent pair out of order; a list of fewer than two values is unchanged |
| ForwardLists.ForwardList.Pass | shramko.maksim/common/FwdList/FwdList.hpp:316-329 | one pass of the do-while loop: a permutation; with a swap the inversions strictly decrease, and without one nothing changed and no adjacent pair is out of order |
| ForwardLists.ForwardList.Exchange | shramko.maksim/common/FwdList/FwdList.hpp:324 | swapping the data of two adjacent nodes swaps exactly those two values |
| LinkedStack.Stack.constructor | shramko.maksim/S2/stack.hpp:53-64 | the empty stack |
| LinkedStack.Stack.Copy | shramko.maksim/S2/stack.hpp:53-64 | the copy constructor: the same values from the top down, in new nodes |
| LinkedStack.Stack.Push | shramko.maksim/S2/stack.hpp:104-116 | `push` puts the value on top of the others |
| LinkedStack.Stack.Pop | shramko.maksim/S2/stack.hpp:118-129 | `pop` removes the top value; `logic_error` with no change on an empty stack |
| LinkedStack.Stack.Top | shramko.maksim/S2/stack.hpp:143-161 | `top`: the top value, or `logic_error` exactly on an empty stack |
| LinkedStack.Stack.Size | shramko.maksim/S2/stack.hpp:131-135 | `size` is the number of values |
| LinkedStack.Stack.Empty | shramko.maksim/S2/stack.hpp:137-141 | `empty` holds exactly when there are no values |
| LinkedStack.Stack.Swap | shramko.maksim/S2/stack.hpp:163-168 | `swap` exchanges the two stacks' contents |
| LinkedStack.Stack.Assign | shramko.maksim/S2/stack.hpp:66-75 | copy assignment leaves a copy of the other stack's values |
| LinkedStack.PushThenPop | shramko.maksim/S2/stack.hpp:104-151 | LIFO: after `push(v)`, `top` is `v` (the value returned), and `pop` restores the stack |
| LinkedQueue.Queue.constructor | shramko.maksim/S2/queue.hpp:54-56 | the empty queue |
| LinkedQueue.Queue.CopyAsWritten | shramko.maksim/S2/queue.hpp:54-66 | the copy constructor as written: the same values and size, but the tail is the first node |
| LinkedQueue.Queue.Copy | shramko.maksim/S2/queue.hpp:54-66 | the corrected copy: the same values with the tail at the last node |
| LinkedQueue.Queue.Push | shramko.maksim/S2/queue.hpp:109-139 | `push` links after the tail: a plain append when the tail is the last node; after the tail at position `k` the values are the first `k + 1` and then `v` |
| LinkedQueue.Queue.Pop | shramko.maksim/S2/queue.hpp:141-156 | `pop` removes the front value (FIFO); `logic_error` with no change on an empty queue |
| LinkedQueue.Queue.Front | shramko.maksim/S2/queue.hpp:170-188 | `front`: the first value, or `logic_error` exactly on an empty queue |
| LinkedQueue.Queue.Size | shramko.maksim/S2/queue.hpp:158-162 | `size` reads `size_` in every reachable state: at least the number of values, and exactly that number in the intended state |
| LinkedQueue.Queue.Empty | shramko.maksim/S2/queue.hpp:164-168 | `empty` is `size_ == 0` in every reachable state, which implies no values; in the intended state it holds exactly when there are no values |
| LinkedQueue.Queue.Swap | shramko.maksim/S2/queue.hpp:190-196 | `swap` exchanges heads, tails, sizes and contents |
| LinkedQueue.Queue.Assign | shramko.maksim/S2/queue.hpp:68-77 | copy assignment takes the other queue's values through the copy constructor, and so its first-node tail |
| LinkedQueue.PushOntoCopyAsWritten | shramko.maksim/S2/queue.hpp:54-66 | pushing `v` onto a copy of a queue of two or more values leaves `[first, v]`, while the size says one more than the original |
| LinkedQueue.PushOntoCopy | shramko.maksim/S2/queue.hpp:109-139 | with the corrected copy, a push onto the copy appends `v` |
| SearchTree.EntriesHaveKeys | shramko.maksim/common/UBST/UBST.hpp:22-30 | the stored map's keys are exactly the node keys |
| SearchTree.FindNodeFacts | shramko.maksim/common/UBST/UBST.hpp:36-44 | `findNode` finds a node exactly for the keys in the map, and that node holds the key's value |
| SearchTree.InsertNodeFacts | shramko.maksim/common/UBST/UBST.hpp:46-61 | `insertNode` keeps the order, adds the key or overwrites its value, reports a new node exactly for a new key, and then adds one node |
| SearchTree.RemoveLeastFacts | shramko.maksim/common/UBST/UBST.hpp:63-66 | the minimum node of a subtree holds its least key, and removing it keeps the order and drops exactly that entry |
| SearchTree.DeleteNodeFacts | shramko.maksim/common/UBST/UBST.hpp:73-104 | the corrected `deleteNode` keeps the order and removes exactly the node's own entry and one node |
| SearchTree.EraseInFacts | shramko.maksim/common/UBST/UBST.hpp:168-173 | the corrected erase removes exactly the key, keeps the order, and removes one node exactly when the key was present |
| SearchTree.EraseInAsWrittenFacts | shramko.maksim/common/UBST/UBST.hpp:73-93 | the erase as written keeps the order and one node fewer, but drops the entry of Victim, which for a two-child node is the successor |
| SearchTree.EraseInAsWrittenLosesSuccessor | shramko.maksim/common/UBST/UBST.hpp:89 | concrete tree 1 2 3: erasing 2 as written keeps 2 with its value and loses 3, where the corrected erase keeps 1 and 3 |
| SearchTree.VictimWithin | shramko.maksim/common/UBST/UBST.hpp:73-93 | the entry lost by the erase as written is a key of the tree whenever the erased key is |
| SearchTree.CopyTreeSame | shramko.maksim/common/UBST/UBST.hpp:243-251 | `copyTree` reproduces the same shape, keys and values |
| SearchTree.CountKeys | shramko.maksim/common/UBST/UBST.hpp:179-181 | in an ordered tree the node count is the number of distinct keys |
| SearchTree.InOrderFacts | shramko.maksim/common/UBST/UBST.hpp:193-208 | the in-order listing has one item per node, each a stored entry, in strictly ascending key order |
| SearchTree.RevOrderFacts | shramko.maksim/common/UBST/UBST.hpp:210-225 | the right-node-left listing is the in-order listing reversed, in strictly descending key order |
| SearchTree.BfsIsLevels | shramko.maksim/common/UBST/UBST.hpp:227-240 | the queue-driven walk lists the roots of one level, left to right, before the next level |
| SearchTree.BfsItems | shramko.maksim/common/UBST/UBST.hpp:227-240 | the breadth walk visits every entry of every queued tree exactly once |
| SearchTree.BreadthFacts | shramko.maksim/common/UBST/UBST.hpp:227-240 | `traverse_breadth` is level order, left before right, and visits each entry once |
| SearchTree.UBstTree.constructor | shramko.maksim/common/UBST/UBST.hpp:109-112 | the empty tree |
| SearchTree.UBstTree.Copy | shramko.maksim/common/UBST/UBST.hpp:109-112 | the copy constructor: the same shape, entries and size |
| SearchTree.UBstTree.Insert | shramko.maksim/common/UBST/UBST.hpp:160-166 | `insert`: insert-or-assign of the key's value; the size grows exactly for a new key |
| SearchTree.UBstTree.Index | shramko.maksim/common/UBST/UBST.hpp:143-150 | `operator[]`: an absent key is inserted with the default value; it returns the value stored for the key |
| SearchTree.UBstTree.At | shramko.maksim/common/UBST/UBST.hpp:152-158 | `at`: the stored value, or `out_of_range` exactly for an absent key |
| SearchTree.UBstTree.Erase | shramko.maksim/common/UBST/UBST.hpp:168-173 | `erase` (corrected): the map loses exactly the key; the size drops by one exactly when it was present |
| SearchTree.UBstTree.Contains | shramko.maksim/common/UBST/UBST.hpp:175-177 | `contains` is membership in the map |
| SearchTree.UBstTree.GetSize | shramko.maksim/common/UBST/UBST.hpp:179-181 | `size` is the number of entries |
| SearchTree.UBstTree.Empty | shramko.maksim/common/UBST/UBST.hpp:183-185 | `empty` holds exactly for the empty map |
| SearchTree.UBstTree.Clear | shramko.maksim/common/UBST/UBST.hpp:187-191 | `clear`: the empty map and size 0 |
| SearchTree.UBstTree.TraverseLnr | shramko.maksim/common/UBST/UBST.hpp:193-208 | the stack loop visits the in-order listing |
| SearchTree.UBstTree.TraverseRnl | shramko.maksim/common/UBST/UBST.hpp:210-225 | the mirrored stack loop visits the reversed listing |
| SearchTree.UBstTree.TraverseBreadth | shramko.maksim/common/UBST/UBST.hpp:227-240 | the queue loop visits Bfs of the root |
| TreeIterator.Rank | shramko.maksim/common/UBST/constiterator.hpp:41-88 | a node's position in the in-order listing |
| TreeIterator.RankEntry | shramko.maksim/common/UBST/constiterator.hpp:27-32 | the in-order item at a node's rank is that node's key and value |
| TreeIterator.RankOfPath | shramko.maksim/common/UBST/constiterator.hpp:41-88 | every rank belongs to a node |
| TreeIterator.PathOfRank | shramko.maksim/common/UBST/constiterator.hpp:41-88 | distinct nodes have distinct ranks |
| TreeIterator.ConstIterator.constructor | shramko.maksim/common/UBST/constiterator.hpp:19-21 | the null iterator, on no node |
| TreeIterator.ConstIterator.At | shramko.maksim/common/UBST/constiterator.hpp:23-25 | an iterator on a given node |
| TreeIterator.ConstIterator.Get | shramko.maksim/common/UBST/constiterator.hpp:27-32 | dereference: the node's key and value, which is its in-order item |
| TreeIterator.ConstIterator.Increment | shramko.maksim/common/UBST/constiterator.hpp:41-60 | `++`: the leftmost node of the right subtree, or the first ancestor reached from a left child; in-order rank plus one, and null after the maximum |
| TreeIterator.ConstIterator.Decrement | shramko.maksim/common/UBST/constiterator.hpp:69-88 | `--`: the mirror image; in-order rank minus one, and null before the minimum |
| TreeIterator.ConstIterator.PostIncrement | shramko.maksim/common/UBST/constiterator.hpp:62-67 | `++(int)` returns the previous position and advances |
| TreeIterator.ConstIterator.PostDecrement | shramko.maksim/common/UBST/constiterator.hpp:90-95 | `--(int)` returns the previous position and steps back |
| TreeIterator.ConstIterator.Equals | shramko.maksim/common/UBST/constiterator.hpp:97-105 | equality is node identity, which for two nodes of one tree is equality of ranks |
| TreeIterator.IncrementThenDecrement | shramko.maksim/common/UBST/constiterator.hpp:41-88 | `--` after a `++` that did not reach the end returns to the original node |
| TreeIterator.NextKey | shramko.maksim/common/UBST/constiterator.hpp:41-60 | in an ordered tree, `++` reaches the in-order successor: the least key above the current one |
| TreeIterator.PrevKey | shramko.maksim/common/UBST/constiterator.hpp:69-88 | in an ordered tree, `--` reaches the in-order predecessor: the greatest key below the current one |

## Left out

- Integer width:
  - A count in `(*dict)[word] += freq` can overflow `int`; the model's counts are unbounded.
  - `size_t` sizes, counters and the `top`/`bot` N are unbounded `nat`.
- Input and output:
  - The `std::getline` loop of `main` is one HandleLine per line.
  - Opening a file is a parameter: a missing file, or the words read from it.
  - `std::ostream` writes are returned strings.
  - Of the texts of `e.what()` that `main`'s catch prints, only the `bad_function_call` text is modelled, in libstdc++'s wording.
  - `file >> word` is modelled by the same white-space tokenizer as `splitString`.
- Floating point:
  - `median` prints the average of the two middle frequencies as a `double`. Commands.Median returns the two middle values.
  - The load factor and the maximum load factor are the rational `loadNum / loadDen`.
- Memory management:
  - `new` failures, destructors, `delete`, move constructors and move assignment of every container are not modelled.
  - `HashTable(capacity)` requires a capacity above 0, because `% 0` is undefined.
- The hash functions `std::hash` and `PairHash` are a parameter `K -> nat`.
- HashTable:
  - `empty()`, `size()` and `loadFactor()` are the fields they read; they are not separate members.
  - The copy constructor, copy assignment, `swap`, `erase(first, last)`, `insert(first, last)` and the range constructor are not modelled. They are loops over `insert`/`erase`, or moves of the fields.
  - The const versions of `at`, `find`, `cbegin` and `cend` are the same code as the others.
- HashTable.Table.FindPosition, HashTable.Table.InsertPosition and the members that call them require that the probe stops (`ProbeEnds`). In the source a probe over a table with no slot that stops it loops forever.
- HashTable.Table.Rehash: the re-insertion is one placement of `(*this)[key] = value` without `operator[]`'s own growth check.
  - In the source, `rehash(n)` nests once the live count exceeds `ml * n`: the re-inserting `operator[]` then starts its own `rehash(2 * capacity_)` in the middle of `rehash`. The source's own `rehash(capacity_ * 2)` calls reach that only with a maximum load factor below 1/2, but the public `rehash(n)` reaches it at any maximum. For example, with 13 live keys and the default 3/4, `rehash(16)` nests at the 13th re-insertion and ends with 32 slots, where the model's Rehash ends with 16.
  - It then returns `slots_[pos].data.second` with `pos` taken from the smaller array, so the assignment writes into an unrelated slot and the re-inserted key keeps `T{}`.
  - Example: 12 keys in the default 16 slots, then `max_load_factor(0.1)`. The 4th re-insertion into 32 slots nests `rehash(64)`.
  - The model does not lose these values and does not nest.
- HashTable.Table.Insert, HashTable.Table.Index and HashTable.Table.PlaceAndGrow promise one doubling of the capacity on an overload. Below a maximum load factor of 1/2, the source's growth `rehash` nests as above, so the table can end larger than double and lose values.
- HashTable.Table.SetMaxLoadFactor: for `0 < ml < 1/2` the source loses values through that stale reference when the rehash nests. The model's single-level rehash keeps every entry, so its `Contents() == old(Contents())` holds of the source only for `ml >= 1/2`.
- HashTable.Table.Rehash: the source names the undeclared `oldSlots` and `oldCapacity`. They are read as the swapped-out slot vector and its capacity.
- HashTable.Table.Index and HashTable.Table.Insert: for a live key with a tombstone earlier on its probe path, `get_insert_position` stops at the tombstone. `operator[]` writes a hidden duplicate `{key, T{}}` there, counts it in `size_`, and returns a reference to it. `table[k] = v` then writes into the hidden slot, so the update is lost while `find(k)` still returns the old value. `insert` writes a hidden duplicate `{key, value}` there, counts it, and returns true. Both contracts state this case: the landing slot is not occupied. No Findings row is given for it; it comes from the same tombstone handling as the `insert` row.
- HashTable.Table.Insert: the position returned after a growth is the stale position from before the rehash. The model states what it holds only when no rehash happened.
- HashIterator.Iterator.Equals compares cursors only; it has no contract beyond its body.
- HashIterator: the const iterator `HashConstIterator` is the same code as `HashIterator` and is not modelled separately.
- Graph and Dictionaries hold their edge tables and dictionaries as finite maps, not as the hash table and the search tree. The model's maps give the intended behaviour. In the source, three faults of the containers show through:
  - the hidden-slot fault of the table;
  - the erase fault of the tree;
  - the stale reference `operator[]` returns after a growth. `edges[{from, to}].push_back(weight)` in `add_edge`, and `edges[...]` in `merge` and `extract`, then write to whatever the new array holds at the old position. The 13th distinct edge on the default table (16 slots, 3/4) grows it. Its weight goes into an unoccupied slot, where it is lost, or into another edge's list, and the new edge keeps an empty list.
- Graph.Graph.Merge requires `other` to be a different graph. Merging a graph into itself inserts a vector's range into that same vector, which is undefined.
- Dictionaries.DictionaryManager.RemoveWord erases through the corrected search-tree erase. `return dict->erase(word)` returns `void` in the source and is read as `true`.
- Commands.CreateCommandMap registers the eleven names by a loop over a constant list, in the source's order. The source writes eleven statements.
- ForwardLists.ForwardList.Sort does not state stability. The swap is taken only on a strict comparison, so equal elements keep their order, but that is not proved.
- The list iterators `fwd_iterator.hpp` and `fwd_const_iterator.hpp` are not part of this model. Their walks appear as loops over the nodes.
- LinkedQueue.Queue.Push requires the tail to be a linked node (`TailLinked`). After `pop` empties the head part of a copy made as written, the tail can be a deleted node, and a `push` would write to freed memory.
- SearchTree and Commands: `UBstTree` declares no `find`, `cbegin` or `cend`, although the dictionary manager and the commands call them. `constiterator.hpp` walks the `Node<Key,Value>` of `node.hpp`, not the node of `UBstTree`. The model reads `find` as the tree search and these walks as the tree's in-order traversal (Commands.Walk, Commands.ListingFacts).
- SearchTree:
  - Keys are `int` with `std::less`; the comparator is not a parameter.
  - The tree is a value without parent links, so `transplant` and the `minRight->parent != node` case are not spelled out. DeleteNode gives their combined effect.
- TreeIterator:
  - An iterator is a path from the root, not a node pointer.
  - ConstIterator.Equals requires that both iterators belong to the same tree.
  - `++` and `--` on the null iterator are undefined in the source and are excluded.
  - The `thread_local` buffer of `operator*` and `operator->` is not modelled.
- SearchTree.Bfs treats an empty subtree in the queue as skipped. The source never enqueues one.

## Findings

| source | as written | input that shows it | evidently intended | confidence | as-written member | corrected member |
|---|---|---|---|---|---|---|
| shramko.maksim/common/HashTable/hash_table.hpp:326-327 | inserting on a tombstone sets `occupied` but leaves `deleted` set, so the new entry is invisible to `find_position` and to iterators, yet is counted in `size_` | hash of every key 0, capacity 2: insert 1, erase 1, insert 2; `find(2)` is `end()` | a reused tombstone becomes a live slot (`deleted = false`) | not executed | HashTable.TombstoneReuseExample | HashTable.InsertFixedAdds |
| shramko.maksim/common/UBST/UBST.hpp:89 | erasing a node with two children first unlinks the successor from its place, puts it in the erased node's place, and then overwrites the successor's data with the erased node's data, so the successor's entry is lost and the erased key stays | tree with root 2, left 1, right 3: `erase(2)` leaves keys 1 and 2 | the successor's data moves into the erased node | not executed | SearchTree.EraseInAsWrittenLosesSuccessor | SearchTree.EraseInFacts |
| shramko.maksim/S2/queue.hpp:62 | the copy constructor sets `tail_` only to the first new node, so a `push` onto a copy of two or more values links after the first node | copy of a queue holding 1, 2, then `push(3)`: the copy holds 1, 3 with size 3 | `tail_` follows each new node | not executed | LinkedQueue.PushOntoCopyAsWritten | LinkedQueue.PushOntoCopy |
