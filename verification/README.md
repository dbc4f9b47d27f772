# Open-addressing hash table, string hash and Boggle search — a Dafny model

This project models three C++ components of a small course repository.

- `ht.h` holds an open-addressing hash table. Its probing strategy is pluggable: linear or double hashing. Deletion is lazy: items are marked deleted and left in place as tombstones. The capacity grows along a fixed ladder of 28 sizes.
- `hash.h` holds `MyStringHash`, a string hash. It reads the last 30 characters as five base-36 chunks of six characters, weights each chunk with a coefficient and wraps the sum modulo 2^64.
- `boggle.cpp` holds a Boggle solver. It walks straight lines on a board (read as its top-left square), guided by a dictionary set and a prefix set.

The model follows the source form by form:

- **Probers.** `LinearProber` and `DoubleHashProber` are classes whose `Init`/`Next` methods update `start`, `m`, `numProbes` and `step` as in ht.h. Pure functions give the i-th candidate (`LinearLoc`, `DoubleHashLoc`). Lemmas prove the linear sequence a permutation of the slots.
- **Hash table.** `HashTable` is a class over an `array<Slot>`. Every operation is a method with the loop and the branches of ht.h.
  - Its abstract value is a ghost map `contents`. `Valid()` ties that map to the slots.
  - The central invariant: every live item sits exactly where the probe walk of its key first stops (`FirstStop`), and the two counters equal the numbers of live and deleted slots.
  - `insert` calls `resize`, and `resize` calls `insert` on every live item. The model keeps this as mutually recursive methods. They terminate because the ladder index grows.
- **String hash.** The hash function is a method with the nested chunk loop and the summation loop of hash.h. It is proved equal to a pure definition: `Digits` → `ChunkValue` (base-36) → `Weights` → `HashValue`. The properties are lemmas about that definition.
- **Boggle.**
  - `boggleHelper` is a recursive method that threads the result set and inserts into it. It is proved against the pure function `Helper`, which returns the word inserted (`Some`, the C++ `true`) or `None`.
  - `HelperRecordsLongest` describes `Helper` without its recursion: the longest reachable dictionary word on the line.
  - `boggle` is the double loop over cells.
  - The set-building loop of `parseDict` runs over a sequence of words.

Some behaviours of the code differ from what such a container often does; the model keeps them:

- **Load check.** `insert` checks `(size + deletedCount) / capacity >= alpha` before placing the item. There is no `+ 1` for the item about to be placed (ht.h:110-111). After an insertion the load can therefore reach or pass `alpha`: with alpha 0.4 the fifth key lands at 5/11.
- **Tombstones.** Deleted slots are never reused by `insert`. The walk passes over them, and only a rebuild in `resize` discards them (ht.h:117-127). A key inserted after a removal does not go into the tombstone.
- **alpha.** `alpha` is not validated: no configuration error exists in the code.
- **Prober state.** The prober is a table-owned object, re-initialised by every operation (ht.h:115, 190, 225).

Files:

| file | module |
|---|---|
| `util.dfy` | `Util` |
| `probers.dfy` | `Probers` |
| `hashtable.dfy` | `HashTables` |
| `stringhash.dfy` | `StringHashing` |
| `boggle.dfy` | `Boggle` |

- `Util` holds `Option`, ascending tables and modular-arithmetic facts.
- `Probers` holds both probers and the sub-modulus table.
- `HashTables` holds the slots, the invariant and the `HashTable` class.
- `StringHashing` holds the digit map, base 36, chunks and `MyStringHash`.
- `Boggle` holds the line search, the board search and the dictionary sets.

## Model

| member | source | states |
|---|---|---|
| Probers.ModValuesAscend | ht.h:60-66 | the sub-modulus table is strictly ascending |
| Probers.LinearLoc | ht.h:27 | the i-th linear candidate is a slot index below `m` |
| Probers.LinearLocWraps | ht.h:27 | within one round the linear sequence counts up from `start % m` and wraps once past `m - 1` |
| Probers.LinearLocInjective | ht.h:25-30 | two of the first `m` linear probes that give the same slot are the same probe |
| Probers.LinearProbeIndexOf | ht.h:25-30 | every slot below `m` is reached by some probe number below `m` |
| Probers.LinearProbeVisitsEachSlotOnce | ht.h:17-30 | the first `m` linear probes are all below `m`, pairwise distinct, and cover every slot |
| Probers.LinearProber.constructor | ht.h:13-16 | a fresh prober has zero start, modulus and probe count |
| Probers.LinearProber.Init | ht.h:17-19 | `init` sets start and modulus and resets the probe count |
| Probers.LinearProber.Next | ht.h:25-30 | before `m` probes: returns `(start + numProbes) % m` and counts the probe; afterwards: `npos` and no change |
| Probers.LastBelow | ht.h:45-47 | the last table entry below `m` (or the default): it is in the table and below `m` when one exists, and no smaller than any entry below `m` |
| Probers.LastBelowIgnoresTail | ht.h:46 | entries at or above `m` at the end of an ascending table do not change the choice, so the scan may stop at the first one |
| Probers.LastBelowTakesNext | ht.h:46-47 | an entry below `m` is the choice for the prefix it ends |
| Probers.SubModulus | ht.h:44-47 | the sub-modulus is a table entry, at least 7, below `m` whenever `m > 7`, and the largest entry below `m` |
| Probers.ChooseSubModulus | ht.h:45-47 | the scan loop of `init` returns exactly `SubModulus(m)` |
| Probers.Step | ht.h:48 | the double-hash step lies in `[1, SubModulus(m)]`, so it is never zero |
| Probers.StepBelowTableSize | ht.h:45-48 | for every table size above 7, which includes every capacity, `1 <= step < m` |
| Probers.DoubleHashLoc | ht.h:53 | the i-th double-hash candidate is a slot index below `m` |
| Probers.DoubleHashProber.constructor | ht.h:40 | keeps the secondary hash; the C++ leaves the other fields uninitialised, and the model zeroes them, since none is read before `init` |
| Probers.DoubleHashProber.Init | ht.h:42-49 | sets start and modulus, resets the count, and the step is `SubModulus(m) - h2(key) % SubModulus(m)` |
| Probers.DoubleHashProber.Next | ht.h:51-56 | before `m` probes: returns `(start + step * numProbes) % m` and counts the probe; afterwards: `npos` and no change |
| HashTables.CapacitiesAscend | ht.h:234-238 | the capacity ladder is strictly ascending and starts at its smallest entry |
| HashTables.CapacityGrows | ht.h:205-207 | a later ladder index has a larger capacity |
| HashTables.CountUpdate | ht.h:120-137 | replacing one slot changes the live and deleted counts by exactly what leaves and what enters |
| HashTables.CountBound | ht.h:110 | live plus deleted slots never outnumber the slots |
| HashTables.EmptySlotExists | ht.h:118 | fewer live and deleted slots than slots means an empty slot exists |
| HashTables.CountAllEmpty | ht.h:207-209 | a table of null slots has no live and no deleted slot |
| HashTables.CountLivePrefix | ht.h:211-215 | counting live slots along the old table during a rebuild |
| HashTables.MirrorsDetermine | ht.h:178-185 | the live items determine the key-value map uniquely |
| HashTables.LiveMapPrefix | ht.h:211-215 | the items re-inserted from one more old slot add that slot's live item |
| HashTables.LiveMapMirrors | ht.h:211-215 | with unique live keys, the map built from the live slots is the map they hold |
| HashTables.RebuildStep | ht.h:211-215 | during a rebuild each live item brings a key not yet re-inserted, and what is re-inserted is part of the old map |
| HashTables.RebuildComplete | ht.h:211-218 | re-inserting every live slot gives back exactly the old map |
| HashTables.SubMapTransitive | ht.h:214 | entries kept through nested partial rebuilds are entries of the original map |
| HashTables.NeedsResize | ht.h:110-111 | the load check fires exactly when `(size + deletedCount) / capacity >= alpha`, compared as exact reals |
| HashTables.BelowThresholdLeavesRoom | ht.h:110-129 | with `alpha <= 1`, passing the load check leaves an empty slot |
| HashTables.RebuildStaysBelow | ht.h:211-215 | while a rebuild that fits re-inserts, the load check does not fire again |
| HashTables.LoadCheckAtFirstCapacity | ht.h:110-111 | at capacity 11 and alpha 0.4 the check passes with 4 items, fires with 5, and 5 items fit in 23 slots |
| HashTables.ProbeLoc | ht.h:25-56 | the candidate of either prober is below `m` |
| HashTables.HashTable.Path | ht.h:188-191 | the j-th slot the walk for a key visits from its home slot is below the table size |
| HashTables.HashTable.FirstStop | ht.h:188-200 | where the walk for a key ends: a visited slot that is empty or holds the key live, or none |
| HashTables.HashTable.EmptySlotsOk | ht.h:207-209 | a table of null slots satisfies the invariant with the empty map |
| HashTables.HashTable.StopPreserved | ht.h:118-135 | changing one slot keeps where another key's walk ends, as long as stops stay stops and skipped slots stay skipped |
| HashTables.HashTable.ExhaustedPassesAll | ht.h:127-129 | an exhausted walk passed over every slot it visited |
| HashTables.HashTable.LinearWalkStops | ht.h:117-129 | with linear probing an empty slot anywhere ends every walk |
| HashTables.HashTable.LiveKeysUnique | ht.h:117-126 | no key is held by two live slots |
| HashTables.HashTable.SlotsOkUnique | ht.h:117-126 | the invariant makes live keys unique and the slots hold exactly the map |
| HashTables.HashTable.WalkFindsContents | ht.h:178-200 | for a present key the walk ends at its live item with its value; for an absent key it ends at an empty slot or runs out |
| HashTables.HashTable.PlaceKeepsSlotsOk | ht.h:118-121 | filling the empty slot where a key's walk stops adds that key, which was absent, and keeps the invariant |
| HashTables.HashTable.OverwriteKeepsSlotsOk | ht.h:123-125 | overwriting the value of a key's live item updates the map and keeps the invariant |
| HashTables.HashTable.TombstoneKeepsSlotsOk | ht.h:134-137 | marking a live item deleted removes its key and keeps the invariant |
| HashTables.HashTable.constructor | ht.h:89-99 | a valid empty table at the first capacity, with the given alpha and hash; the prober is linear exactly for linear probing, and a double-hash prober keeps the given secondary hash |
| HashTables.HashTable.Size | ht.h:106 | `size()` is the number of keys present and the number of live slots |
| HashTables.HashTable.IsEmpty | ht.h:105 | `empty()` holds exactly when no key is present |
| HashTables.HashTable.ProbeInit | ht.h:188-190 | `prober_.init` puts the prober at probe 0 of the key's sequence |
| HashTables.HashTable.ProbeNext | ht.h:191-197 | `prober_.next` yields the next candidate of the key's sequence, or `npos` once it is exhausted |
| HashTables.HashTable.Probe | ht.h:188-200 | `probe` returns exactly where the key's walk first stops, or `npos` |
| HashTables.HashTable.InternalFind | ht.h:178-185 | finds a slot exactly when the key is present; that slot is where the key's walk stops, and it holds the key live with its value |
| HashTables.HashTable.Find | ht.h:141-150 | `find` yields the stored pair for a present key and null otherwise; slots and counters are untouched |
| HashTables.HashTable.At | ht.h:152-161 | `at` yields the value of a present key and the `out_of_range` error otherwise |
| HashTables.HashTable.Index | ht.h:163-164 | `operator[]` behaves as `at` and never inserts |
| HashTables.HashTable.Remove | ht.h:132-139 | the key leaves the map. If it was present, the slot where its walk stops becomes a tombstone and no other slot changes; size drops by one and deletedCount rises by one. Otherwise nothing changes. |
| HashTables.HashTable.Insert | ht.h:108-130 | upsert: on success the map maps key to value and size grows only for a new key. Without growth the item goes into the slot where the walk stops. Growth happens exactly when the pre-placement load check fires. Below the last capacity the table then grows even if placing the item fails afterwards; at the last capacity `insert` fails with "No more capacity" and the slots, capacity and map are unchanged. "HashTable full" only when the walk is exhausted, never with linear probing and `alpha <= 1`. When it is reported, some key's walk runs out in the table as left. On failure the map is a sub-map of the old one; no value is added or changed. |
| HashTables.HashTable.GrowThenPlace | ht.h:110-129 | the branch where the check fires: at the last capacity "No more capacity" with the slots, capacity and map unchanged; otherwise it always grows, by exactly one step when the rebuild fits, even when placing then fails, and then places; on success no tombstones remain; "HashTable full" only when some key's walk runs out in the table as left |
| HashTables.HashTable.Place | ht.h:113-129 | the probe loop of `insert`: overwrites the key's live item or fills the first empty slot on the walk; "HashTable full" exactly when the walk is exhausted, then nothing changes |
| HashTables.HashTable.FillSlot | ht.h:118-121 | a new item in the empty slot where the walk stops; the key was absent and size grows by one |
| HashTables.HashTable.OverwriteSlot | ht.h:123-125 | only the value of the key's live item changes; size is unchanged |
| HashTables.HashTable.MoveToNextCapacity | ht.h:205-209 | one ladder step up, a fresh larger table of null slots, both counters zero |
| HashTables.HashTable.Resize | ht.h:202-219 | at the last capacity: "No more capacity" and nothing changes. Otherwise the capacity moves up to a fresh table before any item is re-inserted, so it has grown even when a re-insertion fails; on success, the same map and size, no tombstones and a larger capacity. When the rebuild fits, exactly one step is taken. "HashTable full" only when some key's walk runs out in the table as left. |
| HashTables.HashTable.Rebuild | ht.h:211-218 | re-inserting every live old item gives back the old map without tombstones; a failure part-way keeps a part of it, and "HashTable full" only when some key's walk runs out in the new table |
| HashTables.InsertBelowThreshold | ht.h:110-121 | at capacity 11 with alpha 0.4 and fewer than five keys, a new key is placed without growing |
| HashTables.InsertPastThreshold | ht.h:108-111 | with five keys at capacity 11, the next insertion first grows the table to 23 slots and then maps the new key to its value |
| HashTables.LoadFactorScenario | ht.h:108-111 | with alpha 0.4, five distinct keys leave the capacity at 11 and the sixth grows it to 23 |
| StringHashing.ToLower | hash.h:68 | `tolower` in the C locale changes only 'A'..'Z', to the matching lower-case letter |
| StringHashing.LetterDigitToNumber | hash.h:66-72 | letters of either case map to 0..25, digits to 26..35, anything else to 0; always below 36 |
| StringHashing.LetterDigitIgnoresCase | hash.h:67-69 | lower-casing a character first does not change its digit |
| StringHashing.Digits | hash.h:52 | one base-36 digit per character, each the character's `letterDigitToNumber` |
| StringHashing.Pow36 | hash.h:29-37 | powers of 36 are positive |
| StringHashing.Pow36Table | hash.h:30-37 | the `pow36` table holds 36^0 .. 36^5 |
| StringHashing.ToBase36 | hash.h:49-54 | writing a number as `len` base-36 digits gives `len` digits |
| StringHashing.Base36Below | hash.h:49-54 | a chunk of `d` digits has a value below 36^d |
| StringHashing.Base36RoundTrip | hash.h:49-54 | reading digits as a base-36 number and writing it back gives the same digits |
| StringHashing.Base36Injective | hash.h:49-54 | equal-length digit strings with equal base-36 values are equal |
| StringHashing.PositionalSumIsBase36 | hash.h:50-54 | the sum over the first `p` positions with weights 36^(end-1-pos) is the base-36 value of those digits scaled by the missing powers |
| StringHashing.PositionalSumWhole | hash.h:49-54 | over the whole chunk the positional sum is its base-36 value, the rightmost character least significant |
| StringHashing.ChunkValueKeepsDigits | hash.h:49-54 | two equal-length strings whose chunk has the same value have the same digits in that chunk: a chunk's value loses nothing beyond case and the characters that map to 0 |
| StringHashing.ChunkValueBelow | hash.h:49-55 | every chunk value is below 36^6 |
| StringHashing.Pow36Monotone | hash.h:29-37 | powers of 36 grow with the exponent |
| StringHashing.ChunkLimits | hash.h:44-47 | chunk `c` covers characters `[max(n-6c-6, 0), n-6c)`, and its value is the base-36 value of their digits |
| StringHashing.Weights | hash.h:39-56 | five chunk values, chunk `c` stored at index `4 - c` |
| StringHashing.StoredChunks | hash.h:39-55 | the `w` array after `c` rounds of the chunk loop has five entries |
| StringHashing.StoredChunksAt | hash.h:39-55 | after `c` rounds, the last `c` entries hold chunks `c-1 .. 0` and the others are still 0 |
| StringHashing.WeightsComplete | hash.h:43-45 | stopping at the `break` (or after five rounds) leaves exactly the five chunk values |
| StringHashing.HashValue | hash.h:58-62 | the digest is below 2^64 |
| StringHashing.DotOfZeros | hash.h:58-61 | zero chunks contribute nothing to the sum |
| StringHashing.UnusedChunksZero | hash.h:44-45 | chunks whose end `n - 6c` is at most 0, lying wholly before the string, stay 0 |
| StringHashing.EmptyStringHashesToZero | hash.h:44-62 | the empty string hashes to 0, whatever the coefficients |
| StringHashing.ShortStringUsesLastCoefficient | hash.h:42-61 | a string of at most six characters hashes to `rValues[4]` times its base-36 value |
| StringHashing.Tail30 | hash.h:27-28 | the last 30 characters are at most 30 characters |
| StringHashing.ChunkOfTail | hash.h:43-47 | each of the five chunks of a string equals the same chunk of its last 30 characters |
| StringHashing.OnlyLastThirtyMatter | hash.h:27-47 | strings with the same last 30 characters hash equally |
| StringHashing.SameDigitsSameHash | hash.h:52 | strings whose characters map to the same digits hash equally |
| StringHashing.CaseInsensitive | hash.h:66-69 | lower-casing a string does not change its hash |
| StringHashing.HashOfSingleLetter | hash.h:13-19 | with the debug coefficients "b" hashes to 261934300 |
| StringHashing.WrapAdd | hash.h:58-62 | adding reduced summands and reducing again is the reduced sum, so `unsigned long long` wrap-around is addition modulo 2^64 |
| StringHashing.AccumulateStep | hash.h:59-61 | one more round of the summation loop adds the next product modulo 2^64 |
| StringHashing.MyStringHash.constructor | hash.h:13-23 | the debug constructor keeps the five fixed coefficients |
| StringHashing.MyStringHash.ChunkStep | hash.h:50-53 | one round of the inner loop adds the next digit times its power of 36 |
| StringHashing.MyStringHash.ChunkLoop | hash.h:49-54 | the inner loop computes exactly the chunk value of chunk `c` |
| StringHashing.MyStringHash.FillChunks | hash.h:39-56 | the chunk loop fills `w` with exactly the five chunk values, including the early `break` |
| StringHashing.MyStringHash.Combine | hash.h:58-62 | the summation loop returns the weighted sum of the chunks modulo 2^64 |
| StringHashing.MyStringHash.Hash | hash.h:26-63 | `operator()` returns exactly the digest `HashValue(rValues, k)` |
| Boggle.Steps | boggle.cpp:95-97 | the number of board cells on a line is 0 from outside the board |
| Boggle.Walk | boggle.cpp:100-119 | the letters of the first `len` cells of a line form a word of `len` letters |
| Boggle.Helper | boggle.cpp:84-131 | returns nothing from outside the board; a recorded word is in the dictionary and extends the incoming word |
| Boggle.ShiftLine | boggle.cpp:100-120 | the word of `j` cells from a cell is the word of `j - 1` cells from the next cell, started one letter longer |
| Boggle.ReachableShift | boggle.cpp:103-120 | a cell further along the line is reached exactly when the one-letter-longer word is a prefix and the search from the next cell reaches it |
| Boggle.HelperRecordsLongest | boggle.cpp:100-130 | the helper records something exactly when a reachable word on the line is in the dictionary. What it records is that word, the incoming word followed by consecutive letters of the line, and no longer reachable word is in the dictionary. |
| Boggle.BoggleHelper | boggle.cpp:84-131 | returns true exactly when it inserts; the result grows by at most one word, the one `Helper` describes, and loses nothing |
| Boggle.CellWordsMembers | boggle.cpp:75-77 | the words inserted from a cell are those the three directions find |
| Boggle.RowWordsMembers | boggle.cpp:74-78 | the words inserted from a row prefix are those found from its cells |
| Boggle.BoardWordsMembers | boggle.cpp:73-79 | a word is in the result exactly when a launch from some cell in some direction finds it |
| Boggle.BoardWordsInDict | boggle.cpp:106-128 | every word the search finds is a dictionary word |
| Boggle.Search | boggle.cpp:66-81 | `boggle` returns exactly the words the launches find, all of them dictionary words |
| Boggle.DictOfMembers | boggle.cpp:53-54 | the dictionary holds exactly the words read |
| Boggle.PrefixesOfMembers | boggle.cpp:56-58 | the inner loop inserts exactly the prefixes of lengths 1 .. len-1 |
| Boggle.StrictPrefixesMembers | boggle.cpp:53-59 | the loop's prefix set holds exactly the non-empty strict prefixes of the words read |
| Boggle.PrefixSetMembers | boggle.cpp:53-61 | the prefix set holds "" and exactly the strict prefixes of words read, so a word is in it only as a strict prefix of another word |
| Boggle.ParseDict | boggle.cpp:50-62 | the loop builds exactly the dictionary and prefix sets described above |

## Left out

- File and stream I/O. The model leaves out opening and reading the dictionary file and the `invalid_argument` raised when it cannot be opened (boggle.cpp:46-49). `ParseDict` takes the sequence of words `>>` would extract. `printBoard` and `HashTable::reportAll` only write to a stream and are not modelled.
- `genBoard`, which fills the board from a `std::mt19937` seeded by its `seed` parameter (boggle.cpp:15-16). What it produces depends on that generator's output, which is not modelled.
- `MyStringHash::generateRValues` and the non-debug constructor path, which seed their generator from the system clock (hash.h:75-77). The hash keeps the debug coefficients, and `HashValue` takes any coefficients as a parameter.
- `totalProbes_`, a diagnostic counter with no effect on behaviour.
- The load check divides two integers as `double`. The model compares exact reals, `size + deletedCount >= alpha * capacity`. It does not capture floating-point rounding at the boundary.
- Raw `new`/`delete`, the destructor and the `std::move` of the slot vector. The slots are values of a `Slot` datatype in a fresh array.
- `std::hash<K>` and the `Hash2` functor are library code. They are function parameters `K -> nat`. `KEqual` is Dafny equality on `K`.
- The base `Prober::next` only throws and is never called through the template.
- Fixed-width integers.
  - Indices, counters and probe arithmetic are unbounded naturals. For every ladder capacity, `step * numProbes < m * m < 2^64`, so `size_t` never wraps there.
  - `MyStringHash` uses `unsigned long long` arithmetic. The model wraps the final sum modulo 2^64 explicitly. Each product `rValues[i] * w[i]` and each partial sum is reduced modulo 2^64 as well, so the wrap-around holds for any coefficients. With the debug coefficients no product reaches 2^62; for other coefficients a product may exceed 2^64 and wraps.
- StringHashing.MyStringHash.Hash: the `(int)` cast of the string length is not modelled, so strings of 2^31 or more characters are not treated as the C++ treats them.
- Characters. C++ `char`s are bytes; a Dafny `string` here stands for the byte sequence of the `std::string`, one `char` per byte. A character outside ASCII is several bytes in C++ and shifts the 6-character chunk boundaries and the 30-character tail; the model does not encode characters into bytes. Every character outside 'a'..'z', 'A'..'Z' and '0'..'9' maps to 0, as any byte outside those ranges does in the C locale.
- `StringHashing.MyStringHash.FillChunks`: the local array `w` of five `unsigned long long` is a sequence that the loop reassigns, not an array updated in place.
- `Boggle.BoggleHelper`: the result set passed by reference is threaded through as a value and returned. No aliasing is involved.
- `Boggle.Helper`: the directions are non-negative unit steps. These are the three that `boggle` uses, `(1,0)`, `(0,1)` and `(1,1)`. A direction of -1 added to an `unsigned` row or column converts to unsigned arithmetic: from a row or column of at least 1 it wraps back to the previous one, so the walk steps back normally, and only from row or column 0 does it exceed the board and end the walk. Negative directions are not modelled.
- `Boggle.Search`: every row must be at least as long as the board is tall. The C++ reads `board[r][c]` for every `c < board.size()` and is undefined on shorter rows; longer rows are allowed, and their extra columns are never read.
- Double-hash coverage. Whether the first `m` double-hash probes visit every slot depends on `gcd(step, m) == 1`. The model proves only that every candidate is a slot index and that `1 <= step < m` for every capacity. It does not prove the capacities prime.
- `HashTables.HashTable.Find`, `HashTables.HashTable.At` and `HashTables.HashTable.Index` return copies. The non-const C++ `find` returns an `ItemType*` and the non-const `at`/`operator[]` return a `V&` (ht.h:146-150, 157-164). A caller can write a value, or through `find` even a key, into the slot in place. That aliasing path is not modelled; the only updates the model has are `Insert` and `Remove`.
- The constructor's default arguments `alpha = 0.4`, `Prober()` and `Hash()` (ht.h:89-92) are not modelled. `HashTables.HashTable.constructor` takes alpha, the prober and the hash explicitly.
- Key types. `K` is restricted to types without references (`K(!new)`), so that "some key's walk runs out" can be stated over all keys.
- HashTables.HashTable.Insert: "HashTable full" is proved unreachable only for linear probing with `alpha <= 1`, not for double hashing, for the coverage reason above.

