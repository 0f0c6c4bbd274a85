# Dali core containers and generator: a verified model

Four components of dali-core, modelled in Dafny and proved:

* **`OpenHashMap`**: an open-addressed hash table with linear probing, tombstones, power-of-two capacity,
  in-place compaction and a growth policy with two thresholds (75% occupied, 62.5% live).
* **`LocklessBuffer`**: a double buffer shared by one writing and one reading thread through one atomic word.
* **`OrderedSet`**: a linked list in insertion order with an `OpenHashMap` index of separately allocated
  iterator cells.
* **The invoke-method generator** (selected algorithms): which classes are handles, when an overload group is
  ambiguous and what the generated dispatch does, and splitting an argument list at its top-level commas.

`dafny verify dfyconfig.toml` checks everything.

## How it is built

| file | content |
|---|---|
| `Wrappers.dfy` | an optional value |
| `HashIndex.dfy` | 32-bit words, masks, powers of two; the 64-bit finalizer; the probe step |
| `PowerRounding.dfy` | the bit-smearing that rounds up to a power of two |
| `ProbeTable.dfy` | slot arrays as values: live slots, the probe-chain invariant, counts, the represented map, rebuilding |
| `LoadPolicy.dfy` | every threshold in 32-bit arithmetic, and where it means what it says |
| `TableSteps.dfy` | each map operation as a function on tables; the invariant it keeps; the map operation it refines |
| `OpenHashMap.dfy` | the class: heap array, counters, probe loops; each method equals its function |
| `MapRuns.dfy` | whole runs: what Find sees, what rebuilds cost, how far the capacity goes |
| `LimitRuns.dfy` | runs to every combination of counters a table can have, and to the ones where something goes wrong |
| `ChurnRuns.dfy` | a hash under which live keys slide through the table: the exact peak live sizes at which the bounds hold |
| `LocklessBuffer.dfy` | the transition system of writer and reader, and safety over every interleaving |
| `LocklessBufferObject.dfy` | the class: arrays and state word; one method for each atomic step; Write and Read |
| `OrderedSet.dfy` | list, cells and index kept in agreement; the ledger of owned objects |
| `OrderedSetRuns.dfy` | whole runs of one set: the same calls on a plain list, conservation of cells and objects |
| `OrderedSetWorlds.dfy` | any number of sets in one heap, with moves between them and destruction |
| `HandleReachability.dfy`, `OverloadDispatch.dfy`, `ArgumentSplitting.dfy` | the generator's algorithms |

The hash map takes `Hash`, `KeyEqual`, the two sentinels, the zero value and the default value as parameters.
`Lawful` is all that is asked of them: distinct sentinels, an equality that is an equivalence, equal keys hashing
equally. `Insert` of a sentinel key aborts only after the table has been prepared, as in the code, so it may
change the capacity but never the content. A new key goes to the first slot of its probe sequence that is not
live: this one sentence replaces the `firstTombstone` bookkeeping, and `Store` is proved to implement it.

A zeroed slot (`calloc`, `memset`) is taken to hold the empty key: `Empty()` has to be the all-zero key, as it is for
pointers. What a zeroed value looks like is a parameter.

All capacity and counter arithmetic is the code's 32-bit arithmetic. Every reachable table is at most 75% occupied, at
every capacity, and holds at most 0x3000_0001 entries (`RunKeepsInvariant`). `Balanced` says which counters those are, and
exactly: each combination it admits is reached by a run, under any hash, given enough keys (`CountersAreReached`). So wherever a promise
fails for balanced counters it fails for a table; where one does, the exact condition and a run are given:

* The 75% and 62.5% tests mean what they say exactly up to 2^29 slots (`ThresholdsExactIff`). At 2^30 slots an eighth
  live already counts as 62.5%, so an insert can double a table that is an eighth live (`GrowsOnlyWhenLiveIff`,
  `DoublesAtAnEighth`).
* Churn cannot inflate the table beyond 16/5 of the peak live size: true of every rehash-free run with a given peak
  exactly if the peak is below 0x1400_0000 or at least 0x2800_0000 (`ChurnBoundIff`).
* `Insert` leaves room exactly under `Fits` (`FitsIff`); growing from 2^31 slots wraps to capacity 0
  (`GrowthWrapsAtMaximum`). After every rehash-free run with a given peak live size inserts go ahead exactly if that peak
  is below 0x1400_0000 (`InsertsGoAheadIff`); inserting 0x3000_0001 new keys into an empty map ends any further insert
  under every hash (`InsertEventuallyWraps`).
* A rebuild is paid for by the inserts before it exactly up to 2^30 slots (`PreparationPaysIff`, `QuarterFullRebuilds`).
  Over rehash-free runs, rebuilds scan at most 8 slots per insert exactly for peaks below 2^29 (`AmortisedCostIff`);
  from then on there are runs in which every update scans 2^31 slots (`AmortisedBoundFails` after reserving them,
  `AmortisedBoundFailsUnreserved` without, both under every hash).
* Compactions are an eighth of the slots apart exactly up to 2^30 slots (`CompactionsAreApartIff`).
* `Rehash` settles on an adequate capacity exactly if its loop stops (`RehashFitsIff`, `RehashWorksIff`). For a quarter-full
  table of 2^31 slots and a target above 2^30 it does not (`RehashNeverStops`, reached in `RehashHangs`).

Where a bound on the peak makes a promise true, it is proved for every hash and with explicit rehashes as well
(`ChurnCannotInflate`, `AmortisedRebuildCost`, `ModestRunsNeverStick`, `ShortHistoriesRun`); the failing runs behind the
three exact peaks use a hash that undoes the finalizer, so that consecutive keys get consecutive slots.

`Fits` and `RehashFits` are the only preconditions of `Insert` and `Rehash`.

The enum names of the lockless buffer (`R0W1 = 0`, "read from 0, write to 1") and the remark that the state is negated
to get the index do not describe the code: the low bit is itself the index being written and the reader uses the
other buffer. The model follows the code.

An `OrderedSet` whose list values are overwritten and then reindexed counts a replaced object as handed back and its
replacement as pushed; a permutation leaves its ledger as it was.

An `OrderedSet` deletes an object exactly when an owning set erases or clears it; this is stated in the contracts of the
methods on the plain set of live objects, beside the transitions `AfterErase` and `AfterClear`, and carried to runs
(`CallsAreFaithful`, `WorldConserves`).

The comment on `Rehash` promises "the smallest power-of-2 capacity that keeps load under 75%"; the code never goes
below 8 slots, and the model follows the code.

## Model

| member | source | states |
|---|---|---|
| HashIndex.FinalizerBijective | dali/integration-api/open-hash-map.h:428-431 | the two xor-shifts and the odd multiplication lose no information: an explicit inverse undoes them in both directions on all 64-bit words |
| HashIndex.FinalizerValues | dali/integration-api/open-hash-map.h:426-433 | the finalizer at five words, as literal 64-bit values: among them 1, whose bit spreads over the whole word, and the top bit alone, which reaches the low ones |
| HashIndex.BucketIsLowBits | dali/integration-api/open-hash-map.h:426-433 | truncation and mask pick the low bits of the finalized word: the home slot is that word modulo the capacity, hence in range |
| HashIndex.ProbeVisitsEverySlotOnce | dali/integration-api/open-hash-map.h:195 | the masked increment visits every slot exactly once in one cycle, at the step given by the cyclic distance |
| Words.MaskIsRemainder | dali/integration-api/open-hash-map.h:155 | masking with a power of two minus one is the remainder modulo that power |
| ProbeTable.HitComesBeforeEmpty | dali/integration-api/open-hash-map.h:216-231 | a probe for a stored key meets it before any empty slot, through tombstones |
| ProbeTable.StoreNew | dali/integration-api/open-hash-map.h:165-179 | storing an absent key in the first free slot of its probe sequence keeps probe chains and distinctness and adds exactly that pair to the represented map |
| ProbeTable.StoreValue | dali/integration-api/open-hash-map.h:188-193 | updating a present key keeps the stored key and changes only its value |
| ProbeTable.StoreTombstone | dali/integration-api/open-hash-map.h:260-265 | writing a tombstone over a live slot keeps every other probe chain and removes exactly that key |
| ProbeTable.RefillFacts | dali/integration-api/open-hash-map.h:482-496 | reinsertion without equality tests preserves the represented map, establishes the chains of the new mask, leaves no tombstone and loses no entry |
| ProbeTable.ContentsRepresents | dali/integration-api/open-hash-map.h:504-507 | the represented map has exactly the live entries, and as many of them as the live counter says |
| LoadPolicy.ThresholdsExactIff | dali/integration-api/open-hash-map.h:443-445 | the wrapped 75% and 62.5% tests agree with unbounded arithmetic for all counter values if and only if the capacity is at most 2^29 |
| LoadPolicy.GrowsOnlyWhenLiveIff | dali/integration-api/open-hash-map.h:443-465 | an insert doubles the table only at 62.5% live or more, for all counter values, if and only if the capacity is at most 2^29 (`LimitRuns.DoublesAtAnEighth` is a run to the failing counters) |
| LoadPolicy.DecisionFacts | dali/integration-api/open-hash-map.h:435-466 | every decision leaves a legal capacity strictly below 75% with room for one more entry; compaction up to 2^30 slots happens only below 62.5% live |
| LoadPolicy.FitsIff | dali/integration-api/open-hash-map.h:435-471 | the caller-checkable condition under which an insert's decision leaves room, exact for every counter value |
| LoadPolicy.GrowthWrapsAtMaximum | dali/integration-api/open-hash-map.h:470 | the counters at which an insert would rebuild at capacity 0, those every empty map reaches by 0x3000_0001 new keys |
| LoadPolicy.PreparationPaysIff | dali/integration-api/open-hash-map.h:454-462 | the slots a preparation scans are covered by what inserts have saved beyond 62.5% occupancy, for all counter values, if and only if the capacity is at most 2^30 |
| LoadPolicy.CreditPays | dali/integration-api/open-hash-map.h:443-465 | with fewer than 2^29 entries live, every preparation at every capacity is covered by credit that one occupied slot raises by at most eight |
| LoadPolicy.QuarterFullRebuilds | dali/integration-api/open-hash-map.h:443-464 | the concrete input: at 2^31 slots, 0x2000_0000 of them live and no tombstones, every insert is a rebuild in place and nothing has been saved for it |
| LoadPolicy.CompactionsAreApartIff | dali/integration-api/open-hash-map.h:459-461 | between a compaction and the next rebuild at the same capacity more than an eighth of the slots has to be filled, for all counter values, if and only if the capacity is at most 2^30 |
| LoadPolicy.RehashLoopStopsIff | dali/integration-api/open-hash-map.h:400-404 | the 32-bit doubling loop of Rehash stops if and only if the stated bound on four times the size holds |
| LoadPolicy.RehashNeverStops | dali/integration-api/open-hash-map.h:401-404 | the concrete input: a quarter-full 2^31-slot table rehashed at 0x4000_0001 doubles forever |
| LoadPolicy.RehashFitsIff | dali/integration-api/open-hash-map.h:398-404 | for every size a table can have, the loop settles at a capacity above 4/3 of the size if and only if it stops |
| PowerRounding.RoundUp | dali/public-api/math/math-utils.h:133-149 | the five shift-and-or steps on i - 1 give the power of two specified by `NextPowerOfTwo`, for every argument the assertion admits |
| PowerRounding.NextPowerOfTwoIsLeast | dali/public-api/math/math-utils.h:124-132 | that power of two is the least one at or above the argument |
| PowerRounding.SmearDoubles | dali/public-api/math/math-utils.h:142-146 | or-ing a smear of some width with itself shifted by that width is the smear of twice the width |
| PowerRounding.WideSmear | dali/public-api/math/math-utils.h:141-147 | a smear at least as wide as the number has all bits up to the highest one set |
| TableSteps.SlotsAgreeWithMap | dali/integration-api/open-hash-map.h:204-232 | some slot holds a key equal to k exactly when the represented map stores one; stored keys are pairwise inequivalent; the live counter is the size of the map |
| TableSteps.ProbeEnds | dali/integration-api/open-hash-map.h:159-196 | every allocated table within the invariant has an empty slot, so every probe sequence has a free one |
| TableSteps.RebuiltFacts | dali/integration-api/open-hash-map.h:473-502 | RehashTo keeps the map exactly, keeps the invariant at the new capacity, leaves occupied equal to live and no tombstone |
| TableSteps.PreparedFacts | dali/integration-api/open-hash-map.h:435-466 | preparing for an insert changes no content and leaves an allocated table strictly below 75% occupied |
| TableSteps.InsertedFacts | dali/integration-api/open-hash-map.h:140-197 | Insert keeps the invariant and is insert-or-update of the finite map on key classes; a sentinel key changes nothing in it |
| TableSteps.FirstInsertMakesEight | dali/integration-api/open-hash-map.h:418-471 | the first insert into a map without an array leaves exactly 8 slots |
| TableSteps.InsertedKeyByKey | dali/integration-api/open-hash-map.h:140-197 | key by key: inserting adds exactly that pair if no stored key is equal, and otherwise changes the value of the stored one alone |
| TableSteps.TombstonesAreReused | dali/integration-api/open-hash-map.h:159-187 | a new key whose probe meets a tombstone before an empty slot takes that tombstone: the occupied counter stays and one live entry is added |
| TableSteps.ErasedFacts | dali/integration-api/open-hash-map.h:239-270 | Erase keeps the invariant, removes exactly the key equal to the argument and leaves none equal to it |
| TableSteps.ErasedKeyByKey | dali/integration-api/open-hash-map.h:239-270 | key by key: erasing removes exactly the stored key equal to the argument, and nothing if there is none |
| TableSteps.ClearedFacts | dali/integration-api/open-hash-map.h:275-296 | Clear empties the map and keeps the capacity and the invariant; no slot is used and both counters are 0 |
| TableSteps.RehashCapacityIsLeast | dali/integration-api/open-hash-map.h:377-404 | the capacity of Rehash is the least power of two that is at least max(target, 8), with the literal 8, and keeps the live load strictly below 75% |
| TableSteps.RehashedFacts | dali/integration-api/open-hash-map.h:390-415 | Rehash keeps the map, leaves no tombstone, ends at that capacity (0 when empty with target 0), and repeating it changes nothing |
| TableSteps.FilledAfterInsert | dali/integration-api/open-hash-map.h:435-471 | filling with new keys only never leaves tombstones and keeps the capacity below 8/3 of the size |
| TableSteps.UpdateRescans | dali/integration-api/open-hash-map.h:435-466 | updating a present key of a 2^31-slot table between a quarter and three eighths live scans every slot and leaves another such table |
| HashMap.OpenHashMap.Find | dali/integration-api/open-hash-map.h:204-232 | the probe loop looks at no more slots than the table has and returns one whose key is equal to the argument, or none exactly when no slot of the table has one; its value is that of the represented map |
| HashMap.OpenHashMap.SetAt | dali/integration-api/open-hash-map.h:192-227 | writing through the pointer Find or Insert gave back changes the value of exactly that key |
| HashMap.OpenHashMap.Insert | dali/integration-api/open-hash-map.h:140-197 | the in-place method reaches exactly the table of `Inserted`: the content gains the pair or the stored key equal to the argument gets the value; the first insert makes 8 slots; the slot returned holds the value; aborts exactly on sentinels |
| HashMap.OpenHashMap.ProbeForInsert | dali/integration-api/open-hash-map.h:155-196 | the loop with `firstTombstone` stops within as many slots as the table has, at the key or the first empty slot, and remembers the first free slot |
| HashMap.OpenHashMap.Store | dali/integration-api/open-hash-map.h:163-193 | writing at the remembered tombstone or the empty slot, or over the value, reaches exactly the table of `Stored` |
| HashMap.OpenHashMap.Erase | dali/integration-api/open-hash-map.h:239-270 | reaches exactly the table of `Erased` within as many slots as the table has, takes the key equal to the argument and nothing else out of the content, and reports whether there was one |
| HashMap.OpenHashMap.Clear | dali/integration-api/open-hash-map.h:275-296 | reaches the table of `Cleared`, zeroing the array only if it is occupied: empty content, both counters 0, the capacity as before |
| HashMap.OpenHashMap.Release | dali/integration-api/open-hash-map.h:301-311 | gives the array back and empties the map |
| HashMap.OpenHashMap.Rehash | dali/integration-api/open-hash-map.h:390-415 | reaches exactly the table of `Rehashed`, with the content unchanged and at least the capacity asked for |
| HashMap.OpenHashMap.ChooseCapacity | dali/integration-api/open-hash-map.h:400-404 | the 32-bit doubling loop computes the least fitting capacity |
| HashMap.OpenHashMap.EnsureCapacityForInsert | dali/integration-api/open-hash-map.h:435-466 | takes the branch the 32-bit policy decides and reaches the table of `Prepared` |
| HashMap.OpenHashMap.RehashTo | dali/integration-api/open-hash-map.h:473-502 | replaces the array by the rebuilt one and resets the occupied counter |
| HashMap.OpenHashMap.Reinsert | dali/integration-api/open-hash-map.h:475-496 | the nested loops fill a fresh zeroed array with every live entry, old slot by old slot |
| HashMap.OpenHashMap.Reprobe | dali/integration-api/open-hash-map.h:488-492 | the inner loop ends within as many slots as the table has, at the first free slot of the key's probe sequence, without comparing keys |
| HashMap.OpenHashMap.ForEach | dali/integration-api/open-hash-map.h:338-351 | visits the live entries in slot order |
| HashMap.OpenHashMap.ForEachUpdate | dali/integration-api/open-hash-map.h:318-331 | a functor that changes values sees exactly the live entries in slot order; keys, counters and invariant stay, and the live entries afterwards are the ones it rewrote |
| HashMap.SweptIsFolded | dali/integration-api/open-hash-map.h:323-330 | sweeping the slots and then taking the live entries is folding the functor over the live entries |
| HashMap.OpenHashMap.Size | dali/integration-api/open-hash-map.h:356-359 | the live counter is the number of keys of the represented map |
| HashMap.OpenHashMap.Move | dali/integration-api/open-hash-map.h:104-114 | move construction hands the whole table over and leaves the source empty |
| HashMap.OpenHashMap.MoveAssign | dali/integration-api/open-hash-map.h:116-132 | move assignment hands the table over and empties the source, and is a no-op on itself |
| HashMap.ForEachVisitsTheMap | dali/integration-api/open-hash-map.h:318-351 | the visited entries are the represented map: each key once, with its value, as many as live entries |
| HashMap.ForEachVisitsInOrder | dali/integration-api/open-hash-map.h:318-351 | the visited entries are those of the live slots, each lower slot before each higher one |
| HashMap.FoldedInOrder | dali/integration-api/open-hash-map.h:318-331 | a functor that only keeps a log ends with the visited entries in their order, and changes none |
| MapRuns.RunKeepsInvariant | dali/integration-api/open-hash-map.h:140-502 | after every sequence of enabled calls the invariant holds, at most 75% of the slots are occupied and at most 0x3000_0001 of them, and an allocated table has an empty slot |
| MapRuns.RehashWorksIff | dali/integration-api/open-hash-map.h:390-404 | after any run an explicit rehash settles at an adequate capacity if and only if its loop stops, which the caller can check beforehand |
| MapRuns.RunsContinue | dali/integration-api/open-hash-map.h:140-415 | every call enabled in a reachable table extends the run, so the statements about runs cover all call sequences |
| MapRuns.FindSeesLastWrite | dali/integration-api/open-hash-map.h:140-415 | over every run, a slot holds a key equal to k exactly when the last relevant call was an insert of one, and it holds that insert's value |
| MapRuns.InsertPaysEight | dali/integration-api/open-hash-map.h:443-465 | up to 2^30 slots, the slots scanned plus eight times the occupancy beyond 62.5% grow by at most eight in one insert (`LoadPolicy.PreparationPaysIff` is the exact boundary) |
| MapRuns.RebuildsCostEightPerInsert | dali/integration-api/open-hash-map.h:435-502 | over every run whose inserts start at 2^30 slots or fewer, automatic rebuilds scan at most eight old slots per insert, plus the capacities explicit rehashes ended at |
| MapRuns.ModestRunsStaySmall | dali/integration-api/open-hash-map.h:435-471 | while fewer than 0x1400_0000 entries are live and rehashes ask for at most 2^29 slots, no table of a run exceeds 2^29 slots |
| MapRuns.ModestRunsNeverStick | dali/integration-api/open-hash-map.h:140-471 | every further call after such a run goes ahead: each insert has room and each such rehash works out (`ChurnRuns.InsertsGoAheadIff` is the exact boundary) |
| MapRuns.ShortHistoriesRun | dali/integration-api/open-hash-map.h:140-471 | any sequence of calls with fewer than 0x1400_0000 inserts and such rehashes is a run, so no precondition of any of its calls fails |
| MapRuns.CreditCoversRebuilds | dali/integration-api/open-hash-map.h:435-502 | over every run with fewer than 2^29 live entries at a time, scanned slots plus credit never exceed eight per insert plus the capacities of explicit rehashes |
| MapRuns.AmortisedRebuildCost | dali/integration-api/open-hash-map.h:454-462 | over every run with fewer than 2^29 live entries at a time, automatic rebuilds scan at most eight old slots per insert, plus the capacities explicit rehashes ended at (none without them); `ChurnRuns.AmortisedCostIff` is the exact boundary |
| LimitRuns.CountersAreReached | dali/integration-api/open-hash-map.h:140-415 | any counters within `Balanced` are those of a run, whatever the hash and the keys |
| LimitRuns.DoublesAtAnEighth | dali/integration-api/open-hash-map.h:443-465 | the concrete run: reserve 2^30 slots, insert 0x3000_0000 new keys, erase all but 0x800_0000, and the next insert doubles the table |
| LimitRuns.RehashHangs | dali/integration-api/open-hash-map.h:401-404 | the concrete run: reserve 2^31 slots, insert 0x2000_0000 new keys, and a rehash at 0x4000_0001 never stops |
| LimitRuns.AmortisedBoundFails | dali/integration-api/open-hash-map.h:443-464 | the concrete run: reserve 2^31 slots, insert 0x2000_0000 new keys, update one n times: n times 2^31 slots scanned, more than the bound from n = 4 on |
| LimitRuns.AmortisedBoundFailsUnreserved | dali/integration-api/open-hash-map.h:443-464 | the same without any rehash: insert 0x3000_0001 new keys, erase two, update one n times |
| LimitRuns.InsertEventuallyWraps | dali/integration-api/open-hash-map.h:468-471 | the concrete run: 0x3000_0001 new keys into an empty map end at 2^31 slots, where no insert is possible because the next one would rebuild at capacity 0 |
| MapRuns.CompactionsAreSpaced | dali/integration-api/open-hash-map.h:454-462 | after a compaction at up to 2^30 slots, whatever erases, clears and releases come in between, inserts numbering an eighth of the slots go by before the next rebuild that scans the table, at the same capacity unless it was released (`LoadPolicy.CompactionsAreApartIff` is the exact boundary) |
| MapRuns.ChurnCannotInflate | dali/integration-api/open-hash-map.h:450-462 | over every run with a peak live size below 0x1400_0000 or of at least 0x2800_0000, the capacity never exceeds the literal 8, 16/5 of that peak, or what an explicit rehash ended at |
| ChurnRuns.HomeIsRemainder | dali/integration-api/open-hash-map.h:426-433 | under a hash that undoes the finalizer the home slot of a key is the key modulo the capacity |
| ChurnRuns.RefillUsesHomes | dali/integration-api/open-hash-map.h:482-496 | a rebuild of keys with different homes occupies their home slots and no other |
| ChurnRuns.SlideToLargest | dali/integration-api/open-hash-map.h:443-471 | the concrete run: with never more than 0x1400_0000 keys live and no rehash, erasing the oldest key and inserting the next one brings the table to 2^31 slots |
| ChurnRuns.ChurnBoundIff | dali/integration-api/open-hash-map.h:450-462 | the 16/5 bound holds in all rehash-free runs of a given peak if and only if the peak is below 0x1400_0000 or at least 0x2800_0000 |
| ChurnRuns.InsertsGoAheadIff | dali/integration-api/open-hash-map.h:435-471 | after all rehash-free runs of a given peak inserts go ahead if and only if the peak is below 0x1400_0000 (or one that no run has) |
| ChurnRuns.AmortisedCostIff | dali/integration-api/open-hash-map.h:454-462 | rebuilds scan at most eight old slots per insert in all rehash-free runs of a given peak if and only if the peak is below 2^29 (or one that no run has) |
| LocklessBuffer.NextKeeps | dali/integration-api/lockless-buffer.cpp:46-89 | every step of either thread keeps the control, data and freshness invariants |
| LocklessBuffer.ReaderNeverSharesTheBuffer | dali/integration-api/lockless-buffer.cpp:46-89 | in every reachable state of every interleaving the buffer last returned by Read is not the one being filled, its index is the complement of the low bit, and it holds finished Writes only |
| LocklessBuffer.HeldBytesAreStable | dali/integration-api/lockless-buffer.h:67-70 | no step of either thread changes the bytes the reader was given until a Read returns |
| LocklessBuffer.WordDiscipline | dali/integration-api/lockless-buffer.cpp:51-84 | Write's closing compare-and-swap never fails, WRITING is set exactly between its two atomic operations, and only a Read that finds UPDATED set and WRITING clear flips the buffer bit |
| LocklessBuffer.ReadsAreUntorn | dali/integration-api/lockless-buffer.cpp:54-88 | the reader's buffer is what the first n finished Writes leave in it and starts with all bytes of the n-th, or is all zeros |
| LocklessBuffer.StampNamesTheBytes | dali/integration-api/lockless-buffer.cpp:56 | the number of the last finished Write into a buffer names the bytes it starts with, and later Writes to the other buffer do not matter |
| LocklessBuffer.ReadsNeverGoBack | dali/integration-api/lockless-buffer.cpp:67-89 | along every run each later Read shows the same Write or a later one |
| LocklessBuffer.UndisturbedReadSeesLatest | dali/integration-api/lockless-buffer.h:40-44 | a Read that overlaps no Write returns a buffer starting with all bytes of the latest finished Write |
| LocklessBufferObject.Buffer.constructor | dali/integration-api/lockless-buffer.cpp:28-38 | both buffers zeroed and the word 0, so Write starts at buffer 0: the initial state of the transition system |
| LocklessBufferObject.WordBits | dali/integration-api/lockless-buffer.h:85-94 | what the four flags are as bits of the state word: bit 0 names the buffer being written, 1 is WRITING, 2 is UPDATED |
| LocklessBufferObject.Buffer.FetchAndOr | dali/integration-api/lockless-buffer.cpp:51 | the first atomic operation of Write sets bit 1 and nothing else, and is one step of the transition system |
| LocklessBufferObject.Buffer.CopyOne | dali/integration-api/lockless-buffer.cpp:56 | one byte of the copy, at any position, is one step |
| LocklessBufferObject.Buffer.CompareAndSwapWriting | dali/integration-api/lockless-buffer.cpp:59-63 | the closing operation is one step, finds WRITING set and always succeeds |
| LocklessBufferObject.Buffer.Load | dali/integration-api/lockless-buffer.cpp:70-73 | the load of Read is one step |
| LocklessBufferObject.Buffer.Swap | dali/integration-api/lockless-buffer.cpp:77-88 | the compare-and-swap of Read and its return are one step, and the returned buffer is the one held |
| LocklessBufferObject.Buffer.Write | dali/integration-api/lockless-buffer.cpp:46-65 | undisturbed, Write replaces a prefix of the buffer named by bit 0, leaves the other buffer alone and sets bit 2; an oversized source is refused |
| LocklessBufferObject.Buffer.Read | dali/integration-api/lockless-buffer.cpp:67-89 | undisturbed, Read flips bit 0 and clears bit 2 exactly if bit 2 is set and bit 1 clear, returns the buffer that then is not named by bit 0, and changes no byte |
| OrderedSets.OrderedSet.PushBack | dali/integration-api/ordered-set.h:202-207 | is exactly the transition `AfterPush` with one newly allocated cell: the element, its node and its key are appended, index, cells and list agree, other sets' cells and all objects stay |
| OrderedSets.OrderedSet.Find | dali/integration-api/ordered-set.h:177-194 | the iterator of an element equal to the argument, or End exactly when no element is |
| OrderedSets.OrderedSet.Erase | dali/integration-api/ordered-set.h:232-267 | takes the element at the iterator out of list and index and frees its cell; an owning set deletes exactly this object and any other set none; returns the following iterator; End is a no-op |
| OrderedSets.OrderedSet.EraseObject | dali/integration-api/ordered-set.h:214-225 | erases the element equal to the argument, deleting exactly that object if owned, or changes nothing if there is none |
| OrderedSets.OrderedSet.Release | dali/integration-api/ordered-set.h:276-299 | takes element, key and cell out and hands the object back, with every object still alive |
| OrderedSets.OrderedSet.EraseFromCache | dali/integration-api/ordered-set.h:335-343 | frees the cell of the key equal to the argument and removes the key, reporting whether there was one |
| OrderedSets.OrderedSet.ReleaseCacheMap | dali/integration-api/ordered-set.h:345-349 | frees every cell of the index exactly once and releases the table |
| OrderedSets.OrderedSet.Clear | dali/integration-api/ordered-set.h:304-316 | an owning set deletes exactly the objects it lists and any other set none; every cell is freed and list and index end empty |
| OrderedSets.OrderedSet.SetValue | dali/integration-api/ordered-set.h:103-110 | overwriting a list value through an iterator changes that value alone in the whole state and keeps what ReorderCacheMap needs |
| OrderedSets.OrderedSet.ReorderCacheMap | dali/integration-api/ordered-set.h:318-328 | from overwritten list values, permuted or replaced, back to the whole invariant, with list order and other sets' cells unchanged and replaced objects accounted for |
| OrderedSets.OrderedSet.ReinsertElements | dali/integration-api/ordered-set.h:324-327 | the loop gives every element a fresh cell pointing at its node |
| OrderedSets.OrderedSet.Reserve | dali/integration-api/ordered-set.h:163-169 | where it grows, the index gets exactly the least fitting capacity of Rehash; otherwise nothing changes at all |
| OrderedSets.OrderedSet.Count | dali/integration-api/ordered-set.h:143-146 | the index size is the list length and the number of live cells of the set |
| OrderedSets.OrderedSet.Move | dali/integration-api/ordered-set.h:74-80 | move construction hands list, index, cells and ledger over and leaves an empty valid set |
| OrderedSets.OrderedSet.MoveAssign | dali/integration-api/ordered-set.h:85-93 | between distinct sets: an owning target deletes exactly the objects it listed, its cells are freed, list, content and ledger of the source change hands, the source is empty |
| OrderedSets.OrderedSet.MoveAssignSelf | dali/integration-api/ordered-set.h:85-93 | assigning a set to itself clears it, deleting what it listed if it owns it |
| OrderedSets.Memory.DeleteCell | dali/integration-api/ordered-set.h:340 | only a live cell can be freed, and every cell address ever allocated is live or has been freed exactly once |
| OrderedSets.PushKeeps | dali/integration-api/ordered-set.h:202-207 | pushing keeps agreement and accounting, appends one element and touches no foreign cell |
| OrderedSets.EraseKeeps | dali/integration-api/ordered-set.h:232-299 | removing an element keeps agreement and accounting whether the object is deleted or handed back |
| OrderedSets.EraseSeen | dali/integration-api/ordered-set.h:232-299 | what a removal means on plain sequences and sets: the list without one position, and exactly the removed object gone from the heap if it is deleted, none otherwise |
| OrderedSets.ClearKeeps | dali/integration-api/ordered-set.h:304-316 | clearing accounts for every element and touches no foreign cell |
| OrderedSets.MovedOverConsistent | dali/integration-api/ordered-set.h:85-93 | clearing the target of a move assignment cannot invalidate the content taken over |
| OrderedSets.CellsNumberElements | dali/integration-api/ordered-set.h:58-62 | keys never share a cell, so the live cells of a set number its keys |
| OrderedSets.AnyPermutationCanBeReindexed | dali/integration-api/ordered-set.h:318-328 | after any permutation of the list values the conditions of ReorderCacheMap hold, and it leaves the ledger as it was |
| OrderedSetRuns.CallsAreFaithful | dali/integration-api/ordered-set.h:163-349 | every call keeps agreement, ledger and foreign cells, does to the elements what the same call does to a plain list, and takes an object off the heap exactly when it counts it as deleted: the ones listed that an owning set erases or clears |
| OrderedSetRuns.ReindexingIsACall | dali/integration-api/ordered-set.h:318-328 | overwriting values and then calling ReorderCacheMap is one such call |
| OrderedSetRuns.RunConserves | dali/integration-api/ordered-set.h:163-349 | over every run of pushes, erases, releases, clears, reservations and reorderings: iteration order is that of a plain list, one live cell per element, foreign cells untouched, every object handed in is listed, deleted or handed back, each as often as it was handed in, and the objects at the start are those alive at the end and those deleted |
| OrderedSetRuns.PushOrderRemains | dali/integration-api/ordered-set.h:196-207 | without reordering, iteration order is push order minus removals, and what was handed in is what was pushed |
| OrderedSetWorlds.OthersSurvive | dali/integration-api/ordered-set.h:58-62 | a call on one set leaves every other set in the heap consistent and apart from it |
| OrderedSetWorlds.WorldKeeps | dali/integration-api/ordered-set.h:70-349 | no construction, call, move, destruction or outside change of the client's objects breaks the invariant of all sets: each consistent, no shared cell, no element owned twice, no cell without its set, nothing left of a destroyed set |
| OrderedSetWorlds.WorldConserves | dali/integration-api/ordered-set.h:70-349 | over every run of any number of sets with moves between them and destruction: the invariant of all sets, each set holds what the same calls leave in plain lists, every object handed to any set is listed, deleted or handed back, each as often as it was handed in, the sets delete exactly what owning sets erase, clear, lose as target of a move or hold when destroyed, and live objects plus deleted plus disposed are the initial ones plus those created |
| OrderedSetWorlds.LaterDeletes | dali/integration-api/ordered-set.h:70-349 | one call: an object leaves the heap exactly when a set counts it as deleted or the client deletes it, and the sets delete exactly what they should, in destructors and move assignments too |
| OrderedSetWorlds.WorldRunDeletes | dali/integration-api/ordered-set.h:70-349 | the same over every run, which sets own their elements included |
| OrderedSetWorlds.WorldRunsContinue | dali/integration-api/ordered-set.h:70-349 | every call the client may make extends the run, so the statements about runs cover all call sequences |
| OrderedSetWorlds.PushBackBeside | dali/integration-api/ordered-set.h:202-207 | from the contract of PushBack alone: a second set object in the same heap stays valid and apart, and all it sees is the new cell |
| HandleReachability.DerivesFromBaseHandle | scripts/dali-invoke-method-generator.py:390-404 | true exactly when a chain of declared bases reaches the name BaseHandle, on any graph and in any iteration order |
| HandleReachability.DerivesVisiting | scripts/dali-invoke-method-generator.py:390-404 | the recursive search with the shared visited set terminates, and a failed search leaves a set closed under bases |
| HandleReachability.OccursIff | scripts/dali-invoke-method-generator.py:415-416 | the substring test is true exactly when the text is something, then the word, then something |
| HandleReachability.HasDeclaredOrInheritedDownCast | scripts/dali-invoke-method-generator.py:407-422 | true exactly when a chain of declared bases reaches a class whose body is some text, then DownCast, then some text |
| HandleReachability.IsInvokableHandleClass | scripts/dali-invoke-method-generator.py:425-431 | declared, reaching a DownCast and reaching BaseHandle |
| HandleReachability.OwnDownCastSuffices | scripts/dali-invoke-method-generator.py:415-431 | the plainest handle class is one: a base BaseHandle, and DownCast anywhere in its own body |
| HandleReachability.ClosedSetBlocks | scripts/dali-invoke-method-generator.py:400-404 | a visited set closed under bases that misses the goal cuts every chain |
| OverloadDispatch.RequiredArgumentCount | scripts/dali-invoke-method-generator.py:215-225 | the prefix without defaults, or an error exactly when an argument without a default follows one with a default |
| OverloadDispatch.MakeMethod | scripts/dali-invoke-method-generator.py:553-560 | a parsed method has the length of its prefix without defaults as its required count, or is refused exactly in the bad order |
| OverloadDispatch.CandidatesAre | scripts/dali-invoke-method-generator.py:822-824 | the generated branches are each method at each arity from its required count to all of its arguments, each once |
| OverloadDispatch.CandidatesInOrder | scripts/dali-invoke-method-generator.py:822-824 | the branches come method by method, and for each method by increasing arity |
| OverloadDispatch.CandidatesAreCallable | scripts/dali-invoke-method-generator.py:790-824 | for parsed methods the branches are exactly the arities at which all arguments left out have defaults |
| OverloadDispatch.SameSignatureIff | scripts/dali-invoke-method-generator.py:783-797 | branches share a signature exactly when they have as many arguments and equal types position by position |
| OverloadDispatch.ValidateMethodGroup | scripts/dali-invoke-method-generator.py:787-798 | refuses a group exactly when two distinct branches have the same signature, naming the first branch that repeats one |
| OverloadDispatch.Dispatch | scripts/dali-invoke-method-generator.py:745-780 | the emitted sequence of branches takes the first one whose arity and argument types match, no earlier one matching, or none exactly when none matches |
| OverloadDispatch.UnambiguousIffOneMatch | scripts/dali-invoke-method-generator.py:787-798 | a group is accepted if and only if no vector of runtime argument types matches two branches |
| OverloadDispatch.OrderIsIrrelevant | scripts/dali-invoke-method-generator.py:801-828 | in an accepted group every order of the branches dispatches every runtime vector to the same branch |
| ArgumentSplitting.SplitArguments | scripts/dali-invoke-method-generator.py:108-130 | the loop returns the stripped fields of the stripped text, dropping an empty last one |
| ArgumentSplitting.SplitArgumentList | scripts/dali-invoke-method-generator.py:108-130 | over a grammar of texts with the literal pairs (), <>, [] and {}: arguments without a comma outside their brackets, listed with commas and any white space around these and around the whole, come back from the method one by one |
| ArgumentSplitting.TextIsBalanced | scripts/dali-invoke-method-generator.py:117-121 | every text of the grammar ends at depth 0 and never goes below it |
| ArgumentSplitting.TopCommasOfText | scripts/dali-invoke-method-generator.py:122-125 | in a text of the grammar the splitting commas are exactly those outside all pairs |
| ArgumentSplitting.DepthIsCount | scripts/dali-invoke-method-generator.py:117-121 | the depth is the number of the four opening brackets less that of the four closing ones |
| ArgumentSplitting.StripIff | scripts/dali-invoke-method-generator.py:111-128 | stripping cuts white space off both ends, and only that, until nothing is left or both ends are something else |
| ArgumentSplitting.IsSpaceIff | scripts/dali-invoke-method-generator.py:111-128 | what counts as white space, character by character |
| ArgumentSplitting.SplitBlank | scripts/dali-invoke-method-generator.py:110-111 | a blank text has no arguments |
| ArgumentSplitting.SplitTemplateArgument | scripts/dali-invoke-method-generator.py:117-121 | the concrete argument M<K,V>m is one argument |
| ArgumentSplitting.FieldsCharacterised | scripts/dali-invoke-method-generator.py:113-128 | the fields of any text are the one way to cut it at commas into pieces without top-level commas, all but the last balanced |
| ArgumentSplitting.SplitUndoesJoin | scripts/dali-invoke-method-generator.py:108-130 | trimmed non-empty balanced pieces joined with commas and any white space come back from the method unchanged |

## Left out

- HashMap.OpenHashMap.Insert: does not cover a 2^31-slot table that wants to grow; `Fits` is the exact condition, and `InsertEventuallyWraps` and `StuckAtPeak` are the concrete failures.
- HashMap.OpenHashMap.Rehash: does not cover targets and sizes outside `RehashFits`, where the loop never stops (`RehashHangs`), nor targets above 2^31, which `NextPowerOfTwo` refuses.
- HashMap.OpenHashMap.Find: gives the slot rather than a pointer into it; a pointer kept across a rebuild, which dangles, is not modelled.
- MapRuns.RebuildsCostEightPerInsert: does not cover inserts into 2^31-slot tables; `AmortisedRebuildCost` does, up to the exact peak.
- MapRuns.ChurnCannotInflate: does not cover peaks from 0x1400_0000 up to 0x2800_0000, where it is false (`ChurnBoundIff`), nor, below, explicit rehashes to more than 2^29 slots, after which inserts can double a table that is an eighth live (`DoublesAtAnEighth`).
- OrderedSets.OrderedSet.PushBack: does not cover duplicates (a debug assertion), null or sentinel pointers (the map aborts after the list has grown), or a map outside `Fits`.
- OrderedSets.OrderedSet.MoveAssign: does not cover two owning sets that share an object.
- OrderedSets.OrderedSet.ReorderCacheMap: does not cover lists of more than 0x3000_0001 elements, which no empty table can take (`InsertEventuallyWraps`), nor lists with equal or sentinel elements.
- LocklessBuffer.NextKeeps: assumes sequential consistency, one writer and one reader; weak-memory effects of the volatile word are not modelled. The state word is 8 bits wide, which holds all its flags.
- Memory allocation failure, the text of abort messages, destructors of the buffers, and the storage layout attributes.
- Constant and non-constant iterator overloads of the set are one operation here; list nodes are addresses in a sequence.
- Regular expressions, header discovery, type classification, text emission and the command line of the generator; type names are plain strings, so C++ aliases of one type count as different.
- `LocklessPointerRing`, message queues, memory pools, graphics interfaces, debug and trace code: forwarders, lookup tables or code whose behaviour is not part of this model.
