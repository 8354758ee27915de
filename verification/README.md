# Model of a network-wide flow measurement system

The system measures flows at many switches. Each switch keeps an AHeap, a four-level table with bounded memory in which
light flows are pushed upwards and the heaviest stay. In the network-wide form a switch stores only an erasure-coded
fragment of each flow's key, and a collector puts the fragments of several switches together again. This project models
that system in Dafny and proves what it promises. Nothing was executed: every claim is checked by the Dafny verifier.

The parts, each with its main results:

* **Erasure code** (`Field`, `Linear`, `Cauchy`, `Generator`, `Finite`, `Codec`; `Shifts`, `Octets`, `ByteField`). The bytes
  form a field in which addition is XOR; the library routines are contracts over it, and `ByteField.LibraryExists` shows that
  these contracts can be met. That any k rows of the generator can be inverted is proved, not assumed. `Codec.RoundTrip` and
  `Codec.Reencodes` make decoding and encoding inverse to each other, on every key and every set of at most p erasures.
* **AHeap** (`Items`, `AHeapSpec`, `AHeapRuns`, `Residents`, `BurstSpec`, `BurstResidents`, `MixedRuns`, `MergedCounts`,
  `AHeapTable`). The table is a class over an array with the five insertion modes; each method is proved against a function
  on the cells. `Residents` and `BurstResidents` say in counts and times who stays in a cell and who leaves it, mode by mode.
  The laws over whole runs: branch placement and no over-estimation under any mix of the modes, conservation, winner
  dominance, weak time order, which residents cannot be driven out, and the refinement of the packed burst words.
* **Switch and decoder** (`Switch`, `Combos`, `DecoderSpec`, `SearchSpec`, `Decoder`, `SearchRuns`, `Network`). The search loops
  visit every candidate exactly once; whatever is reported is backed by k cells on the key's branch, and goes
  back to packets at k switches; and no flow whose fragments are there is missed.
* **FlowRadar** (`IbltSpec`, `IbltExact`, `IbltHashes`, `Iblt`). The cells of the table are sums over the admitted keys in
  every state; peeling ends in the same unique core in whatever order, and terminates because it is sound; which
  reported counts are exact is decided. `IbltHashes` says by the hash functions alone which keys are admitted, and which are
  sure to be reported.
* **GPU insertion** (`Gpu`, `GpuRuns`, `GpuQuery`, `GpuCells`). Threads take one step at a time, one memory word per step; every
  interleaving amounts to a sequential order of the insertions that got their lock, and a thread served often enough ends.
  A key that shares its first cell with no other is counted exactly.
* **Reports** (`Streams`, `ReportSpec`, `Reports`). Heavy-hitter and address reports from one table are never false.

The hash function is a parameter: nothing is known of it but that it is a function. Input files, clocks and the size
parameters of the command line are parameters too. Counters of the AHeap are 32-bit words and wrap; laws that need them not
to wrap say so by the number of packets.

Three points where the code differs from what its documentation suggests, and the model follows the code:

* The three-argument d-left function of the CPU version ends without a return value when nothing is exchanged; the ns-2
  version returns false there, and so does the model.
* The GPU version declares 512 lock words, but indexes them with a number below 2048. The model has 2048;
  `Gpu.DeclaredLocks` says for which keys the declared ones are enough.
* `clear` of FlowRadar does not reset `num_flow`, and an insertion raises it by the number of table hashes, not by one.

In the recent, threshold and aging modes an age is a difference of 32-bit times. An evicted item that meets a later resident on
its way up therefore finds it very old, and takes its cell unless the threshold is close to 2^32 (`Residents.RecentStays`).

The weak time order was expected for non-decreasing packet times; it holds for any packet times, and is proved so.

Two properties are false of the code, and are decided instead:

* FlowRadar's reported counts are not always exact, because the Bloom filter may reject a new key, whose packets then stay in
  its cells. They are exact for a run of the dump if and only if no rejected key hashes to a cell that is peeled
  (`IbltExact.TrailExactIff`, `Iblt.Measure`), and in every order of peels if and only if no rejected key hashes to a cell that
  can come to show a single key (`IbltExact.EveryOrderExactIff`). That the filter errs does not decide it:
  `IbltExact.GateErredYetExact` and `IbltExact.GateErredAndWrong` are inputs for both cases.
* Merging a burst table adds up raw words in a 32-bit int, so the burst fields get into the merged count. The counter fields
  alone are never too high (`MergedCounts.MixedNoOverEstimate`). The merged count of a flow of fewer than 2^28 packets is at
  most its packets if and only if the burst fields of its cells add up to 0, or to 8 and more, modulo 16
  (`MergedCounts.RawMergedExact`); otherwise it is too high. One packet is enough for that, and eight packets in a row make the
  merged count negative (`MergedCounts.RawMergedFails`).

To verify: `dafny verify dfyconfig.toml`.

## Model

| member | source | states |
|---|---|---|
| `Cauchy.CauchySolve` | src/CPU/AHeap/CODEC.h:77-79 | over any field of characteristic 2, a square Cauchy system has a solution for every right-hand side (the algebra behind the choice of a Cauchy matrix) |
| `Generator.RowsSpan` | src/CPU/AHeap/CODEC.h:77-79 | any k rows of the generator [identity; Cauchy] span all vectors of length k |
| `Generator.AnyRowsInvert` | src/CPU/AHeap/CODEC.h:77-79 | so the matrix inverter succeeds on any k distinct rows and gives a left inverse |
| `Generator.GenRowEntries` | src/CPU/AHeap/CODEC.h:77-79 | entry j of a parity row i times the byte with value i XOR the byte with value j is 1; source rows are unit rows |
| `Codec.JoinSplit` | src/CPU/AHeap/CODEC.h:72-75 | a key cut into k fragments and joined again is the key |
| `Codec.FillSources` | src/CPU/AHeap/CODEC.h:72-75 | the copy loop yields the k slices of the key |
| `Codec.Encode` | src/CPU/AHeap/CODEC.h:30-99 | the stored segment is row `id` of the generator times the key, source or parity |
| `Codec.SourceFragment` | src/CPU/AHeap/CODEC.h:72-87 | the first k fragments are the slices of the key themselves |
| `Codec.FragmentByte` | src/CPU/AHeap/CODEC.h:72-87 | byte c of a source fragment is byte id * len + c of the key; byte c of a parity fragment is the generator row times every len-th byte of the key from c on |
| `Codec.SurvivorsCount` | src/CPU/AHeap/CODEC.h:207-221 | erasing n distinct ids of m leaves m - n |
| `Codec.RemainingRows` | src/CPU/AHeap/CODEC.h:205-221 | the bookkeeping keeps the generator rows of the first k ids that are not erased, in ascending order |
| `Codec.ParityRow` | src/CPU/AHeap/CODEC.h:236-245 | the row for an erased parity fragment is its generator row times the inverse |
| `Codec.RecoveryRows` | src/CPU/AHeap/CODEC.h:227-246 | one recovery row per erased id, source or parity |
| `Codec.RecoveryRowRegenerates` | src/CPU/AHeap/CODEC.h:227-246 | a recovery row, applied to the surviving fragments of any data, gives the erased fragment |
| `Codec.GenDecodeMatrix` | src/CPU/AHeap/CODEC.h:193-248 | never fails, and each recovery row i regenerates fragment frag_err_list[i], source or parity |
| `Codec.RegeneratedFragment` | src/CPU/AHeap/CODEC.h:157-159 | recovery row i times the surviving fragments of a key is exactly fragment frag_err_list[i] of that key |
| `Codec.Assemble` | src/CPU/AHeap/CODEC.h:161-178 | interleaves recovered and received fragments by the number of erasures below each place |
| `Codec.PickedKey` | src/CPU/AHeap/CODEC.h:161-178 | what is picked from recovered and received fragments of a key is, row by row, that key |
| `Codec.RoundTrip` | src/CPU/AHeap/CODEC.h:101-190 | erasure round trip: for every key, every k and p and every choice of surviving fragments, decoding the fragments (ascending) with the erased ids (ascending) gives exactly the original k * len bytes |
| `Codec.RebuiltDecodes` | src/CPU/AHeap/CODEC.h:101-190 | whatever key the fragments came from, what decoding gives is that key |
| `Codec.Reencodes` | src/CPU/AHeap/CODEC.h:101-190 | conversely, whatever k fragments are decoded, the key that comes out has exactly these fragments |
| `Finite.LeftIsRight` | src/CPU/AHeap/CODEC.h:223-225 | a left inverse of a square byte matrix is a right inverse, by counting vectors |
| `ByteField.LibraryExists` | src/CPU/AHeap/CODEC.h:223-225 | the library contract can be met: bytes under XOR and the product modulo x^8 + x^4 + x^3 + x^2 + 1 are a field, and there is a matrix inverter over it |
| `Codec.Decode` | src/CPU/AHeap/CODEC.h:101-190 | computes that key, by way of the recovery rows and the byte buffers |
| `Switch.PadKey` | src/CPU/AHeap/Util.h:129-135 | the key repeated to full length; the key is its front part |
| `Switch.AHeapInsert` | src/CPU/AHeap/Util.h:128-145 | the table afterwards is that of inserting the switch's own fragment of the padded key, counter 1, on the branch of the whole key |
| `Switch.InsertTraceable` | src/CPU/AHeap/Util.h:128-145 | an evicted fragment stays on the branch of the flow it comes from |
| `Switch.BurstTraceable` | src/CPU/AHeap/Util.h:210-227 | the same under a burst insertion |
| `Switch.LastStored` | src/CPU/AHeap/Util.h:128-227 | whatever the table was, unless a counter is about to wrap: the fragment of the last packet is in it, on the branch of the packet's flow |
| `Switch.FragmentsTraceable` | src/CPU/AHeap/Util.h:128-227 | in every reachable table, under any mix of the five modes, each stored fragment is that of a flow that arrived and whose branch passes through the cell |
| `Combos.Combine2` | src/CPU/AHeap/Util.h:230-247 | appends the list `Subsets`, whatever was in the result before |
| `Combos.SubsetsExactlyOnce` | src/CPU/AHeap/Util.h:230-247 | the list holds each increasing m-subset below n that avoids i_c, once, and nothing else |
| `Combos.DigitSmall` | src/CPU/AHeap/Util.h:250-259 | each digit computed with my_pow is below the base |
| `Combos.ValueOfDigits` | src/CPU/AHeap/Util.h:329-333 | every c below base^(k-1) is the value of its digits |
| `Combos.DigitsOfValue` | src/CPU/AHeap/Util.h:329-333 | every digit vector is the digits of its value: with the row above, a bijection |
| `DecoderSpec.ConfigIsValid` | src/CPU/AHeap/Util.h:289-344 | a point of the loops names k cells of k distinct caches on one ancestor chain |
| `DecoderSpec.ConfigInjective` | src/CPU/AHeap/Util.h:336-343 | two points with the same cells are the same point; rests on the tie-break |
| `DecoderSpec.PointOfConfig` | src/CPU/AHeap/Util.h:336-343 | any k cells on one chain are the cells of some point |
| `DecoderSpec.PointsOnce` | src/CPU/AHeap/Util.h:289-344 | the loops visit exactly the allowed points, each once |
| `DecoderSpec.ExactlyOnce` | src/CPU/AHeap/Util.h:289-344 | exactly-once search: each k-tuple of cells in k distinct caches on one ancestor chain is visited exactly once, and nothing else |
| `SearchSpec.ErasedIds` | src/CPU/AHeap/Util.h:315-328 | the erasure list has exactly p ids, ascending, and the survivors are the ids at hand, ascending |
| `SearchSpec.PointErasures` | src/CPU/AHeap/Util.h:315-328 | for every point the erasure list is complete: p ids, and the survivors are its caches' ids in order |
| `SearchSpec.FullOfDecodes` | src/CPU/AHeap/Util.h:345-402 | if a point's cells hold the fragments of some key, what they decode to is that key |
| `SearchSpec.FullOfReencodes` | src/CPU/AHeap/Util.h:345-402 | what a point's cells decode to has exactly the fragments in these cells |
| `Decoder.Places` | src/CPU/AHeap/Util.h:300-305 | the cells on the way up from a cell, by halving |
| `Decoder.ErasureList` | src/CPU/AHeap/Util.h:320-328 | collects the ids not among the actual caches, ascending |
| `Decoder.ChoosePlace` | src/CPU/AHeap/Util.h:331-334 | the digits of c |
| `Decoder.IsValid` | src/CPU/AHeap/Util.h:336-343 | the tie-break: an earlier cache may not use the first cell's level |
| `Decoder.CellsAt` | src/CPU/AHeap/Util.h:367-378 | looks up the cells that the digits choose |
| `Decoder.Collect` | src/CPU/AHeap/Util.h:345-394 | the fragments in ascending cache order, the first cache's at its place; reports whether one is missing |
| `Decoder.Recover` | src/CPU/AHeap/Util.h:345-402 | decodes the collected fragments, unless a cell is empty |
| `Decoder.RecordOthers` | src/CPU/AHeap/Util.h:420-428 | writes key, counter and time into the other caches' result cells |
| `Decoder.Confirm` | src/CPU/AHeap/Util.h:404-430 | writes the k cells if and only if the key's branch passes through the first one |
| `Decoder.TryPoint` | src/CPU/AHeap/Util.h:344-438 | one candidate: nothing changes unless all k cells are in use and the decoded key's branch passes through the first; then the k result cells are written |
| `Decoder.TryNumber` | src/CPU/AHeap/Util.h:331-439 | one value of c: skipped by the tie-break, or its point is tried |
| `Decoder.TryNumbers` | src/CPU/AHeap/Util.h:330-439 | all values of c below a bound |
| `Decoder.SearchSubset` | src/CPU/AHeap/Util.h:314-441 | one set of other caches |
| `Decoder.SearchNextSubset` | src/CPU/AHeap/Util.h:314-441 | the next set of other caches, after those before it |
| `Decoder.SearchCell` | src/CPU/AHeap/Util.h:298-443 | all sets of other caches for one first cell |
| `Decoder.SearchNextCell` | src/CPU/AHeap/Util.h:298-443 | the next first cell of a level |
| `Decoder.SearchCache` | src/CPU/AHeap/Util.h:290-444 | one level of one cache |
| `Decoder.SearchLevel` | src/CPU/AHeap/Util.h:290-444 | one level |
| `Decoder.SearchSorted` | src/CPU/AHeap/Util.h:289-445 | the whole search tries exactly the points, in loop order, from blank result tables |
| `Decoder.SortByIdSorts` | src/CPU/AHeap/Util.h:280 | the same tables in ascending order of id |
| `Decoder.DecodeCaches` | src/CPU/AHeap/Util.h:267-448 | sorting and search together: the result is that of trying every point once, in loop order, on the tables sorted by id |
| `SearchRuns.RecordAt` | src/CPU/AHeap/Util.h:413-428 | a confirmed candidate changes exactly its k cells, to the recovered key with counter and time of the cell at the same place of the same cache |
| `SearchRuns.ConfirmedOnBranch` | src/CPU/AHeap/Util.h:404-428 | the key's own branch passes through all k cells, though check runs on the first only |
| `SearchRuns.ResultExplained` | src/CPU/AHeap/Util.h:404-430 | every nonempty result cell was written for a confirmed candidate |
| `SearchRuns.ResultKeeps` | src/CPU/AHeap/Util.h:417-427 | a written cell stays written; a later candidate may only replace its key |
| `SearchRuns.DecodeSound` | src/CPU/AHeap/Util.h:396-430 | decode soundness: each nonempty result cell has the counter and the time of `job.caches[c].cells[i]`, and its key's branch passes through k nonempty cells of k caches, which hold exactly the fragments of the padded key and of no other key |
| `SearchRuns.FragmentsConfirm` | src/CPU/AHeap/Util.h:400-404 | a candidate whose cells hold the fragments of a flow on its branch recovers the flow and passes check |
| `SearchRuns.DecodeComplete` | src/CPU/AHeap/Util.h:314-430 | decode completeness: such cells are tried, the flow's key is recovered and confirmed, and all k result cells are written, with counter and time of the caches' own cells; the key stays if no other candidate of these cells is confirmed |
| `Network.FlowFound` | src/CPU/AHeap/Util.h:128-430 | end to end: a flow whose segments sit in k tables, on its branch, is found in all k; the tables are arbitrary here, `Network.LastFlowFound` adds the switches |
| `Network.ReportIsFlow` | src/CPU/AHeap/Util.h:128-430 | end to end: what is reported of k cells that all hold one flow's segments is that flow; the tables are arbitrary here, `Network.ReportTraced` adds the switches |
| `Network.ReportTraced` | src/CPU/AHeap/Util.h:279-461 | from packets to reports: when each cache is the table of its switch after any packets in any modes, each of the k fragments behind a report is that of a flow that arrived at that switch and whose branch passes through the cell; one flow that accounts for all k is what is reported; and the reported counter and time are those of the switch's table cell |
| `Network.LastFlowFound` | src/CPU/AHeap/Util.h:279-461 | from packets to reports: a flow whose packet was the last at k switches is found in all k of them, whatever came before, if no counter was about to wrap, with the counter and time in the switch's table cell |
| `Items.VisitNoGain` | src/CPU/AHeap/AHeap.h:92-156 | no level, in any mode, counts a packet twice |
| `Items.VisitConserves` | src/ns-2/common/ALGO/srcAHeap/FlowCache.h:171-219 | in base mode a unit item loses nothing below the root, up to counter wrap-around |
| `AHeapSpec.LevelsTile` | src/CPU/AHeap/AHeap.h:33-67 | the four segments of 8m, 4m, 2m, m cells tile the table |
| `AHeapSpec.PosInLevel` | src/CPU/AHeap/AHeap.h:161-171 | every access of an insertion is in range and in its level |
| `AHeapSpec.InsertNoGain` | src/CPU/AHeap/AHeap.h:159-203 | no insertion, in any mode and into any table, stores more of a key than came in |
| `AHeapSpec.InsertConserves` | src/ns-2/common/ALGO/srcAHeap/FlowCache.h:223-253 | a base insertion stores the packet or pushes out what it reports as lost, from any table |
| `AHeapSpec.InsertKeepsBranches` | src/CPU/AHeap/AHeap.h:159-203 | an insertion keeps every item, evicted ones included, on its own key's branch |
| `AHeapSpec.BranchHoldsAll` | src/CPU/AHeap/AHeap.h:376-388 | a key's four branch cells hold all that is stored of it |
| `AHeapRuns.NoOverEstimate` | src/CPU/AHeap/AHeap.h:159-373 | no over-estimation: over any run and mix of modes, stored plus lost counts of a key are at most its packets |
| `AHeapRuns.Conservation` | src/ns-2/common/ALGO/srcAHeap/FlowCache.h:223-253 | conservation: in base mode stored plus lost equals the packets, up to 2^32 wraps, and none wraps below 2^32 packets |
| `MixedRuns.RunIsTable` | src/CPU/AHeap/AHeap.h:159-373 | the tables of the four modes without burst are among those of `MixedRuns.TableOf` |
| `MixedRuns.BurstRunIsTable` | src/CPU/AHeap/AHeap.h:397-463 | and so are the packed burst tables |
| `MixedRuns.RunOnBranches` | src/CPU/AHeap/AHeap.h:159-463 | branch invariant in every table reachable by any mix of the five modes: each item lies on its own key's branch |
| `MixedRuns.StoredPlace` | src/CPU/AHeap/AHeap.h:159-463 | the place of every stored item within its level is its key's level-0 cell divided by 2^level |
| `MixedRuns.BranchQueryIsScan` | src/CPU/AHeap/Util.h:87-100 | in every such table, querying the four branch cells finds the same sum as scanning the table |
| `BurstSpec.BurstKeepsBranches` | src/CPU/AHeap/AHeap.h:397-463 | a burst insertion keeps every item, evicted ones included, on its own key's branch |
| `AHeapRuns.WinnerDominance` | src/CPU/AHeap/AHeap.h:171-199 | winner dominance, while no single flow has 2^32 packets: root cells never get lighter, and outweigh everything lost through them: a larger counter, or the same counter and no earlier time |
| `AHeapRuns.InsertKeepsOrder` | src/CPU/AHeap/AHeap.h:336-373 | one time-based insertion keeps the weak time order, whatever its time |
| `AHeapRuns.TimeOrder` | src/CPU/AHeap/AHeap.h:336-373 | weak time order in every reachable table of the time mode, while no single flow has 2^32 packets: each nonempty level-1 and level-2 cell has a child at least as recent |
| `Residents.EmptyTakes` | src/CPU/AHeap/AHeap.h:97-101 | an empty cell takes the item, nothing else changes, and the insertion ends |
| `Residents.SameKeyMerges` | src/CPU/AHeap/AHeap.h:92-199 | a cell of the same key keeps the later of the two times and adds 1, or the item's counter where the mode carries it, cut to 32 bits; the insertion ends |
| `Residents.OtherGoesOn` | src/CPU/AHeap/AHeap.h:84-199 | in a cell of another key one of the two stays and the other goes on to the next level |
| `Residents.LostBehindRoot` | src/CPU/AHeap/AHeap.h:171-199 | behind the root it is lost |
| `Residents.LevelTwoKicks` | src/CPU/AHeap/AHeap.h:133-156 | level 2 gives its cell to every other key |
| `Residents.BaseStays` | src/CPU/AHeap/AHeap.h:120-127 | base mode, levels 0 and 1, no aging: a resident stays if and only if its counter is not 1 |
| `Residents.AgingStays` | src/CPU/AHeap/AHeap.h:111-118 | with aging: if and only if its age, on a 32-bit clock, is not above the limit |
| `Residents.ThresholdStays` | src/CPU/AHeap/AHeap.h:479-506 | threshold mode, levels 0 and 1: if and only if its counter is above the one threshold and its age below the other |
| `Residents.RecentStays` | src/CPU/AHeap/AHeap.h:301-333 | recent mode, levels 0, 1 and root: if and only if `item.time - cell.time < thre` when the item is not older; a resident that is later than the item counts as old, by the clock's wrap-around |
| `Residents.TimeStays` | src/CPU/AHeap/AHeap.h:336-373 | time mode, levels 0, 1 and root: if and only if the item is not later |
| `Residents.RootChangesHands` | src/CPU/AHeap/AHeap.h:188-196 | base and threshold modes: the root takes the arriving item of another key if and only if that item is heavier, or equally heavy and not older |
| `Residents.RecentReplaces` | src/CPU/AHeap/AHeap.h:301-333 | in any run, outside level 2: a packet in recent mode changes the key of a cell only for an item whose time is at least the threshold ahead |
| `Residents.RecentFlowStays` | src/CPU/AHeap/AHeap.h:301-333 | over a run in recent mode with packets in order: the flow in a level-0 cell stays and only grows as long as packets are less than the threshold ahead of it |
| `Residents.HeavyStays` | src/CPU/AHeap/AHeap.h:120-127 | over a run in base mode: a flow with two packets in a cell of level 0 or 1 is never driven out of it |
| `Residents.TimesRise` | src/CPU/AHeap/AHeap.h:336-373 | over a run in time mode: the time of a cell outside level 2 never falls |
| `AHeapTable.AHeap.constructor` | src/CPU/AHeap/AHeap.h:33-67 | an empty table with the level starts computed by doubling |
| `AHeapTable.AHeap.SameKey` | src/CPU/AHeap/Flow.h:92-101 | equality of the first key_len bytes |
| `AHeapTable.AHeap.IncrementItem` | src/CPU/AHeap/AHeap.h:227-234 | a same-key merge by one, window_thre = 0 |
| `AHeapTable.AHeap.IncrementItemBy` | src/CPU/AHeap/AHeap.h:255-262 | a same-key merge by f, window_thre = 0 |
| `AHeapTable.AHeap.ExchangeItem` | src/CPU/AHeap/AHeap.h:84-89 | swaps resident and incoming item |
| `AHeapTable.AHeap.DLeftLevel` | src/CPU/AHeap/AHeap.h:92-129 | one d-left level of the base mode is one step of the specified climb |
| `AHeapTable.AHeap.DLeftLevelThre` | src/CPU/AHeap/AHeap.h:479-506 | one d-left level with thresholds |
| `AHeapTable.AHeap.DLeftLevelByTime` | src/CPU/AHeap/AHeap.h:509-533 | one d-left level by time |
| `AHeapTable.AHeap.MustKickLevel` | src/CPU/AHeap/AHeap.h:133-156 | the must-kick level |
| `AHeapTable.AHeap.RootByWeight` | src/CPU/AHeap/AHeap.h:171-199 | the root of the base and threshold modes |
| `AHeapTable.AHeap.RootByAge` | src/CPU/AHeap/AHeap.h:313-329 | the root of the recent mode |
| `AHeapTable.AHeap.RootByTime` | src/CPU/AHeap/AHeap.h:348-369 | the root of the time mode |
| `AHeapTable.AHeap.Insert` | src/CPU/AHeap/AHeap.h:159-203 | the whole table after a base insertion |
| `AHeapTable.AHeap.InsertThre` | src/CPU/AHeap/AHeap.h:267-298 | the whole table after a threshold insertion |
| `AHeapTable.AHeap.InsertForRecent` | src/CPU/AHeap/AHeap.h:301-333 | the whole table after a recent-mode insertion |
| `AHeapTable.AHeap.InsertAgingByTime` | src/CPU/AHeap/AHeap.h:336-373 | the whole table after a time-based insertion |
| `AHeapTable.AHeap.IncrementBurstyAt` | src/CPU/AHeap/Burst.h:34-48 | raises the burst field by one, up to 8, and nothing else |
| `AHeapTable.AHeap.IncrementSameKey` | src/CPU/AHeap/AHeap.h:466-475 | a burst-mode merge and its report |
| `AHeapTable.AHeap.ExchangeItemWithBursty` | src/CPU/AHeap/Burst.h:52-66 | the incoming item starts with burst field 1, the evicted one leaves with 0 |
| `AHeapTable.AHeap.BurstLevel` | src/CPU/AHeap/AHeap.h:402-463 | one level of a burst insertion |
| `AHeapTable.AHeap.InsertForBurst` | src/CPU/AHeap/AHeap.h:397-463 | the whole table and the report after a burst insertion |
| `AHeapTable.AHeap.Check` | src/CPU/AHeap/AHeap.h:376-388 | true if and only if the key's branch passes through the cell |
| `BurstSpec.MasksAreArithmetic` | src/CPU/AHeap/Burst.h:8-20 | the masks on 32-bit words are the arithmetic used in the model |
| `BurstSpec.MergePacked` | src/CPU/AHeap/AHeap.h:466-475 | a merge on a packed word is a merge on separate fields: nothing leaks between them |
| `BurstSpec.BurstSimulates` | src/CPU/AHeap/AHeap.h:397-463 | one packed insertion is the insertion on separate fields, cell by cell and report by report |
| `BurstSpec.PackedRefines` | src/CPU/AHeap/AHeap.h:397-463 | while no single flow has 2^28 packets, the packed table is the packing of the table of (count, merges) |
| `BurstResidents.OwnCell` | src/CPU/AHeap/AHeap.h:402-475 | burst mode: an empty cell takes the item with no merges; a cell of the same key adds the counter, keeps the later time and counts a merge, and the insertion reports a burst if and only if this is above level 0 and at least 7 merges came before |
| `BurstResidents.OtherCell` | src/CPU/AHeap/AHeap.h:416-461 | burst mode: another key gives way at levels 0 and 1 if and only if it has a single packet, at level 2 always, at the root if and only if its counter is smaller; the other goes on |
| `BurstResidents.ReportsBurst` | src/CPU/AHeap/AHeap.h:397-475 | an insertion reports a burst if and only if some cell above level 0 counted a merge after at least 7 others |
| `BurstResidents.RunReportsBurst` | src/CPU/AHeap/AHeap.h:397-475 | over runs, on the packed words: the report for a packet is 1 if and only if that happened, while no single flow has 2^28 packets |
| `BurstSpec.UnpackedFields` | src/CPU/AHeap/Burst.h:8-31 | under the same bound a packed word reads back as the count (the low 28 bits) and min(8, 1 + merges) |
| `MergedCounts.MixedNoOverEstimate` | src/CPU/AHeap/AHeap.h:159-463 | no over-estimation under any mix of the five modes, packed words included, over any stream: the counter fields of a key or fragment add up to at most the packets of the flows it is stored for |
| `MergedCounts.BurstNoOverEstimate` | src/CPU/AHeap/AHeap.h:397-463 | in particular in burst mode |
| `MergedCounts.MergedIntIsStored` | src/CPU/AHeap/Util.h:87-100 | adding the words of a key's cells in an int, step by step, gives their sum cut to 32 bits with a sign |
| `MergedCounts.PlainMergedExact` | src/CPU/AHeap/Util.h:87-100 | without burst mode, for a flow of fewer than 2^31 packets, that is the sum of its counters |
| `MergedCounts.RawMergedExact` | src/CPU/AHeap/Util.h:87-100 | merging adds whole words, burst fields included, in an int: for a flow of fewer than 2^28 packets the merged count is at most its packets if and only if the burst fields of its cells add up to 0, or to 8 and more, modulo 16 |
| `MergedCounts.RawMergedFails` | src/CPU/AHeap/Util.h:87-100 | one flow of n packets in an empty table: the merged count is n 2^28 too high up to seven packets, and -2147483640 at eight |
| `ReportSpec.MergedIsStored` | src/CPU/AHeap/Util.h:87-121 | the merged count of a key is the sum of its counters over the table |
| `ReportSpec.MoreKeysMorePeers` | src/CPU/common/util.h:27-55 | what is flagged from fewer keys is flagged from more, with at least as many peers |
| `Reports.InputOne` | src/CPU/tasks/AHeap_CountingTasks.h:29-31 | one packet inserted under its arrival number |
| `Reports.Input` | src/CPU/tasks/AHeap_CountingTasks.h:21-39 | feeds the stream up to the packet that brings the flow limit, and counts it exactly |
| `Reports.MergeSingleCache` | src/CPU/AHeap/Util.h:103-121 | each key's nonempty items in table order, and no other key |
| `Reports.QueryTable` | src/CPU/AHeap/Util.h:87-100 | the branch query of a table that the class filled equals the scan of it |
| `Reports.Merge` | src/CPU/common/util.h:14-18 | the counter sum per key |
| `Reports.Heavy` | src/CPU/tasks/AHeap_CountingTasks.h:245-250 | exactly the entries that reach the threshold |
| `Reports.CountCommon` | src/CPU/tasks/AHeap_CountingTasks.h:252-255 | how many keys two reports share |
| `Reports.MergedCounts` | src/CPU/tasks/AHeap_CountingTasks.h:241-242 | a merged key was in the stream and is not over-counted |
| `Reports.HhTest` | src/CPU/tasks/AHeap_CountingTasks.h:234-263 | heavy hitters: exactly the table's sums above the threshold, each truly heavy; the number of true positives is the number of reports |
| `Reports.CollectPeers` | src/CPU/common/util.h:29-45 | the peers of each address |
| `Reports.CountIP` | src/CPU/common/util.h:27-55 | exactly the addresses with at least thre distinct peers, with their number |
| `Reports.AddressTest` | src/CPU/tasks/AHeap_KVTasks.h:61-77 | every address flagged from the table is flagged from the truth, with at least as many distinct peers |
| `Iblt.InsertableIblt.constructor` | src/CPU/FlowRadar/insertable_iblt.h:47-68 | an empty filter and zeroed cells |
| `Iblt.InsertableIblt.Clear` | src/CPU/FlowRadar/insertable_iblt.h:70-73 | empties filter and cells, and leaves num_flow alone |
| `Iblt.InsertableIblt.MarkFilter` | src/CPU/FlowRadar/insertable_iblt.h:80-86 | sets exactly the bits that the first bf_k hashes of the key pick, and says whether all were set before |
| `Iblt.InsertableIblt.PutInCells` | src/CPU/FlowRadar/insertable_iblt.h:89-100 | adds the key with hash multiplicity to its cells |
| `Iblt.InsertableIblt.TakeFromCells` | src/CPU/FlowRadar/insertable_iblt.h:124-132 | takes the key with hash multiplicity out of its cells |
| `Iblt.InsertableIblt.Insert` | src/CPU/FlowRadar/insertable_iblt.h:75-101 | every cell is the XOR, count and packet sum over the admitted keys, with hash multiplicity |
| `Iblt.InsertableIblt.InsertOne` | src/CPU/FlowRadar/insertable_iblt.h:103-107 | one packet of one key |
| `Iblt.InsertableIblt.Build` | src/CPU/FlowRadar/insertable_iblt.h:103-107 | one packet of each key |
| `Iblt.InsertableIblt.Peel` | src/CPU/FlowRadar/insertable_iblt.h:118-132 | a cell with flow counter 1 shows a key that is in the table; the new state is that of peeling it there |
| `Iblt.InsertableIblt.Visit` | src/CPU/FlowRadar/insertable_iblt.h:117-134 | one cell of a pass: a peel there, or nothing to peel |
| `Iblt.InsertableIblt.Pass` | src/CPU/FlowRadar/insertable_iblt.h:116-135 | one pass is a run of peels; when nothing was peeled nothing peelable is left |
| `Iblt.InsertableIblt.Dump` | src/CPU/FlowRadar/insertable_iblt.h:109-139 | stops with exactly the unique largest unpeelable set, reports exactly the others, among them every key with a cell that one of its hashes and nothing else in the table hits, after at most one pass more than the number of admitted keys; the reported counts are exact if and only if no rejected key hashes to a peeled cell |
| `Iblt.InsertableIblt.ApproximateQuery` | src/CPU/FlowRadar/insertable_iblt.h:141-149 | -1 if and only if the bits that the first bf_k hashes of the key pick are all set; 0 only for keys that were never inserted |
| `IbltHashes.StreamBits` | src/CPU/FlowRadar/insertable_iblt.h:79-86 | after a stream a filter bit is set if and only if one of the first bf_k hashes of one of its keys picks it |
| `IbltHashes.StreamFilter` | src/CPU/FlowRadar/insertable_iblt.h:79-87 | so a key is taken for a new one if and only if one of its bits is the bit of no key before |
| `IbltHashes.StreamTable` | src/CPU/FlowRadar/insertable_iblt.h:79-100 | and the table holds exactly the keys of which some packet found such a bit |
| `IbltHashes.MultCounts` | src/CPU/FlowRadar/insertable_iblt.h:89-91 | the multiplicity of a key in a cell is the number of hashes numbered bf_k to bf_k + iblt_k - 1 that pick it |
| `IbltHashes.OwnCellShows` | src/CPU/FlowRadar/insertable_iblt.h:115-138 | a key is not in the unpeelable set if one of its hashes picks a cell that no other of them, and no hash of another key of the table, picks |
| `IbltHashes.AloneStuck` | src/CPU/FlowRadar/insertable_iblt.h:115-138 | a key alone in the table is unpeelable if and only if each of its cells is picked by two of its hashes |
| `Iblt.OnePacketDump` | src/CPU/FlowRadar/insertable_iblt.h:75-139 | the dump of a single packet is its key with count 1 if there is a filter hash and some cell is picked by just one table hash, and empty otherwise |
| `IbltSpec.Inserted` | src/CPU/FlowRadar/insertable_iblt.h:89-100 | the cell sums after an insertion |
| `IbltSpec.Removed` | src/CPU/FlowRadar/insertable_iblt.h:118-132 | the cell sums after a peel |
| `IbltSpec.PureCell` | src/CPU/FlowRadar/insertable_iblt.h:118-120 | in every reachable state a cell with flow counter 1 holds exactly one key, hashed there once, and shows it: flow counters are sums of multiplicities, so never negative |
| `IbltSpec.PureCellPackets` | src/CPU/FlowRadar/insertable_iblt.h:121-122 | and, when no new key was rejected, its packet counter is that key's |
| `IbltSpec.CoreIsCore` | src/CPU/FlowRadar/insertable_iblt.h:115-138 | the union of all unpeelable subsets is unpeelable |
| `IbltSpec.PeelConfluent` | src/CPU/FlowRadar/insertable_iblt.h:115-138 | peeling confluence: any run of peels that cannot be continued ends in that set, whatever the order |
| `IbltSpec.PeelLowersTotal` | src/CPU/FlowRadar/insertable_iblt.h:124-132 | each peel lowers the sum of all flow counters by exactly iblt_k |
| `IbltSpec.NothingOwedIffGateNeverErred` | src/CPU/FlowRadar/insertable_iblt.h:79-100 | no packets are owed outside the table if and only if the Bloom filter never took a new key for an old one |
| `IbltExact.TrailFits` | src/CPU/FlowRadar/insertable_iblt.h:118-132 | any run of peels, in any order of cells, keeps the cell sums and the largest unpeelable set |
| `IbltExact.TrailReported` | src/CPU/FlowRadar/insertable_iblt.h:121-132 | and its reports account for what left the table |
| `IbltExact.CountExactIff` | src/CPU/FlowRadar/insertable_iblt.h:118-122 | a cell with flow counter 1 reports the exact packets of its key if and only if no key outside the table that still has packets hashes there |
| `IbltExact.TrailExactIff` | src/CPU/FlowRadar/insertable_iblt.h:109-139 | all reports of a run of peels are exact if and only if no rejected key hashes to a cell peeled in it |
| `IbltExact.EveryOrderExactIff` | src/CPU/FlowRadar/insertable_iblt.h:109-139 | all reports are exact in every order of peels if and only if no rejected key hashes to a cell that can come to show a single key |
| `IbltExact.GateErredYetExact` | src/CPU/FlowRadar/insertable_iblt.h:79-122 | an input on which the filter errs and every report is exact all the same |
| `IbltExact.GateErredAndWrong` | src/CPU/FlowRadar/insertable_iblt.h:79-122 | an input on which the filter errs and a report is wrong |
| `Iblt.Input` | src/CPU/tasks/FlowRadar_CountingTasks.h:18-35 | feeds the stream up to the packet that brings the flow limit, and counts it exactly |
| `Iblt.Score` | src/CPU/tasks/FlowRadar_CountingTasks.h:47-70 | how many flows were reported, and how many with their exact count |
| `Iblt.Measure` | src/CPU/tasks/FlowRadar_CountingTasks.h:18-77 | a fresh table over a stream up to the flow limit: only stream keys are reported, the missing ones are the unpeelable set, every admitted key with a cell of its own is reported, every flow reported scores as found, and all of them score as exact if and only if no rejected key hashes to a peeled cell, hence if the filter never erred |
| `Gpu.OwnCells` | src/GPU/AHeap.cu:159-245 | a thread touches only cells its own lock guards, at every layer |
| `Gpu.DeclaredLocks` | src/GPU/AHeap.cu:114 | the declared 512 lock words suffice if and only if the level-0 index is below 4096 |
| `Gpu.AccessAdvances` | src/GPU/AHeap.cu:171-243 | every access brings a thread nearer to releasing its lock |
| `Gpu.FinishMerge` | src/GPU/AHeap.cu:179-183 | the word-by-word merge is one atomic merge when nobody interferes |
| `Gpu.FinishIsInsert` | src/GPU/AHeap.cu:171-248 | the word-by-word critical section, run alone, is the insertion as one function |
| `GpuCells.EmptyTakes` | src/GPU/AHeap.cu:172-178 | an empty cell takes the item, nothing else changes, and the insertion ends |
| `GpuCells.SameKeyMerges` | src/GPU/AHeap.cu:179-185 | a cell of the same key keeps the later time and adds the counter, cut to 32 bits; the insertion ends |
| `GpuCells.ResidentLeaves` | src/GPU/AHeap.cu:186-207 | layers 0 and 1: a resident of another key is replaced, and nothing else changes, if and only if `c.ts <= ts && (c.freq == 1 || (c.ts + 10000) % 2^32 < ts)`; otherwise it is untouched and the item goes on |
| `GpuCells.HeavierWins` | src/GPU/AHeap.cu:226-243 | the winner layer: a resident of another key is replaced, and dropped, if and only if the item's counter is larger; otherwise the item is dropped |
| `GpuCells.FirstCell` | src/GPU/AHeap.cu:171-207 | after an insertion the first d-left cell on its way holds the inserted key, or an untouched resident of another key that is newer, or has a counter other than 1 and was there in the last 10000 ticks |
| `GpuCells.WholeInsertion` | src/GPU/AHeap.cu:159-253 | an insertion changes one cell, the first on its way that does not hold against it, which then has its key; or nothing, if and only if all three hold |
| `Gpu.FinishLocal` | src/GPU/AHeap.cu:159-248 | it depends on, and changes, only the cells its lock guards |
| `GpuRuns.AcquireKeepsSerial` | src/GPU/AHeap.cu:167-169 | taking a lock keeps the serial order |
| `GpuRuns.AccessKeepsSerial` | src/GPU/AHeap.cu:171-243 | a word access by a lock holder keeps it |
| `GpuRuns.ReleaseKeepsSerial` | src/GPU/AHeap.cu:244-248 | releasing keeps it |
| `GpuRuns.InterleavingIsSerial` | src/GPU/AHeap.cu:159-253 | at every moment of every interleaving the table, with the critical sections under way finished, is that of the logged order |
| `GpuRuns.Serializable` | src/GPU/AHeap.cu:159-264 | serializability: a finished interleaving equals a sequential order of exactly the insertions that got their lock, and all locks are free |
| `GpuRuns.ServedFinish` | src/GPU/AHeap.cu:166-253 | a thread that is served tries + 49 times is through or has given up, whatever the others do |
| `GpuRuns.SerializableIfServed` | src/GPU/AHeap.cu:159-264 | so every run that serves all threads that often is serializable, with no assumption on its end state |
| `GpuRuns.TriesBounded` | src/GPU/AHeap.cu:166-168 | a thread makes at most the tries it was given |
| `GpuQuery.InsertKeepsBranches` | src/GPU/AHeap.cu:171-243 | an insertion keeps every cell on its key's branch |
| `GpuQuery.InsertNoGain` | src/GPU/AHeap.cu:171-243 | and counts no packet twice |
| `GpuQuery.SequentialCounts` | src/GPU/AHeap.cu:159-253 | over a sequential order, both hold |
| `GpuQuery.BranchIsScan` | src/GPU/AHeap.cu:327-347 | a branch query equals a scan of the whole table |
| `GpuQuery.QueryKey` | src/GPU/AHeap.cu:333-344 | the sum over the key's four cells in 32-bit words |
| `GpuQuery.Query` | src/GPU/AHeap.cu:328-347 | the same for each key |
| `GpuQuery.QueryAfterRun` | src/GPU/AHeap.cu:328-347 | after any finished concurrent run on an empty table, the branch query is the full scan and at most what was inserted by the threads that got their lock |
| `GpuQuery.QueryAfterLaunch` | src/GPU/AHeap.cu:328-347 | after a launch on an empty table that serves all threads, the count queried for a key is the full scan and at most the number of its packets whose threads got their lock, so at most its packets |
| `GpuRuns.LaunchIsFresh` | src/GPU/AHeap.cu:257-264 | a launch starts one thread per key, each with one packet of it, the home its hash picks, 40 tries, and one tick later than the thread before |
| `GpuCells.LastServed` | src/GPU/AHeap.cu:159-264 | after a finished concurrent run, of the threads that got their lock the last finds its key in its level-0 cell, or a resident that prevails over it as above |
| `GpuCells.OwnHomeExact` | src/GPU/AHeap.cu:159-253 | in any order of insertions a key whose level-0 cell no other key shares is counted exactly, cut to 32 bits, in that cell |
| `GpuCells.LaunchExact` | src/GPU/AHeap.cu:257-347 | no packet is lost to concurrency: after a launch that serves all threads, the query of such a key gives exactly the number of its threads that got their lock |

## Left out

- window_thre other than 0: counters are then reset and capped, so they no longer count packets.
- Global aging other than 0: the insertion is modelled for any value, but conservation is stated for 0 only, because otherwise a heavy item can be carried into a merge that counts one.
- ISA-L: table set-up, SIMD code, its GF(256) tables and its elimination are replaced by the contract `Generator.IsIsal` (a field on bytes with XOR as addition, an inverter that finds an inverse when there is one).
- Flat byte buffers of the codec, malloc and free, and the leak of the segment: matrices are sequences of rows, keys are values.
- BOBHash32: its arithmetic; only determinism is used.
- Decoder tables as objects: `Decoder.DecodeCaches` works on ids and cells by value and reassigns the result tables; aliasing of cell arrays between copies of a table is not captured.
- DecodeCaches (Util.h:451-461) also groups each result table by key; that is `Reports.MergeSingleCache` once per table, and is not repeated.
- Decoder.DecodeCaches: a later candidate may put another key into a result cell; `SearchRuns.DecodeComplete` says what stays (counter and time) and under which condition the key does.
- The other AHeapInsert variants (Util.h:148-227): they differ from `Switch.AHeapInsert` only in the insertion they call; their tables are covered by `Switch.FragmentsTraceable`.
- Packing of the Bloom filter into 64-bit words: the filter is an array of booleans, one per bit.
- Iblt.InsertableIblt.constructor: the sizes are parameters; computing them from total_in_bytes in floating point is not modelled.
- MergedCounts.RawMergedExact: says nothing of a flow with 2^28 packets or more, whose counter field may have wrapped.
- Reports.Merge: adds up in unbounded integers; `MergedCounts.PlainMergedExact` says that the int of the source holds the same sum for flows of fewer than 2^31 packets.
- Width of FlowRadar's counters: unbounded integers.
- The GPU's memory ordering: accesses are sequentially consistent steps; batching, streams and timing are not modelled.
- get_i of the ns-2 version: its cases for upper levels; check calls it with a level-0 index only, where it lists the branch that `AHeapTable.AHeap.Check` walks.
- Accuracy, recall and other floating-point metrics, file readers and serialization.
- The OVS, FPGA, P4 and other ns-2 copies, and insertable_iblt_4.h.
