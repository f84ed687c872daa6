# T3 in Dafny

T3 keeps the set of unspent Bitcoin transaction outputs inside an SGX enclave.  The set is stored in the blocks of a
recursive tree ORAM (ZeroTrace), so that the untrusted host sees neither which block is read nor what is in it.  This project
models the parts of T3 on which the data depends, and proves that the ORAM behaves like a plain array of blocks, from the
moment it is built and through any run of accesses, and that the codecs and in-place algorithms around it compute what they
are documented to compute.

## What is modelled

* **Path ORAM.**  A level is a stash (a fixed number of slots, each with a discard flag), and a tree of buckets of `Z` slots,
  numbered as a heap from 1.  A slot is a dummy when its id is `gN`.  The levels form a chain: the on-chip position map records
  the labels of the blocks of level 1, the blocks of level l record the labels of the blocks of level l + 1, and the last level
  holds the data.  `TreePaths`, `Blocks`, `Stash`, `LocalStorage`, `PathLevel` and `PathAccess` describe one level,
  `RecursivePathORAM`, `Refinement`, `ReadOnly`, `Runs`, `Overflow` and `Greedy` the whole ORAM, its invariant and its theorems, and
  `PathORAMController` the objects: their methods update the position map, the stashes and the buckets in place and are
  proved to compute what the specification functions say.  Leaves are drawn from arbitrary words passed in as `coins`; as every
  leaf is drawn by some word (`NewLeafIs`, `DrawnRecorded`), every statement holds for every choice of leaves.  The
  configuration is the one that ships: oblivious, two recursion levels or more, and the optimized read for requests of kind
  `'z'`.
* **Setting up.**  `Sizing` computes the number of levels and their sizes, `Build` says what a freshly built ORAM is and proves
  that it satisfies the invariant, and `ORAMTree` builds one.
* **Circuit ORAM eviction.**  `CircuitMetadata`, `CircuitEviction` and `CircuitORAM` model the three scans of an eviction pass
  over the stash and one path.
* **The hash tree.**  `Merkle` keeps the hashes of a level's buckets; the hash function is a parameter.
* **The UTXO set.**  `Reducer` reads the raw transactions of a block, `UtxoBlocks` puts the records it finds into the blocks of
  the ORAM and takes spent ones out, `Spending` relates the two kinds of records, `BlockMerkleRoot` checks the transactions
  against the block header, and `Ripemd160` is the streaming hash used for public keys (ISO/IEC 10118-3:2004, clause 7, with the
  compression function as a parameter).
* **The Python side.**  `Chainstate` models the variable integers, amounts and coins of the chainstate database, and `Transaction`
  the serialization of transactions.

A stash has a fixed size, and `pass_insert` drops a block that finds no free slot.  Results about accesses are therefore stated
for stashes with enough room: at every level on the way, the blocks in the stash and on the fetched path must not outnumber its
slots (`Room`, `Roomy`, `HasRoom`, `RoomAlong`).  `Overflow` proves that this is needed: without room a write-back leaves a
level short of a block, and no later request brings it back.  `Capacity` proves that stashes with a slot for every block
always have enough, and for them the results hold without any condition.

Some behaviour is stated together with the exact condition under which it is as intended: `StopsIff` and `ReachesOneIff` for
termination, `RequestConsistentIff` and `RunConsistentIff` for full stashes, `DummyIdFitsIff` for the dummy id, `ScanEndsIff`,
`DepthWithinIff` and `FitWidthsIff` for the other widths, `RoundsWithinIff` for the ten places that optimized reads have for
occupancies (`Initialize` states the bound), `WriteBackSafeIff` for the root hash, `RoundTripIff` and `PutBackIff` for
transactions, `OutputStepIff` for long output scripts, `TakenForSegWitIff` for the marker of a witness, and
`ErasedBlockTakesIff` for erased records.  `Params.Valid` asks for the widths: at most 255 labels in a block, ids below 2^32
and trees at most 30 deep.

Where the code and its comments differ the model follows the code.  `prepare_target` only considers levels that already have a
free slot, so it is not claimed to evict as much as the algorithm it is named after.  `encode_varint` compares with 2^64 and
2^128 although its prefixes announce four and eight bytes, so it represents exactly the numbers below 2^32.  `deserialize` reads
the prefix of a longer varint as part of the number.

## Model

| member | source | states |
|---|---|---|
| Stash.InsertedReal | btc-module/ZT_Enclave/Stash.cpp:380-412 | with a slot free, inserting a real block adds that block to the stash and nothing else |
| Stash.Stash.constructor | btc-module/ZT_Enclave/Stash.cpp:284-293 | a fresh stash has the requested number of slots, all dummies, no discard flag set |
| Stash.Stash.PassInsert | btc-module/ZT_Enclave/Stash.cpp:380-412 | a real block takes the first free slot, flagged for discarding when the read is optimized; without a free slot nothing changes |
| Stash.Stash.PerformAccessOperation | btc-module/ZT_Enclave/Stash.cpp:106-159 | relabels the requested block, overwrites its data for 'w', and returns the data of the last matching slot for 'r' and 'z' |
| Stash.Stash.PerformOptimizedAccessOperation | btc-module/ZT_Enclave/Stash.cpp:55-104 | the same without relabelling: a read leaves the stash as it is |
| Stash.Stash.Clear | btc-module/ZT_Enclave/Stash.cpp:344-362 | exactly the flagged slots become fresh dummies, and no flag stays set |
| Stash.Stash.StashOccupancy | btc-module/ZT_Enclave/Stash.cpp:198-209 | the number of real blocks in the stash |
| LocalStorage.LocalStorage.DownloadPath | btc-module/ZT_Untrusted/LocalStorage.cpp:372-479 | returns the buckets on the way from a leaf to the root, leaf first |
| LocalStorage.LocalStorage.UploadPath | btc-module/ZT_Untrusted/LocalStorage.cpp:285-362 | overwrites the buckets of a path |
| LocalStorage.UploadedAt | btc-module/ZT_Untrusted/LocalStorage.cpp:310-346 | after an upload an entry is the uploaded one if its bucket is on the path, and unchanged otherwise |
| LocalStorage.UploadedThenDownloaded | btc-module/ZT_Untrusted/LocalStorage.cpp:310-346 | downloading a path that was just uploaded returns it |
| PathLevel.PushedPathReal | btc-module/ZT_Enclave/ORAMTree.cpp:761-806 | with room for them, all real blocks of the fetched path end up in the stash, once each, and none is lost there |
| PathLevel.RebuiltPathConserves | btc-module/ZT_Enclave/PathORAM_Enclave.cpp:693-734 | refilling a path moves blocks from the stash to the path without losing or duplicating any |
| PathLevel.RebuiltPathLegal | btc-module/ZT_Enclave/PathORAM_Enclave.cpp:693-734 | every block of the refilled path sits in a bucket on the path of its own label |
| PathAccess.FetchFinds | btc-module/ZT_Enclave/ORAMTree.cpp:761-806 | after the path of a block's label has been fetched, the block is in exactly one slot of the stash |
| PathAccess.WrittenBackCount | btc-module/ZT_Enclave/PathORAM_Enclave.cpp:636-683 | write-back conserves the blocks of the stash and of the tree off the path |
| PathAccess.AccessKeepsLevel | btc-module/ZT_Enclave/PathORAM_Enclave.cpp:537-691 | fetching a path, changing one block and writing back keeps the level's invariant: every id once, on the path of its label |
| Greedy.KeptFindsFull | btc-module/ZT_Enclave/PathORAM_Enclave.cpp:699-734 | a block left in the stash finds every bucket of the path where it may go full |
| Greedy.GreedyOptimal | btc-module/ZT_Enclave/PathORAM_Enclave.cpp:699-734 | no legal placement on the path, at most Z blocks a bucket, leaves fewer blocks in the stash than the refill does |
| RecursivePathORAM.AssignedLeafIs | btc-module/ZT_Enclave/ORAMTree.cpp:867-912 | the child label reported is the one the requested block held |
| RecursivePathORAM.ScanEndsIff | btc-module/ZT_Enclave/ORAMTree.cpp:893-896 | the scan over the x words of a recursion block, counted in eight bits, ends exactly when x is at most 255 |
| RecursivePathORAM.NewLeafIs | btc-module/ZT_Enclave/PathORAM_Enclave.cpp:238-239 | the leaf drawn is the random word when that is below the number of leaves, and what is left of it otherwise, so every leaf can be drawn |
| Refinement.RecursionLevelAccess | btc-module/ZT_Enclave/PathORAM_Enclave.cpp:254-309 | an access to a recursion level keeps its invariant, relabels one block, exchanges one child label in it and returns the old one |
| Refinement.DataLevelAccess | btc-module/ZT_Enclave/PathORAM_Enclave.cpp:537-691 | an access to the data level keeps its invariant, and reads or overwrites exactly the requested block |
| Refinement.ParentInRange | btc-module/ZT_Enclave/PathORAM_Enclave.cpp:289-292 | the parent of a block with a valid id has a valid id one level up |
| Refinement.LinksAdvance | btc-module/ZT_Enclave/PathORAM_Enclave.cpp:289-307 | giving a block its recorded label and its child a fresh one moves the only broken link between the levels one level down |
| Refinement.AccessPrepares | btc-module/ZT_Enclave/PathORAM_Enclave.cpp:200-311 | the recursion down to any level returns the current label of the requested child, records the fresh one drawn for it, gives every block on the way the label drawn for it, and leaves everything below untouched |
| Refinement.AccessRefines | btc-module/ZT_Enclave/PathORAM_Enclave.cpp:200-311 | a full access keeps the invariant of the whole ORAM, returns what the array holds, changes the array exactly as a write asks, and relabels the blocks on the way as drawn |
| ReadOnly.OpenedThenCleared | btc-module/ZT_Enclave/Stash.cpp:344-362 | clearing undoes what a read-only access pushed into the stash, up to the contents of dummies |
| ReadOnly.ReadLooksUp | btc-module/ZT_Enclave/PathORAM_Enclave.cpp:77-198 | the optimized recursion finds the label recorded for the requested child at every level |
| ReadOnly.FastReadRestores | btc-module/ZT_Enclave/PathORAM_Enclave.cpp:443-535 | the optimized read leaves position map, trees, flags and real stash blocks as they were, in any state, for any id, and without room too |
| ReadOnly.FastReadRefines | btc-module/ZT_Enclave/PathORAM_Enclave.cpp:443-535 | with room it returns what the array holds |
| Runs.OccupancyRestored | btc-module/ZT_Enclave/PathORAM_Enclave.cpp:518-524 | the occupancies compared at the end of an optimized read are equal at every level, whether or not there was room |
| Runs.FastReadAgreesWithRead | btc-module/ZT_Enclave/PathORAM_Enclave.cpp:313-326 | 'z' returns the same data as a full 'r', whatever leaves that one draws |
| Runs.RequestRefines | btc-module/ZT_Enclave/PathORAM_Enclave.cpp:313-326 | any request keeps the ORAM consistent, and answers and changes it as the same request to an array |
| Runs.RequestRelabels | btc-module/ZT_Enclave/PathORAM_Enclave.cpp:235-309 | a request that writes back gives each block on its way the leaf its random word selects, records it one level up, and changes no other block or entry of the map |
| Runs.DrawnRecorded | btc-module/ZT_Enclave/PathORAM_Enclave.cpp:235-309 | at every level, a random word below the number of leaves is the label recorded for the block on the way |
| Runs.RunRefinesArray | btc-module/ZT_Enclave/PathORAM_Enclave.cpp:200-326 | any run of requests, with any leaves drawn, returns exactly the answers of a plain array and ends with the same contents |
| Capacity.TotalReal | btc-module/ZT_Enclave/ORAMTree.cpp:761-806 | stash and tree of a level together hold exactly as many real blocks as the level has ids |
| Capacity.AmpleAlong | btc-module/ZT_Enclave/Stash.cpp:380-412 | with a stash slot for every block of its level there is room at every access of every run, so no block is ever dropped |
| Capacity.AmpleRunRefinesArray | btc-module/ZT_Enclave/PathORAM_Enclave.cpp:200-326 | with such stashes any run of requests, without any further condition, is answered as by a plain array |
| Overflow.NoRoomLoses | btc-module/ZT_Enclave/Stash.cpp:380-412 | a path fetched into a stash without room for it is written back with a block missing |
| Overflow.AccessLoses | btc-module/ZT_Enclave/PathORAM_Enclave.cpp:200-311 | an access that lacks room somewhere on its way leaves a level with fewer blocks than ids |
| Overflow.RequestAtMost | btc-module/ZT_Enclave/PathORAM_Enclave.cpp:313-326 | no request, in any state, adds a real block to a level |
| Overflow.RequestConsistentIff | btc-module/ZT_Enclave/PathORAM_Enclave.cpp:313-326 | a request keeps the ORAM consistent exactly when it is a 'z' or there is room at every level on its way |
| Overflow.RunConsistentIff | btc-module/ZT_Enclave/PathORAM_Enclave.cpp:200-326 | a run ends in a consistent state exactly when there was room at each of its write-backs: a dropped block never returns |
| PathORAMController.OArraySearch | btc-module/ZT_Enclave/PathORAM_Enclave.cpp:21-26 | returns and replaces the entry looked up, and no other |
| PathORAMController.PushBlocksFromPathIntoStash | btc-module/ZT_Enclave/ORAMTree.cpp:761-836 | stash, flags and emptied path are those of the specification, for both variants |
| PathORAMController.OAssignNewLabelToBlock | btc-module/ZT_Enclave/ORAMTree.cpp:867-912 | relabels the requested block, exchanges the child label at the given position and returns the old one |
| PathORAMController.OAssignNewLabelToBlockOptimized | btc-module/ZT_Enclave/ORAMTree.cpp:838-864 | returns the same child label and changes nothing |
| PathORAMController.OfferSlots | btc-module/ZT_Enclave/PathORAM_Enclave.cpp:719-741 | a stash node goes into the next free slot of a bucket exactly when it is real and the bucket is on the path of its label |
| PathORAMController.RebuildPath | btc-module/ZT_Enclave/PathORAM_Enclave.cpp:693-783 | stash and path are those of the specified refill |
| PathORAMController.PathORAM.AccessOramLevel | btc-module/ZT_Enclave/PathORAM_Enclave.cpp:51-75 | stash, storage, child label and output of one level are those of the specification |
| PathORAMController.PathORAM.ReadOramLevel | btc-module/ZT_Enclave/PathORAM_Enclave.cpp:443-507 | the read-only access of one level, before clearing, as specified |
| PathORAMController.PathORAM.AccessPosmapEntry | btc-module/ZT_Enclave/PathORAM_Enclave.cpp:235-254 | the on-chip map returns the old label of a block and records the fresh one |
| PathORAMController.PathORAM.AccessAtLevel | btc-module/ZT_Enclave/PathORAM_Enclave.cpp:254-309 | one level of the recursion passes on the labels and changes its own stash and storage only |
| PathORAMController.PathORAM.Access | btc-module/ZT_Enclave/PathORAM_Enclave.cpp:200-311 | the recursion over the levels leaves all objects in the specified state |
| PathORAMController.PathORAM.AccessOptimized | btc-module/ZT_Enclave/PathORAM_Enclave.cpp:77-198 | the optimized recursion leaves all objects in the specified state and notes every occupancy |
| PathORAMController.PathORAM.ClearStash | btc-module/ZT_Enclave/PathORAM_Enclave.cpp:519-523 | clears one stash; the assertion on its occupancy does not fail |
| PathORAMController.PathORAM.ClearStashes | btc-module/ZT_Enclave/PathORAM_Enclave.cpp:518-524 | clears every stash from level 1 on |
| PathORAMController.PathORAM.ReadRequest | btc-module/ZT_Enclave/PathORAM_Enclave.cpp:443-535 | the whole read-only request leaves all objects in the specified state |
| PathORAMController.PathORAM.AccessTemp | btc-module/ZT_Enclave/PathORAM_Enclave.cpp:313-326 | the entry point keeps the ORAM consistent and answers as an array of blocks |
| Sizing.StopsIff | btc-module/ZT_Untrusted/App.cpp:423-431 | the loop over the position map sizes ends exactly when the whole map fits, or labels can be packed and the limit leaves room for one |
| Sizing.ComputeRecursionLevels | btc-module/ZT_Untrusted/App.cpp:417-442 | returns one more than the number of rounds after which the map fits, or -1 when no recursion is wanted or needed |
| Sizing.SetParams | btc-module/ZT_Enclave/ORAMTree.cpp:1136-1177 | real sizes shrink by rounding up from the number of blocks, maximal sizes grow from the on-chip map, and gN is the largest |
| Sizing.SizesFit | btc-module/ZT_Enclave/ORAMTree.cpp:1136-1177 | with the depth computed, the on-chip map fits its limit, every level has room for its real blocks and for the labels of the next one, and no real id reaches gN |
| Sizing.DummyIdIs | btc-module/ZT_Enclave/ORAMTree.cpp:1161-1173 | gN is the least multiple of x^(levels-1) that is not below the number of blocks |
| Sizing.DummyIdFitsIff | btc-module/ZT_Enclave/Globals_Enclave.hpp:128-151 | gN fits the 32 bits of an id, and a serialized dummy is recognized, exactly when the number of blocks rounded up to a multiple of x^(levels-1) is below 2^32 |
| Sizing.DummyIdOverflows | btc-module/ZT_Enclave/Globals_Enclave.hpp:134-151 | with the sizes that ship and 2^32 - 1 blocks it does not fit, and a dummy is stored as block 0 |
| Sizing.RoundsWithinIff | btc-module/ZT_Untrusted/App.cpp:423-431 | at most k rounds are made exactly when there are at most x^k times as many blocks as labels fit on the chip |
| Sizing.DepthWithinIff | btc-module/ZT_Enclave/ORAMTree.cpp:277-283 | a tree is at most d deep exactly when 2^d leaf buckets would hold the blocks of its level |
| Sizing.LeavesCover | btc-module/ZT_Enclave/ORAMTree.cpp:277-283 | with the depth chosen, the leaf buckets alone hold all blocks of a level, and with one layer less they would not |
| Build.DealtOut | btc-module/ZT_Enclave/ORAMTree.cpp:308-340 | dealing the blocks out evenly places all of them, and never more than Z in a bucket |
| Build.BuiltLevelOk | btc-module/ZT_Enclave/ORAMTree.cpp:277-415 | a freshly built level holds every id exactly once, on the path of the leaf recorded for it |
| Build.BuiltLinks | btc-module/ZT_Enclave/ORAMTree.cpp:345-366 | every child label stored in a parent block, and in the on-chip map, is the leaf the child was put on |
| Build.BuildEstablishes | btc-module/ZT_Enclave/ORAMTree.cpp:238-435 | the build establishes the invariant of the whole ORAM, and its array holds the data written |
| ORAMTree.ORAMTree.FillLeaf | btc-module/ZT_Enclave/ORAMTree.cpp:345-366 | a leaf bucket gets the next blocks in order, each with its leaf as label and, above the data level, the labels of its children |
| ORAMTree.ORAMTree.BuildLeaves | btc-module/ZT_Enclave/ORAMTree.cpp:325-390 | all leaf buckets are built as specified, and the position map records where each block went |
| ORAMTree.ORAMTree.BuildUpperLevels | btc-module/ZT_Enclave/ORAMTree.cpp:392-420 | every bucket above the leaves holds dummies only, and the leaves stay as they are |
| ORAMTree.ORAMTree.BuildPosmap | btc-module/ZT_Enclave/ORAMTree.cpp:239-255 | the on-chip map is the part of the last position map that belongs to real blocks |
| ORAMTree.SetupStashes | btc-module/ZT_Enclave/ORAMTree.cpp:471-491 | every level has its own stash of dummies of the requested size |
| ORAMTree.ORAMTree.BuildTreeRecursive | btc-module/ZT_Enclave/ORAMTree.cpp:238-435 | all levels are built, each recording the leaves of the next, and the on-chip map is a copy of the last position map |
| ORAMTree.FitWidthsIff | btc-module/ZT_Enclave/ORAMTree.cpp:277-283 | a condition on the number of blocks, x, depth and Z that holds exactly when every id fits 32 bits, the scan over x its 8-bit counter, and the number of leaves of each level a signed int |
| ORAMTree.LevelParamsSuit | btc-module/ZT_Enclave/ORAMTree.cpp:1136-1177 | under that condition the computed sizes make a valid ORAM |
| ORAMTree.LevelParamsSized | btc-module/ZT_Enclave/ORAMTree.cpp:1136-1177 | each level has just enough blocks for the labels of the next, the first fits the chip, and trees are no deeper than their blocks call for |
| ORAMTree.Initialize | btc-module/ZT_Enclave/PathORAM_Enclave.cpp:37-43 | under that condition a new instance is consistent, has these sizes, has separate stashes of the requested size, stores the requested number of blocks, never runs out of room if the stashes have that many slots, and serves 'z' requests exactly up to the stated number of blocks |
| CircuitMetadata.MeetExact | btc-module/ZT_Enclave/CircuitORAM_Enclave.cpp:140-175 | two root paths share a bucket at a given height exactly from the height on at which they first meet |
| CircuitMetadata.ReachExact | btc-module/ZT_Enclave/CircuitORAM_Enclave.cpp:140-175 | a real block may sit at a level of the eviction path exactly when it reaches that far |
| CircuitORAM.CircuitORAM.PrepareDeepest | btc-module/ZT_Enclave/CircuitORAM_Enclave.cpp:116-218 | deepest is -1 exactly where no block above may go, and otherwise names the level closest to the root with a block of greatest reach, and deepest_position that block |
| CircuitORAM.CircuitORAM.PrepareTarget | btc-module/ZT_Enclave/CircuitORAM_Enclave.cpp:55-112 | the moves go down, do not overlap, end at levels whose named slot is free, start where deepest says, and serve every level with a free slot and a block for it |
| CircuitORAM.CircuitORAM.EvictRound | btc-module/ZT_Enclave/CircuitORAM_Enclave.cpp:270-325 | one level hands on and takes in exactly the blocks its metadata names; a held block is never overwritten |
| CircuitORAM.CircuitORAM.EvictOnceFast | btc-module/ZT_Enclave/CircuitORAM_Enclave.cpp:221-325 | stash and path are those of the plan, and nothing is held or pending at the end |
| CircuitORAM.CircuitORAM.ResetPositions | btc-module/ZT_Enclave/CircuitORAM_Enclave.cpp:528-531 | no position is left over from an earlier pass |
| CircuitORAM.CircuitORAM.EvictPass | btc-module/ZT_Enclave/CircuitORAM_Enclave.cpp:503-560 | a whole pass makes every move the metadata plans and no other change, conserves every real block of stash and path, leaves every block on the path of its own label, and ends with nothing held |
| CircuitEviction.EvictionConserves | btc-module/ZT_Enclave/CircuitORAM_Enclave.cpp:221-325 | executing a fitting plan conserves the real blocks of stash and path |
| CircuitEviction.EvictionLegal | btc-module/ZT_Enclave/CircuitORAM_Enclave.cpp:221-325 | and leaves every block in a bucket its own root path passes through |
| CircuitEviction.EvictionMoves | btc-module/ZT_Enclave/CircuitORAM_Enclave.cpp:221-325 | and puts each block the metadata names into the slot it names, empties the slot it left, and keeps every other slot |
| CircuitEviction.PlanFits | btc-module/ZT_Enclave/CircuitORAM_Enclave.cpp:67-111 | the metadata of the two scans is such a plan: each source holds a real block that may go to its target |
| Merkle.ConsistentIffRebuilt | btc-module/ZT_Enclave/ORAMTree.cpp:392-412 | hashes that fit their buckets and children locally are exactly those rebuilt from all buckets |
| Merkle.WriteBackKeepsFaithful | btc-module/ZT_Enclave/ORAMTree.cpp:637-680 | with a layer below the root, the incrementally updated hashes and root are those rebuilt from scratch |
| Merkle.WriteBackSafeIff | btc-module/ZT_Enclave/ORAMTree.cpp:669-671 | write-backs keep the root right for every hash function, tree and path exactly when there is a layer below the root |
| Merkle.RunStaysFaithful | btc-module/ZT_Enclave/ORAMTree.cpp:55-200 | after any sequence of write-backs the hashes are the rebuilt ones, and any path downloaded next passes every comparison |
| Merkle.ComparisonIff | btc-module/ZT_Enclave/ORAMTree.cpp:55-200 | for any buckets presented with the stored hashes, a comparison below the root holds exactly when the bucket's hash is the stored one, and the one at the root whatever the bucket |
| Merkle.OnlyStoredPass | btc-module/ZT_Enclave/ORAMTree.cpp:55-200 | with a hash function free of collisions, a bucket below the root passes exactly when it is the stored one |
| Merkle.HashedLevel.Build | btc-module/ZT_Enclave/ORAMTree.cpp:368-412 | the hashes made while building are those of all buckets |
| Merkle.HashedLevel.DownloadPathHash | btc-module/ZT_Untrusted/LocalStorage.cpp:405-475 | the hashes sent along are those of both children of every bucket on the path above the leaf, and the root's |
| Merkle.HashedLevel.VerifyPath | btc-module/ZT_Enclave/ORAMTree.cpp:55-200 | makes the specified comparison for each bucket of the path |
| Merkle.HashedLevel.CreateNewPathHash | btc-module/ZT_Enclave/ORAMTree.cpp:637-680 | computes the new hash of every bucket of the path, and refreshes the root if the tree has more than one layer |
| Merkle.HashedLevel.AccessPath | btc-module/ZT_Enclave/PathORAM_Enclave.cpp:672-691 | reading a path and writing it back passes all comparisons and keeps the hash tree that of the buckets |
| Chainstate.DecodedEncoded | btc-extract-utxo/bitcoin_tools/analysis/status/utils.py:144-153 | decoding inverts encoding, whatever follows the number |
| Chainstate.EncodedDecoded | btc-extract-utxo/bitcoin_tools/analysis/status/utils.py:103-119 | encoding inverts decoding on well-formed byte strings |
| Chainstate.ExtentIs | btc-extract-utxo/bitcoin_tools/analysis/status/utils.py:167-177 | the parser stops exactly at the end of a well-formed number |
| Chainstate.PrefixFree | btc-extract-utxo/bitcoin_tools/analysis/status/utils.py:103-119 | no encoding is a prefix of another |
| Chainstate.EncodedIs | btc-extract-utxo/bitcoin_tools/analysis/status/utils.py:103-119 | one byte below 128, and otherwise the encoding of one less than the quotient by 128 with its last continuation bit set, and the remainder |
| Chainstate.B128Encode | btc-extract-utxo/bitcoin_tools/analysis/status/utils.py:103-119 | collects the digits from the last and returns the specified encoding |
| Chainstate.B128Decode | btc-extract-utxo/bitcoin_tools/analysis/status/utils.py:144-153 | returns the specified value, or fails where the digits run out |
| Chainstate.ParseB128 | btc-extract-utxo/bitcoin_tools/analysis/status/utils.py:167-177 | returns the bytes of the number at an offset and the offset behind it, or fails where the digits run out |
| Chainstate.TxoutCompress | btc-extract-utxo/bitcoin_tools/analysis/status/utils.py:24-37 | compresses as specified; its assertion on the digit cannot fail |
| Chainstate.TxoutDecompress | btc-extract-utxo/bitcoin_tools/analysis/status/utils.py:51-65 | decompresses as specified |
| Chainstate.DecompressedCompressed | btc-extract-utxo/bitcoin_tools/analysis/status/utils.py:24-65 | decompressing inverts compressing on all natural numbers |
| Chainstate.CompressedDecompressed | btc-extract-utxo/bitcoin_tools/analysis/status/utils.py:24-65 | compressing inverts decompressing on all natural numbers |
| Chainstate.CompressedIs | btc-extract-utxo/bitcoin_tools/analysis/status/utils.py:24-37 | (10q + d) * 10^e is compressed to 10(9q + d - 1) + e + 1 for e below nine and d from 1 to 9 |
| Chainstate.CompressedLarge | btc-extract-utxo/bitcoin_tools/analysis/status/utils.py:24-37 | and q * 10^9 to 10q |
| Chainstate.CoinRoundTrip | btc-extract-utxo/bitcoin_tools/analysis/status/utils.py:226-257 | every coin the node can store is decoded to exactly its height, coinbase bit, amount, type and script |
| Chainstate.UncompressedCoin | btc-extract-utxo/bitcoin_tools/analysis/status/utils.py:226-257 | a coin with a script of its own is decoded from height and coinbase bit, amount, the script's length plus six, and the script |
| Chainstate.HashCoin | btc-extract-utxo/bitcoin_tools/analysis/status/utils.py:226-257 | a coin paying to a hash is decoded from height and coinbase bit, amount, type 0 or 1, and the 20 bytes |
| Chainstate.KeyCoin | btc-extract-utxo/bitcoin_tools/analysis/status/utils.py:226-257 | a coin paying to a public key is decoded from height and coinbase bit, amount, and the 33 bytes of the key that start with the type |
| Chainstate.DecodedCoinIff | btc-extract-utxo/bitcoin_tools/analysis/status/utils.py:226-257 | a byte string is accepted exactly when it is the serialization of a coin |
| Chainstate.DecodedUtxoIff | btc-extract-utxo/bitcoin_tools/analysis/status/utils.py:214-263 | accepted are exactly keys of 'C', a transaction id and a number, with the serialization of a coin |
| Chainstate.OutpointRoundTrip | btc-extract-utxo/bitcoin_tools/analysis/status/utils.py:214-263 | key and coin together are decoded to transaction id, index and coin |
| Chainstate.DecodeUtxo | btc-extract-utxo/bitcoin_tools/analysis/status/utils.py:214-263 | returns the specified record, or fails on the specified inputs |
| BlockMerkleRoot.RootIsTop | btc-module/ZT_Enclave/ZT_Enclave.cpp:220-279 | hashing layer by layer gives the value of the root of the tree over the leaves, an only child counting twice |
| BlockMerkleRoot.RootOfHalves | btc-module/ZT_Enclave/ZT_Enclave.cpp:245-257 | the root over two full halves is the hash of the left and the right root, in this order |
| BlockMerkleRoot.RootOfOdd | btc-module/ZT_Enclave/ZT_Enclave.cpp:258-277 | the last of an odd number of hashes counts twice |
| BlockMerkleRoot.HashLayer | btc-module/ZT_Enclave/ZT_Enclave.cpp:245-277 | the layer above is computed over the layer it is read from; what lies behind an odd number of hashes does not matter |
| BlockMerkleRoot.VerifyMerkleRoot | btc-module/ZT_Enclave/ZT_Enclave.cpp:220-279 | returns 0 exactly when the given root is that of the hashes, -1 otherwise, and terminates, in a buffer of any sufficient size |
| BlockMerkleRoot.ReachesOneIff | btc-module/ZT_Enclave/ZT_Enclave.cpp:220-279 | the chain of calls reaches a single hash exactly when there is one to begin with |
| Ripemd160.PaddedBlocks | btc-module/ZT_Enclave/crypto/ripemd160.cpp:278-282 | the padding fills the last block, and no shorter one would |
| Ripemd160.PaddedAt | btc-module/ZT_Enclave/crypto/ripemd160.cpp:274-280 | byte by byte the padded message is the message, 0x80, zeros, and the number of its bits modulo 2^64, least significant byte first |
| Ripemd160.DigestBlocks | btc-module/ZT_Enclave/crypto/ripemd160.cpp:247-285 | the blocks of the padded message are compressed in order, from the initial words on, and the last state is the hash |
| Ripemd160.InitialBytes | btc-module/ZT_Enclave/crypto/ripemd160.cpp:24-31 | the initial words, as bytes |
| Ripemd160.OutputAt | btc-module/ZT_Enclave/crypto/ripemd160.cpp:281-285 | word i of the state is at bytes 4i to 4i + 3 of the hash, least significant byte first |
| Ripemd160.PaddingInjective | btc-module/ZT_Enclave/crypto/ripemd160.cpp:278-282 | different messages stay different when padded, even where the length field wraps around |
| Ripemd160.AbsorbedPrefix | btc-module/ZT_Enclave/crypto/ripemd160.cpp:247-272 | blocks already absorbed do not depend on what is written later |
| Ripemd160.CRIPEMD160.Write | btc-module/ZT_Enclave/crypto/ripemd160.cpp:247-272 | state and buffer stand for everything written so far |
| Ripemd160.CRIPEMD160.Finalize | btc-module/ZT_Enclave/crypto/ripemd160.cpp:274-285 | returns the hash of message, one bit, zeros and length |
| Ripemd160.CRIPEMD160.Reset | btc-module/ZT_Enclave/crypto/ripemd160.cpp:287-292 | nothing has been written |
| Ripemd160.HashParts | btc-module/ZT_Enclave/crypto/ripemd160.cpp:247-285 | however a message is split into writes, the hash is that of the whole message |
| Transaction.VarintRoundTrip | btc-extract-utxo/bitcoin_tools/utils.py:93-141 | decoding inverts encoding for every number below 2^32 |
| Transaction.EncodeVarintIs | btc-extract-utxo/bitcoin_tools/utils.py:112-141 | encoding succeeds exactly below 2^32, with one, three or five bytes |
| Transaction.VarintAt | btc-extract-utxo/bitcoin_tools/utils.py:57-90 | a varint is parsed by its first byte as one of 1, 3, 5 or 9 bytes, all read as one number |
| Transaction.RoundTrip | btc-extract-utxo/bitcoin_tools/core/transaction.py:221-299 | deserializing what was serialized restores every field, for counts and script lengths below 253 |
| Transaction.PutBackIff | btc-extract-utxo/bitcoin_tools/core/transaction.py:221-299 | serializing what was deserialized returns the same bytes exactly when all counts and script lengths are below 253 |
| Transaction.RoundTripIff | btc-extract-utxo/bitcoin_tools/core/transaction.py:221-299 | deserializing what was serialized restores the transaction exactly when all counts and script lengths are below 253 |
| Transaction.SerializedAt | btc-extract-utxo/bitcoin_tools/core/transaction.py:270-299 | where version, counts, inputs, outputs and lock time are in the bytes, and in which byte order |
| Transaction.SerializedInAt | btc-extract-utxo/bitcoin_tools/core/transaction.py:275-281 | where the fields of an input are, and in which byte order |
| Transaction.SerializedOutAt | btc-extract-utxo/bitcoin_tools/core/transaction.py:287-291 | where the fields of an output are, and in which byte order |
| Transaction.InsInOrder | btc-extract-utxo/bitcoin_tools/core/transaction.py:273-281 | inputs are serialized one after the other |
| Transaction.OutsInOrder | btc-extract-utxo/bitcoin_tools/core/transaction.py:285-291 | outputs are serialized one after the other |
| Transaction.TX.ParseElement | btc-extract-utxo/bitcoin_tools/utils.py:41-54 | yields the next bytes, or moves the offset past the end |
| Transaction.TX.ParseVarint | btc-extract-utxo/bitcoin_tools/utils.py:57-90 | yields the whole varint read as one number, or fails |
| Transaction.TX.DeserializeInput | btc-extract-utxo/bitcoin_tools/core/transaction.py:229-235 | the lists gain one input as specified, or the offset passes the end, or it fails |
| Transaction.TX.DeserializeOutput | btc-extract-utxo/bitcoin_tools/core/transaction.py:240-244 | the same for one output |
| Transaction.TX.Deserialize | btc-extract-utxo/bitcoin_tools/core/transaction.py:221-254 | returns the specified transaction, or fails on the specified inputs |
| Transaction.TX.SerializeInput | btc-extract-utxo/bitcoin_tools/core/transaction.py:275-281 | the specified bytes of one input |
| Transaction.TX.SerializeOutput | btc-extract-utxo/bitcoin_tools/core/transaction.py:287-291 | the specified bytes of one output |
| Transaction.TX.Serialize | btc-extract-utxo/bitcoin_tools/core/transaction.py:270-299 | returns the specified bytes, or fails where a field is too large |
| Reducer.GetRealSizeFromCompactSize | btc-module/ZT_Enclave/reducer/reducer.cpp:21-43 | reads back any length of the wire format and stops behind it |
| Reducer.CompactSizeIs | btc-module/ZT_Enclave/reducer/reducer.cpp:21-43 | the bytes of a length prefix, in each of its four forms |
| Reducer.Reducer.GetTxInputs | btc-module/ZT_Enclave/reducer/reducer.cpp:45-113 | consumes exactly the inputs, and vin gains in order the records of those with a signature and a public key |
| Reducer.Reducer.GetTxOutputs | btc-module/ZT_Enclave/reducer/reducer.cpp:192-231 | consumes exactly the outputs, and vout gains in order the records of those with a 25-byte script starting with 0x76 |
| Reducer.Reducer.ReduceLegacy | btc-module/ZT_Enclave/reducer/reducer.cpp:310-334 | of a legacy transaction not taken for one with a witness exactly the lock time is left, and both vectors gain their records |
| Reducer.Reducer.GetTxOutput | btc-module/ZT_Enclave/reducer/reducer.cpp:200-228 | one turn goes on by the first byte of the script's length, whatever the length; it ends at the end of the output exactly for scripts below 253 bytes, and gains the record of the output |
| Reducer.OutputStepIff | btc-module/ZT_Enclave/reducer/reducer.cpp:227-227 | that step lands on the end of the output exactly when the script is shorter than 253 bytes, and never behind it |
| Reducer.TakenForSegWitIff | btc-module/ZT_Enclave/reducer/reducer.cpp:318-331 | a legacy transaction is taken for one with a witness exactly when it has outputs but no inputs |
| Reducer.RecordsHave68Bytes | btc-module/ZT_Enclave/reducer/reducer.cpp:49-113 | every record has 68 bytes |
| Reducer.InputRecordIs | btc-module/ZT_Enclave/reducer/reducer.cpp:53-110 | the record of an input holds, at fixed offsets, the transaction and index it names, zeros, and the hash of the key it shows |
| Reducer.OutputRecordIs | btc-module/ZT_Enclave/reducer/reducer.cpp:203-225 | the record of an output holds, at fixed offsets, its transaction, amount, block height, key hash and index |
| Reducer.StandardScripts | btc-module/ZT_Enclave/reducer/reducer.cpp:78-110 | standard payments to a key hash, and inputs with a signature and a key of 33 or 65 bytes, are recorded under the hash of that key |
| Reducer.OutputRecordsSplit | btc-module/ZT_Enclave/reducer/reducer.cpp:199-229 | the records of outputs follow each other in order, each with its own index |
| Reducer.InputRecordsSplit | btc-module/ZT_Enclave/reducer/reducer.cpp:53-112 | and so do those of inputs |
| Spending.RecordsMatchIff | btc-module/ZT_Enclave/ZT_Enclave.cpp:367-367 | the records of an input and an output match exactly when the input names the output, and select by the same key exactly when the input shows the key paid to |
| Spending.SpentIsErased | btc-module/ZT_Enclave/ZT_Enclave.cpp:352-391 | the record of a spent output is in the block the input's record selects, and deleting by that record erases it, unless an older record of the outpoint comes first |
| UtxoBlocks.AddRecord | btc-module/ZT_Enclave/ZT_Enclave.cpp:374-391 | the record goes into the first slot of another block's key, unless two records of its key come before |
| UtxoBlocks.DeleteRecord | btc-module/ZT_Enclave/ZT_Enclave.cpp:362-373 | the first record of the outpoint is erased, and nothing else |
| UtxoBlocks.AddedKeeps | btc-module/ZT_Enclave/ZT_Enclave.cpp:374-391 | adding never overwrites a record of the block: each occurs as often as before, and the new one once more if it has a place |
| UtxoBlocks.AddedIs | btc-module/ZT_Enclave/ZT_Enclave.cpp:374-391 | a record goes into the first slot of another block if at most one record of its key comes before, and nowhere else |
| UtxoBlocks.KeysBeforeIs | btc-module/ZT_Enclave/ZT_Enclave.cpp:388-389 | the counter is the number of slots seen with the item's key |
| UtxoBlocks.EditedSlot | btc-module/ZT_Enclave/ZT_Enclave.cpp:362-391 | slot by slot: an item of type 0 zeroes the first record of its outpoint, any other type puts the item where it goes, and every other slot stays |
| UtxoBlocks.UpdatedInOrder | btc-module/ZT_Enclave/ZT_Enclave.cpp:347-402 | the items of a vector take effect in order |
| UtxoBlocks.AddedThenDeleted | btc-module/ZT_Enclave/ZT_Enclave.cpp:362-391 | deleting a record just added clears its slot, unless an older record of the outpoint comes first |
| UtxoBlocks.ErasedBlockTakesIff | btc-module/ZT_Enclave/ZT_Enclave.cpp:374-391 | an erased block takes a record exactly when it is not the block of the all-zero key |
| UtxoBlocks.UpdateItem | btc-module/ZT_Enclave/ZT_Enclave.cpp:347-394 | one item: the ORAM's array changes in the item's block only, as specified |
| UtxoBlocks.VectorToORAM | btc-module/ZT_Enclave/ZT_Enclave.cpp:339-410 | after a whole vector the ORAM holds the array with every item added, or deleted, in turn |
| UtxoBlocks.AmpleForAll | btc-module/ZT_Enclave/ZT_Enclave.cpp:339-410 | with a stash slot for every block there is room for every vector |

## Left out

- What requests answer after a block has been dropped by `pass_insert`, and what a 'z' answers that lacks room: `Overflow`
  says exactly when the state stays consistent, not what is read from an inconsistent one.
- Stash.Stash.constructor: clears the discard flags and starts from an empty list; the source takes nodes and stashes from
  `malloc` and sets neither `discard_block` nor the start of the list.
- Probabilistic bounds on stash occupancy, and obliviousness of the memory trace: only what is computed is modelled.
- Non-oblivious branches, and ORAMs without recursion (`recursion_levels == -1`): a different design, which the shipped
  configuration does not use.
- `CircuitORAM_FetchBlock` and Circuit ORAM end to end: its oblivious stash scan copies the block without removing the original,
  so only the eviction is modelled, for one path at a time.
- Encryption of buckets: the ciphertexts are not modelled, except that the build encrypts its bucket in place, which is why the
  initial contents of data blocks are arbitrary.
- `sampledLeaf`, drawn in every access and not used by the oblivious code: at the data level it is reduced modulo the word behind
  the end of `N_level`, which must not be zero.  The field `current_size` of a stash.
- Wrap-around of ids, labels and bucket numbers: they are unbounded here; the sizes asked for keep them within their widths.
- ORAMTree.Initialize: takes the condition `FitWidths` as a precondition, as the source does not check it.  The buffers a path
  is copied into are not modelled; they are sized for the data level, and hold the paths of a recursion level whenever its blocks
  are not larger.
- PathORAMController.OAssignNewLabelToBlock: looks at the words a block has; in the source every block of a recursion level
  has x of them.
- Byte offsets in the untrusted storage: buckets and hashes are addressed by number.
- Sizing.ComputeRecursionLevels: not for a recursion data size whose quarter, rounded down, is a multiple of 256, such as 1024:
  its 8-bit x is zero, and the source divides by it.  It divides and rounds exactly; the source divides doubles, which is exact
  for block counts below 2^32.  The quotient of logarithms in the depth of a level is taken as exact too.
- Sizing.StopsIff: is stated for an x other than zero, for the same reason.
- Hashes of the recursion levels: the block size passed for them is that of the data level, so `Merkle` is about the data level.
- What `verifyPath` does on a mismatch: the results of its comparisons are not acted on.
- BlockMerkleRoot.VerifyMerkleRoot: what `verifyBlock` lets it read behind an odd number of hashes is an arbitrary value here.
- Transactions with a witness: the loop that skips witness items has no defined start value.
- Reducer.Reducer.GetTxOutputs: is stated for output scripts shorter than 253 bytes; `Reducer.Reducer.GetTxOutput` says where the
  turn over a longer one ends, not what is then read from inside that script.
- Reducer.Reducer.ReduceLegacy: the same, and not for transactions with outputs but no inputs, which are taken for ones with a
  witness.
- Texts that are not hexadecimal, and hexadecimal texts of odd length: strings are byte strings here.
- Coins of the chainstate before version 0.15, and everything that dumps, filters or plots the set.
- SGX calls, launch tokens, timing, printing, threads, the exitless mode, RPC, keys, signatures and scripts.
- The block header's proof of work and chain, and the segmentation of the stream of raw transactions.
