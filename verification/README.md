# A verified model of state-actor's binary trie builder and its planners

state-actor generates the databases of Ethereum clients. This project models the parts of it whose correctness is
not visible from reading one function, and proves what they promise:

* **The streaming builder** (`generator/binary_stack_trie.go`). One forward pass over sorted stems keeps a stack of
  pending left hashes and defers every stem until its right neighbour is known. In grouped mode child slots are
  buffered per boundary depth, groups are flushed late and deep to shallow, each flushed hash is sealed into its
  parent, and late records are dropped by two guards. The specification is the recursive bit tree of EIP-7864
  (sections "Tree structure" and "Node merkelization"), generalised so that a lone stem collapses only at multiples
  of the group depth (`TreeSpec.Root`). Proved: root and node store are exactly those of the recursive tree, for all
  stems and all group depths, with a writer and without.
* **The readers of that store** (`TrieReader`, `NodeCodec`, `StemHash`, `BlobStore`): every stem is found again, every
  slot holds the hash recomputed from the child's own node, down to the bytes and for every hash function without a zero
  image.
* **Regrouping** (`generator/regroup.go`), the second route to the grouped layout, and exactly when both routes agree.
* **The two ordered pipelines** (`generator/binary_stack_trie.go` and `client/ethrex/state_writer_cgo.go`) as step
  systems over all interleavings, including cancellation, errors, progress and how much they hold at a time.
* **Early stop by size** (`generator/size_tracker.go`, `generator/stoppable_iterator.go`).
* **The exact integer planners** of `internal/autofill`: range-partitioned sort, budget split, weighted draws, and the
  census of code lengths.
* **reth's bytecode analysis, prefix range bounds and the entity blob codec.**

## How it is organised

Hashes are free terms (`TreeSpec.Hash`), so equal hashes mean equal contents and no hash of data is zero. Stems are
248-bit paths. A file per component; the builder's proof is layered: `Stems`, `TreeSpec` and `Groups` define paths,
tree and slots; `BuilderSpec` says what store and buckets hold half way through a run; `BuilderSteps` moves these
descriptions along one placement; `StackTrie` holds the classes with the program's fields, and `TrieRun` whole runs.

## What the proofs found

* The comment at `generator/binary_stack_trie.go:981-985` says that the stack hash may diverge from the root group's
  hash. It does not: `StackTrie.StreamingBuilder.Finish` proves `stack[0]` equal to the returned root in every mode.
  `isRight` is never true, so the branches on it are dead.
* `--group-depth` accepts 1 to 8. For a depth that does not divide 248, two neighbouring stems that agree up to the
  last boundary make the extended depth exceed the stem: the builder and `regroupTrieNodes` index out of range.
  `TrieRun.FitsIff` is the exact condition, `TrieRun.PanicWitness` an input, and `TrieRun.DividingDepthFits` shows
  that 1, 2, 4 and 8 are safe.
* Regrouping stores ungrouped child hashes. Keys, stems and bitmaps are always those of direct emission
  (`LayoutCompare.SameLayout`); the stores are equal only under the condition of `LayoutCompare.StoresAgreeIff`.
* If the caller cancels the builder's pipeline between the reader's last check and its last semaphore send
  (`generator/binary_stack_trie.go:1373-1392`), the last stem is sent without a slot, and its worker waits for ever on
  `<-sem` (`Pipeline.HangWitness`). `Pipeline.HangsIff` is the exact condition: the semaphore was skipped, the last stem
  was sent all the same, and no worker aborted or panicked (such a worker leaves a slot behind, which lets the other one
  go on). So a panic alone never makes the call hang, and neither does anything else as long as the caller does not
  cancel (`Pipeline.ReturnsUnlessCancelled`). The witness needs a caller that passes a context it cancels; the program
  itself passes `context.Background()` (`generator/generator.go:517-518`).
* The comment at `generator/binary_stack_trie.go:1207` says that the semaphore bounds the stems in flight. It bounds them
  only up to the results channel (`InFlight.InFlightBounded`), since a worker gives its slot back once its result is sent;
  behind one slow worker the reorder buffer can take in almost the whole input (`InFlight.BufferGrows`), and it is bounded
  exactly when there is one worker (`InFlight.BufferBoundedIff`).
* If the caller cancels the ethrex writer after the reader has read its last account, workers skip accounts and the call
  returns the root of a partial trie without an error (`AccountPipeline.SilentLoss`). `AccountPipeline.SuccessIff` and
  `AccountPipeline.CompleteUnlessCancelled` say exactly when a successful call is complete.
* The budget search need not settle in eight rounds, and then the number of giants is not the documented share
  `round(C*t/T)` of the contracts returned. Each round's answer falls when the previous one rises, so the rounds enclose
  the one self-consistent number from both sides, if there is one (`Budget.RoundsEnclose`). The share is missed exactly
  when the budget admits a ladder of ten numbers that keeps the rounds apart, each rung two inequalities on the budget
  (`Budget.ShareIff`). That happens in two ways (`Budget.MissedWays`): two numbers trap the search, so that it never
  settles, with or without a self-consistent number between them; or it settles only after the eighth round. Where the
  drawn-only share is at most one giant, the share is missed exactly for budgets from 4,084,321 to 5,084,283 slots
  (`Budget.SmallBudgets`); at 250,200,000 slots 22 giants are self-consistent and no number of rounds finds them
  (`Budget.TrappedBudget`); at 446,966,000 slots the search finds 38 giants in the ninth round and returns 37
  (`Budget.LateBudget`). The budget itself is kept in all these cases, but above 2^64 / 1000 slots it wraps
  (`Budget.BudgetWraps`).

## Model

| member | source | states |
|---|---|---|
| `Stems.AgreeIffCommonPrefix` | generator/binary_stack_trie.go:444-455 | two stems agree on their first d bits if and only if d is at most their common prefix length |
| `StemBytes.CommonPrefixLenBits` | generator/binary_stack_trie.go:447-455 | the byte-wise XOR and leading-zero loop computes the number of leading bits two 31-byte stems share |
| `StemBytes.ByteOrderIsBitOrder` | generator/binary_stack_trie.go:532-536 | the byte order in which keys are sorted is the order of the bit paths, in both directions |
| `TreeSpec.NeighbourIsClosest` | generator/binary_stack_trie.go:456-475 | the left neighbour of a new stem shares the longest prefix with it: a prefix of the new stem is unused exactly below that depth |
| `TreeSpec.NothingRight` | generator/binary_stack_trie.go:856-889 | to the right of the last placed stem the tree is empty, which justifies combining with an empty sibling |
| `TreeSpec.NodeFrame` | generator/binary_stack_trie.go:891-957 | a finished node's hash does not change when a stem outside it is fed |
| `Groups.ReaderHashIsNode` | generator/binary_stack_trie.go:655-700 | the hash a reader computes bottom-up from a complete group equals the recursive tree's hash of its node, two empty halves collapsing to zero |
| `GroupNodes.SortedChildren` | generator/binary_stack_trie.go:620-653 | the child list written does not depend on the iteration order of the slot map |
| `GroupNodes.GroupedRecursiveHash` | generator/binary_stack_trie.go:662-698 | the in-place pairwise reduction over 2^g leaves equals the recursive group hash |
| `BuilderSpec.StorePlace` | generator/binary_stack_trie.go:827-853 | if a placement adds exactly the nodes that became final, the store is the one expected after that stem |
| `BuilderSpec.RetraversalIsRecorded` | generator/binary_stack_trie.go:555-612 | a record of the left neighbour's path made again falls on a flushed group whose stored node holds the same hash in that slot, or on a buffered slot that holds it |
| `BuilderSpec.SlotIsStored` | generator/binary_stack_trie.go:571-587 | every record dropped by the flushed guard carried the hash that the stored group node has in that slot |
| `BuilderSpec.BucketsFlush` | generator/binary_stack_trie.go:707-795 | flushing the deepest bucket and cascading its hash into the parent slot leaves exactly the buckets of the shallower boundaries, with the tree's hashes |
| `BuilderSteps.FlushCase` | generator/binary_stack_trie.go:707-795 | a boundary below the target depth has a complete bucket, holding every non-empty child of its node; any other boundary has none |
| `BuilderSteps.RetraversalIsNoop` | generator/binary_stack_trie.go:555-612 | recording the left neighbour's whole path again leaves all buckets unchanged |
| `BuilderSteps.StorePlaceUngrouped` | generator/binary_stack_trie.go:827-957 | the stem node and the internal nodes written on the way up are exactly the newly final nodes |
| `BuilderSteps.StorePlaceGrouped` | generator/binary_stack_trie.go:707-853 | the stem node and the flushed groups are exactly the newly final nodes |
| `StackTrie.TrieNodeWriter.WriteNode` | generator/binary_stack_trie.go:88-106 | the node is stored at its path and counted once |
| `StackTrie.StreamingBuilder.constructor` | generator/binary_stack_trie.go:476-528 | a new builder is valid and has been fed nothing |
| `StackTrie.StreamingBuilder.RecordGroupChild` | generator/binary_stack_trie.go:555-612 | the slot is upserted unless the group was flushed or the slot is sealed; nothing else changes |
| `BuilderSteps.SealedIsRecorded` | generator/binary_stack_trie.go:588-600 | recording the hash a slot already holds changes nothing, so the sealed guard loses nothing where `PropagateUp` meets it |
| `StackTrie.StreamingBuilder.WriteGroupedNode` | generator/binary_stack_trie.go:620-653 | writes the bucket with its full child list once, empties and unseals it, marks the path flushed and returns the reader's hash; an empty bucket changes nothing |
| `StackTrie.StreamingBuilder.CascadeGroup` | generator/binary_stack_trie.go:720-795 | one flush: node written, hash sealed into the parent slot or published as root, other buckets untouched |
| `StackTrie.StreamingBuilder.FlushCompletedGroupsAbove` | generator/binary_stack_trie.go:707-795 | all complete groups below the completion depth are written deepest first, each with the tree's content; a full flush publishes the tree's root hash |
| `StackTrie.StreamingBuilder.PropagateUp` | generator/binary_stack_trie.go:897-957 | combines with every pending left sibling: afterwards exactly the non-empty left siblings on the stem's path are pending, each with its finished hash |
| `StackTrie.StreamingBuilder.UnwindTo` | generator/binary_stack_trie.go:858-889 | resolves the pending hashes below a depth with empty right siblings and keeps the stack invariant |
| `StackTrie.StreamingBuilder.FlushDeferred` | generator/binary_stack_trie.go:827-853 | places the deferred stem at the depth that isolates it from both neighbours, extended to the group's bottom; out of range exactly when that depth exceeds 248 |
| `StackTrie.StreamingBuilder.FeedStem` | generator/binary_stack_trie.go:800-823 | keeps the step invariant for every ascending input; panics if and only if the stems so far do not fit the group depth |
| `StackTrie.StreamingBuilder.Finish` | generator/binary_stack_trie.go:963-994 | returns the recursive root over everything fed; the stack hash equals it; the store is exactly the tree's node set with every path written once; no bucket is left |
| `TrieRun.BuildRoot` | generator/binary_stack_trie.go:800-994 | a whole run returns the recursive root and store, or panics exactly when the stems do not fit, in all three modes |
| `TrieRun.FitsIff` | generator/binary_stack_trie.go:827-853 | a run fits if and only if no two neighbouring stems agree on all bits up to the last boundary |
| `TrieRun.FitsPrefix` | generator/binary_stack_trie.go:827-853 | a run that fits has no prefix that panics |
| `TrieRun.DividingDepthFits` | generator/binary_stack_trie.go:827-853 | no run panics for a group depth that divides 248 |
| `TrieRun.PanicWitness` | generator/binary_stack_trie.go:827-853 | two stems that differ in their last bit do not fit group depth 3 |
| `TrieRun.ReadStems` | generator/binary_stack_trie.go:1010-1053 | cutting the sorted entries at each change of stem loses, duplicates and reorders nothing and gives strictly ascending stems |
| `TrieRun.GroupingIsUnique` | generator/binary_stack_trie.go:1010-1053 | the sorted entries determine their pieces |
| `TrieRun.HashedAscending` | generator/binary_stack_trie.go:1010-1053 | the hashed pieces meet what the builder demands: ascending, hashes not zero, each the stem hash of its own stem and entries |
| `TrieRun.ComputeBinaryRootFromSlice` | generator/binary_stack_trie.go:1010-1053 | from sorted entries to the recursive root and store of their pieces, or a panic exactly when they do not fit |
| `TrieReader.RecomputedHash` | generator/binary_stack_trie.go:655-661 | the hash recomputed from the node stored at a path is the tree's hash of that path |
| `TrieReader.SlotMatchesChild` | generator/binary_stack_trie.go:707-795 | every slot of a stored group holds the hash recomputed from the node stored at the child path, and zero where there is none |
| `TrieReader.LookupFinds` | generator/binary_stack_trie.go:538-547 | from any stored node on the path, following a stem's bits finds exactly the entries fed for it |
| `TrieReader.LookupFromRoot` | generator/binary_stack_trie.go:538-547 | from the root, following a stem's bits finds its entries, and nothing for a stem that was not fed |
| `StemHash.ComputeStemNodeHash` | generator/binary_stack_trie.go:264-295 | the hash carries the given stem; the eight bits of any suffix, most significant first, lead through the pairs to the leaf of the last value given for it, or to an empty subtree where there is none; no pair has two empty halves |
| `StemHash.StemHashUnique` | generator/binary_stack_trie.go:264-295 | these conditions determine the hash |
| `StemHash.StemHashInjective` | generator/binary_stack_trie.go:290-294 | equal stem hashes come from equal stems and, for every suffix, from equal last values |
| `StemHash.ReduceStem` | generator/regroup.go:302-322 | the in-place eight-level reduction gives the given stem with the recursive Merkle root over the given slots |
| `NodeCodec.BuildBitmap` | generator/binary_stack_trie.go:209-256 | as numbers, the bits of the bytes, most significant first, are those of exactly the given slots |
| `NodeCodec.SerializeStemNode` | generator/binary_stack_trie.go:233-257 | type byte 1, stem, bitmap of exactly the present suffixes, most significant bit first, values in order |
| `NodeCodec.HashStemBlob` | generator/regroup.go:280-323 | the hash of any stem blob carries the stem of its bytes 1 to 31 and has the leaves of the entries its bitmap selects; too short is zero |
| `NodeCodec.ReadEntriesAre` | generator/regroup.go:290-300 | for any bytes: an entry is read if and only if its bit is set and the value bytes reach it, and its value is the one at the number of set bits before it |
| `NodeCodec.ReadBack` | generator/binary_stack_trie.go:233-257 | reading bitmap and values back yields the entries, for strictly ascending suffixes |
| `NodeCodec.BlobReadsBack` | generator/regroup.go:280-323 | a serialized stem node reads back to its own entries |
| `NodeCodec.HashBothWays` | generator/regroup.go:280-323 | hashing the entries and hashing their blob give the same hash, that of the stem and the entries |
| `NodeCodec.SerializeGroupedInternalNode` | generator/binary_stack_trie.go:209-229 | type byte 2, group depth, bitmap of exactly the children's slots, most significant bit first, hashes in order as 32-byte fields |
| `NodeCodec.ReadBackChildren` | generator/binary_stack_trie.go:209-229 | reading a group's bitmap and hash bytes back yields its children |
| `NodeCodec.GroupRoundTrip` | generator/binary_stack_trie.go:209-229 | every bucket survives serialization |
| `BlobStore.ByteHashIs` | generator/binary_stack_trie.go:655-698 | for every hash function without a zero image, reducing the bytes gives the bytes of the hash term |
| `BlobStore.StoredBlobHash` | generator/regroup.go:267-323 | the hash recomputed from the bytes stored at a path is the tree's hash of that path; for a stem it is the hash of its 31 bytes, a zero byte and the Merkle root of its 256 hashed values |
| `BlobStore.StemDigest` | generator/binary_stack_trie.go:264-295 | the bytes of a stem's hash are sha(stem, 0, root), the root taken over the row of its 256 hashed last values by halves |
| `BlobStore.StemBytesHash` | generator/regroup.go:280-323 | any stem blob hashes to sha(blob[1..32], 0, root), the root taken over the values read from it |
| `BlobStore.InternalBytesHash` | generator/binary_stack_trie.go:655-700 | a group blob hashes to the root, by halves, of the row of its slots; an ungrouped internal blob of 65 bytes to sha of its two hashes |
| `BlobStore.SlotMatchesBlob` | generator/binary_stack_trie.go:655-661 | the 32 bytes in every slot of a stored group are the hash recomputed from the bytes stored at the child path, and there are none where there is no child |
| `BlobStore.RootFromBytes` | generator/binary_stack_trie.go:963-994 | recomputing the root from the bytes at the empty path gives the root returned |
| `BlobStore.KeysAreCanonical` | generator/binary_stack_trie.go:1010-1053 | sorted keys give every stem strictly ascending suffixes, as these results demand |
| `Regroup.ExtendPosition` | generator/regroup.go:126-141 | the slot of a stem inside a group is given by its own bits |
| `Regroup.CollectChildren` | generator/regroup.go:89-161 | the explicit-stack walk collects every non-empty slot with its ungrouped hash; it panics exactly when the group reaches below bit 248 |
| `Regroup.WalkStep` | generator/regroup.go:107-157 | one popped entry: the slots collected plus the slots still covered by the stack are always all non-empty slots |
| `Regroup.WriteGroups` | generator/regroup.go:75-196 | queues one group node for exactly the internal nodes at boundary depths, in any map order; panics exactly when the stems do not fit |
| `Regroup.MoveOffBoundary` | generator/regroup.go:198-250 | everything off a boundary is deleted and every stem moves to the bottom of its group, in any map order |
| `Regroup.RegroupTrieNodes` | generator/regroup.go:26-262 | turns an ungrouped store into the grouped layout with ungrouped child hashes; rejects bad depths and panics exactly when the stems do not fit, both without writing |
| `Regroup.RegroupPoint` | generator/regroup.go:198-250 | a path survives exactly when the grouped layout has a node there, and stem blobs are kept |
| `Regroup.AllFit` | generator/regroup.go:107-157 | if every boundary node leaves room for its group then the builder would not panic either |
| `LayoutCompare.SameLayout` | generator/regroup.go:75-262 | regrouping and direct emission give the same keys, stem nodes and bitmaps |
| `LayoutCompare.HashesAgreeIff` | generator/regroup.go:107-157 | ungrouped and grouped hash of a node agree if and only if every stem below it first stands alone at a boundary |
| `LayoutCompare.RootsAgreeIff` | generator/regroup.go:75-262 | both formats have the same root if and only if every stem of the ungrouped store sits at a multiple of the group depth |
| `LayoutCompare.StoresAgreeIff` | generator/regroup.go:75-262 | regrouping yields the directly emitted store if and only if every ungrouped stem lies in the root group or at a multiple of the group depth |
| `LayoutCompare.TwoStems` | generator/regroup.go:75-262 | for two stems that is decided by their common prefix length |
| `LayoutCompare.StoresDiffer` | generator/regroup.go:75-262 | two stems that first differ in bit 2 give different stores for group depth 2 |
| `Pipeline.StepKeepsInv` | generator/binary_stack_trie.go:1192-1416 | every step of reader, workers, resequencer and builder keeps the invariant: valid numbers, ordered output, nothing lost while not cancelled |
| `Pipeline.FedInOrder` | generator/binary_stack_trie.go:1192-1416 | in every interleaving the builder has been fed a prefix of the sorted stems, and all of them exactly once if the call succeeds |
| `Pipeline.RunsAreBounded` | generator/binary_stack_trie.go:1192-1416 | every run has a bounded number of steps |
| `Pipeline.Progress` | generator/binary_stack_trie.go:1192-1416 | unless the last stem is in flight without a slot and no slot was leaked, some goroutine can always move until all have returned |
| `Pipeline.HangsIff` | generator/binary_stack_trie.go:1298-1321 | a run that can go no further has not returned if and only if the final select skipped the semaphore, the last stem was sent, and no worker aborted or panicked |
| `Pipeline.ReturnsUnlessCancelled` | generator/binary_stack_trie.go:1298-1321 | a run in which a worker panicked, or in which the caller does not cancel, always returns |
| `Pipeline.HangWitness` | generator/binary_stack_trie.go:1306-1321 | a concrete run in which a worker waits for ever for a slot nobody holds |
| `Pipeline.SuccessfulRun` | generator/binary_stack_trie.go:1192-1416 | every input has a successful run; more, every run without cancellation and panic can be completed to one |
| `Pipeline.BuildFromRun` | generator/binary_stack_trie.go:1223-1266 | a successful run, whatever the interleaving, computes the sequential root and store |
| `InFlight.InFlightBounded` | generator/binary_stack_trie.go:1206-1210 | in every run the semaphore and the channels keep their capacities, and at most 64 stems are between the reader and the results channel, 65 if the reader skipped the semaphore |
| `InFlight.OneWorkerBounded` | generator/binary_stack_trie.go:1265-1292 | with one worker at most one result waits in the reorder buffer, and it is the next one |
| `InFlight.BufferGrows` | generator/binary_stack_trie.go:1265-1325 | with two workers or more, for every input all stems but the first and the last can wait in the reorder buffer at once |
| `InFlight.BufferBoundedIff` | generator/binary_stack_trie.go:1206-1325 | a bound below the size of the input holds for the reorder buffer in all runs if and only if there is one worker |
| `AccountHeap.TopIsLeast` | client/ethrex/node_sink_cgo.go:153-174 | the first element of the heap has the least number |
| `AccountHeap.ResultHeap.Push` | client/ethrex/node_sink_cgo.go:156-167 | keeps heap order and adds exactly the new result |
| `AccountHeap.ResultHeap.Pop` | client/ethrex/node_sink_cgo.go:156-167 | returns the top, keeps heap order and the other results |
| `AccountWriter.TopIff` | client/ethrex/state_writer_cgo.go:455-456 | a heap that holds the buffered results has the next number on top exactly when the pipeline may apply it |
| `AccountWriter.Receive` | client/ethrex/state_writer_cgo.go:448-465 | at any point of any run, an arrival drained without interruption continues the run: receive, apply consecutive accounts, then stop at a gap or a failure; heap and buffered accounts agree before and after |
| `AccountWriter.SameGuards` | client/ethrex/state_writer_cgo.go:448-465 | deciding by the heap and deciding by the set of buffered accounts allow the same steps |
| `AccountWriter.HeapRunIsRun` | client/ethrex/state_writer_cgo.go:297-478 | every run of the program with its heap, whatever steps come between two heap operations, is a run of the pipeline, and the heap always holds exactly the buffered accounts |
| `AccountWriter.RunHasHeaps` | client/ethrex/state_writer_cgo.go:297-478 | every run of the pipeline is a run of the program with some arrangement of its heap |
| `AccountWriter.OthersKeepHeap` | client/ethrex/state_writer_cgo.go:297-478 | every step that does not touch the heap keeps that agreement |
| `AccountPipeline.StepKeepsInv` | client/ethrex/state_writer_cgo.go:297-478 | every step of the three stages keeps the invariant |
| `AccountPipeline.AppliedInOrder` | client/ethrex/state_writer_cgo.go:297-478 | in every interleaving the accounts reach the trie in order, each once, without a gap |
| `AccountPipeline.SuccessIff` | client/ethrex/state_writer_cgo.go:379-478 | a call that returns no error is complete if and only if no worker skipped an account, which takes a cancellation by the caller; otherwise it applied exactly the accounts before the first skipped one |
| `AccountPipeline.CompleteUnlessCancelled` | client/ethrex/state_writer_cgo.go:297-478 | unless the caller cancels, a call that returns no error applied every account |
| `AccountPipeline.SilentLoss` | client/ethrex/state_writer_cgo.go:379-397 | a concrete cancelled run that drops an account and returns no error |
| `AccountPipeline.RunsAreBounded` | client/ethrex/state_writer_cgo.go:297-478 | every run has a bounded number of steps |
| `AccountPipeline.NeverStuck` | client/ethrex/state_writer_cgo.go:297-478 | a run that can go no further has returned |
| `InFlight.AccountsBounded` | client/ethrex/state_writer_cgo.go:297-478 | in every run both channels of the account pipeline hold at most twice as many accounts as there are workers |
| `EarlyStop.ActKeepsCalls` | generator/size_tracker.go:71-88 | one atomic step of any caller keeps every call between the value published when it began and the value published now, and never lowers the latter |
| `EarlyStop.RunIsMonotone` | generator/size_tracker.go:71-88 | under any interleaving of callers the published maximum never falls |
| `EarlyStop.ShouldStopSticks` | generator/size_tracker.go:91-98 | once a call has returned at least the target, every call that begins later does, whatever the calibration says |
| `EarlyStop.SeesOwnEstimate` | generator/size_tracker.go:71-88 | a call returns the greater of its own estimate and the value published at that moment, and that is then the published value; no other call is touched |
| `EarlyStop.PublishedIsGreatest` | generator/size_tracker.go:71-88 | in every run of a new tracker the published value is the greatest estimate of the calls that have returned, 0 if there is none; every result is 0 or an estimate begun in that run |
| `EarlyStop.ReachedIff` | generator/size_tracker.go:71-98 | the target is reached if and only if a call whose estimate reaches it has returned; while every estimate begun is below the target no call returns as much |
| `EarlyStop.StoppableIterator.Next` | generator/stoppable_iterator.go:24-33 | the stop is sticky and yields nothing more |
| `EarlyStop.ReadUntilStopped` | generator/stoppable_iterator.go:24-33 | what is read is the source up to the first call told to stop |
| `EarlyStop.ReadWork` | generator/binary_stack_trie.go:1337-1392 | the reader dispatches exactly the stems of that part of the source |
| `EarlyStop.BuildUntilStopped` | generator/binary_stack_trie.go:1192-1416 | any successful run of the pipeline over what was read, a partial last stem included, yields the recursive root and store over exactly those entries |
| `RangeSort.RangeFits` | internal/autofill/giants.go:181-197 | the range of a hash is below the number of ranges, so at most 256 ranges fit a byte |
| `RangeSort.RangeMonotone` | internal/autofill/giants.go:181-197 | a greater hash never gets a lower range |
| `RangeSort.AssignRanges` | internal/autofill/giants.go:181-197 | the chunks of the workers cover every slot, and each byte is the range its hash falls in when the 64-bit prefixes are cut into equal parts, as inequalities on the numbers |
| `RangeSort.NumRangesIs` | internal/autofill/giants.go:141-145 | there are as few ranges as hold all slots at the range size, but at most 256 |
| `RangeSort.CollectRange` | internal/autofill/giants.go:201-222 | the index-byte scan finds exactly the slots of a range |
| `RangeSort.ConcatSorts` | internal/autofill/giants.go:141-178 | whatever correct sort is used, the sorted ranges in sequence are sorted and hold exactly the slots of those ranges |
| `RangeSort.Sorted` | internal/autofill/giants.go:141-225 | for every slot count and range size the output is all slots in ascending hash order; it is empty exactly when the range count overflows 64 bits |
| `RangeSort.StrictlyAscending` | internal/autofill/giants.go:141-225 | every slot is yielded once, in strict order when no two hashes are equal |
| `GiantSizes.GiantBounds` | internal/autofill/giants.go:50-53 | every giant has between GiantMinSlots and n times GiantMinSlots slots |
| `GiantSizes.GiantMonotone` | internal/autofill/giants.go:50-53 | sizes do not decrease with i |
| `GiantTotals.SizeOf` | internal/autofill/giants.go:50-53 | the size of a giant is the quotient of the size law, given by two inequalities on n and i |
| `GiantSizes.TotalGrows` | internal/autofill/giants.go:56-62 | each further giant costs at least GiantMinSlots in total |
| `GiantSizes.MoreGiantsWrap` | internal/autofill/giants.go:50-53 | the products of the size law fit 64 bits for up to 3,037,000 giants and no more |
| `GiantSizes.GiantSlotSum` | internal/autofill/giants.go:50-62 | for every number of giants the loop computes the wrapped 64-bit sum, or panics on a wrapped divisor of zero; up to 3,037,000 giants that is the exact total |
| `Budget.FittingLargest` | internal/autofill/giants.go:36-38 | counting down stops at the largest number of giants that fits the budget |
| `Budget.SolveMainnetContracts` | internal/autofill/giants.go:31-46 | for every 64-bit budget the result is that of the wrapped search; up to the budget at which products wrap, settled or not, the giants fit, and drawn contracts at the mean plus giants never exceed the budget and leave less than one mean contract unused |
| `Budget.SearchExact` | internal/autofill/giants.go:31-46 | up to that budget the wrapped search is the exact one |
| `Budget.BudgetWraps` | internal/autofill/giants.go:31-46 | a 64-bit budget whose product with 1000 wraps: the result is empty and does not keep the budget |
| `Budget.ReplyAntitone` | internal/autofill/giants.go:33-45 | the more giants a round finds, the fewer the next one does |
| `Budget.AtMostOneSelfConsistent` | internal/autofill/giants.go:28-46 | at most one number of giants is the share of the contracts it leaves room for |
| `Budget.SelfConsistentIff` | internal/autofill/giants.go:28-46 | which numbers are self-consistent for a budget, as inequalities on budget and number alone |
| `Budget.RoundsNest` | internal/autofill/giants.go:33-45 | even rounds only rise, odd rounds only fall, and the even ones stay below the odd ones |
| `Budget.RoundsEnclose` | internal/autofill/giants.go:33-45 | the rounds enclose the self-consistent number from both sides |
| `Budget.ShareIff` | internal/autofill/giants.go:28-46 | the documented share is missed if and only if a ladder of ten numbers exists, as inequalities on the budget; without a self-consistent number it is always missed |
| `Budget.LadderIff` | internal/autofill/giants.go:33-45 | the same for any even number of rounds: not settled if and only if a ladder of that length exists |
| `Budget.MissedWays` | internal/autofill/giants.go:28-46 | the share is missed if and only if two numbers trap the search or it settles only after the eighth round |
| `Budget.SettlesIff` | internal/autofill/giants.go:33-45 | with enough rounds the search settles if and only if no two numbers trap it |
| `Budget.SmallBudgets` | internal/autofill/giants.go:28-46 | where the drawn-only share is at most one giant, the share is missed exactly from 4,084,321 to 5,084,283 slots |
| `Budget.SmallBudgetsAre` | internal/autofill/giants.go:32-35 | the drawn-only share is at most one giant exactly up to 12,252,923 slots |
| `Budget.TrappedBudget` | internal/autofill/giants.go:28-46 | a budget with a self-consistent number that no number of rounds finds |
| `Budget.LateBudget` | internal/autofill/giants.go:28-46 | a budget without a trap whose self-consistent number is found one round too late |
| `Weights.Search` | internal/autofill/account_model.go:58-61 | binary search finds the first cumulative count above r |
| `Weights.DrawLen` | internal/autofill/account_model.go:47-61 | the length drawn owns the random number in the histogram |
| `Weights.OwnedCount` | internal/autofill/account_model.go:47-61 | each index owns exactly as many random numbers as its weight |
| `Weights.OwnerUnique` | internal/autofill/account_model.go:47-61 | a random number has one owner |
| `CodeDraw.NewCodeModel` | internal/autofill/account_model.go:258-279 | the cumulative tables and rank offsets are those of the flat list of account counts |
| `CodeDraw.Draw` | internal/autofill/account_model.go:284-297 | the two-level draw returns the rank that owns the random number in the flat list of account counts of all codes |
| `CodeDraw.DrawIsExact` | internal/autofill/account_model.go:284-297 | each rank is drawn by exactly as many random numbers as the code has accounts |
| `CodeDraw.WeightOfRank` | internal/autofill/account_model.go:258-279 | a top rank weighs its own count, a rest rank the count of its group |
| `CodeCensus.ComputeGcd` | internal/autofill/account_model.go:383-388 | the loop computes the greatest common divisor of the recursive definition |
| `CodeCensus.GcdDivides` | internal/autofill/account_model.go:383-388 | that number divides both arguments |
| `CodeCensus.GcdIsGreatest` | internal/autofill/account_model.go:383-388 | every common divisor divides it |
| `CodeCensus.CoprimeMultiplier` | internal/autofill/account_model.go:366-381 | the search ends with the first number coprime to n in the cycle 1 to n - 1 that starts at 0x9E3779B97F4A7C15 mod n, or at 1 if that is 0 |
| `CodeCensus.PermutedInjective` | internal/autofill/account_model.go:364-381 | no two ranks are sent to the same residue |
| `CodeCensus.Preimage` | internal/autofill/account_model.go:364-381 | every residue is reached |
| `CodeCensus.CodeLen` | internal/autofill/account_model.go:301-313 | a top rank has its tabulated length; a rest rank, permuted, falls in a knot interval and has the length L of the even spread: (L - b - 1) * count <= x * span < (L - b) * count for the knot b below, for tables of at most 2^32 codes and lengths; for every other table the same with products cut to 64 bits |
| `CodeCensus.HasLenIff` | internal/autofill/account_model.go:301-313 | a permuted rank has a length if and only if these inequalities on the table's numbers hold |
| `CodeCensus.LenUnique` | internal/autofill/account_model.go:301-313 | that length is unique and between 1 and the last knot's length |
| `CodeCensus.ShortIffFirst` | internal/autofill/account_model.go:299-313 | a permuted rank gets a length of at most L exactly when it lies below the interval of L or the codes before it do not reach L, as an inequality on the table's numbers |
| `CodeCensus.ExactCensus` | internal/autofill/account_model.go:299-313 | for every length L the number of codes no longer than it is the least number c not below the knot with (c - cum) * span >= (L - len) * count, and at a knot exactly the tabulated number |
| `Bytecode.Scan` | client/reth/bytecode_writer_cgo.go:164-188 | a jump bit is set exactly at instruction starts that hold JUMPDEST |
| `Bytecode.StartsApart` | client/reth/bytecode_writer_cgo.go:164-188 | instructions do not overlap |
| `Bytecode.PaddedIsSafe` | client/reth/bytecode_writer_cgo.go:190-206 | walking the padded code ends exactly at its end in a STOP, also behind a one-byte immediate; the padding is at most 33 bytes |
| `Bytecode.PaddingIsLeast` | client/reth/bytecode_writer_cgo.go:190-206 | no shorter padding is safe |
| `Bytecode.JumpTable` | client/reth/bytecode_writer_cgo.go:215-231 | as a number, byte i / 8 divided by 2^(i mod 8) is odd exactly for jump destinations; spare bits are clear |
| `Bytecode.EncodeBytecodeCompact` | client/reth/bytecode_writer_cgo.go:156-252 | designators are stored raw with marker 4; all other code as 32-bit length, code with the least safe padding, marker 2, 64-bit length and a jump table that has, least significant bit first, the bits of exactly its jump destinations |
| `Bytecode.RoundTrip` | client/reth/bytecode_writer_cgo.go:156-285 | for every code: the wire form determines it, and the table read from it marks exactly its jump destinations, if and only if the padded length fits 32 bits |
| `PrefixRange.UpperBoundForPrefix` | client/geth/pebble_kvstore.go:163-172 | the last byte below 0xFF is incremented and the rest cut off; none exactly for all-0xFF prefixes |
| `PrefixRange.IteratorRange` | client/geth/pebble_kvstore.go:139-158 | a key lies in the range if and only if it has the prefix and is not before prefix + start |
| `PrefixRange.RangeIsPrefix` | client/geth/pebble_kvstore.go:139-172 | the same for every valid bound, all-0xFF and empty prefixes included |
| `PrefixRange.UpperIsLeast` | client/geth/pebble_kvstore.go:160-172 | the bound is the least key above every key with the prefix |
| `EntityBlob.EncodeEntityEOA` | client/geth/entity_blob.go:56-64 | filling the buffer gives kind 1, 64-bit nonce, length of the balance and the balance without leading zeros, and nothing else |
| `EntityBlob.EncodeEntityContract` | client/geth/entity_blob.go:66-88 | kind 2 and the same header, then 32-bit length and bytes of the code, 32-bit slot count, and key and value of each slot in order; longer lengths are cut to 32 bits |
| `Endian.DigitAt` | client/geth/entity_blob.go:60-81 | numbers are written most significant byte first |
| `EntityBlob.DecodeEntityBlob` | client/geth/entity_blob.go:90-153 | on any bytes the cursor stays inside, with the specified result or error |
| `EntityBlob.RoundTrip` | client/geth/entity_blob.go:56-153 | decoding inverts both encoders if and only if the lengths of code and slot list fit 32 bits |
| `EntityBlob.AcceptedIsEncoding` | client/geth/entity_blob.go:56-153 | an accepted blob is the encoding of its entity if and only if its balance field has no leading zero and at most 32 bytes |
| `EntityBlob.PrefixFree` | client/geth/entity_blob.go:90-153 | no accepted blob is a proper prefix of another |
| `EntityBlob.OthersRejected` | client/geth/entity_blob.go:90-153 | every proper prefix and every proper extension of an encoding is rejected |

## Left out

- SHA-256 and keccak: hashes are free terms in the trie; `BlobStore` carries the results over to bytes for any hash function that never returns zero. In the range sort hashes are arbitrary 256-bit numbers.
- The byte counters, flush thresholds and batches of `trieNodeWriter` and `stemBlobWriter`, and the flat-state stem blobs.
- Deriving stems and suffixes from accounts, code and storage (`collectAccountEntries` and the like).
- StackTrie.StreamingBuilder.FeedStem: a panic is the result `panicked`; the partly updated builder is then not described.
- Negative group depths; the flag is taken as a natural number.
- Regroup.RegroupTrieNodes: demands a store written by the ungrouped builder, which is what the function is for (`generator/regroup.go:14-20`); stores of other origin, errors of the database and blobs of other shapes are not modelled.
- Regroup.CollectChildren: database keys are bit paths here, without the key prefix.
- Pipeline.BuildFromRun: memory limits are modelled as channel capacities only; the progress callback and statistics are left out.
- AccountPipeline.AppliedInOrder: channels deliver in any order, which includes first-in first-out; the account trie, code writes and sinks are reduced to whether applying an account fails.
- The float ratio of `SizeTracker`: a call's own estimate is an arbitrary number; the milestones of `MaybeCalibrate` and the moment at which the stop fires are arbitrary too.
- RangeSort.Sorted: the goroutines that sort two ranges ahead and an early stop of the consumer are left out; the library sort is replaced by an insertion sort, and `RangeSort.ConcatSorts` covers any other.
- Budget.SolveMainnetContracts: above 24,808,064,296,456 slots, where the products of the size law wrap, the result is described by the wrapped search only; which larger budgets happen to be kept is not stated.
- CodeDraw.Draw: the random number is a parameter; total weights of 2^63 and more are not covered.
- The literal mainnet tables are parameters, and the cache of generated code bytes is left out.
- Bytecode.RoundTrip: the reader is that of the wire format, not reth's code.
- RocksDB, MDBX and Pebble themselves, chain specifications, the command line, progress reports and crash durability.
- Floating-point samplers (truncated normal, storage distributions, page-fill interpolation).
- The besu, nethermind and nimbus writers and codecs, which repeat shapes covered here.
