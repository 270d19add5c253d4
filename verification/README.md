# Verified model of the CMO library

The library runs oblivious algorithms inside an enclave. Its data structures live in flat arrays of
32-bit words, its programs reach caller data through a *shadow memory* striped by cache set, and its
algorithms are written so that their accesses do not depend on the data. This project models the core of
it in Dafny 4.11 and proves what the code is for. Code that updates arrays and fields in place is modelled by
methods and classes that do; what they promise is stated with functions and lemmas on values.

| file | models |
|---|---|
| `SortingNetwork.dfy`, `SortingNet.dfy` | `merger` and `bitonicSort`: a comparator network, proved to sort through the 0-1 principle, and the in-place recursion that performs it with four-word value rows |
| `PackedLists.dfy` | doubly linked lists packed as 16 + 16 bits, several of them sharing the blocks of one array |
| `MultiQueue.dfy`, `SimpleQueue.dfy` | n deques and a free list in one array; a ring buffer |
| `MemoryPool.dfy` | a used and a free list in one array |
| `AvlTrees.dfy`, `AvlTree.dfy` | AVL insertion and removal on values, and the same as node words in a memory pool |
| `ElementCount.dfy` | `element_count`, a client of the tree and its enumeration |
| `MergeSort.dfy` | merge sort through two bounded queues |
| `ShuffleBuckets.dfy`, `MelbourneShuffle.dfy` | buckets of (value, target index) pairs and the Melbourne shuffle |
| `Spray.dfy`, `BucketFamilies.dfy`, `SprayCourse.dfy`, `CacheShuffle.dfy` | the cache shuffle: one spray, what sprays do to families of buckets that tile the index range, sequences of sprays as values, the re-spray loop and the clean-up |
| `GraphSc.dfy` | graph scatter and gather |
| `Sha1.dfy`, `Sha1Examples.dfy`, `Sketch.dfy` | SHA-1 as in FIPS 180-4, known answers for one and two blocks, and the block function and streaming buffer of `sketch.cpp` |
| `ShadowLayout.dfy`, `Coherence.dfy`, `Runtime.dfy`, `History.dfy`, `Sections.dfy` | the CMO runtime: address maps and allocation, windows that agree with plain arrays, transactions, what a sequence of accesses reads and leaves, and whole sections |
| `Utils.dfy` | the random shuffle |
| `Arithmetic.dfy` | functions and facts on integers that several models share |

`dafny verify dfyconfig.toml` checks everything.

## How the code is read

- `abort_message` and `cmo_abort` end the run. They are failure results here (`ok`, `Outcome`), and the contracts
  say exactly when they happen. Whether a later spray of the cache shuffle aborts depends on random choices: the
  contract returns a record of the sprays of the run, each with the pairs in the order it found them, and the run
  fails if and only if the sections do not open, the first spray fills its queues, or the last range of that record
  is one whose spray aborts (`CacheShuffles.CacheShuffle`).
- `begin_leaky_sec` refuses a section whose nob arrays need too many cache sets, and gives iterators without a set a
  window of no words, which the first access divides by. Every program model registers what the code registers in
  each of its sections, as `ShadowLayouts.Lengths`, and fails where the section does not open
  (`ShadowLayouts.Opens`). The resulting bounds are 974 elements for `element_count`, 2396 places in a queue of
  the merge sort, 1219 buckets and ranges below 4880 indices for the Melbourne shuffle, and queues below 4800 words
  and the same ranges for the cache shuffle.
- Random numbers are arbitrary values in range: a parameter, or a nondeterministic choice.
- `ceil`, `round`, `sqrt` and `log2` of the code are exact functions on integers.
- Packed words, AVL child fields and row arithmetic are modelled with their widths: the high half is read with a
  sign, the low half without, children are `int16_t`. SHA-1 words are 32-bit vectors.
- The payload of a queue or pool block is a typed value beside the link words.
- Arrays that the code registers with an iterator or a nob array are plain arrays in the models of the algorithms.
  That this is right is what `Sections.RunSection` proves about the runtime, also for the fill pass of the cache
  shuffle, which has a read and a write iterator on one bucket: it reads every place before it writes it.

## What turned out false, and when it holds

- A list constructor with one block writes a wrong next address, because the `else if` is skipped for the
  first block. And the constructors accept arrays of up to 65535 words, but `>> 16` is signed: an address survives
  packing if and only if it is at most 0x7fff (`PackedLists.HiOfPack`). What the accessors then read of the initial
  list is right if and only if the capacity is at least two and the last address but one is at most 0x7fff
  (`PackedLists.InitialList`); every operation says exactly when its result can be read; and every sequence of operations
  goes through if and only if all addresses are at most 0x7fff (`PackedLists.EverySequenceWorks`). The sequence
  that fails otherwise allocates all blocks but the last one, which leaves a negative begin address
  (`PackedLists.TakingBreaks`, `PackedLists.ReadsNegative`).
- A write iterator on an array that is also read through an iterator agrees with the plain program as long as it
  overwrites what has been read. A word ahead of the reader is missed by it if and only if it lies in the reader's
  current window and changes (`Coherence.StaleWindow`).
- `free_block` writes through address 0 when it frees the first or the last of several used blocks. The lists are
  right in every case; the header word keeps the registered length if and only if the freed block was not the last of several
  (`MemoryPools.HeaderIntact`).
- The recursions of `merger` and `bitonicSort` end for every size that repeated halving, rounded down, brings to 2, but
  `merger` sorts if and only if the size is a
  power of two (`SortingNetwork.MergerSortsIffPowerOfTwo`).
- The cache shuffle drops the pairs that a spray leaves over. It loses nothing if and only if every range fits its bucket in
  every split; that depends on the length, epsilon and the memory only (`CacheShuffles.CacheShuffle`). It holds
  for all arrays of up to twice half the memory (`CacheShuffles.WithinMemory`) and fails for 17 elements, memory 10,
  epsilon 0, where a run ends and leaves a place of the output unwritten (`CacheShuffles.LossyRun`).
- With a large blow-up factor no merge step fills or starves a queue, but the queues themselves can be too large for
  the leaky section. The sort is done if and only if they are not (`MergeSorts.MergeSort`). With the factor 1 no sort of
  two or more elements is done (`MergeSorts.FactorOne`). For inputs that are ascending after the shuffle the length and the
  factor decide (`MergeSorts.AscendingInput`); equal elements need a factor of 2, and no more
  (`MergeSorts.ConstantInput`).
- `begin_leaky_sec` may give a kind of iterator no set, hence an empty window. When it does not is
  `ShadowLayouts.WindowsOpenIff`; an instance where it does is `ShadowLayouts.NoWindowExample`.

## Model

| member | source | states |
|---|---|---|
| SortingNetwork.ZeroOnePrinciple | src/algo/sorting_net.cpp:85-126 | Any comparator network (no data-dependent step) that sorts every 0-1 thresholding of an input sorts the input; this is what reduces `merger` and `bitonicSort` to 0-1 sequences |
| SortingNetwork.RunThreshold | src/algo/sorting_net.cpp:70-82 | Running a network commutes with thresholding its input, for every network and threshold |
| SortingNetwork.RunConfined | src/algo/sorting_net.cpp:85-126 | A network within [lo, hi) touches nothing else and keeps values in the block between their old bounds |
| SortingNetwork.CleanedHalves | src/algo/sorting_net.cpp:92-96 | The half-cleaner loop turns a bitonic 0-1 block into two halves of which one is constant on the right side and both are bitonic |
| SortingNetwork.MirroredHalves | src/algo/sorting_net.cpp:115-119 | The mirrored loop turns two sorted 0-1 halves into a low and a high bitonic half, one of them constant |
| SortingNetwork.BitonicSorts | src/algo/sorting_net.cpp:85-102 | For every power of two n, `bitonicSort` sorts every cyclically bitonic segment [lo, lo + n), a rotation of an ascending and a descending run, and leaves the rest in place |
| SortingNetwork.MergerSorts | src/algo/sorting_net.cpp:104-126 | For every power of two n and every content, `merger` leaves [lo, lo + n) ascending and the rest untouched |
| SortingNetwork.MergerSortsIffPowerOfTwo | src/algo/sorting_net.cpp:104-126 | Among the sizes for which the recursion ends, `merger` sorts all inputs if and only if n is a power of two |
| SortingNetwork.BitonicNetCount | src/algo/sorting_net.cpp:85-102 | For every k from 1 on: the recursion of `bitonicSort` on 2^k entries ends, and makes 2^k * k / 2 comparisons |
| SortingNetwork.MergerNetCount | src/algo/sorting_net.cpp:104-126 | For every k from 1 on: the recursion of `merger` on 2^k entries ends, and makes exactly 2^k * k * (k + 1) / 4 comparisons |
| SortingNetwork.NetsOfFour | src/algo/sorting_net.cpp:85-126 | The comparisons of `bitonicSort` and of `merger` on four entries, one by one |
| SortingNet.KeysOfRun | src/algo/sorting_net.cpp:70-82 | Where keys end up does not depend on the value rows they carry |
| SortingNet.RunRowsPermutes | src/algo/sorting_net.cpp:70-82 | No (key, row) pair is lost, duplicated or separated |
| SortingNet.SortsRows | src/algo/sorting_net.cpp:70-126 | A network confined to a block that sorts its keys leaves the block sorted with its rows, as a permutation, and everything else in place |
| SortingNet.MergerSortsRows | src/algo/sorting_net.cpp:104-126 | `merger` sorts the rows of its block and permutes them with their keys |
| SortingNet.BitonicSortsRows | src/algo/sorting_net.cpp:85-102 | `bitonicSort` does so for cyclically bitonic keys |
| SortingNet.SwapRows | src/algo/sorting_net.cpp:73-79 | Exchanging two keys and their two four-word blocks is exchanging two rows |
| SortingNet.NetworkCarries | src/algo/sorting_net.cpp:70-82 | However a network runs, there is a permutation of its block such that every key, and each of the four words of its block of values, comes from the place it names; all other words stay |
| SortingNet.Sorter.CasV2m | src/algo/sorting_net.cpp:70-82 | If keys[i] > keys[j], exchanges the two keys and, word by word, the four words of their blocks; every other word, and everything if the keys are in order, stays; counts one comparison and adds it to the trace |
| SortingNet.Sorter.BitonicSort | src/algo/sorting_net.cpp:85-102 | The sequence of compared positions is a function of n and start alone; the arrays are that network run on the old arrays, hence keys and value words moved by one permutation of the block; the counter grows by its length |
| SortingNet.Sorter.Merger | src/algo/sorting_net.cpp:104-126 | The same for `merger`, which returns the counter; for a power of two the keys of the block end in ascending order; on the two arrays: one permutation of the block moves keys and all four value words, everything else stays |
| PackedLists.HiOfPack | include/cmo_mempool.h:145-156 | A begin or previous address survives packing and the signed `>> 16` exactly when it is at most 0x7fff; any other is read as a negative number |
| PackedLists.HalvesOf | include/cmo_mempool.h:145-156 | The two halves of a word: the upper one with its sign, the lower one without |
| PackedLists.ReadableList | include/cmo_mempool.h:145-172 | The accessors read a list in the words of an array if and only if they are the words the code writes for it, and its first address and all but the last are at most 0x7fff |
| PackedLists.ListUnique | include/cmo_queue.h:232-271 | The words of an array determine the list under a header: there is only one |
| PackedLists.ListReads | include/cmo_mempool.h:145-172 | What the four accessors read in a list: begin, end, previous and next address |
| PackedLists.AppendList | include/cmo_queue.h:188-201 | Linking a block behind the last one writes the words of the list with that block at its end; they read back if and only if the address that gets into an upper half, the last one so far, is at most 0x7fff |
| PackedLists.PrependList | include/cmo_queue.h:284-295 | Linking a block in front writes the words of the list with that block at its front; they read back if and only if its address is at most 0x7fff |
| PackedLists.DropFirstList | include/cmo_queue.h:204-215 | Unlinking the first block leaves the words of the rest; they do not read back if and only if a single block above 0x7fff is left |
| PackedLists.DropLastList | include/cmo_queue.h:218-229 | Unlinking the last block leaves the rest, which always reads back |
| PackedLists.UnlinkList | include/cmo_mempool.h:94-114 | Unlinking any block of several leaves the words of the others, in order; they do not read back if and only if a single block above 0x7fff is left |
| PackedLists.ReadsNegative | include/cmo_mempool.h:145-156 | Where an address above 0x7fff has been put in an upper half, the accessor returns a negative number |
| PackedLists.LinkFirst | include/cmo_queue.h:284-295 | The imperative form: exactly those words, the new list [addr] + old reads back if and only if addr is at most 0x7fff, and no word outside its header and blocks changes |
| PackedLists.LinkLast | include/cmo_queue.h:188-201 | The same behind the last block; the new block's previous address is read as a negative number if it is above 0x7fff |
| PackedLists.UnlinkFirst | include/cmo_queue.h:204-215 | Returns the first block; what remains reads back unless it is a single block above 0x7fff, and then the begin address is read as a negative number |
| PackedLists.UnlinkLast | include/cmo_queue.h:218-229 | Returns the last block and leaves the rest, readable |
| PackedLists.StoreStep | include/cmo_queue.h:172-295 | Linking a block into, or unlinking it from, one list keeps all other lists and the partition of the blocks, when all blocks are at most 0x7fff |
| PackedLists.StoredStep | include/cmo_queue.h:172-295 | The same for any blocks, as long as the new list reads back |
| PackedLists.MovedStore | include/cmo_queue.h:172-295 | Moving a block from a place of one list to an end of another, as every operation of queues and pools does, keeps all of that |
| PackedLists.LeftAlone | include/cmo_mempool.h:73-80 | If taking away all blocks of a list but the last one, from the front, goes through, the last one is at most 0x7fff |
| PackedLists.TakingBreaks | include/cmo_mempool.h:73-80 | The input that fails: with a block above 0x7fff at the end of a list, taking away all other blocks leaves words that cannot be read |
| PackedLists.EverySequenceWorks | include/cmo_queue.h:172-295 | From any readable state of two lists or more, every sequence of operations goes through if and only if all blocks are at most 0x7fff |
| PackedLists.StoreCount | include/cmo_queue.h:103-134 | The lengths of all lists add up to the number of blocks |
| PackedLists.InitialList | include/cmo_mempool.h:53-62 | The chained words a constructor writes can be read as a list if and only if there are at least two blocks and the last address but one is at most 0x7fff, and then it is the list of all blocks; with one block the skipped `else if` leaves a wrong next address |
| PackedLists.ChainBlocks | include/cmo_queue.h:124-132 | The loop of both constructors writes that chain |
| MultiQueues.MultiQueue.constructor | include/cmo_queue.h:103-134 | For every array of up to 0xffff words: word 2 heads a readable list if and only if there are at least two blocks and the last address but one is at most 0x7fff; then every sequence of operations goes through if and only if the last address is, too; and with that all blocks are free and all queues empty |
| MultiQueues.MultiQueue.SharedCapacity | include/cmo_queue.h:172-229 | In every valid state the free blocks and the lengths of all queues add up to the capacity: the queues share it, and nothing is lost |
| MultiQueues.MultiQueue.Size | include/cmo_queue.h:138-147 | Walking the links counts the elements of the queue |
| MultiQueues.MultiQueue.Empty | include/cmo_queue.h:150-153 | True exactly for an empty queue |
| MultiQueues.MultiQueue.Full | include/cmo_queue.h:156 | True exactly when no block is free |
| MultiQueues.MultiQueue.Front | include/cmo_queue.h:158-162 | The first element |
| MultiQueues.MultiQueue.Back | include/cmo_queue.h:165-169 | The last element |
| MultiQueues.MultiQueue.PushFront | include/cmo_queue.h:172-185 | Puts an element in front of one queue; every other queue is unchanged, the representation stays valid, and the words are those of one move of `EverySequenceWorks` |
| MultiQueues.MultiQueue.PushBack | include/cmo_queue.h:188-201 | Puts an element behind one queue; every other queue is unchanged, the representation stays valid, and the words are those of one move of `EverySequenceWorks` |
| MultiQueues.MultiQueue.PopFront | include/cmo_queue.h:204-215 | Removes the first element of one queue, frees its block; every other queue is unchanged, the representation stays valid, and the words are those of one move of `EverySequenceWorks` |
| MultiQueues.MultiQueue.PopBack | include/cmo_queue.h:218-229 | Removes the last element of one queue, frees its block; every other queue is unchanged, the representation stays valid, and the words are those of one move of `EverySequenceWorks` |
| SimpleQueues.SlotIsModulo | include/cmo_queue.h:48-49 | The wrap-around of the ring index is the remainder the code computes |
| SimpleQueues.SimpleQueue.constructor | include/cmo_queue.h:22-35 | For every capacity up to 0xffff: it survives packing, and the queue is usable, if and only if it is at most 0x7fff; then the queue is empty |
| SimpleQueues.SimpleQueue.Size | include/cmo_queue.h:40 | The number of elements, read from the packed word |
| SimpleQueues.SimpleQueue.Full | include/cmo_queue.h:43 | True exactly when the number of elements is the capacity |
| SimpleQueues.SimpleQueue.Enqueue | include/cmo_queue.h:44-51 | The contents grow by one element at the end |
| SimpleQueues.SimpleQueue.Front | include/cmo_queue.h:52-56 | The oldest element |
| SimpleQueues.SimpleQueue.Dequeue | include/cmo_queue.h:57-63 | The contents lose their oldest element |
| MemoryPools.UnlinkBlock | include/cmo_mempool.h:96-114 | All branches that take a block out of the used list: exactly the words of the list without it, word 0 as a write through address 0 makes it; they do not read back if and only if a single block above 0x7fff is left |
| MemoryPools.HeaderIntact | include/cmo_mempool.h:66-114 | After `free_block` the length `reset_nob` would register is still right if and only if the freed block was not the last of several used ones |
| MemoryPools.MemoryPool.constructor | include/cmo_mempool.h:38-64 | For every array of up to 0xffff words: the free list is readable if and only if there are at least two blocks and the last address but one is at most 0x7fff; then every sequence of operations goes through if and only if the last address is, too; the length in word 0 reads back if and only if it is at most 0x7fff; with both, all blocks are free and none used |
| MemoryPools.MemoryPool.BlocksConserved | include/cmo_mempool.h:72-124 | Every block is on exactly one of the two lists, and their lengths add up to the capacity |
| MemoryPools.MemoryPool.Empty | include/cmo_mempool.h:68 | True exactly when no block is used |
| MemoryPools.MemoryPool.Full | include/cmo_mempool.h:70 | True exactly when no block is free |
| MemoryPools.MemoryPool.AllocBlock | include/cmo_mempool.h:72-92 | Hands out the first free block, which was not in use, and puts it behind the used ones; both lists stay well-formed, and the words are those of one move of `EverySequenceWorks` |
| MemoryPools.MemoryPool.FreeBlock | include/cmo_mempool.h:94-124 | Takes a block out of the used list, wherever it is, and puts it in front of the free ones; both lists stay well-formed, and the words, apart from word 0, are those of one move of `EverySequenceWorks` |
| MemoryPools.MemoryPool.BeginAddress | include/cmo_mempool.h:138-141 | The first used block, or 0 |
| MemoryPools.MemoryPool.NextAddress | include/cmo_mempool.h:143 | The used block after a given one, or 0 |
| AvlTrees.RotateRightContents | include/cmo_avltree.h:251-266 | A right rotation keeps the bindings |
| AvlTrees.RotateLeftContents | include/cmo_avltree.h:235-250 | A left rotation keeps the bindings |
| AvlTrees.InsertContents | include/cmo_avltree.h:126-174 | `insert_at` keeps the key order, adds exactly the new binding and keeps an existing one |
| AvlTrees.InsertBalanced | include/cmo_avltree.h:149-173 | `insert_at` keeps all balances in {-1, 0, 1} and grows the height by at most one |
| AvlTrees.RemoveContents | include/cmo_avltree.h:175-234 | `remove_at`, including the copy of the successor, deletes exactly one key, keeps every other binding and gives up exactly one node |
| AvlTrees.RemoveBalanced | include/cmo_avltree.h:205-233 | `remove_at` keeps all balances in {-1, 0, 1} and lowers the height by at most one |
| AvlTrees.RemoveAbsent | include/cmo_avltree.h:175-186 | Removing an absent key changes nothing |
| AvlTrees.InsertPresent | include/cmo_avltree.h:146-147 | Inserting a present key changes nothing |
| AvlTrees.MinNodeLeast | include/cmo_avltree.h:116-124 | `find_min_key_node` finds the least key of a subtree |
| AvlTrees.FibBound | include/cmo_avltree.h:126-266 | A balanced tree of height h has at least Fib(h + 2) - 1 nodes |
| AvlTrees.HeightLogarithmic | include/cmo_avltree.h:58-71 | Its height is at most twice the logarithm of its size |
| AvlTrees.InsertAddresses | include/cmo_avltree.h:126-174 | Rotations move no binding to another node: every old key keeps its address, the new key gets the new one |
| AvlTrees.RebalanceRemoveAddressOf | include/cmo_avltree.h:213-231 | Rebalancing after a removal moves no binding to another node |
| AvlTrees.WithValueContents | include/cmo_avltree.h:73-80 | Overwriting the value in a node changes one binding |
| AvlTreeArrays.RotateRightCells | include/cmo_avltree.h:251-266 | The two words that `right_rotate` writes turn the encoding of a tree into that of the rotated tree, with exact heights |
| AvlTreeArrays.RotateLeftCells | include/cmo_avltree.h:235-250 | The same for `left_rotate` |
| AvlTreeArrays.AvlTree.InsertNode | include/cmo_avltree.h:129-139 | A new leaf in the first free block, or failure without one |
| AvlTreeArrays.TreeFrame | include/cmo_avltree.h:126-234 | A tree in the array is unaffected by writes to nodes that are not its own |
| AvlTreeArrays.AvlTree.constructor | include/cmo_avltree.h:41-48 | The empty tree on a pool of up to 0xffff words, valid from two nodes on and up to 0x7fff words, when also the registered length reads back |
| AvlTreeArrays.AvlTree.RightRotate | include/cmo_avltree.h:251-266 | The array holds the rotated tree, under the returned address; other nodes are unchanged |
| AvlTreeArrays.AvlTree.LeftRotate | include/cmo_avltree.h:235-250 | The array holds the rotated tree, under the returned address; other nodes are unchanged |
| AvlTreeArrays.AvlTree.RebalanceInserted | include/cmo_avltree.h:153-173 | The four rebalancing cases of insertion produce the rebalanced tree in the array |
| AvlTreeArrays.AvlTree.InsertAt | include/cmo_avltree.h:126-174 | The array holds the tree after insertion, only its own nodes and the new one are written, and it fails exactly when a node is needed and no block is free; word 0, which `reset_nob` reads, stays as it is |
| AvlTreeArrays.AvlTree.Insert | include/cmo_avltree.h:56 | The map gets the binding unless it had the key; the node is a block that was free and is now last of the used ones; order, balance, heights, the correspondence of nodes and used blocks, and the registered length in word 0 are kept |
| AvlTreeArrays.AvlTree.RebalanceRemoved | include/cmo_avltree.h:213-231 | The four rebalancing cases of removal produce the rebalanced tree in the array |
| AvlTreeArrays.AvlTree.FindMinKeyNode | include/cmo_avltree.h:116-124 | The address of the node with the least key |
| AvlTreeArrays.AvlTree.FreeNode | include/cmo_avltree.h:188-196 | A node with at most one child goes back to the pool, and its subtree takes its place |
| AvlTreeArrays.AvlTree.RemoveAt | include/cmo_avltree.h:175-234 | The array holds the tree after removal; exactly the freed block moves from the used to the free list |
| AvlTreeArrays.RemoveAddressOf | include/cmo_avltree.h:188-203 | A removal leaves every other binding in its node, except that the binding of the successor, whose node is freed, moves to the node of the key |
| AvlTreeArrays.EnumerationAfter | include/cmo_avltree.h:83-84 | A removal keeps the order of the enumeration, except that the successor's key takes the place of the removed one |
| AvlTreeArrays.AvlTree.Remove | include/cmo_avltree.h:57 | The map loses the key and nothing else; which block is freed: that of the successor if the node has two children, else the node's own; the used list loses exactly that block and keeps its order, the free list gets it in front; every other binding keeps its node, but for the successor's, which moves to the node of the key; what the enumeration lists afterwards; the whole invariant is kept |
| AvlTreeArrays.AvlTree.Size | include/cmo_avltree.h:82 | The stored count is the number of used blocks and of bindings |
| AvlTreeArrays.AvlTree.Find | include/cmo_avltree.h:58-71 | The address of the key, 0 if and only if it is absent, after a number of steps logarithmic in the size |
| AvlTreeArrays.AvlTree.SetValue | include/cmo_avltree.h:77-80 | Changes one binding and nothing else |
| AvlTreeArrays.AvlTree.GetElement | include/cmo_avltree.h:73-76 | Key and value of the node in a used block |
| AvlTreeArrays.AvlTree.EnumerationVisitsAll | include/cmo_avltree.h:83-84 | Walking the used list visits every key of the map exactly once |
| ElementCounts.CountsAddUp | src/algo/element_count.cpp:16-25 | The counts of the distinct elements add up to the length of the input |
| ElementCounts.DistinctOrder | src/algo/element_count.cpp:16-25 | The distinct elements are in the order of their first occurrences |
| ElementCounts.CountStep | src/algo/element_count.cpp:17-24 | One more element changes the counts as find, then insert or increment, does |
| ElementCounts.CountElement | src/algo/element_count.cpp:17-24 | Find, then insert or increment: the map holds the counts of one more element, or the blocks have run out |
| ElementCounts.CountElements | src/algo/element_count.cpp:16-25 | The map holds every distinct element with its multiplicity, nodes in order of first occurrence; runs out of memory exactly when there are more distinct elements than blocks; the length that the second section registers is untouched |
| ElementCounts.WriteCounts | src/algo/element_count.cpp:39-45 | The enumeration writes element and count, in that order |
| ElementCounts.ElementCount | src/algo/element_count.cpp:5-49 | Succeeds if and only if the number of distinct elements is the one given and the leaky sections, with the nob arrays of the map, open, which they do for up to 974 elements; then lists each element once, in order of first occurrence, with its exact multiplicity |
| MergeSorts.Fetch | src/algo/merge_sort.cpp:37-44 | Moves the next element of an input to its queue; aborts if and only if as many wait as the queue holds |
| MergeSorts.TakenMerges | src/algo/merge_sort.cpp:47-81 | The course of a merge step, as fixed by the inputs and the queue size, passes only through merges of prefixes |
| MergeSorts.OnlyPoint | src/algo/merge_sort.cpp:58-73 | If the inputs have no value in common, the course passes through every such merge: it does not depend on the size of the queues |
| MergeSorts.TakeSmaller | src/algo/merge_sort.cpp:58-73 | Takes the left front element if and only if it is smaller, or equal and in the longer queue, and takes it out of its queue only |
| MergeSorts.Emit | src/algo/merge_sort.cpp:58-74 | The output stays a merge of what has been taken from both inputs |
| MergeSorts.EmitOne | src/algo/merge_sort.cpp:58-80 | Emits the value the course of the merge has next, or stops exactly because one queue has nothing left |
| MergeSorts.EmitTwo | src/algo/merge_sort.cpp:57-80 | Emits two values, or stops exactly because one queue has nothing left of what was read |
| MergeSorts.Prefill | src/algo/merge_sort.cpp:36-45 | The first loop cannot abort |
| MergeSorts.DrainBoth | src/algo/merge_sort.cpp:87-97 | With one input used up, the rest of the queues completes the sorted merge |
| MergeSorts.RoomForAll | src/algo/merge_sort.cpp:21-84 | With queues at least twice as long as the inputs neither abort of the merge step is possible |
| MergeSorts.MergeQueues | src/algo/merge_sort.cpp:47-84 | The second loop aborts if and only if its course reaches a full or an empty queue too early; otherwise one of the inputs is used up |
| MergeSorts.MergeRound | src/algo/merge_sort.cpp:47-81 | One pass of the loop: reads from both inputs, then emits two; which of the three ways it ends is fixed by the course of the merge |
| MergeSorts.Merge | src/algo/merge_sort.cpp:21-99 | Done if and only if the section opens, which is up to 2396 places in a queue, and on its course no queue is full with an element for it left to read, nor empty while there is more to read; refused if and only if there are more places; when done, a sorted merge of both inputs; "unprocessed data" is unreachable |
| MergeSorts.SortedOnce | src/algo/merge_sort.cpp:6-104 | There is only one sorted arrangement of the same elements |
| MergeSorts.Capacity | src/algo/merge_sort.cpp:21-22 | The places of a queue: the blow-up factor times the rounded-down root of the length |
| MergeSorts.RoomForEverySort | src/algo/merge_sort.cpp:21-104 | A sort that goes through has opened its sections; with a blow-up factor that makes room at every level that is also enough |
| MergeSorts.FactorOne | src/algo/merge_sort.cpp:21-80 | With the blow-up factor 1 no sort of two or more elements goes through |
| MergeSorts.MergeBelow | src/algo/merge_sort.cpp:36-84 | If all of the left input is below the right one, a merge step goes through if and only if half of the places of a queue suffice to have read the right input when the left one has been written |
| MergeSorts.AscendingInput | src/algo/merge_sort.cpp:6-104 | For an input that is in ascending order after the shuffle, the length and the blow-up factor decide whether the sort goes through, level by level, in closed form |
| MergeSorts.TakenEqual | src/algo/merge_sort.cpp:63-69 | As long as both inputs are read, equal elements are taken from the right and the left in turn |
| MergeSorts.ConstantInput | src/algo/merge_sort.cpp:6-104 | An input of equal elements is sorted if and only if the blow-up factor is at least 2 and the sections open: the tie rule keeps the queues level |
| MergeSorts.MergeSortRec | src/algo/merge_sort.cpp:6-104 | Done if and only if every merge step of the recursion goes through, and then the sorted segment; refused only if the queues of the last merge step have too many places |
| Utils.FisherYatesShuffle | include/utils.h:31-39 | The array is the shuffle that the random numbers name |
| Utils.ShuffleReaches | include/utils.h:31-39 | The shuffles of a sequence are exactly its arrangements: each can be drawn, and nothing else |
| MergeSorts.MergeSort | src/algo/merge_sort.cpp:106-114 | For all random numbers: done if and only if no merge step of the shuffled input aborts, and then the output is the sorted input; if the blow-up factor makes room at every level, done if and only if all sections open; never done for two or more elements with factor 1; for ascending and for constant shuffled inputs exactly by their closed forms |
| ShuffleBuckets.SuitablePartitions | src/algo/shuffle_bucket.cpp:111-115 | `find_suitable_partitions` returns between 2 and the wanted number of parts: the least number of blocks that cover the range, if a block is the least length with which the wanted number of blocks cover it |
| ShuffleBuckets.SuitableUnique | src/algo/shuffle_bucket.cpp:111-115 | That determines the number of parts |
| ShuffleBuckets.BucketOfIndex | src/algo/shuffle_bucket.cpp:59-77 | A target index is routed to the bucket whose range contains it, and to no other |
| ShuffleBuckets.InitEmptyShuffleBuckets | src/algo/shuffle_bucket.cpp:59-77 | Separate buckets of dummies with consecutive ranges, the last one up to the end |
| ShuffleBuckets.ShuffleBucket.Of | src/algo/shuffle_bucket.cpp:17-31 | A bucket with the given values and target indices |
| ShuffleBuckets.ShuffleBucket.Empty | src/algo/shuffle_bucket.cpp:5-15 | A bucket of dummies |
| ShuffleBuckets.ShuffleBucket.Randomize | src/algo/shuffle_bucket.cpp:39-46 | For any random numbers the bucket keeps its pairs; they end up shuffled as some numbers drawn say |
| MelbourneShuffles.CeilSqrt | src/algo/melbourne_shuffle.cpp:232-233 | The least r with r * r >= n |
| MelbourneShuffles.CeilLog2 | src/algo/melbourne_shuffle.cpp:234 | The least r with 2^r >= n |
| MelbourneShuffles.NumOfBucket | src/algo/melbourne_shuffle.cpp:232-233 | At least two buckets, the suitable number for the rounded-up root of the length |
| MelbourneShuffles.BucketIdxLen | src/algo/melbourne_shuffle.cpp:236 | The rounded-down quotient of the length and the number of buckets |
| MelbourneShuffles.PLogLen | src/algo/melbourne_shuffle.cpp:234-235 | The blow-up factor times the least r with 2^r no less than the length |
| MelbourneShuffles.SendPair | src/algo/melbourne_shuffle.cpp:143-149 | One pair goes to the queue of its bucket, and only there |
| MelbourneShuffles.FillQueue | src/algo/melbourne_shuffle.cpp:142-150 | Every pair of a chunk is in the queue of its bucket, in order; the "queue full" abort is unreachable |
| MelbourneShuffles.WriteRow | src/algo/melbourne_shuffle.cpp:161-173 | Writes the pairs of a bucket, filled up with dummies; tells whether there were too many |
| MelbourneShuffles.DrainQueue | src/algo/melbourne_shuffle.cpp:160-174 | Aborts exactly when some bucket gets too many pairs, and else writes all rows |
| MelbourneShuffles.CopyOut | src/algo/melbourne_shuffle.cpp:179-187 | Every bucket receives its row in the next places and keeps the places before |
| MelbourneShuffles.SendChunk | src/algo/melbourne_shuffle.cpp:132-189 | One round: aborts exactly when there are more than 1219 buckets, so that its sections do not open, or the chunk sends too many pairs to one bucket |
| MelbourneShuffles.RoutedElements | src/algo/melbourne_shuffle.cpp:131-190 | If no chunk overflows, a bucket holds exactly the pairs whose target index is in its range |
| MelbourneShuffles.Distribute | src/algo/melbourne_shuffle.cpp:116-193 | Aborts exactly when there are too many buckets or some chunk overflows some bucket, and else leaves every bucket routed |
| MelbourneShuffles.DeliverBucket | src/algo/melbourne_shuffle.cpp:199-225 | Every pair of the bucket is written to its target index, and nothing else changes |
| MelbourneShuffles.Deliver | src/algo/melbourne_shuffle.cpp:195-226 | Every pair of every bucket is written to its target index, and nothing else changes; aborts exactly when some range has 4880 indices or more, so that its section does not open |
| MelbourneShuffles.AllDelivered | src/algo/melbourne_shuffle.cpp:228-247 | Delivering the routed buckets permutes the whole array |
| MelbourneShuffles.FitsByPerm | src/algo/melbourne_shuffle.cpp:228-247 | Whether a chunk overflows depends on the permutation only, not on the values |
| MelbourneShuffles.NoOverflowIs | src/algo/melbourne_shuffle.cpp:165-173 | No chunk overflows a bucket if and only if no chunk has more than p_log_len places whose target index is in the range of one bucket |
| MelbourneShuffles.BucketRanges | src/algo/melbourne_shuffle.cpp:236-239 | The last range of target indices is the longest |
| MelbourneShuffles.SectionsOpenBounds | src/algo/melbourne_shuffle.cpp:116-247 | The sections of a shuffle open for every length below 4880, and for none from 1219 * 4880 on |
| MelbourneShuffles.MelbourneShuffle | src/algo/melbourne_shuffle.cpp:228-265 | For every permutation and length at least 2: ends without abort if and only if all leaky sections open, a matter of the length, and no chunk sends more than p_log_len pairs to one bucket; then arr_out[perm[i]] == arr_in[i] for every i |
| Sprays.PushPair | src/algo/cache_shuffle.cpp:49-54 | A pair goes to the queue of its bucket and to no other; aborts exactly when it is no dummy and no block is free |
| Sprays.PushPairs | src/algo/cache_shuffle.cpp:46-56 | Every pair read is queued at its bucket, in order; aborts exactly when there are more pairs than free blocks |
| Sprays.TakeFronts | src/algo/cache_shuffle.cpp:64-72 | Every queue gives its front pair, or a dummy if it is empty |
| Sprays.PlaceRow | src/algo/cache_shuffle.cpp:76-82 | Place r of every bucket receives its pair |
| Sprays.SprayRound | src/algo/cache_shuffle.cpp:39-85 | A round keeps: places written so far, then the queue, are the share of the bucket, first in first out; it aborts exactly when its sections do not open or the queues get full |
| Sprays.FillPlace | src/algo/cache_shuffle.cpp:100-108 | Both words of a place are read, then written: a dummy becomes the pair waiting first, anything else stays |
| Sprays.FillPass | src/algo/cache_shuffle.cpp:100-109 | A pass moves waiting pairs into gaps; bucket and queue together keep their pairs, until the queue is empty or the bucket has no gap; aborts exactly when the section, with both iterators on the bucket, does not open |
| Sprays.FillBucket | src/algo/cache_shuffle.cpp:90-113 | After all passes the queue is empty or the bucket full; aborts exactly when the sections do not open, from 4800 words of queues on |
| Sprays.SprayRounds | src/algo/cache_shuffle.cpp:37-85 | Aborts exactly when the sections do not open or in some round what waits and what is read exceed the 2 * S blocks |
| Sprays.SprayLen | src/algo/cache_shuffle.cpp:17-18 | The least length for which S new buckets, and as many as there are parts, hold the input |
| Sprays.Spray | src/algo/cache_shuffle.cpp:10-117 | Aborts exactly when the queues have 4800 words or more, so that some section does not open, or get full in some round; otherwise each non-dummy pair is once in the bucket whose range contains its index or in that bucket's queue, and max(0, share - bucket length) pairs are left over |
| BucketFamilies.TilesCount | src/algo/cache_shuffle.cpp:140-173 | Non-empty ranges that tile an interval are at most as many as its indices |
| BucketFamilies.RoundedRanges | src/algo/cache_shuffle.cpp:19-20 | With the number of parts `find_suitable_partitions` chooses and a rounded length, no range is empty |
| BucketFamilies.SprayTiles | src/algo/cache_shuffle.cpp:18-23 | The ranges of a spray tile the range of its input |
| BucketFamilies.SprayInRange | src/algo/cache_shuffle.cpp:45-56 | After a spray every pair is in a bucket whose range contains its index |
| BucketFamilies.SprayCollects | src/algo/cache_shuffle.cpp:37-114 | Over all buckets a spray loses exactly the left-overs |
| BucketFamilies.ReplaceInFamily | src/algo/cache_shuffle.cpp:157-169 | Replacing a bucket by its split keeps the tiling, the ranges and all pairs but the left-overs |
| BucketFamilies.ExactShare | src/algo/cache_shuffle.cpp:45-56 | If a bucket has one pair for every index of its range, each share of its split has one for every index of its part |
| BucketFamilies.SprayExact | src/algo/cache_shuffle.cpp:18-114 | A spray of such a bucket loses nothing if and only if the rounded ranges fit the new buckets |
| BucketFamilies.RoomForEverything | src/algo/cache_shuffle.cpp:32-85 | With room for all pairs in the queues a spray does not abort |
| BucketFamilies.Backlog | src/algo/cache_shuffle.cpp:37-85 | What waits for a bucket after r rounds is, over all numbers of last rounds, the most that arrived for it in them less one for every round |
| BucketFamilies.EvenSpray | src/algo/cache_shuffle.cpp:37-85 | A spray in which no bucket receives two pairs in one round, but for the last, does not fill the queues |
| BucketFamilies.SmallArray | src/algo/cache_shuffle.cpp:129-135 | If the array has at most twice as many elements as a round reads, the first ranges have one or two indices and fit their buckets |
| SprayCourses.ResultFamily | src/algo/cache_shuffle.cpp:18-114 | The buckets of a spray tile the range and hold the pairs but for those left over; if there was one pair for every index, none is left over if and only if the rounded ranges fit |
| SprayCourses.ResultRanges | src/algo/cache_shuffle.cpp:17-24 | The ranges of a spray are of one length but the last, the nearest integer to the quotient, as many as that number of parts |
| SprayCourses.SplitKeeps | src/algo/cache_shuffle.cpp:161-169 | One split keeps the tiling, the ranges and all pairs but its left-overs |
| SprayCourses.CourseKeeps | src/algo/cache_shuffle.cpp:138-173 | So does every sequence of splits, in whatever order; which sections open and whether anything is lost was settled by the ranges of the first family |
| SprayCourses.SmallCourse | src/algo/cache_shuffle.cpp:142-153 | If all ranges are small at first nothing is split |
| SprayCourses.CourseDone | src/algo/cache_shuffle.cpp:138-201 | A run that has ended with small ranges opened its sections if and only if all sections do, lost nothing if and only if all splits fit, and has no range left to get stuck on |
| SprayCourses.StuckFull | src/algo/cache_shuffle.cpp:46-56 | If all sections open, a run gets stuck only because the queues of a spray get full |
| CacheShuffles.SprayFamily | src/algo/cache_shuffle.cpp:133-135 | A spray aborts exactly when the queues have 4800 words or more or get full; otherwise the buckets have the ranges and lengths the arithmetic gives, each with its share of the pairs but for the left-overs |
| CacheShuffles.FirstSpray | src/algo/cache_shuffle.cpp:128-135 | The first spray aborts exactly when its sections do not open or its queues get full; otherwise its buckets are those the arithmetic gives, with their shares; the ranges are consecutive, their number is the suitable one for the quota, and all but the last have the nearest integer to the quotient as length |
| CacheShuffles.FirstFamily | src/algo/cache_shuffle.cpp:128-135 | They tile the index range and hold all pairs but the left-overs, and their ranges settle which sections open and whether anything is lost |
| CacheShuffles.SplitBucket | src/algo/cache_shuffle.cpp:161-165 | The pairs are put in some order, and in that order the spray aborts exactly when the queues of the parts have 4800 words or more or get full; otherwise the parts are those of that spray, and their ranges as for the first spray |
| CacheShuffles.SplitAt | src/algo/cache_shuffle.cpp:158-169 | The parts of bucket i take its place in the family and the log grows by this split, or the run is stuck there |
| CacheShuffles.Survey | src/algo/cache_shuffle.cpp:141-151 | Finds out whether all ranges are small, and how many buckets there will be: more than before if not |
| CacheShuffles.SplitLarge | src/algo/cache_shuffle.cpp:155-172 | Carries on the log of the splits, each of a range too long in the family the splits before it had left; on success the family is the one the log leads to, with exactly the number of buckets computed for it; on failure some such range got stuck |
| CacheShuffles.Respray | src/algo/cache_shuffle.cpp:138-173 | The loop ends: with small ranges, exactly if it succeeds, or, exactly if it fails, with a range too long whose spray aborts, in the family that the log of all splits leads to |
| CacheShuffles.CollectedFromInput | src/algo/cache_shuffle.cpp:175-201 | Every pair that was not lost is in some bucket, and no lost pair is |
| CacheShuffles.DeliverFamily | src/algo/cache_shuffle.cpp:175-201 | Exactly the pairs that were not lost are delivered; aborts exactly when some range has 4880 indices or more |
| CacheShuffles.WithinMemory | src/algo/cache_shuffle.cpp:119-204 | If the array has at most 2 * (mem_cap / 2) elements, nothing is sprayed twice, no queue gets full and nothing is lost |
| CacheShuffles.RunTraced | src/algo/cache_shuffle.cpp:119-204 | What the recorded sprays of a run tell about its end: nothing is stuck if nothing is sprayed twice; with small ranges, what was lost is what the recorded sprays left over |
| CacheShuffles.CacheShuffle | src/algo/cache_shuffle.cpp:119-204 | For every permutation: the run goes through if and only if all sections open, the queues of the first spray do not get full and no range of the recorded run got stuck, where the record is a run on these pairs: the result of the first spray, then splits of ranges too long in the family left by those before, each with its reordered pairs and its result. Then all ranges are small, arr_out[perm[i]] == arr_in[i] for every pair that was not lost, and for lost ones the output is unchanged; the lost pairs are exactly those left over in the recorded sprays; there are none if and only if all splits fit, which depends on len, epsilon and mem_cap only. If nothing is sprayed twice nothing gets stuck; if the array fits into the memory the sections decide alone |
| CacheShuffles.LossExample | src/algo/cache_shuffle.cpp:18-23 | With 17 elements, mem_cap 10 and epsilon 0 all sections open, nothing is sprayed again, and the splits do not fit |
| CacheShuffles.SpreadFits | src/algo/cache_shuffle.cpp:37-85 | That permutation never fills the queues |
| CacheShuffles.LossyRun | src/algo/cache_shuffle.cpp:119-204 | At this input, with a permutation that spreads every round over the buckets, the run ends and some place of the output keeps its old content |
| GraphScs.ScatterResolves | src/algo/graphsc.cpp:23-30 | After sorting for the scatter every edge carries the data of its source vertex |
| GraphScs.GatherSums | src/algo/graphsc.cpp:31-38 | After sorting for the gather every vertex receives the sum of the data of its in-edges |
| GraphScs.GraphPermutes | src/algo/graphsc.cpp:71-79 | Being a graph, and the data of each vertex, do not depend on the order of the records |
| GraphScs.PermutedMultiset | src/algo/graphsc.cpp:40-69 | Moving every record to its target index keeps all records |
| GraphScs.InEdgeSumIs | src/algo/graphsc.cpp:81-87 | The sum over in-edges does not depend on the order of the records |
| GraphScs.RoundAggregates | src/algo/graphsc.cpp:81-87 | For any tie-breaking of the two sorts the records that come out are exactly those of the graph, every vertex with the sum, over its in-edges, of the source vertices' old data, every edge with the old data of its source vertex |
| GraphScs.OutcomeOfEdge | src/algo/graphsc.cpp:9-30 | An edge ends with the data of the vertex it comes from, nothing added |
| GraphScs.OutcomeOfIsolated | src/algo/graphsc.cpp:31-38 | A vertex without in-edges ends with 0 |
| GraphScs.OneMoreEdge | src/algo/graphsc.cpp:31-38 | One more edge adds exactly the data of its source to the vertex it goes to, and nothing to any other |
| GraphScs.Scatter | src/algo/graphsc.cpp:23-30 | Each record becomes what the running value makes of it |
| GraphScs.Gather | src/algo/graphsc.cpp:31-38 | Each record becomes what the running sum makes of it |
| GraphScs.ShuffleField | src/algo/graphsc.cpp:51-58 | One field is moved by the permutation; aborts exactly when the Melbourne shuffle does, by its sections or its buckets |
| GraphScs.Shuffle | src/algo/graphsc.cpp:40-69 | All four fields are moved by the same permutation, so whole records are; aborts exactly when the Melbourne shuffle does |
| GraphScs.GraphSc | src/algo/graphsc.cpp:81-92 | The whole round on the array, for any permutations and any two sorts: exactly those records; aborts exactly when one of the shuffles does |
| Sha1Spec.AbsorbConcat | src/algo/sketch.cpp:118-154 | Hashing the blocks of a concatenation is hashing them one after the other |
| Sha1Examples.RotlArithmetic | src/algo/sketch.cpp:57 | The rotations as multiplication modulo 2^32 plus what it loses |
| Sha1Examples.ChBits | src/algo/sketch.cpp:41 | On any set of bits: y where x has ones, z where x has zeros |
| Sha1Examples.ParityBits | src/algo/sketch.cpp:42 | Where two words agree the third one, where they differ its complement |
| Sha1Examples.MajBits | src/algo/sketch.cpp:43 | Where two words agree, what they agree on |
| Sha1Examples.WordArithmetic | src/algo/sketch.cpp:47-54 | A word of four bytes is their number, most significant byte first |
| Sha1Examples.BytesBack | src/algo/sketch.cpp:47-54 | Writing a word that has been read from four bytes gives the bytes |
| Sha1Examples.PaddingIs | src/algo/sketch.cpp:157-176 | The padding is a one bit, as few zeros as complete a block, and the length in bits: section 5.1.1 of FIPS 180-4 |
| Sha1Spec.BigEndianSplit | src/algo/sketch.cpp:172-174 | A length written as one eight-byte number is its two four-byte halves |
| Sketches.RewrittenFunctions | src/algo/sketch.cpp:41-44 | The rewritten formulas are Ch, Parity and Maj of section 4.1.1 of FIPS 180-4 |
| Sketches.SumOrder | src/algo/sketch.cpp:66-93 | Both orders of addition in the BODY macros are the sum of the round |
| Sketches.BodyIsRound | src/algo/sketch.cpp:66-93 | Both forms of the BODY macros are a round of section 6.1.2 of FIPS 180-4 |
| Sketches.RingUpdate | src/algo/sketch.cpp:58-60 | `Xupdate` on the sixteen-word ring computes the next word of the eighty-word schedule |
| Sketches.ScheduledRound | src/algo/sketch.cpp:124-138 | A round on the ring is a round on the schedule, and the ring moves on by one |
| Sketches.LoopFunction | src/algo/sketch.cpp:30-44 | The function and the constant of each of the five loops are those of the standard for its rounds |
| Sketches.Rounds00_15 | src/algo/sketch.cpp:119-123 | Rounds 0 to 15, filling the ring from the message |
| Sketches.Rounds16_19 | src/algo/sketch.cpp:124-126 | Rounds 16 to 19 |
| Sketches.Rounds20_39 | src/algo/sketch.cpp:127-130 | Rounds 20 to 39 |
| Sketches.Rounds40_59 | src/algo/sketch.cpp:131-134 | Rounds 40 to 59 |
| Sketches.Rounds60_79 | src/algo/sketch.cpp:135-138 | Rounds 60 to 79 |
| Sketches.ShaCtx.BlockDataOrder | src/algo/sketch.cpp:105-155 | For every chaining value and every number of blocks, the hash value after those blocks by section 6.1.2 of FIPS 180-4 |
| Sketches.CarryIsRight | src/algo/sketch.cpp:194-203 | After the carry logic Nh * 2^32 + Nl is eight times the new number of bytes |
| Sketches.BufferFills | src/algo/sketch.cpp:209-216 | A completed buffer is one more block of the message |
| Sketches.BlocksAbsorbed | src/algo/sketch.cpp:224-230 | Full blocks are absorbed where they are |
| Sketches.BufferGrows | src/algo/sketch.cpp:217-221 | Fewer bytes than a block stay in the buffer as the unprocessed tail |
| Sketches.FinalBlocks | src/algo/sketch.cpp:157-176 | The one or two last blocks are the padding of section 5.1.1 of FIPS 180-4 |
| Sketches.ShaCtx.constructor | src/algo/sketch.cpp:245-253 | Nothing absorbed; the five words of section 5.3.1 of FIPS 180-4, as literals |
| Sketches.ShaCtx.Update | src/algo/sketch.cpp:184-238 | The message grows by the new bytes; the counters hold its length in bits, the buffer exactly its unprocessed tail, the hash value that of its full blocks |
| Sketches.ShaCtx.Final | src/algo/sketch.cpp:157-182 | The SHA-1 digest of everything absorbed, in 20 bytes, and nothing else in the output |
| Sketches.HashPieces | src/algo/sketch.cpp:157-238 | Any split of a message into updates gives the digest of the whole message |
| Sketches.Sha1 | src/algo/sketch.cpp:240-266 | The SHA-1 digest of the message |
| Sha1Examples.DigestOfAbc | src/algo/sketch.cpp:30-253 | The digest of "abc", byte by byte: the known answer of FIPS 180-4 for one block |
| Sha1Examples.DigestOfLong | src/algo/sketch.cpp:30-253 | The digest of the 56-byte example of FIPS 180-4, which takes two blocks |
| ShadowLayouts.AddressesDiffer | src/lib/cmo.cpp:73-91 | Two addresses are equal if and only if kind and offset are: the four maps are injective and their images disjoint |
| ShadowLayouts.RowAndColumn | src/lib/cmo.cpp:73-91 | Row and column of an address in the shadow memory |
| ShadowLayouts.HeadersUntouched | src/lib/cmo.cpp:144-152 | No address is that of an object header or of the allocation record |
| ShadowLayouts.InShadow | src/lib/cmo.cpp:314-380 | For every accepted allocation and every offset in use the address is below 2 * 1024 * 1024, and writable regions use at most five lines of any cache set |
| ShadowLayouts.AllocPacked | src/lib/cmo.cpp:317-369 | The sets given out are disjoint and fit in the L1 cache |
| ShadowLayouts.AcceptedIff | src/lib/cmo.cpp:323-352 | When an allocation is accepted, in words: fewer than 5040 for nob arrays, no more than 2^20 with the read-only ones, and sets for both |
| ShadowLayouts.AllocationIs | src/lib/cmo.cpp:317-369 | The shares of an accepted allocation: one set for every 80 words and one more, one for every 24 K words and one more, and of the rest the writers' part by words, rounded down, and the readers' |
| ShadowLayouts.WindowsOpenIff | src/lib/cmo.cpp:367-369 | The writers, whose share is rounded down, get a set if and only if the sets that are left, times the words to write, are no less than all words of iterators; the readers get one as soon as any set is left |
| ShadowLayouts.OpensIff | src/lib/cmo.cpp:332-369 | When `begin_leaky_sec` accepts a section without read-only nob arrays and leaves no iterator that has words without a set, as bounds on words |
| ShadowLayouts.OpensOneWay | src/lib/cmo.cpp:332-369 | A section that only reads, or only writes, through iterators opens if and only if its nob arrays have fewer than 4880 words |
| ShadowLayouts.OpensBothWays | src/lib/cmo.cpp:332-369 | A section that reads and writes as many words through iterators opens if and only if its nob arrays have fewer than 4800 words |
| ShadowLayouts.NoWindowExample | src/lib/cmo.cpp:367-369 | With 1000 words to read and 10 to write the writers get no set at all |
| ShadowLayouts.WindowBounds | src/lib/cmo.cpp:373-379 | The window of an iterator is the rounded-down part of the words of all sets of its kind; it is open if and only if there is a set |
| Coherence.WrittenHolds | src/lib/cmo.cpp:487-489 | What is copied to the shadow memory is there |
| Coherence.WrittenElsewhere | src/lib/cmo.cpp:487-489 | Copying to one place leaves every other place as it is |
| Coherence.EndedCoherent | src/lib/cmo.cpp:575-589 | After `end_tx` the callers' arrays are those of the plain program, also for a reader of an array that a writer has changed |
| Coherence.BegunGood | src/lib/cmo.cpp:481-500 | Loading the next window of one iterator keeps all objects coherent |
| Coherence.WrittenGood | src/lib/cmo.cpp:625-627 | A write inside a window keeps all objects coherent with the plain program, among them the readers of the same array, if they have read the word |
| Coherence.StaleWindow | src/lib/cmo.cpp:487-489 | A word written at or ahead of a read iterator on the same array leaves the reader's window right if and only if it lies outside the window, or does not change |
| Runtimes.CopyIn | src/lib/cmo.cpp:382-396 | The copy loops to the shadow memory |
| Runtimes.CopyOut | src/lib/cmo.cpp:584-586 | A window copied back makes the array that of the plain program |
| Runtimes.PlacesInOrder | src/lib/cmo.cpp:323-380 | Objects of one kind lie one after the other without overlap |
| Runtimes.PlaceInLimit | src/lib/cmo.cpp:323-380 | Every object ends below the limit of its kind |
| Runtimes.SumsAdd | src/lib/cmo.cpp:320-369 | The words, and the number, of the objects of a kind add up over lists of objects |
| Runtimes.SumsOfOne | src/lib/cmo.cpp:320-369 | One object counts once, with its length, for its own kind and for no other |
| Runtimes.Runtime.EndTx | src/lib/cmo.cpp:567-589 | The windows of the writers are copied back, every iterator moves past what it has used and its window closes, all other words stay |
| Runtimes.Runtime.EndObject | src/lib/cmo.cpp:575-589 | One object at a time; a writer's array may be that of readers, too |
| Runtimes.Runtime.BeginTx | src/lib/cmo.cpp:479-500 | All iterators get their next window, as long as the set share of their kind allows or as much as is left, at their position; every object stays coherent |
| Runtimes.Runtime.Refresh | src/lib/cmo.cpp:613-617 | Ending and beginning a transaction is invisible to the plain program |
| Runtimes.Runtime.NextTransaction | src/lib/cmo.cpp:613-617 | A window that is used up is renewed exactly if there is more, and the plain program notices nothing |
| Runtimes.Runtime.ReadNext | src/lib/cmo.cpp:610-619 | If its kind has a set: returns the plain program's next word; all other objects are as they were; unless the window is used up no array of a caller changes |
| Runtimes.Runtime.StoreNext | src/lib/cmo.cpp:625-627 | The word goes to the window only, and all windows agree with the plain program, in which the word has changed for every object on the array |
| Runtimes.Runtime.WriteNext | src/lib/cmo.cpp:625-633 | If its kind has a set, and the word has been read by the read iterators on the same array: writes the plain program's next word; the same frame |
| Runtimes.Runtime.PutWord | src/lib/cmo.cpp:625-627 | One word of the shadow memory changes, and the plain program's array for every object on it |
| Runtimes.Runtime.NobReadAt | src/lib/cmo.cpp:703-740 | Returns the last value written at the address |
| Runtimes.Runtime.NobWriteAt | src/lib/cmo.cpp:707-735 | Writes at the address; no array of a caller changes |
| Runtimes.Runtime.Rollback | src/lib/cmo.cpp:567-569 | An aborted transaction is back where it began |
| Runtimes.Runtime.Allocate | src/lib/cmo.cpp:314-380 | Accepts exactly what fits, and gives every object its place |
| Runtimes.Runtime.BeginLeakySec | src/lib/cmo.cpp:314-398 | Succeeds if and only if the allocation is accepted, whatever shares it gives; then all windows and nob arrays hold the callers' data |
| Runtimes.Runtime.EndLeakySec | src/lib/cmo.cpp:405-419 | Every array of a caller is that of the plain program |
| Sections.Perform | src/lib/cmo.cpp:610-740 | One access through the runtime is one access of the plain program, or divides by zero exactly if its kind has no set |
| Histories.HistoryNext | src/lib/cmo.cpp:610-740 | One access more: if a read yields what is at its place and a write changes its place only, what the accesses have read and left is again a history |
| Histories.OneHistory | src/lib/cmo.cpp:610-740 | A history says, without running anything: every read yields the last word an earlier access has written at its place, or else the first one there, and so it is with the arrays left. There is only one of given length |
| Sections.RunHistory | src/lib/cmo.cpp:610-740 | What the plain program reads and leaves is that history |
| Sections.OpenServes | src/lib/cmo.cpp:314-419 | If every kind of iterator that has words has a set, no access of a program that stays inside its arrays divides by zero |
| Sections.RunSection | src/lib/cmo.cpp:314-419 | For every program, every interleaving of its accesses and every schedule of transaction aborts, up to the last `end_tx`: it goes through if and only if the allocation is accepted and no access is to a kind without a set, where the code divides by zero; then the section reads what the plain program reads and ends with its arrays: the k-th read through an iterator or of a nob array yields the last word written at its place before, or the caller's, and every place of the callers' arrays holds the last word written there. Objects that only read may share arrays, and read iterators may share one with a write iterator that overwrites only what they have read |

## Left out

- Inline assembly, TSX instructions, timing, printing and the SGX glue: a transaction abort is a return to the state at the last `begin_tx`.
- The alternative branches that are compiled out (`PFO`, `DUMMY`, `SCAN`, the other allocation) and `check_tag`, `clear_tag`.
- `src/pao_lib/pao.cpp`, whose iterator positions never advance, and `src/algo/trace_back.cpp`, which reads outside its matrix.
- The Flajolet-Martin estimate of `src/algo/sketch.cpp`, after line 266: floating-point estimation.
- `kmeans.cpp`, `kmeans_mr.cpp`, `mapreduce.cpp`, `bs.cpp`, `wordcnt.cpp`, `naive_shuffle.cpp`, `cmo_array.h`, `cmo_readonly_set_map.h`: they would add only easy members.
- Byte-level serialisation of elements (`include/cmo_mem.h`): payloads are typed values in an array of their own, so their overlap with link words is excluded by construction.
- Timing and cache behaviour itself: obliviousness is proved only as "the compared positions are a function of n and start", and cache residency only as "at most five lines of a set".
- Sections.RunSection: two objects on overlapping slices of one array, two writers on one array, and a write iterator that overwrites what a read iterator on the same array has not read; no program of the repository does this, and `Coherence.StaleWindow` shows that a reader can then miss a word.
- More than six objects in one runtime, and a second registration in the same runtime: the seventh header would lie on the allocation record.
- The iterators and nob arrays share one class with a kind, where the source has four structures with the same fields; their headers and the allocation record are not words of the modelled shadow memory, which `ShadowLayouts.HeadersUntouched` justifies.
- ElementCounts.ElementCount: requires at least two distinct elements, because the pool for one has the wrong next address of `PackedLists.SingleBlock`, through which the first insertion writes behind the array.
- Pools and queues of capacity 0, and the Melbourne shuffle of one element, which always aborts.
- 32-bit overflow of sums that the code computes with `int32_t` (graph data, `available_set * len_sum`, bucket lengths): integers are unbounded there.
- The abort of the list constructors above 0xffff words, which is a precondition of the constructors here. The programs fail in any case: they check the first section, which could not open, before they construct the queue or map.
- `mem_cap` below four in the cache shuffle: S is then at most 1, and a range that has to be split would be split into one part for ever.
- Rounding errors of floating-point `ceil`, `round`, `sqrt` and `log2`.
- Randomness quality, and heap deallocation: `Utils.ShuffleReaches` says which arrangements can be drawn, not how often each is.
- CacheShuffles.CacheShuffle: the lost pairs and the abort of a later spray are given in terms of the recorded sprays, because they depend on the random shuffles between them.
- Sketches.ShaCtx.Update: requires fewer than 2^64 bits in all, as FIPS 180-4 does.
