# Jiufeng: allocator, Huffman codes and smaller algorithms

This project models parts of the Jiufeng C library in Dafny and proves what they compute. Every property is proved for all
inputs, or for all states that any sequence of calls can reach. `dafny verify dfyconfig.toml` checks the project.

## What is modelled

**The jiukun memory allocator.** `BuddyBlocks` and `BuddyZone` describe one zone of the page allocator: aligned blocks of
2^k pages, one free list per order, splitting and merging. A ghost view (which page belongs to which block) gives the marks
and lists their meaning. `PageWord` models the bit fields of the page word. `BuddyCode` is the zone as stored, with page
words and free lists changed in place; `BuddyAllocator` is the array of such zones. `BuddySystem` states what holds over all
zones and over whole runs. On top of it, `SlabChain` is the list of free objects inside a slab, `SlabSizing` the layout of a
cache, `SlabCode` a cache as stored, `SlabHeap` all caches together with page tags and management objects, and `SlabRuns` the
operations and their runs.

**Huffman codes.** `CodeLengths` and `PrefixCode` hold the theory: cost, Kraft sums, exchange and merge. `HuffmanTree` states
optimality and the depth bound, `HuffmanBuild` is the merge loop over the node pool, `HuffmanTraversal` the walk by parent
pointers, `CanonicalCode` and `CanonicalAssign` the canonical codes. `BitArray` models the multi-byte shifts and counts they
use, over `Bits`.

**Smaller algorithms.** `ChunkProcessor` (chunked transfer coding, section 4.1 of RFC 7230), `Calendar`, `Scheduler` with
`SchedulerCode` (timed tasks), `HashTable`, `Base64` (section 4 of RFC 4648) and `ArchiveFile`.

Code that changes arrays, lists or objects step by step is a method or a class here too, proved against functions on values;
the properties are proved about those functions. Time, memory from the system, the place of a new pool and the success of an
allocation are parameters. Machine widths are written out where they matter: bytes, the 64-bit page word and code buffer, the
32-bit threshold and block time. Elsewhere numbers are unbounded.

The invariants are not empty: every alphabet with a non-zero frequency has a Huffman tree (`HuffmanBuild.BuildHuffmanTree`),
and a new zone, a new page allocator and a new memory allocator satisfy theirs (`BuddyZone.FreshOk`, `BuddySystem.InitialOk`,
`SlabRuns.InitialMachineOk`).

## Where the code and its documentation differ

The model follows the code.

- `jf_attask_removeItem` removes the first match only. jiutai/jf_attask.h:79 says all matches are removed. The two agree
  exactly when there is at most one match (`Scheduler.RemovesAllIff`).
- The comment at jiutai/jf_hashtable.c:169 gives the threshold as ceil(0.8 * size). In 32 bits this holds exactly below
  2^30 - 1, which leaves out the two largest table sizes (`HashTable.ThresholdExactIff`, `HashTable.PrimeThresholds`).
- The page order search at jiukun/slab.c:852-879 is written to give up on an order that wastes more than 1/8. It neither
  leaves the loop then nor changes the order (`SlabSizing.SearchEndsIff`).
- Canonical codes are offered for any code lengths. They form a prefix code exactly when the Kraft sum is at most 1 and no
  shift drops a bit (`CanonicalCode.ServedPrefixFreeIff`).
- A read beyond the end of an archive leaves the reader unusable unless the file is empty (`ArchiveFile.Reader.Read`).

## Model

| member | source | states |
|---|---|---|
| `HuffmanTree.HuffmanOptimal` | encode/huffman.c:194-240 | No prefix code for the symbols of non-zero frequency has a smaller sum of frequency times length than the code read off the tree that the merge loop leaves |
| `HuffmanTree.HuffmanPrefixFree` | encode/huffman.c:273-326 | No codeword of the tree is a prefix of another symbol's codeword |
| `HuffmanBuild.BuildHuffmanTree` | encode/huffman.c:194-240 | The merge loop over the node array ends, fails exactly when no symbol has a frequency, and otherwise leaves in the pool an optimal tree over exactly the symbols that have one |
| `HuffmanBuild.RoundKeepsState` | encode/huffman.c:202-229 | Each round of the loop keeps: parent and child links agree, trees share no symbol, every tree is the cheapest so far, and the pool still has room for all nodes to come |
| `HuffmanTree.LeavesAreGreedy` | encode/huffman.c:242-263 | The forest of single leaves already satisfies the invariant of the merge loop: any prefix code costs at least what the forest can still reach |
| `HuffmanTree.MergeStaysGreedy` | encode/huffman.c:202-229 | Merging the two lightest roots keeps that invariant (greedy choice together with optimal substructure) |
| `HuffmanTree.LastTreeIsHuffman` | encode/huffman.c:231-237 | When one tree is left, it holds exactly the coded symbols and its merge cost is a lower bound for every prefix code |
| `CodeLengths.RarestGetLongest` | encode/huffman.c:160-183 | From any feasible code lengths one gets feasible ones, no more costly, in which the two rarest symbols have equal and greatest length |
| `CodeLengths.MergeRarest` | encode/huffman.c:202-229 | Lengths for an alphabet give lengths for the alphabet with its two rarest symbols merged, cheaper by their joint frequency |
| `CodeLengths.SwapLengths` | encode/huffman.c:160-183 | Giving the rarer of two symbols the longer code does not raise the cost and keeps the Kraft sum |
| `PrefixCode.KraftInequality` | encode/huffman.c:194-240 | Every prefix code whatsoever satisfies the Kraft inequality, so that optimality is over all prefix codes and not only over trees |
| `HuffmanBuild.FindMinimumFreq` | encode/huffman.c:160-183 | The position found is eligible and no eligible node is lighter, or equally light and lower; nothing is found exactly when nothing is eligible |
| `HuffmanBuild.TakeMinimum` | encode/huffman.c:204-222 | The minimum found is marked as ignored and nothing else changes |
| `HuffmanBuild.GetCompositeNode` | encode/huffman.c:123-147 | The next pool node becomes the parent of both children, with their summed frequency and one level more; every other node keeps its subtree |
| `HuffmanBuild.Pool.Get` | encode/huffman.c:96-110 | The pool hands out its nodes in order; that one is left is proved at every call, so that the assert never fails |
| `HuffmanTree.HeavyIfDeep` | encode/huffman.c:194-240 | A tree of height h weighs at least Fibonacci(h + 2) |
| `HuffmanTree.HuffmanFits` | encode/huffman.c:294-297 | If all frequencies together stay below Fibonacci(66), no code is longer than 63 bits, so that the left-justifying shift of the 64-bit buffer is positive |
| `HuffmanTree.ByteAlphabetFits` | encode/huffman.c:484-521 | Any 256 symbols with 32-bit frequencies meet that bound |
| `HuffmanTraversal.GenCodes` | encode/huffman.c:273-326 | The walk by parent pointers ends, reaches each leaf once, and stores for each symbol its root path (left 0, right 1), left-justified, with its length |
| `HuffmanTraversal.DescendLeft` | encode/huffman.c:283-289 | Going down to the left keeps the position in the tree, the depth and the code bits in step, and ends at a leaf |
| `HuffmanTraversal.Ascend` | encode/huffman.c:300-322 | Going up from finished right subtrees and over to the next right child keeps the leaves already reached and those ahead in order; it ends at the root exactly when no leaf is ahead |
| `HuffmanTraversal.VisitLeaf` | encode/huffman.c:291-298 | The leaf at the current position is the next one in left-to-right order |
| `HuffmanTraversal.LeafOrderDistinct` | encode/huffman.c:273-326 | The left-to-right order names no leaf twice |
| `HuffmanTraversal.LeafOrderSyms` | encode/huffman.c:273-326 | The left-to-right order names every leaf |
| `HuffmanTraversal.PathOfPlugged` | encode/huffman.c:273-326 | The path to a leaf below a position is the path to the position followed by the path within the subtree |
| `HuffmanTraversal.EnterCode` | encode/huffman.c:291-298 | The code buffer shifted left by 64 minus depth is the codeword of the position, left-justified |
| `HuffmanTraversal.InitLeaves` | encode/huffman.c:242-263 | Exactly the symbols of non-zero frequency get a leaf, carrying that frequency; every length starts at 0 |
| `HuffmanTraversal.MakeTree` | encode/huffman.c:484-521 | Pool, leaves and merge loop together: a tree exists exactly when some frequency is not 0 |
| `HuffmanTraversal.GenHuffmanCode` | encode/huffman.c:484-521 | Whole function: success exactly when there is something to code; every coded symbol holds its path in an optimal tree, every other symbol length 0; symbols and frequencies are untouched |
| `CanonicalCode.ServedPrefixFreeIff` | encode/huffman.c:336-372 | For any non-increasing code lengths, longest-first increment-and-shift gives a prefix code if and only if the Kraft sum is at most 1 and no shift drops a 1 bit |
| `CanonicalCode.FullKraftIsExact` | encode/huffman.c:336-372 | A Kraft sum of exactly 1 rules such a dropped bit out |
| `CanonicalCode.PartialKraftCanFail` | encode/huffman.c:336-372 | A smaller Kraft sum is not enough: lengths 3 and 1 get the codewords 000 and 0 |
| `CanonicalAssign.TreeKraft` | encode/huffman.c:427-480 | The depths of the leaves below any node add up to exactly that node's share of the Kraft sum |
| `CanonicalAssign.TreeLengthsServed` | encode/huffman.c:427-480 | The lengths read from any tree of two or more leaves are served as a prefix code |
| `CanonicalAssign.GenLengths` | encode/huffman.c:427-480 | The second walk by parent pointers stores each leaf's depth (1 for a tree that is one leaf) and changes nothing else |
| `CanonicalAssign.SortByCodeLen` | encode/huffman.c:563-592 | The order obtained is a permutation of the symbols, by length and then by symbol as _compareByCodeLen has it |
| `CanonicalAssign.ServeOne` | encode/huffman.c:355-368 | One turn: the pending number is shortened, stored left-justified and counted up, in the byte array as in the integers |
| `CanonicalAssign.AssignCanonicalCodes` | encode/huffman.c:336-372 | Every symbol with a length holds the number of its turn in exactly that many bits; symbols of length 0 are left alone |
| `CanonicalAssign.CanonicalIsPrefixCode` | encode/huffman.c:336-372 | With the lengths of a Huffman tree the assigned codewords form a prefix code of exactly those lengths |
| `CanonicalAssign.CanonicalOptimal` | encode/huffman.c:523-561 | The canonical code is as short as any prefix code for the coded symbols |
| `CanonicalAssign.GenCanonicalByCodeLen` | encode/huffman.c:563-592 | For any code lengths below 64: symbols are served from the longest length to the shortest, each gets the codeword of its turn, and the rest keep their bytes |
| `CanonicalAssign.GenCanonicalForTree` | encode/huffman.c:563-592 | On the lengths of a Huffman tree the entries end up holding a prefix code |
| `CanonicalAssign.GenCanonicalHuffmanCode` | encode/huffman.c:523-561 | Whole function: success exactly when there is something to code, and then a prefix code with the lengths of an optimal tree |
| `BitArray.LShift` | jiutai/jf_bitarray.h:105-151 | On the big-endian value, for any length n and any shift s: multiplication by 2^s modulo 2^(8n) |
| `BitArray.RShift` | jiutai/jf_bitarray.h:155-201 | On the big-endian value: division by 2^s |
| `BitArray.LShiftCorrect` | jiutai/jf_bitarray.h:105-151 | Moving whole bytes and then single bits with carry is one multiplication, up to what leaves the array |
| `BitArray.RShiftCorrect` | jiutai/jf_bitarray.h:155-201 | Moving whole bytes and then single bits with carry is one division |
| `BitArray.AllShiftedOut` | jiutai/jf_bitarray.h:105-124 | Shifting by the array's size or more leaves 0, as the arithmetic says |
| `BitArray.Increment` | jiutai/jf_bitarray.h:277-294 | Plus 1 modulo 2^(8n) |
| `BitArray.Decrement` | jiutai/jf_bitarray.h:298-314 | Minus 1 modulo 2^(8n) |
| `BitArray.CarryInto` | jiutai/jf_bitarray.h:277-294 | A run of bytes that all wrap passes exactly one carry on to the byte before them |
| `BitArray.SetLastBit` | jiutai/jf_bitarray.h:323-328 | Setting the last bit makes an even value odd and leaves an odd one alone |
| `PageWord.SetBit` | jiutai/jf_bitop.h:28-44 | Bit for bit, writing a field of a 64-bit word replaces the field by the value and nothing else, for any field bounds |
| `PageWord.GetAfterSet` | jiutai/jf_bitop.h:33-44 | A field reads back what was written to it, cut to its width |
| `PageWord.OtherFieldKept` | jiutai/jf_bitop.h:33-44 | Writing a field leaves every field that does not overlap it as it was |
| `PageWord.SetMarks` | jiukun/buddy.h:60-94 | In the page word, the allocated mark, the slab mark, the order and the zone id are each set without touching the other three |
| `BuddySystem.RunsAreSafe` | jiukun/buddy.c:529-615 | In every state that any sequence of page allocations and releases can reach: free pages and allocated pages add up to the zone, allocated blocks are aligned, in range and share no byte, and once nothing is allocated every zone is one free block again |
| `BuddySystem.RunKeeps` | jiukun/buddy.c:529-615 | The invariant of all zones holds after every sequence of calls, zones added on the way included |
| `BuddySystem.InitialOk` | jiukun/buddy.c:443-472 | The state after initialisation satisfies the invariant and has nothing allocated |
| `BuddySystem.GetKeeps` | jiukun/buddy.c:529-585 | A block that is handed out was not allocated before; it is the only change to the allocated blocks; on failure nothing changes |
| `BuddySystem.GetSucceedsIff` | jiukun/buddy.c:332-382 | A request succeeds exactly when its order is valid and either the best-fitting zone has a large enough free block or a zone may be added; with growth allowed and fewer than 20 zones every valid order succeeds |
| `BuddySystem.PutKeeps` | jiukun/buddy.c:587-615 | A release aborts exactly on a page that heads no allocated block; otherwise it takes exactly that block out |
| `BuddySystem.BestFit` | jiukun/buddy.c:341-351 | The zone chosen is the first of those with the fewest free pages among the zones that have enough; none is chosen exactly when none has enough |
| `BuddySystem.AllocConserves` | jiukun/buddy.c:148-173 | Free pages plus pages of allocated blocks stay equal to the zone's pages across an allocation |
| `BuddySystem.FreeConserves` | jiukun/buddy.c:203-237 | Free pages plus pages of allocated blocks stay equal to the zone's pages across a release, however far it merges |
| `BuddySystem.BlocksDisjoint` | jiukun/buddy.c:529-585 | Two allocated blocks, in the same zone or in different ones, share no byte and lie inside their pools |
| `BuddySystem.PageOfAddr` | jiukun/buddy.c:633-661 | The page found for an address is the one whose bytes contain it; none is found exactly outside every pool |
| `BuddySystem.AddrToPage` | jiukun/buddy.c:633-661 | The loop over the zones finds that page |
| `BuddySystem.AddrDeterminesPage` | jiukun/buddy.c:617-661 | An address lies in at most one page of one zone |
| `BuddySystem.PageRoundTrip` | jiukun/buddy.c:617-661 | Page to address and back is the identity on every page of every zone, for every address inside the page |
| `BuddyZone.AllocKeeps` | jiukun/buddy.c:148-173 | Allocation keeps the zone invariant, adds one live block of the wanted order that was not live, and lowers the page count by 2^order |
| `BuddyZone.AllocFailsIff` | jiukun/buddy.c:148-173 | _rmqueue fails exactly when no free block of the wanted order or above exists |
| `BuddyZone.FreeKeeps` | jiukun/buddy.c:203-237 | Release keeps the zone invariant, removes exactly that live block and raises the page count by 2^order |
| `BuddyZone.RmQueueKeeps` | jiukun/buddy.c:148-173 | Taking a block off its list and splitting it keeps the partition, the lists and the counts, with only the block in flight left out |
| `BuddyZone.SplitListKeeps` | jiukun/buddy.c:127-144 | Splitting down any number of orders touches no live block and lists exactly the pages split off |
| `BuddyZone.SplitStepKeeps` | jiukun/buddy.c:132-141 | One split: the upper half becomes a free block whose buddy is the half in flight |
| `BuddyZone.MergeUpKeeps` | jiukun/buddy.c:213-236 | Merging upward, however far it goes, ends with nothing in flight, all free blocks listed and no two buddies free |
| `BuddyZone.MergeStepKeeps` | jiukun/buddy.c:223-230 | One merge: block and buddy become one block of the next order, at the lower of the two |
| `BuddyZone.IsBuddyPage` | jiukun/buddy.c:193-199 | The test of a page's marks tells exactly whether the buddy is a free block of the same order, stale marks inside larger blocks notwithstanding |
| `BuddyZone.LiveBlocksDisjoint` | jiukun/buddy.c:148-173 | Live blocks are aligned, inside the zone and share no page |
| `BuddyZone.AllFreeIsOneBlock` | jiukun/buddy.c:203-237 | With nothing live, lists, counts and page count are those of one free block of the top order |
| `BuddyZone.NoSmallBlock` | jiukun/buddy.c:203-237 | With nothing live, no block below the top order is left: the smallest would have a free buddy of its size |
| `BuddyZone.FreshOk` | jiukun/buddy.c:275-310 | A new zone satisfies the invariant |
| `BuddyBlocks.BuddyPair` | jiukun/buddy.c:177-180 | Flipping the order bit of an aligned index gives the neighbour that completes a block of the next order, and flipping again gives the index back |
| `BuddyBlocks.BuddyIsHead` | jiukun/buddy.c:184-199 | In a partition into aligned blocks the buddy index of a block is the first page of a block of at most the same order |
| `BuddyBlocks.SplitKeeps` | jiukun/buddy.c:132-141 | Halving a block keeps the partition of the zone into aligned blocks |
| `BuddyBlocks.MergeKeeps` | jiukun/buddy.c:223-230 | Joining two buddies of the same order keeps the partition of the zone into aligned blocks |
| `BuddyCode.StoredZone.constructor` | jiukun/buddy.c:275-330 | The arrays built hold the new zone: marks cleared, zone id in every page word, one listed block |
| `BuddyCode.StoredZone.InitPages` | jiukun/buddy.c:261-273 | Every page word carries the zone id and no other mark |
| `BuddyCode.StoredZone.SetOrder` | jiukun/buddy.c:98-108 | Writing the order changes no other mark and no other page |
| `BuddyCode.StoredZone.SetAllocated` | jiukun/buddy.h:60-66 | Writing the allocated mark changes no other mark and no other page |
| `BuddyCode.StoredZone.SplitPages` | jiukun/buddy.c:127-144 | The loop in place does what the recursive split does |
| `BuddyCode.StoredZone.RemoveBlock` | jiukun/buddy.c:148-173 | The search and split in place do what the zone function does, failure included |
| `BuddyCode.StoredZone.FreeOnePage` | jiukun/buddy.c:203-237 | The merge loop in place, on page words, does what the recursive merge does |
| `BuddyCode.StoredZone.Allocate` | jiukun/buddy.c:553-577 | Search, split and marks together are the allocation whose invariants are proved |
| `BuddyCode.StoredZone.Release` | jiukun/buddy.c:587-615 | Release in place, refused exactly for a page without the allocated mark |
| `BuddyAllocator.PageAllocator.constructor` | jiukun/buddy.c:443-472 | One zone at the given pool |
| `BuddyAllocator.PageAllocator.Choose` | jiukun/buddy.c:341-351 | The loop over the stored zones finds the best-fitting zone |
| `BuddyAllocator.PageAllocator.FromZone` | jiukun/buddy.c:352-358 | Allocating in one stored zone leaves every other zone as it was |
| `BuddyAllocator.PageAllocator.FromNew` | jiukun/buddy.c:364-379 | A zone is added with its own storage, and a block of any valid order comes out of it |
| `BuddyAllocator.PageAllocator.TryZones` | jiukun/buddy.c:341-358 | First half of _allocPages: only the best-fitting zone is asked |
| `BuddyAllocator.PageAllocator.TryNew` | jiukun/buddy.c:360-381 | Second half: at most 20 zones, none when growth is forbidden or memory is out |
| `BuddyAllocator.PageAllocator.GetPage` | jiukun/buddy.c:529-585 | The stored allocator follows the state machine of the runs, error outcomes included |
| `BuddyAllocator.PageAllocator.PutPage` | jiukun/buddy.c:587-615 | A release in the stored allocator is the release of the runs, and every other zone stays as it was |
| `SlabRuns.RunsAreSafe` | jiukun/slab.c:541-594 | In every state that any sequence of memory and object allocations, releases, reaps, page requests and cache creations can reach: every region held is at least as long as asked for, lies inside the page block of one live slab behind any management data there, and overlaps no other region held, no management data on or off a slab, and no page block held |
| `SlabRuns.RunsKeepSlabs` | jiukun/slab.c:624-688 | In every such state each slab's free list is acyclic and names exactly the objects not handed out, the use count is their complement, and each slab is on the full, partial or free list as that count dictates, one-object slabs included |
| `SlabRuns.RunKeeps` | jiukun/slab.c:541-594 | The allocator invariant, and that the program holds exactly the objects in use that manage no slab, hold after every sequence of operations |
| `SlabRuns.StepKeeps` | jiukun/slab.c:1291-1335 | Each operation (memory, object and page requests and releases, reaping, cache creation) keeps the allocator invariant and the account of what the program holds |
| `SlabRuns.InitialMachineOk` | jiukun/slab.c:954-1016 | The general caches without slabs satisfy the allocator invariant |
| `SlabRuns.AllocObjGives` | jiukun/slab.c:541-594 | An allocation that succeeds adds exactly one object of the right cache to what the program holds; one that fails changes nothing the program holds, although pages may have come and gone |
| `SlabRuns.AllocOnGives` | jiukun/slab.c:459-518 | Growth by one page block with its management data on it |
| `SlabRuns.GrowOffGives` | jiukun/slab.c:404-518 | Growth with management data off the slab: the object for it comes from the 64-byte cache, and when there is none the pages go back |
| `SlabRuns.FreeMemoryGives` | jiukun/slab.c:1319-1335 | Releasing the address of an object held releases exactly that object |
| `SlabRuns.AddressFindsObject` | jiukun/slab.c:624-667 | From the address of an object its page, the page's tags and one division lead to the right cache, slab and object number, whichever page of the slab the object starts in |
| `SlabRuns.ObjectsStartInFirstPage` | jiukun/slab.c:709-739 | The object address that _destroySlab converts to a page is in the first page of the slab, so that the whole block is released |
| `SlabRuns.DestroyGives` | jiukun/slab.c:709-739 | Destroying a free slab, with its management object, changes nothing the program holds and removes one free slab |
| `SlabRuns.ShrinkGives` | jiukun/slab.c:1025-1052 | Shrinking a cache ends with an empty free list and changes nothing the program holds |
| `SlabHeap.TakeHeap` | jiukun/slab.c:359-377 | Taking an object keeps the allocator invariant; the object was not in use and is the only one whose state changes |
| `SlabHeap.GiveHeap` | jiukun/slab.c:663-687 | Giving back an object in use that manages no slab keeps the allocator invariant; only that object's state changes |
| `SlabHeap.MakeHeap` | jiukun/slab.c:488-507 | Turning a page block into a slab keeps the allocator invariant and takes no object into use |
| `SlabHeap.DropHeap` | jiukun/slab.c:709-739 | Taking a free slab apart keeps the allocator invariant; no object in use is lost |
| `SlabHeap.TakeLists` | jiukun/slab.c:559-587 | After the list moves of an allocation every slab is on the list its use count calls for |
| `SlabHeap.GiveLists` | jiukun/slab.c:671-687 | After the list moves of a release every slab is on the list its use count calls for, also straight from full to free |
| `SlabHeap.MakeLists` | jiukun/slab.c:506-507 | With a new slab at the end of the free list every slab is on the list its use count calls for |
| `SlabHeap.DropLists` | jiukun/slab.c:1032-1049 | Without the last free slab every slab left is on the list its use count calls for, in every cache |
| `SlabHeap.ObjectInside` | jiukun/slab.c:359-372 | Every object in use lies inside its slab's pages, behind the management data |
| `SlabHeap.ObjectsDisjoint` | jiukun/slab.c:359-372 | Two objects in use share no byte |
| `SlabHeap.ObjectAvoidsHeaders` | jiukun/slab.c:416-424 | No object in use shares a byte with management data on any slab |
| `SlabChain.NewSlabOk` | jiukun/slab.c:431-454 | A new slab's free list holds every object |
| `SlabChain.FreeIff` | jiukun/slab.c:373-377 | The list is at its end exactly when all objects are in use |
| `SlabChain.TakeKeeps` | jiukun/slab.c:359-377 | Taking the first free object keeps the list acyclic and hands out exactly that object |
| `SlabChain.GiveKeeps` | jiukun/slab.c:663-669 | Putting an object back at the front keeps the list acyclic and takes back exactly that object |
| `SlabChain.InUseCounts` | jiukun/slab.c:359-377 | The use count is the number of objects handed out |
| `SlabChain.ChainIs` | jiukun/slab.c:359-377 | The links determine the free list |
| `SlabChain.StoredSlab.constructor` | jiukun/slab.c:431-454 | The bufctl loop builds the list of all objects |
| `SlabChain.StoredSlab.AllocOne` | jiukun/slab.c:359-377 | Allocation in place; the object handed out was free |
| `SlabChain.StoredSlab.FreeOne` | jiukun/slab.c:663-669 | Release in place, by the byte offset of the object |
| `SlabCode.SlabCache.TakeObj` | jiukun/slab.c:559-587 | In place: an allocation changes slab, bufctl and the three lists together, and every slab stays where its use count calls for |
| `SlabCode.SlabCache.GiveObj` | jiukun/slab.c:663-687 | In place: a release changes slab, bufctl and the three lists together, and every slab stays where its use count calls for |
| `SlabCode.SlabCache.AddSlab` | jiukun/slab.c:459-518 | In place: a new slab with its own bufctl joins the end of the free list |
| `SlabSizing.Estimate` | jiukun/slab.c:308-334 | The count is the largest for which objects and aligned management data fit, and the leftover is what they leave |
| `SlabSizing.CapacityLargest` | jiukun/slab.c:308-334 | The count that the search works with is that largest one |
| `SlabSizing.SearchEndsIff` | jiukun/slab.c:852-879 | The order search ends exactly for the sizes that a closed condition on the size describes (below 512 bytes; or the waste at the smallest sufficient order is at most 1/8; or that order is the last), and then at that order; otherwise a round changes nothing and the loop goes on for ever |
| `SlabSizing.SomeSizesNeverExit` | jiukun/slab.c:852-879 | For objects of 1500 bytes it never ends |
| `SlabSizing.PowersExit` | jiukun/slab.c:852-879 | For every power of two from 8 to 2^23 it ends, and from 512 up without waste |
| `SlabSizing.CreatedLaidOut` | jiukun/slab.c:799-908 | A created cache has as many objects as fit; management data and objects stay inside the pages whether on the slab, off it, or moved back on; it is off the slab exactly for large objects behind which it does not fit; objects start in the first page; creation is refused exactly above the largest slab |
| `SlabSizing.GeneralCreated` | jiukun/slab.c:954-1000 | Every general cache is created under the limit in force at its turn; those of 512 bytes and more keep their management data off the slab |
| `SlabSizing.ManagementGoesTo64` | jiukun/slab.c:927-929 | Management data off the slab always fits the 64-byte cache and no smaller one |
| `SlabSizing.FindGeneral` | jiukun/slab.c:785-797 | The loop finds the first general cache that is large enough |
| `SlabSizing.GeneralFor` | jiukun/slab.c:1291-1317 | That cache is the smallest sufficient one; none is found exactly above the largest size |
| `ChunkProcessor.SplitInvariant` | httpparser/chunkprocessor.c:292-350 | For any list of non-empty chunks and any cut of its encoding into segments, with unconsumed bytes presented again, everything is consumed without error and the body delivered is the concatenated data |
| `ChunkProcessor.FeedExpects` | httpparser/chunkprocessor.c:292-350 | The same from any state in the middle of an encoding |
| `ChunkProcessor.ProcessExpects` | httpparser/chunkprocessor.c:292-350 | One call on the next bytes of an encoding: no error, what is delivered plus what is still encoded stays the same, and everything is consumed once everything is there |
| `ChunkProcessor.StepProgress` | httpparser/chunkprocessor.c:308-337 | On any input a step succeeds exactly when it consumes a byte, and the data stays within the buffer as it grows |
| `ChunkProcessor.StartGood` | httpparser/chunkprocessor.c:93-136 | A size line is recognised once a byte behind it is there, and before that the state does not change |
| `ChunkProcessor.DataGood` | httpparser/chunkprocessor.c:163-210 | Data bytes go to the body in order, any number at a time |
| `ChunkProcessor.EndGood` | httpparser/chunkprocessor.c:138-161 | The CRLF behind a chunk is skipped as a whole |
| `ChunkProcessor.FooterGood` | httpparser/chunkprocessor.c:212-247 | The final CRLF delivers the body |
| `ChunkProcessor.LineFound` | httpparser/chunkprocessor.c:106-129 | The search stops right behind the size line's own CRLF |
| `ChunkProcessor.HexHasNoCR` | string/validatestring.c:86-105 | Text that parses as hexadecimal contains no CR |
| `ChunkProcessor.StoredProcessor.constructor` | httpparser/chunkprocessor.c:266-290 | An empty processor in the start state |
| `ChunkProcessor.StoredProcessor.Grow` | httpparser/chunkprocessor.c:69-91 | A larger buffer with the same data |
| `ChunkProcessor.StoredProcessor.ProcessStart` | httpparser/chunkprocessor.c:93-136 | The search loop in place recognises the size line as the decoder proved split-invariant does, and leaves the data alone |
| `ChunkProcessor.StoredProcessor.ProcessEnd` | httpparser/chunkprocessor.c:138-161 | In place: the CRLF behind a chunk is skipped only as a whole |
| `ChunkProcessor.StoredProcessor.ProcessData` | httpparser/chunkprocessor.c:163-210 | In place: the bytes go behind the data already there, in a buffer that grows when the whole input would not fit |
| `ChunkProcessor.StoredProcessor.ProcessFooter` | httpparser/chunkprocessor.c:212-247 | In place: CRLF delivers the data as the body, anything else is reported as corrupted |
| `ChunkProcessor.StoredProcessor.ProcessChunk` | httpparser/chunkprocessor.c:292-350 | The driving loop in place does what the decoder proved split-invariant does |
| `Calendar.ZellerCountsDays` | jiutai/jf_date.c:229-250 | For every valid date from 1970 on, the formula with C division and its correction of negative remainders gives (day count + 3) mod 7 |
| `Calendar.DaysToDate` | jiutai/jf_date.c:197-227 | For every day count from 1 on: a valid date with that count, and the only one |
| `Calendar.DateToDays` | jiutai/jf_date.c:170-187 | The loops add up all days of the years and months before the date |
| `Calendar.DayCountInjective` | jiutai/jf_date.c:170-187 | Different valid dates have different day counts, so that the converters are inverse both ways |
| `Calendar.CountWithinYear` | jiutai/jf_date.c:170-227 | A valid date's count lies within its year |
| `Calendar.DaysBeforeYearClosed` | jiutai/jf_date.c:161-183 | The sum over the years has a closed form with the leap days up to the year before |
| `Calendar.NextDayIsNext` | jiutai/jf_date.c:260-268 | The day after any date, across months and years, falls on the next day of the week |
| `Scheduler.RunsAreSound` | jiutai/jf_attask.c:110-309 | After any sequence of calls under a clock that does not go back: the list is sorted; every item added is pending, fired or removed, just once; items fire at the first check at or after their expiry; over all checks they fire in order of expiry |
| `Scheduler.RunKeeps` | jiutai/jf_attask.c:110-309 | The invariant behind RunsAreSound (also that every pending item expires within 2^32 milliseconds) holds after every sequence of calls |
| `Scheduler.AddKeeps` | jiutai/jf_attask.c:174-250 | Adding an item keeps the scheduler invariant: it expires no earlier than anything fired so far |
| `Scheduler.RemoveKeeps` | jiutai/jf_attask.c:252-309 | Removing an item keeps the scheduler invariant: the item is accounted for as removed |
| `Scheduler.CheckKeeps` | jiutai/jf_attask.c:126-163 | A check keeps the scheduler invariant: it fires exactly what is due, behind everything fired so far |
| `Scheduler.BlockTimeExact` | jiutai/jf_attask.c:165-168 | The block time is the exact gap to the earliest pending item, the conversion to 32 bits loses nothing, and it is the default when nothing is pending |
| `Scheduler.InsertSorted` | jiutai/jf_attask.c:190-247 | Insertion keeps the list sorted |
| `Scheduler.InsertHolds` | jiutai/jf_attask.c:190-247 | Insertion adds exactly the new item, as a multiset |
| `Scheduler.RemovesAllIff` | jiutai/jf_attask.c:260-300 | Removal does what its documentation says, remove every match, exactly when there is at most one match |
| `Scheduler.SecondMatchStays` | jiutai/jf_attask.c:260-300 | With two matches the second stays |
| `SchedulerCode.Attask.AddItem` | jiutai/jf_attask.c:174-250 | On the doubly linked list in place: it stays linked both ways, and its contents change by the insertion |
| `SchedulerCode.Attask.Check` | jiutai/jf_attask.c:110-172 | In place: the due items leave the list and are called back in order, the rest stays linked, and the block time is that of the list |
| `SchedulerCode.Attask.RemoveItem` | jiutai/jf_attask.c:252-309 | In place: the first match leaves the list; not found exactly when there is none |
| `SchedulerCode.InsertAt` | jiutai/jf_attask.c:199-244 | The new item stands right in front of the first item that expires no earlier, items of equal expiry included |
| `SchedulerCode.Attask.Link` | jiutai/jf_attask.c:202-244 | Linking an item between two neighbours, either of which may be missing, keeps both directions in step |
| `SchedulerCode.Attask.Cut` | jiutai/jf_attask.c:145-160 | Cutting the list leaves the rest linked both ways and the front linked forward |
| `SchedulerCode.Attask.FireList` | jiutai/jf_attask.c:64-83 | The callbacks see the items of the list once each, in order |
| `SchedulerCode.Attask.Unlink` | jiutai/jf_attask.c:266-281 | Unlinking an item joins its neighbours |
| `HashTable.Table.InsertEntry` | jiutai/jf_hashtable.c:362-373 | The table stays a map: a new key is added, an old one keeps its entry, and without memory nothing changes; the entry count is the total chain length and the map's size, and at most 80 per cent of the table size rounded up |
| `HashTable.Table.OverwriteEntry` | jiutai/jf_hashtable.c:399-416 | The table stays a map with its count and load bound: the key is added or its entry replaced, and without memory nothing changes |
| `HashTable.Table.RemoveEntry` | jiutai/jf_hashtable.c:375-397 | The table stays a map with its count and load bound: the key is removed; not found exactly when it is not in the map |
| `HashTable.Table.GetEntry` | jiutai/jf_hashtable.c:418-430 | A lookup gives what the map gives |
| `HashTable.Table.GetPosition` | jiutai/jf_hashtable.c:123-150 | The position is the key's, or the end of the chain where it belongs |
| `HashTable.Table.Resize` | jiutai/jf_hashtable.c:173-225 | Moving every chain to the next size keeps the map, the count and the load bound; without memory nothing changes |
| `HashTable.Table.MoveChain` | jiutai/jf_hashtable.c:195-204 | Moving one old chain adds exactly its entries to the new table |
| `HashTable.Table.InsertAtEnd` | jiutai/jf_hashtable.c:227-265 | The new entry goes in after a resize if one is due |
| `HashTable.Table.constructor` | jiutai/jf_hashtable.c:285-326 | An empty map in a table of at least the wanted size |
| `HashTable.FindPrime` | jiutai/jf_hashtable.c:302-306 | The smallest table size that is large enough |
| `HashTable.LookupAgrees` | jiutai/jf_hashtable.c:123-150 | For any hash function: a key is found in its chain exactly when it is in the map, with the map's value |
| `HashTable.AppendHolds` | jiutai/jf_hashtable.c:227-265 | A new entry at the end of its chain is one more entry of the map |
| `HashTable.ReplaceHolds` | jiutai/jf_hashtable.c:267-281 | An entry replaced in its chain is replaced in the map |
| `HashTable.RemoveHolds` | jiutai/jf_hashtable.c:375-397 | An entry unlinked from its chain is removed from the map |
| `HashTable.MoveEntry` | jiutai/jf_hashtable.c:195-204 | An entry that is moved was not in the new table, and moving it adds exactly it |
| `HashTable.AllMoved` | jiutai/jf_hashtable.c:190-205 | Once every chain is moved the new table holds the whole map |
| `HashTable.ThresholdExactIff` | jiutai/jf_hashtable.c:167-171 | The 32-bit threshold is 80 per cent of the size rounded up exactly when 4 * size + 4 does not overflow; it is never larger |
| `HashTable.PrimeThresholds` | jiutai/jf_hashtable.c:79-88 | Of the table sizes exactly the two largest overflow |
| `HashTable.RoomForOne` | jiutai/jf_hashtable.c:235-245 | Below the threshold or right after a resize, one more entry keeps the load bound |
| `HashTable.IncrementIterator` | jiutai/jf_hashtable.c:511-550 | One step passes exactly the current entry; the rest stays ahead in order |
| `HashTable.SetupIterator` | jiutai/jf_hashtable.c:500-509 | A new iterator has every entry of the table ahead |
| `HashTable.Iterate` | jiutai/jf_hashtable.c:500-560 | A whole iteration meets the entries of the table, chain after chain |
| `HashTable.IterationIsExact` | jiutai/jf_hashtable.c:500-560 | These are the entries of the map, all of them and no other, no key twice |
| `Base64.RoundTrip` | encode/base64.c:90-186 | Decoding the encoding of any bytes gives them back |
| `Base64.NoiseIgnored` | encode/base64.c:144-179 | Characters outside the alphabet, padding among them, make no difference wherever they stand |
| `Base64.TablesInverse` | encode/base64.c:32-37 | The two tables are inverse, and padding and NUL have no value |
| `Base64.BlockRoundTrip` | encode/base64.c:49-86 | Each block of one, two or three bytes decodes to itself, whatever the missing values are |
| `Base64.EncodeBase64` | encode/base64.c:90-124 | The loop writes the encoding and a NUL inside the buffer allocated |
| `Base64.DecodeBase64` | encode/base64.c:126-186 | The loop writes the decoding and a NUL inside the buffer allocated, for any text |
| `Base64.ReadBlock` | encode/base64.c:146-173 | A round reads the next four values, or as many as there are, and ends behind the NUL when fewer are left |
| `Base64.NextCode` | encode/base64.c:150-160 | The innermost loop stops behind the next alphabet character, or behind the NUL when there is none |
| `ArchiveFile.WriteAll` | archive/arfile.c:112-210 | After any writes and the close, the file is their concatenation |
| `ArchiveFile.ReadAll` | archive/arfile.c:134-172 | Any reads within the file's length return its bytes in order, however they line up with the 64 KiB buffer |
| `ArchiveFile.Writer.Write` | archive/arfile.c:174-210 | What has been written, on disk and in the buffer, grows by exactly the data; the loop ends |
| `ArchiveFile.Writer.Flush` | archive/arfile.c:40-57 | Flushing moves the buffered bytes behind the file's |
| `ArchiveFile.Writer.Close` | archive/arfile.c:112-132 | Closing leaves everything written in the file |
| `ArchiveFile.Reader.Read` | archive/arfile.c:134-172 | A read succeeds exactly when that many bytes remain, and returns them; otherwise it returns all that remain, and the reader can be used again exactly when the file is empty |
| `ArchiveFile.Reader.Fill` | archive/arfile.c:59-72 | A fill loses nothing; at the end of the file it leaves the offset where it was |

## Left out

- Locks, the locked and growing flags of a cache, sleeping and retrying: every call is one atomic step. The marks that
  getJiukunPage writes after releasing its mutex belong to that step.
- SlabRuns.RunsAreSafe: a page request that fails starts a reap of the unlocked caches; in the runs this is a separate reap
  step, which may happen at any time and for any cache.
- SlabRuns.FreeMemoryGives: speaks of addresses the program holds; what a release of any other address does is not modelled.
- SlabRuns.AllocObjGives: the composition of growth, management objects and lists over all caches is on values; slabs, the
  lists of one cache, zones and the array of zones are modelled in place.
- Destroying caches and shutting the allocator down, red zones, statistics and dumps.
- SlabSizing.Estimate: the limit of 2^32 - 3 objects per slab and 32-bit overflow of sizes are not modelled; no slab of up to
  2^11 pages comes near them.
- CanonicalAssign.SortByCodeLen: qsort is modelled by an insertion sort with the same comparison; only order and permutation
  of its result are used.
- CanonicalAssign.GenCanonicalByCodeLen: code lengths of 64 bits and more, for which the counter could wrap, are excluded.
- HuffmanTraversal.GenHuffmanCode: speaks of alphabets whose frequencies add up to less than Fibonacci(66); beyond that a
  code may not fit its 64-bit buffer.
- BuddySystem.GetSucceedsIff: that only the best-fitting zone is asked, so that a request can fail at 20 zones although
  another zone has a block, is stated as the code has it.
- ChunkProcessor.SplitInvariant: streams end at the footer; chunk sizes are not limited to 31 bits, and memory for the buffer
  is always there.
- HashTable.Table.InsertEntry: chains are sequences of entries, not linked nodes; a table of the last size that is full must
  not grow, as the code reads past its size table then.
- HashTable.Table.constructor: minimum sizes above the largest table size, for which the search has no end, are excluded.
- SchedulerCode.Attask.AddItem: 64-bit overflow of the expiry time and lack of memory are not modelled.
- Base64.TablesInverse: the two character tables are given by the ranges they consist of.
- ArchiveFile.Writer.Write: write errors of the stream are not modelled; seeking in an archive is left out as one more walk
  through the same buffer.
- Calendar.DateToDays: 32-bit overflow for years far beyond any calendar is not modelled, and dates before 1970 are excluded.
- Parsing and formatting of headers, names, dates and options; simple containers; files, sockets and terminals; archives as
  directories of files: easy members or foreign calls.
