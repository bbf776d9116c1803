# Pintos and CS 162 homework components, modelled and verified in Dafny

The project models the pieces of the Pintos kernel and of the CS 162 homeworks whose correctness is a theorem rather
than plumbing, and proves those theorems. Code that updates objects in place is a class or a method over nodes, arrays
and fields; each such method is proved against a specification function or predicate, and the promises are then proved
about the specification. Code whose difficulty is concurrency is a step system: a state, the atomic steps of each
thread, and theorems over every run.

| files | component |
|---|---|
| `LinkedLists`, `MergeSortSpec`, `ListSort`, `DoublyLinked` | bottom-up in-place merge sort and doubly linked list surgery |
| `WorkQueueProtocol` | the blocking work queue in every interleaving |
| `BufferCache` | the 64-entry write-back cache run by one thread, on heap objects |
| `CacheProtocol` | the same cache in every interleaving of its users, with both lock levels and the reference counts |
| `Words`, `InodeTree`, `Inode` | a growable file: 123 direct pointers and a doubly indirect tree, on top of the cache |
| `MallocArenas`, `Malloc` | size-class free lists over pages: malloc, calloc, realloc, free |
| `LongDivision` | 64-bit division from a 64-by-32-bit divide instruction |
| `HeapSort` | the heap sort over an array of bytes |
| `Ustar` | the archive header printer and parser ("ustar Interchange Format" of the pax utility, IEEE Std 1003.1) |
| `Donation` | priority donation along the chain of lock holders |
| `SleepQueue` | the timer's sleep queue: the ordered list, the interrupt, and every interleaving |
| `IntQueue` | the interrupt queue: the ring, and every interleaving of threads and handlers |

`dafny verify dfyconfig.toml` checks everything.

## What the code does not promise

Some natural claims are false of the code. Each is stated with the exact condition under which the code meets it.

- `udiv64` is exact. `sdiv64` truncates except for the minimum divided by -1 (`Sdiv64`). `umod64` and `smod64` return 32
  bits, so they are right exactly when the remainder fits. Every dividend fits if and only if the divisor is at most
  2^32, or of magnitude at most 2^31 in the signed case (`UnsignedModBoundIsExact`, `ModBoundsAreExact`).
- `malloc` computes the pages of a big block on a 32-bit `size_t`. A block that is handed out is as large as requested
  exactly when the request is at most 0xFFFF_FFF4 bytes; the eleven larger requests get one page (`Malloc`,
  `PageCountCovers`).
- `calloc` rejects a product that is smaller than a factor, which does not reject every product that overflows
  (`CallocCheckIsWeak`); what it hands out holds the true product exactly when that is at most 0xFFFF_FFF4 (`Calloc`).
- `realloc` copies within the new block exactly when the new size is at most 0xFFFF_FFF4 or the old block has at most
  4084 bytes (`Realloc`).
- `cache_evict` goes round forever when every entry is pinned, and only then (`ClockStopsIff`). It does so while holding
  the lock that every other thread needs in order to unpin its entry, so the search then never ends (`SpinsForever`).
  Some run gets there exactly when there are more than 64 threads and the disk has more than 64 sectors (`SpinsIff`).
- While a popper sleeps, the work queue can hold more items than there are woken poppers, exactly when two threads use
  it: in the middle of a push (`BoundExceededIff`). The invariant counts that push (`EveryItemHasAWokenPopper`).
- The assertion in the interrupt queue's `wait` fails when a thread that blocked on the queue's lock gets it after the
  condition has changed. Some run fails exactly when two or more threads use the queue (`FailsIffShared`).
- `propagate_broadcast` returns exactly when the chain of the lock's holder ends and the requester is not on it
  (`EndsIff`). A chain does not end exactly when following it comes back to a thread, that is, when some threads wait
  for each other in a circle (`EndlessIff`).
- A header made for a regular file of negative size is rejected as too large; every other one is read back
  (`RoundTrip`).
- The comment above `malloc` says blocks of up to 2 kB come from arenas; the largest descriptor has 1 kB blocks. The
  model follows the code (`DescFor`, `MallocInit`).

## Model

| member | source | states |
|---|---|---|
| MergeSortSpec.SortCorrect | homeworks/hw2/utlist.h:128-204 | bottom-up merging is a stable sort for every total preorder: ordered, the same nodes, each class of equal nodes in its old order |
| MergeSortSpec.StableSortUnique | homeworks/hw2/utlist.h:128-204 | two stable sorts of the same list are equal, so the specification leaves the result no freedom |
| MergeSortSpec.MergeStable | homeworks/hw2/utlist.h:152-179 | merging two ordered runs keeps the order within every class of equal nodes, those of the left run first |
| MergeSortSpec.PassRuns | homeworks/hw2/utlist.h:136-190 | one pass over ordered runs of length k leaves ordered runs of length 2k |
| ListSort.LLSort | homeworks/hw2/utlist.h:128-204 | relinks exactly the given nodes into a null-terminated list; with a total preorder it is the stable sort; terminates with insize within an int for up to 2^30 nodes |
| ListSort.DLSort | homeworks/hw2/utlist.h:208-286 | the same for any prev links, and afterwards every prev is the predecessor, the head's prev the tail, the tail's next null |
| ListSort.SortList | homeworks/hw2/utlist.h:133-202 | the doubling loop computes the specification's sort and stops after a pass with at most one merge |
| ListSort.SortPass | homeworks/hw2/utlist.h:136-190 | one pass relinks the list into the specification's pass and counts its merges |
| ListSort.MergeStep | homeworks/hw2/utlist.h:154-186 | one step of a merge moves the right node to the output and keeps what is still to be merged |
| DoublyLinked.DLAppend | homeworks/hw2/utlist.h:599-611 | the doubly linked list of the old nodes and then the new one |
| DoublyLinked.DLDelete | homeworks/hw2/utlist.h:632-648 | the doubly linked list without the k-th node, in all four positions |
| DoublyLinked.WorkQueue.Push | homeworks/hw2/wq.c:49-56 | the item joins at the end, and size stays the length |
| DoublyLinked.WorkQueue.Pop | homeworks/hw2/wq.c:31-34 | the oldest item leaves, and size stays the length |
| WorkQueueProtocol.StepPreserves | homeworks/hw2/wq.c:17-62 | every step keeps mutual exclusion, the order of the items, the counter and the wakeup bound |
| WorkQueueProtocol.Fifo | homeworks/hw2/wq.c:17-62 | in every run no null head is dereferenced, size is the length, and items leave once each in the order in which the pushes took the mutex |
| WorkQueueProtocol.Delivery | homeworks/hw2/wq.c:17-62 | in every run, what each thread's pushes put on the queue is what its calls asked to push, and what its pops return is what they took off, one item a call, in order |
| WorkQueueProtocol.EveryItemHasAWokenPopper | homeworks/hw2/wq.c:25-58 | no lost wakeup: while a popper sleeps, the items are at most the woken poppers plus the push about to signal |
| WorkQueueProtocol.BoundExceededIff | homeworks/hw2/wq.c:25-58 | some run exceeds the bound without that push if and only if two threads use the queue |
| WorkQueueProtocol.NeverStuck | homeworks/hw2/wq.c:17-62 | with an item queued and a popper asleep, some thread inside a call can take a step |
| BufferCache.ClockStopsIff | group projects/pintos/src/filesys/fs_cache.c:74-98 | the hand stops if and only if some entry is unpinned, and then within 128 moves; with all pinned it stops at no move at all |
| BufferCache.Cache.CacheEvict | group projects/pintos/src/filesys/fs_cache.c:74-98 | the victim is the clock's choice, at most 128 moves away, unpinned, its use bit clear; a dirty one went to its own block first; no view changes |
| BufferCache.Cache.CacheFindEnt | group projects/pintos/src/filesys/fs_cache.c:108-171 | whenever the block is cached or some entry is free or unpinned: the entry is valid for the block, holds its contents and is pinned once more; no view changes, and a hit moves nothing |
| BufferCache.Cache.CacheReadLen | group projects/pintos/src/filesys/fs_cache.c:177-204 | returns the slice of the view (zeros for an absent block); no view changes; the block's entry is left unpinned with its use bit set |
| BufferCache.Cache.CacheRead | group projects/pintos/src/filesys/fs_cache.c:210-212 | returns the whole view of the block |
| BufferCache.Cache.CacheWriteLen | group projects/pintos/src/filesys/fs_cache.c:220-242 | changes exactly the written slice of the block's view, and leaves the block's entry unpinned with its use bit set |
| BufferCache.Cache.CacheWrite | group projects/pintos/src/filesys/fs_cache.c:248-250 | replaces the block's view |
| BufferCache.Cache.CacheFlush | group projects/pintos/src/filesys/fs_cache.c:252-262 | afterwards the disk equals the views |
| BufferCache.ContentsIsView | group projects/pintos/src/filesys/fs_cache.c:108-171 | the contents of a block are its valid entry's data or else the disk sector, and there is at most one such entry |
| CacheProtocol.StepPreserves | group projects/pintos/src/filesys/fs_cache.c:74-242 | every step of every thread keeps the lock, reference-count and data invariants and the atomicity of the log |
| CacheProtocol.Transparent | group projects/pintos/src/filesys/fs_cache.c:108-242 | in every run the completed accesses are atomic on a plain array of sectors, and a thread back from cache_find_ent holds the lock of the only valid entry of its block, loaded with what that array holds |
| CacheProtocol.LogIsWhatWasAsked | group projects/pintos/src/filesys/fs_cache.c:177-242 | in every run the logged accesses of a thread, followed by the one it has yet to make, are exactly the calls the run makes for it, in order; nobody else's are logged |
| CacheProtocol.ReadsLastWrite | group projects/pintos/src/filesys/fs_cache.c:177-242 | in every run each byte that a read returned is the byte that the last completed write before it put there, or the disk's if there is none |
| CacheProtocol.AccessCompletes | group projects/pintos/src/filesys/fs_cache.c:108-242 | every access within a block can be carried out to its end, and is then logged |
| CacheProtocol.PinnedStays | group projects/pintos/src/filesys/fs_cache.c:120-171 | ref_cnt is the number of threads between finding and dropping the entry, only they hold its lock, and no step evicts it while there is one |
| CacheProtocol.ClaimNeverWaits | group projects/pintos/src/filesys/fs_cache.c:159-161 | the lock of a freshly claimed entry is free, as the comment there says |
| CacheProtocol.SearchEndsIff | group projects/pintos/src/filesys/fs_cache.c:120-151 | a search can go on if and only if the block is cached or some entry is unpinned |
| CacheProtocol.NoSpinning | group projects/pintos/src/filesys/fs_cache.c:74-98 | with at most 64 threads, or at most 64 sectors, a search always ends |
| CacheProtocol.SpinsForever | group projects/pintos/src/filesys/fs_cache.c:74-98 | a search that finds every entry pinned never ends, whatever the other threads do |
| CacheProtocol.SpinsIff | group projects/pintos/src/filesys/fs_cache.c:74-171 | some run reaches such a search if and only if there are more than 64 threads and more than 64 sectors |
| CacheProtocol.NeverStuck | group projects/pintos/src/filesys/fs_cache.c:74-242 | with at most 64 threads, or at most 64 sectors, the two lock levels cannot deadlock |
| CacheProtocol.UserFindsItLoaded | group projects/pintos/src/filesys/fs_cache.c:163-168 | no other thread is still to load an entry whose lock a thread holds |
| Words.TableRoundTrip | group projects/pintos/src/filesys/inode.c:45-64 | a table of 128 pointers survives its encoding as a sector |
| InodeTree.FetchIsPtr | group projects/pintos/src/filesys/inode.c:25-68 | every position below the end maps, directly or through the tree, to an allocated data sector, and one past MAX_FILE_LEN to -1 |
| InodeTree.FetchInjective | group projects/pintos/src/filesys/inode.c:25-68 | two positions map to the same sector exactly when they lie in the same 512-byte block |
| InodeTree.GrowthPads | group projects/pintos/src/filesys/inode.c:70-196 | growth keeps the old bytes and appends zeros |
| InodeTree.OverwriteBytes | group projects/pintos/src/filesys/inode.c:451-483 | writing within one block changes exactly those bytes of the flat file |
| Inode.Inode.InodeFetchBlock | group projects/pintos/src/filesys/inode.c:25-68 | computes that map, its reads going through the cache, and changes nothing |
| Inode.Inode.InodeExtend | group projects/pintos/src/filesys/inode.c:70-196 | grows if and only if enough sectors are free, takes exactly as many as data and tables need, keeps old positions on their sectors, zeroes new data, and stores the inode |
| Inode.Inode.InodeReadAt | group projects/pintos/src/filesys/inode.c:370-420 | returns exactly the bytes in range, clipped to the length |
| Inode.Inode.InodeWriteAt | group projects/pintos/src/filesys/inode.c:428-487 | a permitted write changes exactly its range, fills a gap with zeros, sets the length to the larger end, keeps the stored inode up to date and loses or disturbs no other sector; a denied write changes nothing |
| Inode.Reopen | group projects/pintos/src/filesys/inode.c:293-305 | an inode opened again from its sector is the same file, with the same bytes |
| Inode.Inode.InodeCreate | group projects/pintos/src/filesys/inode.c:239-270 | with enough free sectors the new file reads as length zeros and is stored |
| Inode.Inode.InodeOpen | group projects/pintos/src/filesys/inode.c:293-305 | reads back the fields that the sector holds |
| Inode.Inode.EncodedRoundTrip | group projects/pintos/src/filesys/inode.c:304 | the stored sector decodes to the fields it was made from |
| Inode.FilesIndependent | group projects/pintos/src/filesys/inode.c:428-487 | whatever a write does to one file, a file on other sectors stays complete and keeps its bytes |
| MallocArenas.BlockAtInverse | group_proj1/pintos/src/threads/malloc.c:266-294 | block_to_arena undoes arena_to_block, and the block ends within the page |
| MallocArenas.LiveDisjoint | group_proj1/pintos/src/threads/malloc.c:89-264 | blocks in use never overlap |
| MallocArenas.WithinArena | group_proj1/pintos/src/threads/malloc.c:177-186 | a block in use lies behind its arena's header and within its pages |
| MallocArenas.ArenaInUse | group_proj1/pintos/src/threads/malloc.c:241-253 | between calls every arena has a block in use |
| MallocArenas.FreeOfBounded | group_proj1/pintos/src/threads/malloc.c:242-246 | free_cnt reaches blocks_per_arena exactly when all the arena's blocks are on the list |
| MallocArenas.TakeInv | group_proj1/pintos/src/threads/malloc.c:148-153 | handing out the first free block keeps the invariant |
| MallocArenas.NewArenaInv | group_proj1/pintos/src/threads/malloc.c:129-146 | turning a page into an arena keeps the invariant |
| MallocArenas.ReleaseInv | group_proj1/pintos/src/threads/malloc.c:242-253 | returning an unused arena keeps the invariant |
| Malloc.Heap.MallocInit | group_proj1/pintos/src/threads/malloc.c:71-85 | the loop makes the seven descriptors 16 to 1024, each with as many blocks as fit behind the header |
| Malloc.Heap.Malloc | group_proj1/pintos/src/threads/malloc.c:89-154 | null exactly when the size is 0 or no block, page or run of pages is free; else a block that was not in use, up to 1024 bytes of the smallest size class that fits, as large as requested iff the request is at most 0xFFFF_FFF4; the invariant holds again |
| Malloc.DescForIsSmallest | group_proj1/pintos/src/threads/malloc.c:100-105 | the descriptor holds the request, no smaller one does, and there is none exactly for more than 1024 bytes |
| Malloc.PageCountCovers | group_proj1/pintos/src/threads/malloc.c:109 | for which sizes the page count is right, zero, or one because of the overflow |
| Malloc.Heap.Free | group_proj1/pintos/src/threads/malloc.c:218-264 | the block leaves use, its arena goes back when unused, the assertions hold, and the blocks still in use keep their bytes |
| Malloc.Heap.ReleaseArena | group_proj1/pintos/src/threads/malloc.c:242-253 | removing the arena's blocks one by one, each of them on the list, leaves the others in order |
| Malloc.FreedPages | group_proj1/pintos/src/threads/malloc.c:242-261 | pages go back exactly when the freed block was the last one in use on them |
| Malloc.Heap.Calloc | group_proj1/pintos/src/threads/malloc.c:158-175 | null exactly when the check or malloc fails; the block is zeroed; it holds the true product iff that is at most 0xFFFF_FFF4 |
| Malloc.CallocCheckIsWeak | group_proj1/pintos/src/threads/malloc.c:164-167 | an overflowing product that passes the check |
| Malloc.Heap.Realloc | group_proj1/pintos/src/threads/malloc.c:194-214 | size 0 frees; failure leaves the old block alone; success moves the smaller of the two sizes and frees the old block; when the copy fits the new block, for which the exact condition is given, the bytes arrive and other blocks keep theirs |
| Malloc.InAddressSpace | group_proj1/pintos/src/threads/malloc.c:89-154 | blocks in use lie in the 32-bit address space |
| LongDivision.Nlz | group_proj1/pintos/src/lib/arithmetic.c:41-73 | the number of leading zeros |
| LongDivision.Estimate | group_proj1/pintos/src/lib/arithmetic.c:121-124 | the estimate is the true quotient or one more |
| LongDivision.Udiv64 | group_proj1/pintos/src/lib/arithmetic.c:77-127 | the floor of n over d for every n and every nonzero d; every divide instruction stays within 32 bits |
| LongDivision.Udiv64Large | group_proj1/pintos/src/lib/arithmetic.c:119-125 | the estimate-and-correct branch |
| LongDivision.Umod64 | group_proj1/pintos/src/lib/arithmetic.c:131-135 | the remainder exactly when it fits 32 bits, hence for every d up to 2^32 |
| LongDivision.UnsignedModBoundIsExact | group_proj1/pintos/src/lib/arithmetic.c:131-135 | all remainders fit if and only if d is at most 2^32 |
| LongDivision.Sdiv64 | group_proj1/pintos/src/lib/arithmetic.c:139-146 | truncation toward zero, except exactly for the minimum divided by -1 |
| LongDivision.Smod64 | group_proj1/pintos/src/lib/arithmetic.c:150-154 | the remainder with the sign of n exactly when it fits, hence for every d of magnitude up to 2^31 |
| LongDivision.ModBoundsAreExact | group_proj1/pintos/src/lib/arithmetic.c:150-154 | for any larger divisor some dividend does not fit |
| HeapSort.DoSwap | group_proj1/pintos/src/lib/stdlib.c:66-79 | swaps two elements byte by byte and leaves the rest, also when they are the same |
| HeapSort.Heapify | group_proj1/pintos/src/lib/stdlib.c:96-123 | permutes within the range only, terminates, and makes a heap from i if both subtrees were heaps |
| HeapSort.RootIsGreatest | group_proj1/pintos/src/lib/stdlib.c:146-151 | the root of a heap dominates all its elements |
| HeapSort.Extract | group_proj1/pintos/src/lib/stdlib.c:147-151 | an extraction extends the ordered suffix that dominates the remaining heap |
| HeapSort.Sort | group_proj1/pintos/src/lib/stdlib.c:131-152 | a permutation for every compare, and ascending for every total preorder |
| Ustar.StripAntisocialPrefixes | group_proj1/pintos/src/lib/ustar.c:65-73 | the loop computes the stripped name |
| Ustar.StripSafe | group_proj1/pintos/src/lib/ustar.c:56-73 | the stripped name does not start with a slash, "./" or "../", and is neither empty nor ".." |
| Ustar.SafeIff | group_proj1/pintos/src/lib/ustar.c:56-73 | the safe names, byte by byte |
| Ustar.StripIsLongestSafe | group_proj1/pintos/src/lib/ustar.c:63-73 | the result is the longest suffix that is safe, or "." if none is |
| Ustar.StripIdempotent | group_proj1/pintos/src/lib/ustar.c:65-73 | stripping twice is stripping once |
| Ustar.StripKeepsSuffix | group_proj1/pintos/src/lib/ustar.c:63-73 | the result is "." or a suffix, and only dots and slashes were dropped |
| Ustar.CalculateChksum | group_proj1/pintos/src/lib/ustar.c:35-54 | the sum of the header with its checksum field as spaces |
| Ustar.ChksumIs | group_proj1/pintos/src/lib/ustar.c:35-54 | the checksum is 256 plus the sum of the bytes outside its field |
| Ustar.ChksumIgnoresItsField | group_proj1/pintos/src/lib/ustar.c:46-51 | the checksum does not depend on its own field |
| Ustar.ParseOctalField | group_proj1/pintos/src/lib/ustar.c:129-162 | accepts exactly a nonempty run of octal digits that does not overflow and ends in a space or null, and returns its value |
| Ustar.OctalFieldIff | group_proj1/pintos/src/lib/ustar.c:129-162 | a field has value v exactly when a run of octal digits of value v below 2^32 is followed by a space or null within it |
| Ustar.OctalFieldRoundTrip | group_proj1/pintos/src/lib/ustar.c:102-162 | a printed field is read back |
| Ustar.UstarMakeHeader | group_proj1/pintos/src/lib/ustar.c:82-118 | succeeds exactly when the stripped name has at most 99 bytes, and then fixes every byte of the header |
| Ustar.HeaderBytes | group_proj1/pintos/src/lib/ustar.c:82-118 | every byte of the printed header literally: name, modes, ids, size, time, checksum, type, magic, version and owner |
| Ustar.UstarParseHeader | group_proj1/pintos/src/lib/ustar.c:181-227 | makes the checks in their order and returns the first error or the file |
| Ustar.EofIff | group_proj1/pintos/src/lib/ustar.c:190-197 | the end of an archive is reported exactly for 512 zero bytes |
| Ustar.FileIff | group_proj1/pintos/src/lib/ustar.c:181-227 | a header is a file exactly under the listed conditions on its bytes, and what is then returned is what its fields say |
| Ustar.FirstError | group_proj1/pintos/src/lib/ustar.c:181-227 | the error reported is that of the first of these conditions that fails |
| Ustar.RoundTrip | group_proj1/pintos/src/lib/ustar.c:82-227 | parsing a made header yields the stripped name, the type and the size (0 for a directory), except exactly for a regular file of negative size |
| Ustar.AcceptedIsSafe | group_proj1/pintos/src/lib/ustar.c:181-227 | whatever the header, an accepted name is safe to extract and of 1 to 99 bytes |
| Ustar.SingleByteCorruption | group_proj1/pintos/src/lib/ustar.c:204-207 | changing one byte outside the checksum field of an accepted header makes it an error |
| Donation.PropagateBroadcast | group_proj1/pintos/src/threads/synch.c:211-220 | raises exactly the threads and locks on the chain to at least the moving priority, and ends with the chain |
| Donation.Donate | group_proj1/pintos/src/threads/synch.c:255-261 | without a holder, or under mlfqs, nothing changes; otherwise the requester waits for the lock, every thread and lock on the chain rises to the greater of its own and the moving priority, no waiter outranks its holder again, and nothing off the chain changes |
| Donation.DonationIsLeast | group_proj1/pintos/src/threads/synch.c:211-220 | every assignment that restores the order gives the chain at least as much |
| Donation.EndsIff | group_proj1/pintos/src/threads/synch.c:211-220 | the requester's chain ends if and only if the holder's chain ends and the requester is not on it |
| Donation.EndlessIff | group_proj1/pintos/src/threads/synch.c:211-220 | a chain does not end if and only if following it meets a thread twice |
| SleepQueue.Timer.AddToSleepingQueue | group_proj1/pintos/src/devices/timer.c:40-61 | inserts in front of the first later sleeper |
| SleepQueue.InsertSorted | group_proj1/pintos/src/devices/timer.c:58-61 | the queue stays sorted and gains exactly the new sleeper |
| SleepQueue.Timer.RemoveFromSleepingQueue | group_proj1/pintos/src/devices/timer.c:64-81 | takes the first sleeper exactly when it is due |
| SleepQueue.Timer.TimerInterrupt | group_proj1/pintos/src/devices/timer.c:226-240 | unblocks exactly the due sleepers at the front, in order |
| SleepQueue.DueIffFront | group_proj1/pintos/src/devices/timer.c:64-81 | in a sorted queue those are all that are due |
| SleepQueue.WokenOnceOnTime | group_proj1/pintos/src/devices/timer.c:142-240 | in every run the queue is sorted, and each sleeper is unblocked once, at its wake time or the first tick after it joined the queue if that is later; until then it is queued and not overdue |
| SleepQueue.StartsAsTold | group_proj1/pintos/src/devices/timer.c:142-148 | until it has joined the queue, a sleeping thread keeps the tick and the argument of its call |
| SleepQueue.SleepsExactly | group_proj1/pintos/src/devices/timer.c:142-153 | a thread that calls timer_sleep (n) at tick k and joins the queue at tick j runs again exactly from tick max (k + n, j + 1) on, the ticks being the run's interrupts; before that it is queued for k + n |
| SleepQueue.NeverEarly | group_proj1/pintos/src/devices/timer.c:142-153 | a thread that calls timer_sleep (n) at tick k does not run before tick k + n; asleep, it is queued for that tick |
| SleepQueue.NobodyDue | group_proj1/pintos/src/devices/timer.c:226-240 | right after an interrupt no queued sleeper is due |
| SleepQueue.WakeDueThreads | group_proj1/pintos/src/devices/timer.c:231-237 | the interrupt step of the runs wakes the threads that the method wakes |
| IntQueue.Intq.Getc | group_proj1/pintos/src/devices/intq.c:43-54 | on a queue that is not empty the oldest byte leaves, and the writer waiting for room, if any, is woken; an empty one is left alone |
| IntQueue.Intq.Putc | group_proj1/pintos/src/devices/intq.c:64-74 | on a queue that is not full the byte joins at the end, and the reader waiting for a byte, if any, is woken; a full one is left alone |
| IntQueue.ContentsSize | group_proj1/pintos/src/devices/intq.c:18-32 | at most 63 bytes are stored, and the ring is empty or full exactly when its contents are |
| IntQueue.StepPreserves | group_proj1/pintos/src/devices/intq.c:37-114 | every step keeps the ring, the lock and the two waiter pointers consistent |
| IntQueue.Fifo | group_proj1/pintos/src/devices/intq.c:37-114 | in every run the bytes that left followed by the contents are the bytes put in, a non-null not_empty means empty, a non-null not_full means full |
| IntQueue.Delivery | group_proj1/pintos/src/devices/intq.c:37-75 | in every run the bytes that each thread, or the handlers, put are those they were asked to put, in order, and each call that gets takes one byte |
| IntQueue.FailsIffShared | group_proj1/pintos/src/devices/intq.c:37-114 | some run fails the assertion if and only if two threads use the queue |

## Left out

- InodeExtend: shrinking and the attempt to take a failed growth back are not modelled; on failure only the result is stated.
- InodeWriteAt: writes that would end past MAX_FILE_LEN are excluded, because inode_extend then records a length that it has not allocated.
- InodeCreate: lengths above MAX_FILE_LEN are excluded for the same reason, and the result is not modelled; the code returns true even when the growth failed.
- InodeOpen: the list of open inodes, open counts, removal and closing are not modelled.
- CacheProtocol: cache_flush takes no locks, so its interleaving with a copy in progress is not modelled; it is proved for one thread (`CacheFlush`).
- CacheProtocol: the use bits are not modelled there, so a miss may take any unpinned entry; the clock's choice is proved for one thread (`CacheEvict`).
- BufferCache and Inode: the locks do not appear in the single-threaded classes; hit counters are not modelled.
- FreeMapAllocate: some free sector is returned, and the free map's own file is not updated.
- CacheReadLen: bytes are returned as a sequence instead of being stored through the caller's pointer; InodeReadAt likewise.
- Malloc: each call is one atomic step, because each descriptor's lock is held throughout; the list elements inside free blocks are an abstract list, so their bytes are not modelled.
- PallocGetMultiple: some run of free pages, not the first one, is taken.
- Calloc: a write past the end of the address space, which an undersized block can cause, is dropped.
- LLSort, and likewise DLSort: lists of more than 2^30 nodes are excluded, because insize would overflow; comparison functions do not change the nodes.
- InodeFetchBlock: positions are not negative; off_t is not wrapped.
- HeapSort: `2 * i + 1` and `cnt * size` are assumed not to exceed size_t; aux is part of the comparison function.
- Donation: the rest of lock_acquire, lock_release and the recomputation of priorities are not modelled.
- SleepQueue: the sum of start and ticks is assumed to fit in 64 bits; thread_tick is not modelled.
- IntQueue: the scheduler's choice among threads that are ready is arbitrary, and a thread that blocked on the lock competes for it again when it is released.
- Hardware, assembly, the shell, the HTTP server, path walking, process loading, system calls and console output: I/O with little to prove.
- homeworks/hw3/mm_alloc.c: its list updates keep no usable invariant.
- The kernel's list and bitmap library: used through the operations' meaning (ordered insertion, removal, scan and flip).
