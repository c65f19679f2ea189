# Proofs about the Pintos kernel

A Dafny model of the parts of the Pintos teaching kernel in which most can go
wrong, with proofs of what the code and its documentation promise. `dafny verify
dfyconfig.toml` checks the project.

| part | modules |
|---|---|
| linked lists and natural merge sort | Options, Sequences, Ordering, KernelList |
| 64-bit division from a 64-by-32 divide | Arithmetic |
| threads, semaphores, locks, condition variables | Kernel, KernelInvariants, KernelSync, KernelRuns |
| byte I/O over sectors, directories | InodeIo, DirEntries, Directory |
| inode life cycle, free map, file system calls, all on the device | FsState, FsSteps, FsCalls, FsDisk, FsEffects, FileSystem |
| bitmaps, bitmaps in files, page allocator, malloc | Bitmap, BitmapFile, PageAllocator, Arenas, ArenaSteps, Malloc |
| hash table | PowersOfTwo, HashTable |
| ustar headers and integer formatting | Stdio, Ustar, UstarHeader |
| heapsort and binary search | HeapSort |
| two-level page tables | PageTable |

How the parts are modelled:

- Code that updates structures in place is a class with methods, or a method on an
  array. A method states its new state as a function of the old one, and the
  lemmas are about that function.
- Threads and synchronisation are one state machine. Every region that runs with
  interrupts off is one step, a timer tick may come between any two steps, and
  client code may start any call whose assertions hold. The regions of cond_wait and
  cond_signal that change a list of waiters run with interrupts on; they are one
  step each because only a thread that holds the condition's lock is in one, and
  `KernelRuns.NoTwoInside` says that no two threads are. A run is a finite sequence
  of steps, so a theorem about runs is about every interleaving.
- A thread is identified by the page of its structure, which may be used again
  after it has exited. Each condition variable goes with one fixed lock, as its
  documentation asks. Interrupt handlers use user semaphores only. Runs start when
  the scheduler has started.
- The outcome of each memory allocation is a parameter, with the one thing the
  allocator promises: an address not in use. `memory` and `saves` are about bounce
  buffers.
- The file system works on a device of sectors: it reads headers and directory slots
  from it and writes headers, slots, the free map and file data to it. Ghost fields
  name what is there, as a map of headers and a map from names to sectors, and the
  invariant ties both to the sectors. Open inodes are named by the addresses of their
  structures. The free map's own file, a private variable of the source, is named by
  `mapFile`, and clients cannot pass it to calls. Where the source panics because
  formatting or mounting runs out of memory or space, the model has no next state.
  Each call runs to its end before the next.
- Integers are unbounded where the source's width plays no part; 32 and 64 bit
  widths, wrap-around and traps are explicit in Arithmetic, Malloc, Ustar and Stdio,
  and bitmap words and page table entries are 32-bit vectors.

Where code and documentation disagree, the code is followed:

- The 64-bit remainder entry points return 32 bits of the remainder
  (`Arithmetic.UModDi3` and `Arithmetic.ModDi3` say exactly when that is right).
- A file creation that the directory refuses keeps the data sectors it allocated
  (`FileSystem.FileSys.Create` says exactly when, `FsCalls.LostSector` shows one).
- Mounting again loses the sectors of files that were removed but still open
  (`FileSystem.FileSys.Mount`).
- dir_add relies on inode_read_at coming up short only at the end of the file, but it
  does so too when memory runs out, and then an entry can be overwritten
  (`Directory.AddRightIff` says exactly when, `Directory.EntryOverwritten` shows one).
- malloc adds the header and rounds up in 32 bits, so the largest requests get too
  few pages (`Malloc.PagesEnough` says exactly which, `Malloc.WrappedRequest` shows one).
- In inode_write_at the branch that clears the bounce buffer is never reached: a
  chunk that fills its sector is written directly.
- A dir_add on a full table writes the few bytes that fit after the last slot; they
  belong to no slot.

## Model

| member | source | states |
|---|---|---|
| `KernelList.List.constructor` | lib/kernel/list.c:60-68 | an empty list is a well-formed chain from head to tail |
| `KernelList.ListSplice` | lib/kernel/list.c:183-204 | six pointer writes move a range of nodes in front of another node of the same list, and the nodes in their new order form a well-formed doubly linked chain again, whichever way the range moves |
| `KernelList.ListSpliceAcross` | lib/kernel/list.c:183-204 | the same writes move a range into another list: both are well-formed chains again, one without the range and the other with it |
| `KernelList.List.Splice` | lib/kernel/list.c:183-204 | the same on a whole list: it stays valid and its nodes are the old ones with the range moved |
| `KernelList.List.SpliceFrom` | lib/kernel/list.c:183-204 | both lists stay valid and share no node; the range has gone from one to the other in order |
| `KernelList.LinkIn` | lib/kernel/list.c:168-178 | linking a new node in front of another gives the chain with that node inserted |
| `KernelList.Unlink` | lib/kernel/list.c:248-255 | unlinking a node leaves the chain without it and returns its successor; the removed node keeps its own links |
| `KernelList.List.Insert` | lib/kernel/list.c:168-178 | the list gains exactly the new node at the given place |
| `KernelList.List.Remove` | lib/kernel/list.c:248-255 | the list loses exactly the given node |
| `KernelList.List.Reverse` | lib/kernel/list.c:325-337 | exchanging the links of every node and then of the ends reverses the interior and leaves a valid list |
| `KernelList.List.FindEndOfRun` | lib/kernel/list.c:357-372 | returns the exclusive end of the natural run that starts at the given node |
| `KernelList.List.InplaceMerge` | lib/kernel/list.c:379-399 | merging two adjacent ranges by splicing gives the sequence that one comparison at a time prescribes (Ordering.MergedCorrect says what that is) |
| `KernelList.List.SortPass` | lib/kernel/list.c:412-437 | one trip over the list merges the natural runs two by two and counts its output runs |
| `Ordering.MergedCorrect` | lib/kernel/list.c:379-399 | for every strict weak order, merging two sorted adjacent ranges sorts them as one, keeps equivalent elements in their original order and touches nothing outside |
| `Ordering.PassCorrect` | lib/kernel/list.c:412-437 | a pass outputs exactly half of the natural runs, rounded up, leaves at most that many, and keeps the arrangement a stable permutation |
| `Ordering.SortStep` | lib/kernel/list.c:404-440 | a pass that outputs more than one run leaves strictly fewer natural runs, which is why the loop ends; one that outputs at most one leaves at most one |
| `KernelList.List.Sort` | lib/kernel/list.c:404-440 | for every valid list and every strict weak order on its elements, the result is a valid list whose nodes are a nondecreasing, stable permutation of the original, and the loop terminates |
| `Ordering.StableSortUnique` | lib/kernel/list.c:400-440 | that specification has exactly one solution, so the order of the sorted list is fully determined |
| `KernelList.List.InsertOrdered` | lib/kernel/list.c:445-459 | inserting into a sorted list keeps it sorted and puts the element after all that are not greater |
| `Arithmetic.Divl` | lib/arithmetic.c:25-37 | the 64-by-32 divide traps exactly if the divisor is zero or the quotient does not fit 32 bits |
| `Arithmetic.Nlz` | lib/arithmetic.c:41-73 | for every nonzero word: at most 31, and shifting the word left by the result puts its top 1 bit at bit 31 |
| `Arithmetic.NarrowDivision` | lib/arithmetic.c:80-112 | dividing the high word first keeps both 64-by-32 divides within 32 bits, and the two quotients make up the whole one |
| `Arithmetic.EstimateOffByOne` | lib/arithmetic.c:113-125 | rounding the divisor down to its top 32 bits makes the quotient at most one too large |
| `Arithmetic.WideEstimate` | lib/arithmetic.c:113-125 | in the wide-divisor branch the divide cannot trap and the shifted estimate is floor(n/d) or one more, and at least 1 |
| `Arithmetic.Correction` | lib/arithmetic.c:123-124 | subtracting one and comparing the wrapped remainder with the divisor corrects the estimate |
| `Arithmetic.UDiv64` | lib/arithmetic.c:77-127 | floor(n/d) for every 64-bit n and nonzero d; traps exactly for zero |
| `Arithmetic.UMod64` | lib/arithmetic.c:131-135 | returns the low 32 bits of the remainder |
| `Arithmetic.SDiv64` | lib/arithmetic.c:139-146 | C's truncated quotient, wrapped where it does not fit |
| `Arithmetic.SMod64` | lib/arithmetic.c:150-154 | returns C's remainder as a signed 32-bit word |
| `Arithmetic.UModDi3` | lib/arithmetic.c:184-189 | equals the 64-bit remainder if and only if that remainder is below 2^32 |
| `Arithmetic.ModDi3` | lib/arithmetic.c:170-175 | equals C's remainder if and only if that fits a signed 32-bit word |
| `Arithmetic.LostRemainder` | lib/arithmetic.c:131-135 | 2^32 modulo 2^33 does not come back as 2^32 |
| `Arithmetic.LostSignedRemainder` | lib/arithmetic.c:150-154 | 2^31 modulo 2^32 does not come back as 2^31 |
| `Arithmetic.DivDi3` | lib/arithmetic.c:163-168 | C's quotient except for the one pair whose quotient is 2^63 |
| `KernelInvariants.ThreadsStep` | threads/thread.c:290-392 | every step of every thread and interrupt keeps statuses and lists in agreement |
| `KernelSync.WakeStep` | threads/synch.c:60-121 | every step keeps the value of a semaphore with waiters at or below the number of threads woken and not yet back |
| `KernelSync.LocksStep` | threads/synch.c:192-236 | every step keeps each lock's semaphore at 0 or 1 with exactly one owner when it is 0 |
| `KernelSync.CondsStep` | threads/synch.c:287-338 | every step keeps each waiting thread with exactly one claim: a place in a queue, a signaller that picked it, or a unit on its semaphore |
| `KernelSync.InvInit` | threads/thread.c:161-174 | all invariants hold when the initial thread has started the scheduler |
| `KernelSync.InvRun` | threads/synch.c:60-338 | all invariants hold at the end of every run, whatever the interleaving |
| `KernelRuns.OneListEach` | threads/thread.h:100-105 | in every reachable state exactly one thread runs, a non-idle thread is ready exactly if it is on the ready list, and no thread is on two lists or twice on one, so one list element each is enough |
| `KernelRuns.SemaphoreConservation` | threads/synch.c:60-121 | over every run a semaphore's value is its initial value plus ups minus completed downs |
| `KernelRuns.WakeupsCovered` | threads/synch.c:60-121 | no lost wakeup: in every reachable state the value of a semaphore with waiters is at most the number of woken threads that have yet to recheck it |
| `KernelRuns.WakeupPending` | threads/synch.c:60-121 | a positive semaphore with queued threads always has a woken thread, ready or running, on its way to it |
| `KernelRuns.MutualExclusion` | threads/synch.c:175-236 | over every run a lock's semaphore plus the number of threads between decrement and increment is 1, and a recorded holder is that thread |
| `KernelRuns.NoTwoInside` | threads/synch.c:228-338 | two threads are never both in regions that need the same lock held |
| `KernelRuns.SignalsConserved` | threads/synch.c:287-338 | over every run the signals that picked a thread equal its returns from waiting plus at most one still on its way |
| `KernelRuns.SleeperIsWaiting` | threads/synch.c:287-323 | a thread asleep in cond_wait is still queued or has been picked by a signaller about to wake it: a signal between its release of the lock and its sleep is not lost |
| `KernelRuns.WaitReturnsWithLock` | threads/synch.c:300-306 | a thread that leaves cond_wait is the holder and only owner of the lock |
| `KernelRuns.ReadyInOrder` | threads/thread.c:570-577 | a thread at position k of the ready list is dispatched by exactly the (k+1)-th following call of schedule |
| `KernelRuns.QueueAfter` | threads/synch.c:300-323 | the queue of a condition changes only at a signal, which takes the front, and at a wait, which adds at the end |
| `KernelRuns.SignalsInOrder` | threads/synch.c:311-323 | a thread at position k of a queue is picked by the (k+1)-th signal |
| `KernelRuns.BroadcastStep` | threads/synch.c:330-338 | while a broadcast is under way nobody else changes the queue, and it leaves with the queue empty |
| `KernelRuns.BroadcastWakesAll` | threads/synch.c:330-338 | from the start of a broadcast to its return every queued thread is picked |
| `InodeIo.SectorIsContents` | filesys/inode.c:46-54 | a chunk of the sector that byte_to_sector names is the corresponding stretch of the file's flat bytes |
| `InodeIo.Inode.ReadChunk` | filesys/inode.c:207-246 | one trip of the read loop moves the next chunk, through the bounce buffer where it must, or stops exactly where the loop does |
| `InodeIo.Inode.ReadAt` | filesys/inode.c:200-250 | for every offset at or above 0 and every size: the count is min(size, max(0, length - offset)), exactly those bytes are in the buffer and the rest of it is unchanged; without a bounce buffer the exact shorter count |
| `InodeIo.Inode.PatchSector` | filesys/inode.c:289-308 | the sector written back is the old one with the chunk in place |
| `InodeIo.Inode.WriteChunk` | filesys/inode.c:268-314 | one trip of the write loop changes exactly the bytes of its chunk on the device |
| `InodeIo.Inode.WriteAt` | filesys/inode.c:257-318 | for every offset and size: the count as for reading, or 0 while writes are denied, and the device differs only in those bytes |
| `InodeIo.WriteIsOverwrite` | filesys/inode.c:257-318 | a write is an overwrite of the file's flat bytes: it is read back exactly and every other byte of the file stays |
| `InodeIo.WriteLeavesOthers` | filesys/inode.c:257-318 | every extent that shares no sector is unchanged |
| `DirEntries.FilledInReads` | filesys/directory.c:172-176 | an entry that dir_add fills in reads back as in use, with that name and sector |
| `DirEntries.ZeroTable` | filesys/directory.c:26-30 | a file of zeros, as dir_create makes it, is a directory in order and without names |
| `DirEntries.TableOverwrite` | filesys/directory.c:172-176 | writing 20 bytes at a slot's offset changes that slot and no other, although slots straddle sectors |
| `DirEntries.AddedToMap` | filesys/directory.c:141-180 | filling a free slot with a new name adds one binding and keeps names unique |
| `DirEntries.RemovedFromMap` | filesys/directory.c:185-217 | clearing a slot removes one binding |
| `DirEntries.ListingIsMap` | filesys/directory.c:222-237 | the names in slot order are the names of the map, each once |
| `DirEntries.FullTable` | filesys/directory.c:160-170 | a table has a free slot exactly if it holds fewer names than slots |
| `Directory.Dir.Lookup` | filesys/directory.c:91-112 | finds a name exactly if a slot holds it and every slot up to there can be read, with its sector; with memory for the reads exactly if the map has it |
| `Directory.Dir.Add` | filesys/directory.c:141-180 | fails exactly for an empty or long name, a name it sees in use, a search for a free slot that ends after the last, denied writes or no memory to write; otherwise the entry is in the slot where the search ended and no other slot and no other sector changes |
| `Directory.AddRight` | filesys/directory.c:141-180 | with memory for the reads, a search for a free slot succeeds exactly if there are fewer names than slots, and an entry put there adds exactly one binding and keeps names unique |
| `Directory.AddRightIff` | filesys/directory.c:157-176 | whatever memory there is, an entry that has been put leaves unique names and exactly one more binding if and only if its slot held the name, or the name is new and the slot was free |
| `Directory.EntryOverwritten` | filesys/directory.c:157-170 | the source says that short reads happen only at the end of the file; when a read has no memory for its buffer, an entry in use is overwritten and its name is lost |
| `Directory.Dir.Remove` | filesys/directory.c:185-217 | fails exactly if the name is not seen, its inode cannot be opened, writes are denied or there is no memory to write; otherwise removes exactly that binding |
| `Directory.Dir.ReadDir` | filesys/directory.c:222-237 | returns the next name in use and moves past it; none exactly at the end or at a slot it has no memory to read |
| `Directory.Dir.ListNames` | filesys/fsutil.c:16-28 | reading a directory from its start lists the names in slot order up to the first slot that cannot be read, each once: all names of the map and no other if there is memory |
| `FsState.LiveFilesApart` | filesys/inode.c:72-106 | headers and data of two live inodes never overlap |
| `FsState.DenyBound` | filesys/inode.c:320-338 | the deny counter never exceeds the number of openers |
| `FsSteps.OpenNewOk` | filesys/inode.c:126-142 | a new structure for a sector that is not open keeps all invariants, in particular one structure per sector |
| `FsSteps.CloseLastOk` | filesys/inode.c:163-185 | the last close of an inode keeps all invariants; a removed inode's sectors become free |
| `FsSteps.SetDenyOk` | filesys/file.c:118-141 | setting or clearing a file's deny flag keeps the inode's counter equal to the files with the flag |
| `FsSteps.UnlistOk` | filesys/directory.c:185-217 | unlisting a name whose inode is open keeps its sectors and marks the inode removed |
| `FsEffects.DoFormat` | filesys/filesys.c:93-102 | after formatting exactly the first sectors are taken, both headers read back, the free map is saved in its file and the root directory is all zeros |
| `FileSystem.FileSys.Format` | filesys/filesys.c:17-31 | formatting and opening establishes every invariant from nothing: an empty root directory on the device, the free map in memory equal to the one in its file, every sector in use accounted for |
| `FileSystem.FileSys.Mount` | filesys/filesys.c:17-31 | mounting a device whose free map was saved gives back the same headers, root directory and free map; sectors are lost if and only if a removed file was still open |
| `FsDisk.RemountedAccounted` | filesys/filesys.c:17-38 | after a remount every sector in use is accounted for if and only if every inode that was open is listed |
| `FileSystem.FileSys.FreeMapAllocate` | filesys/free-map.c:27-43 | takes the first run of free sectors, exactly if there is one and the free map can be written to its file, which then holds it; otherwise the map in memory is unchanged; no live inode but the free map changes on the device |
| `FileSystem.FileSys.FreeMapRelease` | filesys/free-map.c:46-52 | clears exactly the given sectors and saves the map if it can; that they are all in use, which the source asserts, and belong to no live inode are preconditions that every caller is shown to meet |
| `FileSystem.FileSys.InodeOpen` | filesys/inode.c:111-142 | returns the structure already open for the sector, or a new one with the header read from the device; null exactly if it is not open and memory runs out |
| `FileSystem.FileSys.InodeClose` | filesys/inode.c:163-185 | drops one reference; the last one removes the structure and, if the inode was removed, frees header and data once; only then is the device written, and inodes that are still live keep their bytes |
| `FileSystem.FileSys.InodeCreate` | filesys/inode.c:72-106 | succeeds exactly if there are memory, sectors and a saved free map; then the header is on the device, the data is all zeros in the first free run, and every live inode but the free map keeps its bytes |
| `FileSystem.FileSys.AddEntry` | filesys/directory.c:141-180 | dir_add on the root directory on the device: succeeds exactly for a good new name while there are fewer than 16, and then one slot that was free holds the entry and nothing but the root directory changes |
| `FileSystem.FileSys.Create` | filesys/filesys.c:45-58 | succeeds exactly if memory, sectors, free map writes and the directory allow; header and data go to the first free places; on success the new file is all zeros, one free slot of the root directory has become its entry and the free map is saved; every other live inode keeps header and bytes; sectors are lost if and only if all but the directory entry succeeds and the file is not empty |
| `FsCalls.CreatedOk` | filesys/filesys.c:45-58 | whatever the outcome, live inodes stay disjoint and marked in the free map, and a new one takes only free sectors |
| `FsCalls.CreatedAccounted` | filesys/filesys.c:45-58 | given where header and data went, creating keeps every sector in use accounted for if and only if it does not fail in the directory after allocating data |
| `FsCalls.LostSector` | filesys/filesys.c:45-58 | on a small device, creating a one-byte file with an empty name leaves a sector marked that belongs to nothing |
| `FileSystem.FileSys.Open` | filesys/filesys.c:65-76 | opens exactly if the root directory on the device has the name and memory lasts; on failure nothing changes; the device is never written and every sector stays accounted for |
| `FileSystem.FileSys.FileReopen` | filesys/file.c:38-42 | a second file on the same structure, or no change |
| `FileSystem.FileSys.FileOpen` | filesys/file.c:17-34 | takes over the inode reference, or closes it |
| `FileSystem.FileSys.DenyWrite` | filesys/file.c:118-127 | sets the flag and counts it once; the source's assertion holds |
| `FileSystem.FileSys.AllowWrite` | filesys/file.c:132-141 | clears the flag and uncounts it once; the source's assertions hold |
| `FileSystem.FileSys.Close` | filesys/file.c:45-54 | withdraws the denial, drops the reference and keeps the invariants; inodes that are still live keep their bytes, the free map stays saved if it can be written, and every sector stays accounted for |
| `FsCalls.FileClosedIs` | filesys/inode.c:163-185 | closing a file frees sectors exactly if its inode is removed and no other file has it open, and then all of them |
| `FsCalls.FileClosedAccounted` | filesys/inode.c:163-185 | closing keeps every sector accounted for |
| `FileSystem.FileSys.Remove` | filesys/filesys.c:82-90 | removes exactly if the name exists and memory lasts; one slot of the root directory is cleared, only that name goes, and its sectors at once unless a file has it open; inodes that are still live keep their bytes and every sector stays accounted for |
| `FsCalls.RemovedAccounted` | filesys/filesys.c:82-90 | removing keeps every sector accounted for |
| `FsCalls.HeldByFiles` | filesys/inode.c:111-185 | between calls an inode is in memory exactly if a file has it open |
| `FsCalls.TableDetermined` | filesys/inode.c:111-185 | between calls the open files determine every counter and flag of the open inodes |
| `FsCalls.OpenedClosed` | filesys/inode.c:111-185 | closing what inode_open returned restores the whole state |
| `FsDisk.HeaderRoundTrip` | filesys/inode.c:15-22 | a header written to its sector reads back |
| `FsDisk.WriteInode` | filesys/inode.c:84-102 | writes the header and zeroed data and no other sector |
| `FsDisk.InodeWritten` | filesys/inode.c:84-102 | writing a new inode keeps every live header, every live byte and the root directory |
| `FileSystem.FileSys.ReadAt` | filesys/file.c:81-85 | reads exactly the bytes of the file from the offset on, as far as it goes and there is memory for partial sectors, and leaves the rest of the buffer |
| `FileSystem.FileSys.WriteAt` | filesys/file.c:109-114 | takes no byte while any open file denies writes to the inode, else as many as the file has room for and memory allows; the file is overwritten there and no header or byte of any other live inode changes |
| `FsEffects.ReadBack` | filesys/file.c:81-114 | what has been written through one file is read back through any file on the same inode |
| `FsDisk.DataWritten` | filesys/inode.c:257-318 | writing data of one live inode changes no header and no byte of any other |
| `FsDisk.MapReady` | filesys/free-map.c:27-43 | the file that the free map is saved to is on inode 0 and nobody denies writes to it |
| `Bitmap.SetOneBit` | lib/kernel/bitmap.c:35-46 | replacing the word that holds a bit by one that differs only in that lane changes exactly that bit of the sequence |
| `Bitmap.Bits.Mark` | lib/kernel/bitmap.c:157-167 | sets exactly one bit |
| `Bitmap.Bits.Reset` | lib/kernel/bitmap.c:170-180 | clears exactly one bit |
| `Bitmap.Bits.Test` | lib/kernel/bitmap.c:198-204 | reads the bit |
| `Bitmap.Bits.SetMultiple` | lib/kernel/bitmap.c:218-229 | sets exactly the given range |
| `Bitmap.Bits.Contains` | lib/kernel/bitmap.c:251-264 | true exactly if some bit of the range has the value |
| `Bitmap.Bits.Scan` | lib/kernel/bitmap.c:296-311 | the least start whose bits all match, or an error only if there is none |
| `Bitmap.Bits.ScanAndFlip` | lib/kernel/bitmap.c:320-327 | the same, and flips exactly that group |
| `BitmapFile.ToBytes` | lib/kernel/bitmap.c:353-361 | the bytes given to the file hold exactly the bits of the map |
| `BitmapFile.FromBytes` | lib/kernel/bitmap.c:338-352 | the map read is the one the bytes hold, and the rest of the last word is clear |
| `BitmapFile.SavedOnce` | lib/kernel/bitmap.c:338-361 | bytes hold one map only, so reading back what was written gives the same bits |
| `FsDisk.SaveBits` | lib/kernel/bitmap.c:353-361 | succeeds exactly if there is memory for a last partial sector or none is needed, and then the file holds the map; only its sectors change |
| `FsDisk.LoadBits` | lib/kernel/bitmap.c:338-352 | succeeds exactly in the same case, and then the map is the one in the file |
| `PageAllocator.Pool.constructor` | threads/old_palloc.c:135-152 | the pool is the given pages less those the bitmap occupies, all free |
| `PageAllocator.Allocator.constructor` | threads/old_palloc.c:42-62 | kernel and user pools do not overlap |
| `PageAllocator.ScanFits` | threads/old_palloc.c:71-103 | the bitmap scan finds the lowest run of free pages |
| `PageAllocator.Allocator.GetMultiple` | threads/old_palloc.c:71-103 | the lowest free run of the chosen pool, null exactly if there is none; live runs stay disjoint, each inside one pool, and the bitmaps mark exactly the live pages |
| `PageAllocator.Allocator.FreeMultiple` | threads/old_palloc.c:106-131 | gives back exactly that run |
| `Arenas.BlockInPage` | threads/malloc.c:286-296 | a block lies inside its arena's page after the header, and rounding its address down finds the arena |
| `Arenas.LiveBlocksDisjoint` | threads/malloc.c:88-156 | blocks handed out are pairwise disjoint, and one is at least as big as asked for if and only if less than 0xfffffff5 bytes were asked for |
| `ArenaSteps.TakeKeeps` | threads/malloc.c:150-155 | taking the front block keeps every arena's count equal to its blocks on the free list |
| `ArenaSteps.CarveKeeps` | threads/malloc.c:125-148 | carving a page puts each of its blocks on the list once |
| `ArenaSteps.GiveKeeps` | threads/malloc.c:240-244 | giving a block back keeps the counts right |
| `ArenaSteps.AllFree` | threads/malloc.c:243-248 | an arena counts all its blocks as free exactly if none is handed out |
| `ArenaSteps.ReclaimKeeps` | threads/malloc.c:243-255 | taking all blocks of an unused arena off the list keeps the state right |
| `ArenaSteps.NothingLeaks` | threads/malloc.c:220-266 | once every block has been freed there is no arena and every free list is empty |
| `Malloc.InitDescs` | threads/malloc.c:71-85 | descriptors for 16, 32, ... 1024 bytes with the number of blocks that fit an arena |
| `Malloc.FindDesc` | threads/malloc.c:100-104 | the smallest descriptor that serves the request |
| `Malloc.PagesEnough` | threads/malloc.c:107-109 | the page count of a big request, computed in 32 bits, is enough if and only if the size is below 0xfffffff5, and then wastes less than a page |
| `Malloc.WrappedRequest` | threads/malloc.c:107-109 | a request for 0xfffffff5 bytes gets one page |
| `Malloc.Allocator.Malloc` | threads/malloc.c:88-156 | a fresh block, or null exactly for size 0, if no block is free and the kernel pool has no room, or if the page count wraps to 0; big enough if and only if the size is below 0xfffffff5; one new run of pages exactly when needed; keeps all invariants |
| `Malloc.Allocator.Free` | threads/malloc.c:218-266 | frees exactly that block; its arena's pages go back exactly when no other block of it is in use |
| `PowersOfTwo.AndMask` | lib/kernel/hash.c:305-310 | masking with a power of two less one is the remainder |
| `PowersOfTwo.IsPowerOf2Right` | lib/kernel/hash.c:329-340 | the bit trick recognises exactly the powers of two |
| `PowersOfTwo.RoundDown` | lib/kernel/hash.c:364-372 | turning off low bits until one is left gives the greatest power of two up to the number |
| `HashTable.Hash.constructor` | lib/kernel/hash.c:24-42 | an empty table of four buckets |
| `HashTable.OnlyOne` | lib/kernel/hash.c:314-326 | at most one element of a table is equal to a given one |
| `HashTable.BucketIsRemainder` | lib/kernel/hash.c:304-310 | with a power of two of buckets the masked hash is its remainder, so it is an index of a bucket |
| `HashTable.Hash.FindElem` | lib/kernel/hash.c:314-326 | finds the element equal to e in its bucket, or there is none in the whole table |
| `HashTable.Hash.Find` | lib/kernel/hash.c:131-135 | the one equal element, or none exactly if there is none |
| `HashTable.Hash.Insert` | lib/kernel/hash.c:98-110 | the set gains the element exactly if no equal one is there, else that one is returned; balanced afterwards if memory lasts |
| `HashTable.Hash.Replace` | lib/kernel/hash.c:114-127 | the element takes the place of the equal one, which is returned |
| `HashTable.Hash.Delete` | lib/kernel/hash.c:144-154 | removes and returns the equal element, none exactly if there is none |
| `HashTable.Hash.Rehash` | lib/kernel/hash.c:351-413 | keeps the elements; if memory lasts the bucket count is a power of two at least 4 with elements < 4 x buckets and (4 buckets or 2 x buckets <= elements) |
| `HashTable.Cursor.Next` | lib/kernel/hash.c:218-235 | moves to the next element in bucket order, none exactly when all have been passed |
| `HashTable.Collect` | lib/kernel/hash.c:160-235 | an iteration visits every element exactly once |
| `Stdio.RendersOnce` | lib/stdio.c:501-513 | a numeral stands for one number only, so formatting loses nothing |
| `Stdio.FormatInteger` | lib/stdio.c:469-547 | the digits, commas aside, are a numeral for the value and stay within the 64-byte buffer; with the GROUP flag a comma stands before every group of digits counted from the right and nowhere else, without it there is none; sign, prefix and padding are laid out as the flags say and fill the width |
| `Stdio.Bases` | lib/stdio.c:138-141 | the bases of all conversions have distinct digits that start with 0, as the formatter needs |
| `Stdio.FormatOctal` | lib/stdio.c:469-547 | %0Wo of a number below 8^W is exactly W characters that are a numeral for it |
| `Stdio.Snprintf` | lib/stdio.c:25-52 | stores as much as fits and a null, leaves the rest of the buffer, and returns the full length |
| `Ustar.StripAntisocialPrefixes` | lib/ustar.c:65-73 | computes the stripped name |
| `Ustar.StrippedIsSafe` | lib/ustar.c:56-73 | the stripped name is a nonempty suffix or a dot, does not start with a slash, dot slash or dot dot slash, and stripping is idempotent |
| `Ustar.CalculateChksum` | lib/ustar.c:36-54 | the sum of all bytes with the checksum field read as spaces |
| `Ustar.SumIgnoresField` | lib/ustar.c:36-54 | the checksum does not depend on its own field |
| `Ustar.ParseOctalField` | lib/ustar.c:129-162 | computes the field's value |
| `Ustar.ParseSound` | lib/ustar.c:120-162 | what is parsed is the value of a well-formed field and fits an unsigned long |
| `Ustar.ParseComplete` | lib/ustar.c:120-162 | every well-formed field whose value fits is parsed |
| `UstarHeader.MakeHeader` | lib/ustar.c:82-118 | fails, writing nothing, exactly if the stripped name is over 99 characters; otherwise every byte of the header is as specified, a negative size as the unsigned number with the same bits |
| `UstarHeader.ParseHeader` | lib/ustar.c:181-227 | returns the outcome of the first check that fails, or the entry |
| `UstarHeader.RoundTrip` | lib/ustar.c:82-227 | parsing a made header gives back the stripped name, the type and the size, 0 for a directory; a regular file with a negative size is rejected as too large |
| `UstarHeader.OneByteChanged` | lib/ustar.c:181-227 | changing any one byte outside the checksum field of an accepted header makes it rejected |
| `HeapSort.SiftStep` | lib/stdlib.c:96-123 | swapping an element with its greatest child moves the one violation of heap order down |
| `HeapSort.TopIsGreatest` | lib/stdlib.c:146-151 | the first element of a heap is the greatest |
| `HeapSort.Heapify` | lib/stdlib.c:96-123 | restores heap order from element i on and moves only the first cnt elements about; terminates |
| `HeapSort.Sort` | lib/stdlib.c:131-152 | for every array and every total preorder: a nondecreasing permutation, in place |
| `HeapSort.BinarySearch` | lib/stdlib.c:184-207 | on a sorted array a match, or none exactly if there is none; terminates |
| `PageTable.PteRoundTrip` | threads/pte.h:96-104 | encoding and decoding a page-aligned kernel address is the identity and the flags are the given ones |
| `PageTable.PdeRoundTrip` | threads/pte.h:70-81 | a directory entry leads back to its table |
| `PageTable.SamePage` | threads/pte.h:32-39 | two addresses share directory and table index exactly if they are in the same page |
| `PageTable.StoreEntry` | userprog/pagedir.c:58-89 | writing one entry changes what one directory says about one page and nothing else |
| `PageTable.NewTableSays` | userprog/pagedir.c:68-84 | a new zeroed table says nothing new about any page of any directory |
| `PageTable.Paging.Create` | userprog/pagedir.c:17-25 | a new directory has the kernel entries of the initial one, says nothing about user pages, and no other directory changes |
| `PageTable.Paging.LookupPage` | userprog/pagedir.c:58-89 | the entry's address; null exactly if there is no table and none is or can be made; no page's entry changes |
| `PageTable.Paging.SetPage` | userprog/pagedir.c:101-122 | afterwards every address of the page leads to the same offset in the frame; every other page of every directory is unchanged; fails exactly if a table is missing and memory runs out |
| `PageTable.Paging.GetPage` | userprog/pagedir.c:128-140 | the frame address plus offset, or null exactly if the page is not present |
| `PageTable.Paging.ClearPage` | userprog/pagedir.c:146-160 | the page is unmapped, the rest of its entry and all other pages stay |
| `PageTable.Paging.SetDirty` | userprog/pagedir.c:175-189 | changes that bit of that page's entry only |
| `PageTable.Paging.IsDirty` | userprog/pagedir.c:166-171 | reads the bit; false without an entry |
| `PageTable.Paging.SetAccessed` | userprog/pagedir.c:204-218 | changes that bit of that page's entry only |
| `PageTable.Paging.IsAccessed` | userprog/pagedir.c:195-200 | reads the bit; false without an entry |
| `PageTable.OtherTranslations` | userprog/pagedir.c:101-218 | changing one page of one directory leaves every other translation and flag, in every directory, as it was |

## Left out

- Pascal lexer (lexanc.c, scanner.c): not part of the kernel.
- list_unique, list_max, list_min and list_size: easy next to the sort.
- bitmap_flip and bitmap_count.
- calloc, realloc, the clearing of freed blocks and pages, zero-filled pages, the panic on PAL_ASSERT, and the allocators' own locks: each call is one step.
- The user-page path in threads/palloc.c and vm/frame.c, which is unfinished.
- userprog/process.c, system calls, and user memory checks.
- Priorities, priority donation and the multi-level feedback queue, which the source does not implement.
- thread_block and thread_unblock called by clients directly rather than through semaphores.
- allocate_tid, thread_foreach and the all-threads list.
- File positions (file_read, file_write, file_seek): additions on top of FileSystem.FileSys.ReadAt and WriteAt.
- hash_clear, hash_apply with destructors, and the hash functions themselves.
- atoi, qsort's and bsearch's wrappers, and the byte-wise loop of do_swap, which is one exchange of elements here.
- Parsing of printf format strings; format_integer is modelled from a parsed conversion, without both the MINUS and ZERO flags.
- Device drivers, interrupt entry, context switch assembly, TLB invalidation, and the dirty and accessed bits that the processor sets.
- pagedir_destroy and pagedir_activate.
- Kernel addresses in pagedir_is_dirty and its siblings: PageTable speaks about user pages.
- Lengths within 511 bytes of the largest int in bytes_to_sectors.
- Directory.Dir.Add: names hold no null character, being C strings.
- FileSystem.FileSys.Create: reads and writes of directory slots have memory for their bounce buffers (Directory.Dir has the case without); calls do not interleave, and the source has no lock around them.
- FileSystem.FileSys.Open: the reads of directory slots have memory, too.
- FileSystem.FileSys.Remove: the reads and the write of directory slots have memory, too.
- KernelRuns.ReadyInOrder: counts calls of schedule, not time; how soon they come depends on the timer.
