# dshowserver in Dafny

dshowserver runs a Windows DirectShow codec in a process of its own. A host hands it compressed frames through shared
memory, and a Wine-style loader underneath supplies the Win32 calls the codec makes. This project models the parts of
that program that keep invariants and proves them, each over every input, every run or every interleaving.

Where the code does not do what its comments or its names promise, the model follows the code, a lemma gives a concrete
input, and another says exactly when the promise holds.

## Components

- `Crc32Table.dfy`, `Crc32.dfy`, `Crc32Bits.dfy`, `Crc32Division.dfy`, `Crc32Theorems.dfy`: the table-driven checksum.
  Its 256 literals are eight division steps of their index; the loop is long division by the polynomial of the
  comment (ITU-T V.42, section 8.1.1.6.2, and RFC 1952, section 8); every burst of 32 bits or less is detected; the
  checksum is affine; the residue identifies the checksum.
- `MachineWords.dfy`: the unsigned integers of the 32-bit build.
- `Semaphore.dfy`, `MutexObject.dfy`: the emulated Win32 semaphore as interleaved thread steps, and the mutex made of it.
- `TrackedHeap.dfy`: the doubly linked list of all live allocations, the second list of synchronisation objects threaded
  through it, and the collector that must empty both.
- `PageArena.dfy`, `PageRuns.dfy`, `MediaSample.dfy`: the allocator of shared pages and the growing sample buffers in it.
- `FrameRing.dfy`, `FrameRuns.dfy`, `FrameFlags.dfy`, `FramePages.dfy`: the ring of decoded frames as a queue of ten, its
  conservation law, the interlace flags of its frames, and the pages its frames keep locked.
- `Handshake.dfy`: host and server around two crossed semaphores and one shared buffer.
- `RegistryFile.dfy`, `Registry.dfy`, `RegistryRuns.dfy`, `RegistryEdit.dfy`: the emulated registry, its file, what a query
  answers after any run of calls, and deletion in place.
- `VirtualRegions.dfy`: VirtualAlloc and VirtualFree over the list of mapped regions.
- `Relocation.dfy`, `RelocationBytes.dfy`, `Exports.dfy`: relocating a PE image in place, what that does to its bytes, and
  finding an exported function.

The code that changes state in place is a class or a method over an array here, proved against a specification function
whose own properties are the lemmas. Semaphore and handshake are state machines, one action per atomic step. Run
theorems quantify over sequences of calls or actions. What the C library, the kernel, the codec or the clock would answer is
a parameter.

## Promises the code does not keep

- `my_garbagecollection` guards against trashed memory by counting failed releases, but `my_release` always answers 0:
  the loop ends exactly when every header is intact, and otherwise stands before the newest broken block for good
  (`TrackedHeap.Heap.CollectFor`).
- `ReleaseMutex` does not check the owner: a release keeps the mutex exclusive exactly when the releasing thread holds it
  (`MutexObject.ReleaseKeepsExclusionIff`), and one stray release in a run is enough for a second holder
  (`MutexObject.ExclusionIff`, `MutexObject.StrayReleaseAdmitsSecondHolder`).
- `memstruct_setlock` has no `break`: it also sets the lock of every later page in use
  (`PageRuns.SetLockHitsLaterPages`, `PageRuns.UnlockingOneUnlocksAnother`). Giving back one frame can so unlock the page
  of another that still waits (`FramePages.PinnedKeptIff`, `FramePages.FreeFrameUnpinsExample`).
- The address test `ptr > end` takes a heap block right behind the arena for a page: FREE does not give it back, REALLOC
  can answer it although it is too small, and with 32 pages the store goes one entry past `used[]`, onto the first four
  locks (`PageRuns.FreeGivesBackIff`, `PageRuns.ReallocTooSmallIff`, `PageRuns.StuckKeptIff`,
  `MediaSample.RoomKeptIff`, with witnesses beside them).
- A sample announces its format only when it changes, but a frame's interlace flags are written only with an
  announcement, into a slot that keeps what it held: an interlaced stream loses its flags with the second frame, and a
  stream without flags can get stale ones (`FrameFlags.FlagsKeptIff`, `FrameFlags.UnchangedLosesFlags`,
  `FrameFlags.OtherFormatGetsStaleFlags`).
- Time-outs of the handshake are harmless except the host's first, which unlinks the semaphore names a late server needs
  (`Handshake.TimeoutsAreHarmless`, `Handshake.FirstTimeoutLosesServer`), and which is not reported as a time-out when the
  server has unlinked them already (`Handshake.TimeoutMisreportedIff`).
- A refused header reload is answered by -1 while the server goes on, and an illegal command is answered by its own
  number while the server leaves (`Handshake.ReplyTellsExitIff`).
- Hierarchical deletion goes by name prefix and takes siblings with it (`RegistryEdit.HierRemoveIsSubtreeIff`).
- The size arithmetic of VirtualAlloc wraps at 32 bits (`VirtualRegions.RoundedCoversIff`, `VirtualRegions.InsideIsRightIff`).
- High-half relocations lose the carry of the low halves (`Relocation.RelocateTwice`, `Relocation.RelocateBack`).
- An ordinal below Base is rejected unless Base is so large that the subtraction wraps into the table
  (`Exports.OrdinalBelowBase`).

## Model

| member | source | states |
|---|---|---|
| Crc32Table.EntryIsEightSteps | dshowserver/crc32.c:4-69 | every one of the 256 table literals is eight bit-steps of its index with the reflected polynomial |
| Crc32.ComputeCrc32 | dshowserver/crc32.c:71-79 | the loop over the table computes the checksum defined by bit-steps, from all ones and complemented at the end |
| Crc32.TableStepIsEightSteps | dshowserver/crc32.c:76-77 | one pass of the loop body is adding the byte and eight bit-steps, for every register and byte |
| Crc32.StepsLinear | dshowserver/crc32.c:76-77 | any number of steps distributes over exclusive or |
| Crc32.StepsBijective | dshowserver/crc32.c:76-77 | any number of steps is a bijection on register states: each value comes from exactly one |
| Crc32Bits.AbsorbIsFeed | dshowserver/crc32.c:71-79 | the bytewise register equals the bit-serial one fed the message's bits, lowest bit of each byte first |
| Crc32Bits.BurstDetected | dshowserver/crc32.c:71-79 | two different messages of equal length whose differences lie in one window of 32 consecutive bits have different checksums, whatever surrounds the window |
| Crc32Division.GeneratorIsPolynomial | dshowserver/crc32.c:1-2 | the constant stepped with is the polynomial whose powers the comment lists |
| Crc32Division.RegisterIsRemainder | dshowserver/crc32.c:71-79 | the register is the remainder of schoolbook long division by that polynomial |
| Crc32Division.CrcIsComplementedRemainder | dshowserver/crc32.c:71-79 | the checksum is the complemented remainder of the message, first 32 bits complemented and 32 zeros appended |
| Crc32Theorems.CrcAffine | dshowserver/crc32.c:71-79 | the checksum of a three-way exclusive or of equal-length messages is the exclusive or of their checksums |
| Crc32Theorems.AbsorbConcat | dshowserver/crc32.c:76-77 | absorbing a concatenation is absorbing its parts one after the other |
| Crc32Theorems.ResidueIffChecksum | dshowserver/crc32.c:71-79 | a message and four more bytes have checksum 0x2144DF1C exactly when those bytes are the message's own checksum, little-endian |
| Semaphore.InvStep | loader/win32.c:878-922 | every step of every thread in a wait or a release keeps the invariant of count, lock and sleepers |
| Semaphore.CountIsConserved | loader/win32.c:878-922 | over all interleavings the count is initial + released - acquired modulo 2^32, and that balance is never negative |
| Semaphore.NoLostWakeup | loader/win32.c:1913-1930 | over all interleavings no thread sleeps on the condition variable while the count is not zero |
| Semaphore.LockIsExclusive | loader/win32.c:849-922 | at most one thread is ever inside the pthread mutex |
| Semaphore.SuccessIffUnitTaken | loader/win32.c:878-922 | every step that ends a wait with WAIT_OBJECT_0 takes one unit, and no other step takes or removes any |
| Semaphore.WaitAnswers | loader/win32.c:878-922 | WAIT_TIMEOUT exactly when the time ran out, WAIT_FAILED exactly for a poll without a unit and for an error, both with count and tally unchanged; success exactly when there is a unit and neither happened; otherwise the thread sleeps |
| Semaphore.AnswerFitsCall | loader/win32.c:878-922 | over all interleavings a thread at its test is told WAIT_TIMEOUT exactly when its own call was a timed one that ran out, WAIT_FAILED exactly for its own poll at count 0 or a failed wait, WAIT_OBJECT_0 exactly when there is a unit and neither failed; else it sleeps on as long as it asked for |
| Semaphore.ReleaseAddsIncrement | loader/win32.c:1913-1930 | over all interleavings a release adds to the balance what its own call asked for |
| Semaphore.CanStepIff | loader/win32.c:876-922 | a thread can go on in every state unless it wants the pthread mutex while another thread is inside |
| MutexObject.AtMostOneHolder | loader/win32.c:1932-1951 | when only holders release, over all interleavings at most one thread has been answered WAIT_OBJECT_0 without having released since, and while one has, no unit is left |
| MutexObject.ReleasedBetweenSuccesses | loader/win32.c:878-951 | over the same interleavings, between any two waits answered WAIT_OBJECT_0 the thread that got the first answer has released |
| MutexObject.UnitsKept | loader/win32.c:1913-1951 | every step of every thread keeps the units in the count, with holders and on their way back, except that a stray release adds one |
| MutexObject.HoldersBounded | loader/win32.c:1932-1951 | over all interleavings there is at most one holder more than there were stray releases |
| MutexObject.EveryUnitCanBeTaken | loader/win32.c:878-922 | from every sound state the threads, disciplined from then on, can bring every unit to a holder |
| MutexObject.ExclusionIff | loader/win32.c:1946-1951 | after any run exclusion can still be relied on exactly when no release so far was stray |
| MutexObject.ReleaseKeepsExclusionIff | loader/win32.c:1946-1951 | after any disciplined run a release keeps exclusion exactly when the releasing thread is a holder |
| MutexObject.StrayReleaseAdmitsSecondHolder | loader/win32.c:1946-1951 | in any held mutex with nobody inside, an idle thread that does not hold it can make itself a second holder |
| TrackedHeap.Heap.MreqPrivate | loader/win32.c:374-406 | an allocation becomes the newest block of the list, zeroed on request; a failed malloc changes nothing; both links and the count stay right |
| TrackedHeap.Heap.MyRelease | loader/win32.c:408-472 | releasing a live block takes exactly that block off the list, and off the event list if it is one, frees it once, and poisons its header; a block whose header was overwritten stays, and nothing changes; the answer is 0 either way |
| TrackedHeap.Heap.ReleaseLive | loader/win32.c:424-471 | the remaining blocks keep their order, next still mirrors prev, and the lock exists while anything is left |
| TrackedHeap.Heap.DestroyEvent | loader/win32.c:681-708 | the event list loses exactly the given object, and is unchanged if it was not on it |
| TrackedHeap.Heap.CreateSync | loader/win32.c:1875-1897 | creating an object allocates mutex, condition and event in this order and hangs the event at the end of the event list |
| TrackedHeap.Heap.LinkEvent | loader/win32.c:743-754 | the new event is the last of a list linked both ways |
| TrackedHeap.Heap.MyRealloc | loader/win32.c:486-500 | a block moves only to grow and keeps its bytes; the old one is released if its header is intact and stays otherwise; a smaller request changes nothing |
| TrackedHeap.Heap.GarbageCollect | loader/win32.c:5738-5759 | with intact headers the collector ends, frees each live block once, newest first, reports their number and total size, and leaves both lists empty |
| TrackedHeap.ChainedRemove | loader/win32.c:446-455 | joining the neighbours of a block leaves a list linked both ways without it |
| TrackedHeap.EventChainedRemove | loader/win32.c:687-694 | the same for the list of synchronisation objects |
| TrackedHeap.Heap.CollectRound | loader/win32.c:5744-5754 | one round frees the newest block, or leaves it if its header is broken, and never moves the failure counter |
| TrackedHeap.Heap.CollectFor | loader/win32.c:5738-5759 | watched for any number of rounds, the collector has come to its end exactly when no header was overwritten and the rounds were enough; otherwise it stands before the newest broken block |
| TrackedHeap.Heap.TrashHeader | loader/win32.c:418-422 | a header can be overwritten and both lists stay as they are |
| PageArena.ScanMeaning | loader/dshow/cmediasample.c:51-53 | for a pointer in a page, the scan over end addresses stops at the first page in use from the pointer's own on |
| PageArena.ScanFindsOwnPage | loader/dshow/cmediasample.c:81-83 | it stops at the pointer's own page exactly when that page is in use |
| PageArena.LockMeaning | loader/dshow/cmediasample.c:113-115 | the unbroken lock loop sets every page in use from the pointer's own on and nothing else |
| PageArena.PagenumByScan | loader/dshow/cmediasample.c:44-56 | what the scan returns is the page number in terms of pages and their use |
| PageArena.Arena.SetMemstruct | loader/dshow/cmediasample.c:32-42 | base, end, count and size as given; every page is free and unlocked and the C heap keeps its blocks |
| PageArena.Arena.GetPagenum | loader/dshow/cmediasample.c:44-56 | -1 off the arena, otherwise the first page in use from the pointer's own on, or the page count |
| PageArena.Arena.Malloc | loader/dshow/cmediasample.c:57-73 | the lowest free unlocked page if one exists and the size fits; otherwise exactly what the C library answered, with pages untouched and the block, unless NULL, in the heap |
| PageArena.Arena.Realloc | loader/dshow/cmediasample.c:74-90 | a page that is large enough is kept; one that is not is freed in favour of the heap; a heap block goes to the C library unless it starts where the arena ends |
| PageArena.Arena.Free | loader/dshow/cmediasample.c:91-105 | exactly the block's own page, or its heap block, is given back; one that starts where the arena ends only costs the entry behind the last page |
| PageArena.Arena.StoreNull | loader/dshow/cmediasample.c:103 | clearing entry i of used[], where entry 32 is the first four locks |
| PageArena.ScanFindsBlock | loader/dshow/cmediasample.c:94-103 | the scan of FREE and REALLOC ends at a page block's own page, and at the page count for a heap block right behind the arena |
| PageArena.Arena.SetLock | loader/dshow/cmediasample.c:106-117 | every page in use from the pointer's own on gets the lock value |
| PageRuns.ValidKept | loader/dshow/cmediasample.c:32-117 | every call keeps used[i] at NULL or the page's end address, and all heap blocks apart and off the arena |
| PageRuns.LiveBlocksApart | loader/dshow/cmediasample.c:57-105 | live blocks never overlap, and page blocks lie inside the arena |
| PageRuns.LiveBlocksApartAlways | loader/dshow/cmediasample.c:57-105 | the same after any run of calls |
| PageRuns.MallocPicksAvailablePage | loader/dshow/cmediasample.c:62-70 | MALLOC answers with a page exactly when a free unlocked one exists and the size fits; never with a locked one |
| PageRuns.MallocHandsOut | loader/dshow/cmediasample.c:62-72 | for every size and answer: a whole page if one is available and the size fits, else exactly the C library's answer; NULL exactly when there is neither; a new block was not live before, every other block keeps its extent, and no lock changes |
| PageRuns.FreshArena | loader/dshow/cmediasample.c:32-42 | a reset starts with count free, unlocked pages of the given size, one behind the other from the base |
| PageRuns.PagesInTurn | loader/dshow/cmediasample.c:62-70 | from there requests that fit get the pages in order of address |
| PageRuns.SetLockEffect | loader/dshow/cmediasample.c:106-117 | for every pointer the locks set are those of the pages in use whose end lies behind it; nothing else changes, and nothing at all off the arena |
| PageRuns.StuckKeptIff | loader/dshow/cmediasample.c:32-117 | one call makes a page that was freed while locked available again exactly when it resets the arena or runs over the first four locks |
| PageRuns.LockedPageIsNotReissued | loader/dshow/cmediasample.c:62-64 | a page freed while locked is not handed out by any run of calls without those two |
| PageRuns.FreeingLockedPageSticks | loader/dshow/cmediasample.c:99-103 | freeing a block strands its page exactly when the page is locked |
| PageRuns.SetLockHitsLaterPages | loader/dshow/cmediasample.c:113-115 | setlock changes one page only, exactly when no later page in use has another lock value |
| PageRuns.UnlockingOneUnlocksAnother | loader/dshow/cmediasample.c:113-115 | two locked pages in use: unlocking the first unlocks the second |
| PageRuns.FreeGivesBackIff | loader/dshow/cmediasample.c:91-105 | FREE gives back the block it is given, and changes nothing else, exactly when the block does not start where the arena ends |
| PageRuns.FreeBehindArena | loader/dshow/cmediasample.c:99-103 | such a block stays allocated, and with 32 pages the first four locks are lost |
| PageRuns.ReallocTooSmallIff | loader/dshow/cmediasample.c:77-89 | REALLOC answers a block smaller than the request exactly when the block lies right behind the arena, is too small, and the request fits a page |
| PageRuns.ReallocReplaces | loader/dshow/cmediasample.c:74-90 | any other block stays exactly if it is a page block that fits; otherwise the caller gets exactly the C library's answer, the new block takes the old one's place, and without memory a heap block stays and a page block is gone |
| PageRuns.ReallocBehindArena | loader/dshow/cmediasample.c:77-89 | a block right behind the arena that outgrows a page stays allocated beside the new one |
| PageRuns.FreeNullIsNothing | loader/dshow/cmediasample.c:91-105 | freeing NULL does nothing, with or without an arena |
| PageRuns.BlockBehindArenaExample | loader/dshow/cmediasample.c:77-105 | one page and a block of 10 bytes behind it: freeing keeps it, and growing it to 90 answers it |
| PageRuns.OverrunUnlocksExample | loader/dshow/cmediasample.c:103 | 32 pages and a block behind them: freeing the block takes the lock off page 0 |
| PageRuns.PagenumIsOwnPage | loader/dshow/cmediasample.c:44-56 | a pointer's page number is its own page exactly while that page is in use |
| PageRuns.PagenumsDiffer | loader/dshow/cmediasample.c:44-56 | different page blocks have different page numbers |
| MediaSample.CapacityAlways | loader/dshow/cmediasample.c:437-455 | over any run of length changes, redirections and other owners' calls the data length is at most the size and the sample's own block is live or NULL; with no growth of a small block right behind the arena it has size + 1024 bytes |
| MediaSample.RoomKeptIff | loader/dshow/cmediasample.c:443-452 | one event costs the sample its room exactly when it grows a block right behind the arena to something that fits a page |
| MediaSample.MisplacedExample | loader/dshow/cmediasample.c:443-452 | a block of 1034 bytes is kept for a length of 2000 |
| MediaSample.OthersKeepBlock | loader/dshow/cmediasample.c:57-117 | calls that do not name a block leave it where it is and as big as it is |
| MediaSample.BufferLostOnlyByNull | loader/dshow/cmediasample.c:443-452 | a length change loses the buffer exactly when it outgrows both size and page and the C library has no memory |
| MediaSample.BlocksAfter | loader/dshow/cmediasample.c:437-623 | what each call does to the own block and the block in use: a length that fits moves nothing, a longer one moves the block in use only if it was the own one, and the pointer calls redirect it |
| MediaSample.LengthsAlways | loader/dshow/cmediasample.c:443-454 | over any run the data length is the last one set and the size the largest one |
| MediaSample.CMediaSample.SetActualDataLength | loader/dshow/cmediasample.c:437-455 | the whole new state of sample and allocator; the block in use follows the sample's own block when it moves |
| MediaSample.CMediaSample.SetPointer | loader/dshow/cmediasample.c:616-623 | the block in use is the given pointer, or the sample's own for NULL |
| MediaSample.Create | loader/dshow/cmediasample.c:646-713 | NULL exactly when object, table or buffer was not to be had, with a buffer got in vain going through FREE; else a sample with the size and its reserve |
| FrameRing.CopyIsArrival | loader/dshow/DS_Filter.c:107-142 | an arriving sample is appended to the queue, and with all ten slots taken it replaces the newest frame |
| FrameRing.FailedCopyAddsNothing | loader/dshow/DS_Filter.c:125-133 | a sample without a pointer leaves the queue as it is up to an interlace flag |
| FrameRing.ArrivalSparesSentFrame | loader/dshow/DS_Filter.c:112-121 | an arrival never touches the frame the host has, even with the ring full |
| FrameRing.DeliverMarksHead | loader/dshow/DS_VideoDecoder.c:478-497 | a delivering decode marks the head of the queue and nothing else |
| FrameRing.FreeFrameDropsSentHead | loader/dshow/DS_VideoDecoder.c:419-426 | FreeFrame takes the head off the queue exactly when the host has it |
| FrameRing.StatusBits | loader/dshow/DS_VideoDecoder.c:480-496 | frame, shared-page and interlace bits and the page number can all be read back from the status word |
| FrameRing.FrameBuffer.CopySample | loader/dshow/DS_Filter.c:100-153 | the newest frame of the queue has the sample's address and time, and its actual length or, for length 0, its buffer's size; the page is locked; a failing sample adds no frame |
| FrameRing.FrameBuffer.FindSlot | loader/dshow/DS_Filter.c:112-121 | the cyclic scan ends at the first free slot behind the run, or at the newest frame |
| FrameRing.FrameBuffer.Deliver | loader/dshow/DS_VideoDecoder.c:478-497 | status and picture come from the head frame, which becomes the host's; nothing happens without a filled head |
| FrameRing.FrameBuffer.FreeFrame | loader/dshow/DS_VideoDecoder.c:419-426 | the host's frame is freed, its page unlocked, and the head moves on |
| FrameRing.FrameBuffer.GetPTS | loader/dshow/DS_VideoDecoder.c:414-417 | the time of the head slot |
| FrameRing.FrameBuffer.Seek | loader/dshow/DS_VideoDecoder.c:399 | the ring is cleared; page locks stay |
| FrameRuns.InvKept | loader/dshow/DS_Filter.c:107-142 | every event keeps the slots, the arrivals and the accounts of them in step |
| FrameRuns.DeliveredOnceInOrder | loader/dshow/DS_VideoDecoder.c:478-497 | over any run frames are delivered in order of arrival, and every arrival since the last seek is exactly one of delivered, waiting or overwritten |
| FrameRuns.DecodeDeliversOldest | loader/dshow/DS_VideoDecoder.c:478-497 | a decode hands over the oldest undelivered arrival with its own address and time, and its actual length or, for length 0, its buffer's size |
| FrameRuns.DeliveredSize | loader/dshow/DS_Filter.c:134-136 | over any run a frame handed to the host is as long as its sample's data, and as its buffer exactly when that length was 0 |
| FrameRuns.DecodeCommand | dshowserver/server.c:321-331 | after freeing, any arrivals and a decode, the host gets the oldest undelivered arrival with its own address and length, and the time the server reports is that arrival's |
| FrameRuns.SentFrameStays | loader/dshow/DS_VideoDecoder.c:414-426 | until FreeFrame or a seek, no run of arrivals and decodes changes the frame the host has or what GetPTS reports |
| FrameFlags.NewFrameFlagsIff | loader/dshow/DS_Filter.c:125-130 | in every reachable state a new frame has the flags in force exactly when its sample announces VideoInfo2 or the slot holds them already |
| FrameFlags.FlagsKeptIff | loader/dshow/DS_Filter.c:124-142 | one event spoils the flags of the queue exactly when it is a frame without an announcement into a slot with other flags, or a failing sample with one into a full ring |
| FrameFlags.FlagsRightAlways | loader/dshow/DS_Filter.c:124-142 | over any run without such an event every queued frame has the flags in force when it came |
| FrameFlags.AlwaysAnnouncedIsRight | loader/dshow/DS_Filter.c:125-130 | a filter that announces its format with every sample is always marked right |
| FrameFlags.UnchangedLosesFlags | loader/dshow/DS_Filter.c:125-130 | an interlaced format announced once: the second frame is marked progressive |
| FrameFlags.OtherFormatGetsStaleFlags | loader/dshow/DS_Filter.c:125-133 | a frame of a format without flags gets those of a sample that never became a frame |
| FramePages.PinnedKeptIff | loader/dshow/DS_VideoDecoder.c:419-426 | one event takes the lock off a queued frame's page exactly when it frees a frame in or before that page while it is in use, queues a frame whose page is not in use, or runs over the first four locks |
| FramePages.QueuedPagesAreNotReissued | loader/dshow/DS_Filter.c:138-142 | over any run without such an event MALLOC never hands out the page of a queued frame |
| FramePages.FreeFramePins | loader/dshow/DS_VideoDecoder.c:419-426 | FreeFrame keeps the other queued frames' pages locked exactly when none of them lies, in use, in the freed frame's page or behind it |
| FramePages.FreeFrameUnpinsExample | loader/dshow/DS_VideoDecoder.c:419-426 | two frames in two pages: giving back the first unlocks the page of the second |
| Handshake.InvStep | dshowserver/timeout_sem.c:272-313 | every step of host and server keeps the one token and the match of commands and replies |
| Handshake.Sem.TimedSemwait | dshowserver/timeout_sem.c:272-301 | 1 exactly when the semaphore read is not at zero; else the time-out code, or 0 when the names could not be removed; on either side it is that side's step of the protocol |
| Handshake.Sem.TimedSempost | dshowserver/timeout_sem.c:303-313 | one more unit in the semaphore written; on either side it is that side's step |
| Handshake.TimedSeminit | dshowserver/timeout_sem.c:328-379 | the host always gets its semaphores; the server exactly while the names are linked, and then it posts |
| Handshake.ServeCommand | dshowserver/server.c:316-355 | VD_END ends the server without touching the shared memory; a decode leaves the codec's return code, time and picture, a seek 0, a reload 0 or -1 by its size, and nothing else changes |
| Handshake.OneOwner | dshowserver/timeout_sem.c:344-372 | in every reachable state the buffer has at most one owner, and once connected the token is in exactly one place |
| Handshake.OnlyOwnerWrites | dshowserver/server.c:316-356 | only the owner's steps change the buffer |
| Handshake.OneReplyPerCommand | dshowserver/server.c:296-360 | in every reachable state reply k answers command k with what the codec answered to it, every command but the outstanding one has exactly one reply, and VD_END gets none |
| Handshake.BufferArrivesIntact | dshowserver/timeout_sem.c:272-313 | the server serves what the host last posted, the host finds what the server last posted, and each step adds to the records exactly what it posted, found or was answered |
| Handshake.SomeoneCanMove | dshowserver/server.c:296-360 | while the server is connected and running, host or server can take a step |
| Handshake.TimeoutsAreHarmless | dshowserver/timeout_sem.c:289-299 | a time-out changes nothing, except that the host's first wait removes the names |
| Handshake.TimeoutMisreportedIff | dshowserver/timeout_sem.c:290-299 | a time-out of the host is not reported as one exactly when it is the first and the server has opened in the meantime |
| Handshake.TimeoutMisreportedExample | dshowserver/timeout_sem.c:290-299 | a run in which that happens |
| Handshake.ServerConnectsIff | dshowserver/timeout_sem.c:349-371 | a starting server gets its semaphores exactly when the host has opened them and not yet come back from a wait |
| Handshake.FirstTimeoutLosesServer | dshowserver/timeout_sem.c:290-294 | after a timed-out first wait no run ever connects the two |
| Handshake.ServerLeavesIff | dshowserver/server.c:316-359 | the server leaves after a reply exactly when the command was illegal or the decoder returned -1 |
| Handshake.ReplyTellsExitIff | dshowserver/server.c:337-359 | the reply shows whether the server is gone, except for refused reloads and illegal commands |
| RegistryFile.RoundTrip | loader/registry.c:99-124 | a saved registry reads back as the same entries, whatever stale bytes follow |
| RegistryFile.SavedOverReadsBack | loader/registry.c:135-151 | saving over any old file without truncation leaves a file that reads back as what was saved |
| RegistryFile.PrintInjective | loader/registry.c:142-151 | different registries never have the same file |
| RegistryFile.FileLayout | loader/registry.c:142-151 | a saved file byte by byte: the number of entries, then type, name length, name, value length and value of each, numbers lowest byte first, and nothing more |
| RegistryFile.ReadLayout | loader/registry.c:99-124 | whatever can be read as a registry is laid out like that |
| RegistryFile.SaveRegistry | loader/registry.c:142-151 | the writing loop produces the printed form of the array |
| RegistryFile.OpenRegistry | loader/registry.c:99-124 | the reading loop fills the array with the parsed entries |
| Registry.InsertIsUpdate | loader/registry.c:275-297 | an insertion keeps names unique and is one update of the map from path to type and bytes |
| Registry.FindIsLookup | loader/registry.c:199-206 | a linear search is a lookup in that map |
| Registry.KeynameNames | loader/registry.c:248-264 | the full path is the path of the newest handle of that number, a backslash and the name, "<default>" for none; there is none exactly when no open handle has the number |
| Registry.QueryAnswers | loader/registry.c:391-423 | 1 exactly when no open handle has the number, 2 exactly when no entry has the full path, the caller's variables untouched in both; else the entry's type, its true length, the prefix that fits, and 0 or 234 by length |
| Registry.CallRefines | loader/registry.c:339-504 | each call on the array and handle list is the same call on the map |
| Registry.RunRefines | loader/registry.c:339-504 | over every run of calls the array behaves as the map, with unique names |
| Registry.QueryAfterSet | loader/registry.c:491-503 | a query through any handle that denotes the same full path returns the value set; every other path is unaffected |
| Registry.QueryLongAfterSet | loader/registry.c:391-504 | so does a query after any run that sets no value under the path, through any handle that then denotes it |
| Registry.OpenTwiceIsOpenJoined | loader/registry.c:339-368 | opening A and then B below it denotes the same paths as opening A\B |
| Registry.HandlesRepeatIff | loader/registry.c:219-226 | generated handles avoid the predefined keys and repeat exactly every 2^32 - 2 calls |
| Registry.OpenKeepsOthersIff | loader/registry.c:228-247 | an open handle keeps its meaning over another open, unless the new one takes its number for another path |
| RegistryRuns.EntryIff | loader/registry.c:265-504 | after any run the paths with an entry are those that had one and those a call of the run wrote |
| RegistryRuns.QueryMeaning | loader/registry.c:391-423 | over every run a query means what is said of its answer, on the entries and handles then there |
| RegistryRuns.MissingIff | loader/registry.c:399-405 | over every run the answer is 1 exactly without an open handle, and 2 exactly when the handle is open and the path had no entry at the start and none was written |
| RegistryRuns.CreateMakesKey | loader/registry.c:424-452 | a new key gets an entry of type -25 with the bytes of 45708, an old one keeps its entry, and a closed handle changes nothing |
| RegistryRuns.CloseUndoesOpen | loader/registry.c:339-389 | closing the handle an open has given restores the handles |
| RegistryRuns.RootsAlways | loader/registry.c:369-376 | over every run the predefined keys stand for HKLM and HKCU |
| Registry.WindowsRegistry.constructor | loader/registry.c:303-315 | the registry starts from the file, or with the two roots when there is none, and file and memory agree |
| Registry.WindowsRegistry.InsertRegValue | loader/registry.c:265-301 | the entry is replaced in place or appended, and the file reads back as the new array |
| Registry.WindowsRegistry.NewHandle | loader/registry.c:219-247 | the new handle is the newest, with the next number that is not a predefined key |
| Registry.WindowsRegistry.RegOpenKeyExA | loader/registry.c:339-368 | -1 for a closed handle, else a new handle for the joined path, whether or not a value has it |
| Registry.WindowsRegistry.RegCloseKey | loader/registry.c:369-389 | exactly the newest handle of that number goes; predefined and unknown ones change nothing |
| Registry.WindowsRegistry.RegQueryValueExA | loader/registry.c:391-423 | on array and handle list: 1 exactly for a closed handle, 2 exactly for a path without an entry, with nothing written; else type, the prefix that fits, the true length, and 0 or 234 |
| Registry.WindowsRegistry.RegCreateKeyExA | loader/registry.c:424-452 | a new path gets the directory entry, an old one keeps its value, and both get a handle |
| Registry.WindowsRegistry.RegSetValueExA | loader/registry.c:491-504 | one update of the map, saved |
| RegistryEdit.SurvivorsInPlace | loader/modify_reg.c:32-51 | the survivors are exactly the entries whose name does not start with the given one, each at the place its order gives it |
| RegistryEdit.HierRemoveOnStore | loader/modify_reg.c:32-51 | on the map, exactly the paths with that prefix are removed |
| RegistryEdit.HierRemoveIsSubtreeIff | loader/modify_reg.c:37-39 | only the key and what is below it goes exactly when no other entry's name begins with the key's |
| RegistryEdit.HierRemoveTakesSiblings | loader/modify_reg.c:39 | deleting the key A takes the key AB with it |
| RegistryEdit.HierRemoveKey | loader/modify_reg.c:32-51 | the nested loops leave exactly the survivors in the array, names unique and the file in step |
| RegistryEdit.CloseGap | loader/modify_reg.c:42-43 | the shifting loop removes one entry and keeps the order of the rest |
| RegistryEdit.RemoveKey | loader/modify_reg.c:8-30 | exactly the named path is removed from the map; nothing happens if it is not there |
| VirtualRegions.RoundedCoversIff | loader/ext.c:450-461 | the rounded range covers the requested one exactly when the rounded size fits in 32 bits |
| VirtualRegions.RoundingWrapExample | loader/ext.c:450-461 | a reservation of almost 4 GB comes out as 64 KB |
| VirtualRegions.ScanMeaning | loader/ext.c:463-494 | the verdict of the scan depends on the set of regions only: free, inside a reservation, or blocked |
| VirtualRegions.OnlyOneMet | loader/ext.c:479-487 | a range inside one region meets no other, so stopping there is right |
| VirtualRegions.InsideIsRightIff | loader/ext.c:482-486 | a commit is granted rightly exactly when its range does not wrap around |
| VirtualRegions.InsideWrapExample | loader/ext.c:482-486 | committing almost 4 GB from the middle of a 128 KB reservation is granted |
| VirtualRegions.AllocSucceedsIff | loader/ext.c:463-535 | when a request at an address of its own succeeds, with which answer, and when a region is added |
| VirtualRegions.AllocTracksAnswer | loader/ext.c:448-535 | any request tracks nothing or exactly the answer, of the rounded size, as reserved exactly when MEM_RESERVE was all it asked for; one that rounds to NULL gets what the kernel grants |
| VirtualRegions.AllocKeeps | loader/ext.c:441-535 | an allocation keeps regions disjoint, trusting the kernel only for addresses it picks itself |
| VirtualRegions.RegionsApartAlways | loader/ext.c:441-559 | over every run of allocations and releases the regions are pairwise disjoint |
| VirtualRegions.FreeMembers | loader/ext.c:543-557 | a release drops exactly the region that starts at the address |
| VirtualRegions.FreeUndoesAlloc | loader/ext.c:537-559 | releasing what was just mapped restores the list |
| VirtualRegions.VirtualMemory.VirtualAlloc | loader/ext.c:441-535 | rounding, scan and tracking step by step give the specified list and answer |
| VirtualRegions.VirtualMemory.VirtualFree | loader/ext.c:537-559 | 0 and the region gone if one starts there, -1 and no change otherwise |
| Relocation.PatchAllValue | loader/pe_image.c:387-415 | with disjoint sites each site gets its amount added modulo its width |
| Relocation.RelocatedSite | loader/pe_image.c:387-415 | with disjoint sites delta, its high or its low half is added at every listed site, modulo the site's width |
| Relocation.RelocatedElsewhere | loader/pe_image.c:370-418 | no byte outside the listed sites changes |
| RelocationBytes.ListedIsFixup | loader/pe_image.c:379-390 | every entry read from the bytes of the stream, type in the high four bits and offset in the low twelve, is among the relocations |
| RelocationBytes.FixupIsListed | loader/pe_image.c:379-390 | and every relocation is such an entry |
| RelocationBytes.EntryMoved | loader/pe_image.c:370-418 | when no byte is written by two entries, every type-3 entry adds delta to its little-endian word, every type-1 entry delta / 65536 and every type-2 entry delta % 65536 to its half, with wrap-around |
| RelocationBytes.OtherBytesKept | loader/pe_image.c:370-418 | a byte that no entry writes keeps its value |
| Relocation.RelocateTwice | loader/pe_image.c:370-418 | relocating by d1 and d2 is relocating by their sum exactly when the low halves do not carry or no high-half site is listed |
| Relocation.RelocateBack | loader/pe_image.c:370-418 | relocating there and back is the identity exactly for multiples of 64K or without high-half sites |
| Relocation.RelocatedIsRelocatable | loader/pe_image.c:379-417 | relocation leaves the stream, which lies in the image, readable and unchanged |
| Relocation.PatchSite | loader/pe_image.c:392-414 | type 3 adds delta to four bytes, types 1 and 2 its high and low half to two, little-endian with wrap-around; no other byte changes |
| Relocation.PatchBlock | loader/pe_image.c:381-415 | the inner loop applies the entries of one block |
| Relocation.DoRelocations | loader/pe_image.c:370-418 | the nested loops end and leave the relocated image; a zero distance leaves it untouched |
| Exports.Bisect | loader/pe_image.c:164-176 | a hit is a hit in any table; in a sorted table the bisection hits exactly the names that occur |
| Exports.CompareIsDictionary | loader/pe_image.c:169-175 | the comparison searched with is dictionary order |
| Exports.SlotStandsFor | loader/pe_image.c:204-242 | the table entry and the image's text decide what a slot stands for, also inside the export section |
| Exports.FindName | loader/pe_image.c:161-189 | found exactly when the name occurs, sorted or not; a sorted table never needs the walk; a strictly sorted one gives the unique index |
| Exports.SplitForward | loader/pe_image.c:226-234 | module and function joined by a dot give back the forwarder, which is refused exactly without a dot or with a module of 256 or more |
| Exports.SplitInverse | loader/pe_image.c:226-234 | every module name that fits survives the round trip |
| Exports.FindExportedFunction | loader/pe_image.c:124-242 | not found for a missing name, else what the slot of an index that carries the name stands for: nothing, an address, or a forwarder split at its first dot; a number gives its own slot |
| Exports.OrdinalFromBase | loader/pe_image.c:192-209 | a number from Base on selects its slot, and past the table it is rejected |
| Exports.OrdinalBelowBase | loader/pe_image.c:192-209 | a number below Base is rejected exactly when the table is too short for the subtraction to wrap into |
| Exports.OrdinalBelowBaseExample | loader/pe_image.c:192-209 | a Base near 2^32 for which ordinal 0 finds a function |

## Left out

- MemAllocator with more than one buffer: its list never relinks the old tail, and the clients here ask for one buffer.
- Emulated events, named-object reuse in CreateEventA and CreateSemaphoreA, and critical sections: they depart from Win32 on purpose.
- Concurrent calls of DS_Filter_CopySample: the slot is chosen under a mutex and filled after it; one streaming thread is modelled.
- Handshake.InvStep: covers the semaphore mode; the socket mode of timeout_sem.c is I/O. Semaphore names are taken as fresh when the host opens them.
- Handshake.ServerLeavesIff: the codec's answers are a parameter; saving frames, checksums and printing around it are not modelled.
- Semaphore.CountIsConserved: increments are positive, as ReleaseSemaphore requires; the emulation ignores the maximum count and so does the model. The previous count that ReleaseSemaphore can report is not modelled.
- TrackedHeap.Heap.CreateSync: malloc succeeds, since the code uses its answers unchecked; initialisation of the pthread objects has no model state.
- TrackedHeap.Heap.MyRealloc: growing needs malloc to succeed, since the code copies to its answer unchecked.
- TrackedHeap.Heap.GarbageCollect: threads do not interleave here. A broken header is an overwritten guard word; overwritten links are not modelled.
- PageArena.Arena.Realloc: contents of blocks are not modelled; the code does not copy them from a page to the heap.
- PageArena.Arena.StoreNull: the layout of the structure is that of the 32-bit build, with locked[] behind used[].
- PageArena.Arena.SetMemstruct: needs at most 32 pages, the length of used[], which the server does not check; addresses do not wrap.
- FrameRing.FrameBuffer.Deliver: what the codec does between buffer and delivery is any run of CopySample.
- Registry.WindowsRegistry.RegCloseKey: the handle list is a sequence, not linked nodes. RegEnumValueA and RegEnumKeyExA are left out.
- Registry.WindowsRegistry.constructor: needs a file that is a whole registry with unique names; reads that run over the end of a shorter file leave variables unset in the code.
- Registry.WindowsRegistry.Save: opening and writing the file succeed.
- RegistryFile.OpenRegistry: allocation of each name and value succeeds.
- VirtualRegions.VirtualMemory.VirtualAlloc: the page size is 4096, and the list is a sequence; contents and protection of the mappings have no model state.
- Relocation.DoRelocations: a stream whose sites lie in the stream is not covered; HIGHADJ and unknown types are reported and skipped by the code.
- RelocationBytes.EntryMoved: needs entries that do not overlap; overlapping ones are applied in order, as Relocation.DoRelocations says.
- Exports.FindExportedFunction: the lookup of a forwarder in the other module, and the name found for snooping on an ordinal, which affects messages only.
- Command-line parsing, sockets, mmap, loading of sections and imports, the Win32 stubs and the COM tables hold no invariants.
