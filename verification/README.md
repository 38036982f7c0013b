# Verified models of the disaggregated-memory and CheriOS user-space code

This project models the parts of the repository that carry the most state and the most arithmetic, and proves what
holds of them on every input, every run or every reachable state.

- **Page protocol.** `Wire`, `PageServer`, `Session`, `PageHistory`, `PageIO`, `NetmemClient`, `Connections`: the
  byte-level request/reply protocol between `netmem_page.c` and `memsrv_page.c`. The server is a byte machine
  (`FeedAll`); the classes `Stream`, `MemServer` and `Netmem` are the loops of the C code, proved against it. `Session`
  runs client and server against each other under every interleaving and fragmentation; `Connections` has the server
  take one connection after the other, each cut off anywhere.
- **Pager and benchmark.** `PagerModel`, `PagerProgram`, `Bench`: the SIGSEGV pager compared with flat memory, and the
  three benchmark modes, which must leave the same bytes. `RemoteRegion` is the region they work on: the client library
  at one end of a connection and the server's byte machine at the other.
- **Mutex.** `Mutex`, `MutexCalls`, `MutexRace`: `pthread_mutex.c` as a transition system with one shared access per
  step, any number of threads, and every schedule. `MutexCalls` says what whole calls do, alone and under interference.
- **Compaction.** `Compact`, `CompactExact`: the in-place sliding compaction of `dedup.c` with relocation fix-up, and
  exactly which lists of entries it keeps intact.
- **Snake.** `Snake`, `SnakeProgram`: many disjoint linked lists threaded through one board array.
- **File sockets.** `Ring`: block copy into the write ring against character stores. `FileRing`: one file pointer
  emulated by two server-side cursors, with queued writes that point into the ring, for every order in which the server
  takes the two request queues; it refines `FilePtr`, where queued writes carry their bytes. `FileRingRuns`: concrete
  runs that go wrong. `FileSocket`: the calls as they update the socket's fields. `Closing`, `CloseProgram`: resumable
  closing, the parked list filtered in place, and the handle table.
- **ELF image.** `ElfImage`: the bytes hashed by `generate_found_id.py` against the image built by the secure loader.
- **Allocating and formatting.** `Asprintf`: the doubling buffers of `vasprintf`. `Rounding`, `SizeClass`, `Bits`:
  capability rounding, reservation carving and size classes. `SegMap`: sort and lookup of the segment map.
  `ForEachPhy`: splitting a range into physically contiguous runs. `Basics` holds what several modules share.

A state that the C code updates in place is a class whose methods are proved equal to a pure step function; the
theorems over runs are about that function. What depends on the environment is a parameter: the fate of a network
write, whether a read is answered, which wait would block, the clock, which request the server takes next, the results of a callback.

## Where the code differs from what it is meant to do

Each of these is modelled as the code does it, with the exact condition under which the intended property holds.

- A page is marked dirty only on its first write fault, and a flush leaves it writable, so a store after a flush is
  never written back (`PagerModel.FlushSyncsIff`, `PagerModel.FlushedPageIsFrozen`, `PagerModel.LateStoreIsLost`). A
  run without such stores is written back exactly, however often it flushes (`PagerModel.WatchedRunSyncs`).
- The fault handler copies the fetched page in after making it read-only (`mprotect` with `PROT_READ`,
  `disagg_pager.c:66-67`), and its signal is not blocked meanwhile (`SA_NODEFER`, `disagg_pager.c:134`). A copy that
  is checked against the protection therefore faults again, and the handler never returns
  (`PagerModel.HandlerReturnsIff`). `checked` is what `PROT_READ` makes of an ordinary store, so with the code as it
  stands the first access to a page does not complete. All other pager theorems are about a handler whose own copy
  goes through.
- A self-removal from the mutex queue that races with a pop can strand a sleeping waiter
  (`MutexRace.RaceStrandsWaiter`); without such a race no waiter is lost (`Mutex.WaitersAccounted`).
- The relocation comparison subtracts truncated 32-bit values (`Compact.CmpIsOrderIff`), and the write cursor, rounded
  up for a word copy, can pass an object whose offset is not a whole number of words (`Compact.TargetBelowIff`); the
  object then overwrites itself (`Compact.PassedCopyCorrupts`). Every object survives, whatever the bytes are, exactly
  on the lists on which no copy writes over an object still to come, every copy stays in the segment, and the cursor
  passes single words at most (`CompactExact.IntactIff`). The method is followed on the lists on which it passes
  nothing, which are among those (`Compact.CompactCode`, `CompactExact.ClearIsSafe`, `Compact.WholeWordsClear`).
- A connection that closes inside the payload of a write leaves the part that arrived in the page, unacknowledged, and
  later connections read the mixture (`Connections.CutWriteShows`).
- The space test of the block copy into the ring adds the bytes in use where it should subtract them, so for a filling
  and a block no larger than the ring it is right exactly when there is room (`Ring.SpaceTestRightIff`), and a block
  it lets through without room overwrites bytes not yet taken (`Ring.KeptIffRoom`, `Ring.AcceptedBlockOverwrites`).
  Files agree with a one-cursor file on every run in which each accepted buffered send had room
  (`FileRing.ReadsAreFlat`); a run in which one had not returns a wrong byte (`FileRingRuns.OverrunCorrupts`).
- A block copy of zero bytes into the ring takes the wrap-around branch (`Ring.FirstPartFitsIff`) and is stopped by the
  bounds of the block's capability.
- Opening a file clears `read_behind` twice and `write_behind` never (`FileRingRuns.OpenAgreesIff`).
- Characters put by `fputc` are not counted in `read_behind`: a read then returns what stands behind the pointer by the
  characters put since the last absolute seek (`FileRing.ReadsLag`, `FileRingRuns.PutIsReadBack`). They do not set the
  flag that makes a read wait either, so a read can miss them even after such a seek (`FileRingRuns.PutIsMissed`).
- Hash and loader disagree when the image does not fit in 64 bits (`ElfImage.HashedIsLoadedIff`,
  `ElfImage.WrapDisagrees`).
- Region ids are 32 bits wide and are reused after wrap-around: a page written is read back exactly as long as fewer
  than 2^32 regions were allocated since its own, or it was zero (`PageHistory.WriteLastsIff`,
  `PageHistory.WrapLosesWrite`).
- `round_cheri_length` overflows for lengths close to 2^64 (`Rounding.RoundedIsLeast`), and a carve-out whose length is
  not a multiple of the metadata size keeps the tail (`Rounding.PrecisionAlign`).
- `size_to_scale` is right exactly within the reach of its logarithm stages (`SizeClass.SmallestClassIff`).

## Model

| member | source | states |
|---|---|---|
| `Wire.WordRoundTrip` | ECS251_Disaggregated_Memory/disaggregatedMemory/memsrv_page.c:104-119 | decoding the network-order bytes of a 32-bit word gives the word back |
| `Wire.HdrRoundTrip` | ECS251_Disaggregated_Memory/disaggregatedMemory/memsrv_page.c:26-31 | decoding an encoded 16-byte header gives the header back |
| `Wire.NetworkOrder` | ECS251_Disaggregated_Memory/disaggregatedMemory/memsrv_page.c:104-119 | every word of the header is laid out with its most significant byte first, in the order of the struct |
| `PageServer.FindRegion` | ECS251_Disaggregated_Memory/disaggregatedMemory/memsrv_page.c:79-84 | the first list node with the id, or the length when there is none |
| `PageServer.FindPage` | ECS251_Disaggregated_Memory/disaggregatedMemory/memsrv_page.c:86-91 | the first list node with the page index, or the length when there is none |
| `PageServer.NumPages` | ECS251_Disaggregated_Memory/disaggregatedMemory/memsrv_page.c:130 | the least number of pages that hold the bytes |
| `PageServer.RepliesName` | ECS251_Disaggregated_Memory/disaggregatedMemory/memsrv_page.c:109-205 | every reply names the operation; a request not carried out gets zeros and changes nothing, one carried out gets its region and page, with the bytes after a read only |
| `PageServer.PutAt` | ECS251_Disaggregated_Memory/disaggregatedMemory/memsrv_page.c:93-102 | a write changes the page it names and no other page, region or counter |
| `PageServer.PutTwice` | ECS251_Disaggregated_Memory/disaggregatedMemory/memsrv_page.c:93-102 | a second write to a page replaces the first without growing the list |
| `PageServer.FeedConcat` | ECS251_Disaggregated_Memory/disaggregatedMemory/memsrv_page.c:33-46 | how the input is cut into pieces does not matter to the server |
| `PageServer.ServeFrame` | ECS251_Disaggregated_Memory/disaggregatedMemory/memsrv_page.c:109-205 | from a header boundary exactly one request frame is consumed, one reply frame sent, and a header boundary reached, for every request including refused and drained ones |
| `Session.StaysAligned` | ECS251_Disaggregated_Memory/disaggregatedMemory/netmem_page.c:60-118 | under every interleaving and fragmentation each call gets the reply of the calls executed one at a time, no byte is left over between calls, and the settled server has the store of the finished calls |
| `Session.NeverStuck` | ECS251_Disaggregated_Memory/disaggregatedMemory/netmem_page.c:60-118 | until the last call has its reply some send, receive or call can be made |
| `Session.RunInStep` | ECS251_Disaggregated_Memory/disaggregatedMemory/memsrv_page.c:109-205 | the invariant relating what is in flight to the calls holds after every run |
| `PageHistory.StoreIsHistory` | ECS251_Disaggregated_Memory/disaggregatedMemory/memsrv_page.c:76-102 | after any calls, however many allocations, the region and page lists hold what the history of calls says |
| `PageHistory.ReadReturnsLastWrite` | ECS251_Disaggregated_Memory/disaggregatedMemory/memsrv_page.c:170-200 | a read is refused exactly when no region has the id or the page is beyond the latest one that has it, and otherwise returns the last write accepted since that region was allocated, or zeros |
| `PageHistory.AllocKeepsIff` | ECS251_Disaggregated_Memory/disaggregatedMemory/memsrv_page.c:121-137 | an allocation leaves a page as it was exactly when it does not reuse the page's region id or the page was zero |
| `PageHistory.AllocRoom` | ECS251_Disaggregated_Memory/disaggregatedMemory/memsrv_page.c:121-137 | a new region has exactly the pages that begin within the bytes asked for, one page when none were |
| `PageHistory.SameIdIff` | ECS251_Disaggregated_Memory/disaggregatedMemory/memsrv_page.c:121-137 | the next allocation given the same id comes exactly 2^32 allocations later |
| `PageHistory.WriteLastsIff` | ECS251_Disaggregated_Memory/disaggregatedMemory/memsrv_page.c:121-200 | with no later write accepted, a page is read back exactly as long as fewer than 2^32 regions were allocated since its own, or it was zero and the new region has that page too |
| `PageHistory.WrapLosesWrite` | ECS251_Disaggregated_Memory/disaggregatedMemory/memsrv_page.c:121-137 | a run of one write and 2^32 allocations after which the write can no longer be read |
| `PageHistory.SameViewAnswers` | ECS251_Disaggregated_Memory/disaggregatedMemory/memsrv_page.c:109-205 | two servers with the same regions, pages and bytes answer every sequence of calls alike, whatever the order of their lists |
| `Connections.ServedIsHistory` | ECS251_Disaggregated_Memory/disaggregatedMemory/memsrv_page.c:230-235 | whatever bytes come over whatever number of connections, each cut off anywhere, the lists are those of a history of calls, in which a write cut off in its payload counts as a write of the mixed page |
| `Connections.LaterRead` | ECS251_Disaggregated_Memory/disaggregatedMemory/memsrv_page.c:109-205 | a read over a later connection returns the last write of that history |
| `Connections.CutWriteShows` | ECS251_Disaggregated_Memory/disaggregatedMemory/memsrv_page.c:195-198 | after a write cut off in its payload the page has the bytes that arrived in front of the old ones; it is the old page, or the page sent, exactly when the bytes in question agree |
| `Connections.RequestsFed` | ECS251_Disaggregated_Memory/disaggregatedMemory/memsrv_page.c:109-205 | the whole requests among any bytes are served and answered in order, and the server is left with the remainder |
| `Connections.AcceptLoop` | ECS251_Disaggregated_Memory/disaggregatedMemory/memsrv_page.c:230-235 | the loop over connections leaves and sends what the byte machine does |
| `PageIO.Stream.ReadFull` | ECS251_Disaggregated_Memory/disaggregatedMemory/memsrv_page.c:33-46 | for any receive sizes the next n bytes, or everything up to the close |
| `PageIO.Stream.WriteFull` | ECS251_Disaggregated_Memory/disaggregatedMemory/memsrv_page.c:48-60 | for any send sizes all bytes, in order |
| `PageIO.Stream.Drain` | ECS251_Disaggregated_Memory/disaggregatedMemory/memsrv_page.c:144-152 | exactly the announced payload is discarded, in chunks |
| `PageIO.MemServer.GetOrCreatePage` | ECS251_Disaggregated_Memory/disaggregatedMemory/memsrv_page.c:93-102 | the node found or a zeroed node put in front |
| `PageIO.MemServer.HandleClient` | ECS251_Disaggregated_Memory/disaggregatedMemory/memsrv_page.c:109-205 | on any input until the peer closes, lists and output are those of the byte machine |
| `NetmemClient.Netmem.AllocRegion` | ECS251_Disaggregated_Memory/disaggregatedMemory/netmem_page.c:60-80 | one call is made unless the size needs more than 32 bits, and the fields are set exactly when a region id comes back |
| `NetmemClient.Netmem.ReadPage` | ECS251_Disaggregated_Memory/disaggregatedMemory/netmem_page.c:82-100 | one request frame; success exactly on a matching header followed by a page, which is returned |
| `NetmemClient.Netmem.WritePage` | ECS251_Disaggregated_Memory/disaggregatedMemory/netmem_page.c:102-118 | one request frame with its page; success exactly on a header naming the page |
| `NetmemClient.AcceptedIffServed` | ECS251_Disaggregated_Memory/disaggregatedMemory/netmem_page.c:92-116 | the client accepts a reply exactly when the server did what was asked |
| `RemoteRegion.OpenRegion` | ECS251_Disaggregated_Memory/disaggregatedMemory/netmem_page.c:60-80 | opening a region fails exactly when its size needs more than 32 bits or the counter is at zero, and otherwise gives a region of zero pages and nothing else |
| `RemoteRegion.Remote.ReadPage` | ECS251_Disaggregated_Memory/disaggregatedMemory/netmem_page.c:82-100 | succeeds exactly when the library's request is answered, by the byte machine; what is read is what the server holds |
| `RemoteRegion.Remote.WritePage` | ECS251_Disaggregated_Memory/disaggregatedMemory/netmem_page.c:102-118 | acknowledged exactly when the exchange completes; cut off after any number of bytes it leaves the part that arrived, and no other page of any region changes |
| `RemoteRegion.CutRequestFed` | ECS251_Disaggregated_Memory/disaggregatedMemory/memsrv_page.c:195-198 | the server's lists after any prefix of a write request |
| `PagerModel.ViewIsFlat` | ECS251_Disaggregated_Memory/disaggregatedMemory/disagg_pager.c:42-80 | on every run of loads, stores and flushes, failed ones included, a load returns what flat memory initialised from the region would hold |
| `PagerModel.FlushSyncsIff` | ECS251_Disaggregated_Memory/disaggregatedMemory/disagg_pager.c:150-162 | after a successful flush the remote region equals flat memory if and only if every page flushed earlier still has the contents it had then |
| `PagerModel.FlushedPageIsFrozen` | ECS251_Disaggregated_Memory/disaggregatedMemory/disagg_pager.c:74-80 | a page once flushed is never written back again |
| `PagerModel.LateStoreIsLost` | ECS251_Disaggregated_Memory/disaggregatedMemory/disagg_pager.c:74-80 | after a flush a stored byte is seen by the program and never reaches the server |
| `PagerModel.FlushStamps` | ECS251_Disaggregated_Memory/disaggregatedMemory/disagg_pager.c:150-162 | pages in that state are reached by one store and one successful flush |
| `PagerModel.OneFlushSyncs` | ECS251_Disaggregated_Memory/disaggregatedMemory/disagg_pager.c:150-162 | one flush at the end of any run without flushes makes the remote region equal flat memory |
| `PagerModel.FlushIs` | ECS251_Disaggregated_Memory/disaggregatedMemory/disagg_pager.c:150-162 | page by page: dirty pages are sent in order up to the first that is not acknowledged; those acknowledged are at the server and clean, the failed one is there as far as it arrived and stays dirty, nothing else changes |
| `PagerModel.FlushSucceedsIff` | ECS251_Disaggregated_Memory/disaggregatedMemory/disagg_pager.c:150-162 | a flush succeeds exactly when every dirty page is acknowledged |
| `PagerModel.TouchedIff` | ECS251_Disaggregated_Memory/disaggregatedMemory/disagg_pager.c:42-162 | on every run a page is resident exactly when it was accessed and writable exactly when it was stored to, and a page never stored to stays at the server as it was |
| `PagerModel.WatchedRunSyncs` | ECS251_Disaggregated_Memory/disaggregatedMemory/disagg_pager.c:74-162 | on every run, earlier flushes included, in which no store goes to a resident, writable, clean page, a successful flush leaves the remote region equal to what the stores made of it |
| `PagerModel.HandlerReturnsIff` | ECS251_Disaggregated_Memory/disaggregatedMemory/disagg_pager.c:59-72 | the handler returns exactly when the page is resident or its copy into the read-only page is not checked |
| `PagerModel.NextKeepsInv` | ECS251_Disaggregated_Memory/disaggregatedMemory/disagg_pager.c:42-162 | every operation keeps metadata, protection and contents consistent, resident clean pages equal to the server copy until flushed |
| `PagerProgram.DisaggPager.Handle` | ECS251_Disaggregated_Memory/disaggregatedMemory/disagg_pager.c:42-83 | which faults are handled, which are chained, and the state after each; the program exits exactly when a page not resident is asked for and the request is not answered |
| `PagerProgram.DisaggPager.Load` | ECS251_Disaggregated_Memory/disaggregatedMemory/disagg_pager.c:42-80 | a load succeeds exactly when the page was resident or its request is answered, and returns the byte there |
| `PagerProgram.DisaggPager.Store` | ECS251_Disaggregated_Memory/disaggregatedMemory/disagg_pager.c:42-80 | a store succeeds exactly when the page was resident or its request is answered, and ends after at most two faults with the byte in place |
| `PagerProgram.DisaggPager.Flush` | ECS251_Disaggregated_Memory/disaggregatedMemory/disagg_pager.c:150-162 | the flush loop for any fate of each of its writes, over the connection |
| `Bench.BuildOrder` | ECS251_Disaggregated_Memory/disaggregatedMemory/bench.c:139-151 | the access order is a permutation for every size and seed: the identity for the sequential pattern, and otherwise the shuffle that the seed gives |
| `Bench.ShuffledDraws` | ECS251_Disaggregated_Memory/disaggregatedMemory/bench.c:143-150 | each place, from the last on, gets the entry at the index drawn for it among those not placed yet |
| `Bench.XorShiftSample` | ECS251_Disaggregated_Memory/disaggregatedMemory/bench.c:60-67 | the generator on the seed 1, and it gives zero only from zero |
| `Bench.MarkDirtySet` | ECS251_Disaggregated_Memory/disaggregatedMemory/bench.c:159-170 | exactly the wanted number of pages is marked, the first ones of another shuffle, or all when the scratch array is refused |
| `Bench.PageAfterIs` | ECS251_Disaggregated_Memory/disaggregatedMemory/bench.c:212-237 | the closed form of a page after any number of passes |
| `Bench.RunLocal` | ECS251_Disaggregated_Memory/disaggregatedMemory/bench.c:199-245 | the local memory after the passes is the common final region |
| `Bench.RunRpc` | ECS251_Disaggregated_Memory/disaggregatedMemory/bench.c:249-309 | the remote region after the passes by whole-page calls is the same region; the run completes when every call is answered |
| `Bench.RunPager` | ECS251_Disaggregated_Memory/disaggregatedMemory/bench.c:313-365 | the remote region after the passes through the pager and a flush is the same region; the run completes when every call is answered |
| `Bench.RpcMode` | ECS251_Disaggregated_Memory/disaggregatedMemory/bench.c:249-309 | from connecting on, the calls made leave at the server a new region with the common final bytes and nothing else changed; it completes when the region is given and every call answered |
| `Bench.PagerMode` | ECS251_Disaggregated_Memory/disaggregatedMemory/bench.c:313-365 | from connecting to the flush, the pager's calls leave just that as well, and complete in the same cases |
| `Bench.ModesAgree` | ECS251_Disaggregated_Memory/disaggregatedMemory/bench.c:249-365 | the servers the two modes leave answer all later calls alike |
| `Bench.OverTheWire` | ECS251_Disaggregated_Memory/disaggregatedMemory/bench.c:249-365 | under every interleaving and fragmentation of the bytes of those calls the server ends with just that |
| `Mutex.MutualExclusion` | libuser/src/pthread_mutex.c:52-165 | in every schedule of any number of threads at most one is between lock and release; owner and count are its id and nesting depth, and the count is 0 while handing over |
| `Mutex.WaitersAccounted` | libuser/src/pthread_mutex.c:100-155 | without a raced self-removal the waiter list is an acyclic chain of distinct parked threads and every parked thread is in it, held by the unlock, or the owner |
| `Mutex.HandOverToWaiter` | libuser/src/pthread_mutex.c:135-161 | the thread an unlock makes owner is parked, is another thread, and finds count 0 |
| `Mutex.StepKeepsQueue` | libuser/src/pthread_mutex.c:100-155 | every step keeps the queue invariant and changes the queue only by one push, pop or removal, unless it is a raced self-removal |
| `Mutex.StepKeepsOwner` | libuser/src/pthread_mutex.c:52-165 | every step keeps the ownership invariant |
| `MutexCalls.NewOwnerReturns` | libuser/src/pthread_mutex.c:83-131 | a parked thread that an unlock has made the owner comes back from its lock, owning the mutex with count 1, in every continuation of the schedule that gives it its four to six remaining steps |
| `MutexCalls.WokenReturns` | libuser/src/pthread_mutex.c:91-129 | the same from the wait loop on, in four steps, races or not |
| `MutexCalls.LockEndsHolding` | libuser/src/pthread_mutex.c:52-131 | in every schedule a lock ends only with the mutex held one deeper, and a trylock so or by having just seen an owner and changing nothing |
| `MutexCalls.TryFailsIff` | libuser/src/pthread_mutex.c:65-80 | trylock fails at its test or its swap exactly when the mutex then has an owner |
| `MutexCalls.FreedOnlyWhenEmpty` | libuser/src/pthread_mutex.c:138-155 | an unlock leaves the mutex without an owner only after finding the queue empty |
| `MutexCalls.TrylockAlone` | libuser/src/pthread_mutex.c:52-81 | a trylock left alone nests, claims a free mutex, or changes nothing |
| `MutexCalls.TrylockRuns` | libuser/src/pthread_mutex.c:52-81 | the same as a stretch of a schedule, which leaves the other threads alone |
| `MutexCalls.LockAlone` | libuser/src/pthread_mutex.c:83-131 | a lock left alone nests, claims a free mutex, or queues the caller in front and sleeps |
| `MutexCalls.UnlockAlone` | libuser/src/pthread_mutex.c:135-165 | an unlock left alone is stopped by the assertion, gives back a nested lock, or hands the mutex to the front of the queue or to nobody |
| `MutexRace.RaceStrandsWaiter` | libuser/src/pthread_mutex.c:116-123 | a schedule of three threads after which a sleeping thread is in no list, held by no unlock and not the owner |
| `Compact.CmpIsOrderIff` | libuser/src/dedup.c:216-225 | the comparison orders by address and falling size when its differences fit in 31 bits, and only then while addresses and sizes differ by less than 2^32 |
| `Compact.CopyDown` | libuser/src/dedup.c:349-377 | an object copied down over itself by words or bytes arrives intact and nothing else changes; the bytes are those of the copy loop on values |
| `Compact.TargetBelowIff` | libuser/src/dedup.c:349-358 | the rounded write cursor never passes a word-copied object exactly when its offset is a whole number of words |
| `Compact.PassedCopyCorrupts` | libuser/src/dedup.c:351-364 | a list of two entries on which the loop corrupts an object because the cursor passes it |
| `Compact.WholeWordsClear` | libuser/src/dedup.c:349-358 | the cursor passes no object when every word-copied one has an offset of whole words |
| `CompactExact.IntactIff` | libuser/src/dedup.c:333-405 | for any entry list: every object keeps its bytes at its new place, for all contents of the segment, exactly when no entry straddles, no copy writes over an object still to be copied or leaves the segment, and the rounded cursor passes single words at most |
| `CompactExact.ClearIsSafe` | libuser/src/dedup.c:347-377 | lists on which the cursor passes nothing are among those |
| `CompactExact.HomesPacked` | libuser/src/dedup.c:347-396 | on every list without straddling entries copied objects are laid one after the other at the least place not below the cursor, a multiple of four for a word copy, derived ones lie at their offset in the last copy, and the new size is where the last copy ends |
| `CompactExact.CopiedWordsAligned` | libuser/src/dedup.c:351-358 | so the capability patched for a word-copied object has a base that is a multiple of four |
| `Compact.Place` | libuser/src/dedup.c:347-396 | one relocation: a fresh copy or a capability derived from the last copy, refused exactly when it straddles the last object's end |
| `Compact.CompactCode` | libuser/src/dedup.c:333-405 | on every entry list whose objects the rounded cursor does not pass, compaction completes exactly when no entry straddles and leaves what the loop on values leaves; every patched capability then covers bytes equal to its object's, not higher up, the other slots are untouched and the relocation table stays readable even when it moves; the bases and the new size are those of that packed layout |
| `SnakeProgram.Server.AllocPlayer` | snake/src/main.c:278-293 | a player who joins has no snake yet |
| `Snake.NextHead` | snake/src/main.c:237-242 | a step stays on the board |
| `Snake.NextHeadCoords` | snake/src/main.c:237-242 | each coordinate moves by its part of the direction, modulo 64 |
| `Snake.NextHeadBack` | snake/src/main.c:237-242 | opposite steps undo each other and no step stays in place |
| `Snake.CellsAreSnakes` | snake/src/main.c:245-319 | in every reachable game the non-empty cells are exactly the disjoint union of the snakes |
| `Snake.SnakesAreLists` | snake/src/main.c:245-319 | in every reachable game every snake has at least two cells, no cell twice, and leads from its tail to a HEAD_SLOT at its head |
| `Snake.MoveKeeps` | snake/src/main.c:374-411 | a move, with or without food or collision, keeps the board invariant |
| `Snake.SpawnKeeps` | snake/src/main.c:245-277 | spawning on a free pair keeps the board invariant |
| `Snake.KillKeeps` | snake/src/main.c:295-319 | clearing a snake and filling its slot with the last player keeps the board invariant |
| `Snake.NextKeeps` | snake/src/main.c:245-411 | every event keeps the board invariant |
| `Snake.AdvanceIs` | snake/src/main.c:374-411 | a playing snake whose next cell belongs to a snake only dies; into a free cell it goes on and leaves its tail; onto the food it grows and the food is gone |
| `Snake.SpawnIs` | snake/src/main.c:245-277 | a spawned snake is the free cell and the one to its right, heading right |
| `Snake.KillIs` | snake/src/main.c:295-319 | a kill empties exactly that snake's cells and puts the last player in its place |
| `Snake.QuietIs` | snake/src/main.c:278-293 | joining, naming, steering and losing the connection change only that player's state, as told, and no snake, cell or food |
| `SnakeProgram.Server.SpawnPlayer` | snake/src/main.c:245-277 | the search ends at the first free pair going round from where it starts, and the snake appears there |
| `SnakeProgram.Server.MoveSnakes` | snake/src/main.c:374-411 | the move phase is the moves of all players in turn |
| `SnakeProgram.Server.PlaceFood` | snake/src/main.c:421-426 | missing food is put on the first free cell going round from where the search starts |
| `SnakeProgram.Server.ClearSnake` | snake/src/main.c:303-312 | the kill traversal ends and clears exactly that snake's cells |
| `SnakeProgram.Server.KillPlayers` | snake/src/main.c:295-319 | the kill phase only kills, and leaves nobody to kill |
| `FileRing.ReadsAreFlat` | libuser/src/sockets.c:298-445 | for every mix of sends, receives and seeks, every server order and every ring, receives return what a file with one cursor would, as long as each buffered send that passed the space test had room |
| `FileRing.ReadsLag` | libuser/src/printf.c:114-140 | with characters put as well, receives that wait for pending writes return what stands behind the one pointer by the characters put since the last absolute seek; with such a seek before every receive they are right |
| `FileRing.CursorsMeet` | libuser/src/sockets.c:526-542 | between calls both cursors, with queued requests and lag counters, stand at the one pointer; a partly filled ring means no write lag and a pending wait, and the ring is not overfull |
| `FileRing.SettledFileIsFlat` | libuser/src/sockets.c:544-574 | once the server has taken everything its file is the one-cursor file |
| `FileRing.StepAbs` | libuser/src/sockets.c:298-574 | every event of the machine whose queued writes point into the ring does what the machine with bytes in its queues does, as long as no buffered send was accepted without room |
| `FileRing.EmitPieces` | cherios/system/libsocket/src/sockets.c:392-470 | the requests for a stretch of the ring, two where it wraps, name exactly its bytes |
| `FilePtr.SendKeeps` | libuser/src/sockets.c:324-392 | a send, buffered or not, accepted or not, keeps the cursors together |
| `FilePtr.SeekKeeps` | libuser/src/unistd.c:265-298 | a seek keeps the cursors together, and an absolute one ends the lag of the reads |
| `FilePtr.PutKeeps` | libuser/src/printf.c:114-140 | a character put goes in at the one pointer and leaves the read cursor one further behind |
| `FilePtr.RunFollows` | libuser/src/sockets.c:324-445 | after every run of the queues the finished calls determine file, cursors and results, and without puts no receive races |
| `FileRingRuns.OverrunCorrupts` | libuser/src/sockets.c:304-306 | on a ring of four bytes, sending two, sending four, going back and reading returns the fifth byte and not the first |
| `FileRingRuns.OpenAgreesIff` | libuser/src/unistd.c:150-155 | the emulation is right in every run exactly when the uncleared write counter happened to be zero |
| `FileRingRuns.PutIsReadBack` | libuser/src/printf.c:114-140 | after a put a receive returns the byte put, where a file with one cursor returns the byte behind it |
| `FileRingRuns.PutIsMissed` | libuser/src/printf.c:114-140 | even with an absolute seek after the put a receive can return the old byte, because no flag makes it wait |
| `FileSocket.UnixLikeSocket.Flush` | libuser/src/sockets.c:544-574 | the ring's content becomes one or two write requests after a catch-up seek, without waiting when the ring is not overfull |
| `FileSocket.UnixLikeSocket.Send` | libuser/src/sockets.c:324-392 | which sends are refused, by the space test as written or the ring's size; an accepted one adds its bytes at the one pointer and a refused one changes nothing visible, unless a buffered one was accepted without room; what is left unrequested in the ring is below half its size |
| `FileSocket.UnixLikeSocket.Recv` | libuser/src/sockets.c:394-445 | a receive returns what stands at the one pointer, less the lag, and moves it, whatever the server does meanwhile |
| `FileSocket.UnixLikeSocket.ServeIdle` | libuser/src/sockets.c:526-574 | the server may take a request between calls without the cursors coming apart |
| `FileSocket.UnixLikeSocket.Lseek` | libuser/src/unistd.c:265-298 | a seek moves the one pointer |
| `FileSocket.UnixLikeSocket.Fputc` | libuser/src/printf.c:114-140 | a character goes in at the one pointer after waiting for space, is refused exactly when the ring is full of bytes not yet requested, and the ring is flushed on a newline or when full |
| `Ring.LaidIsStored` | libuser/src/sockets.c:298-322 | the two-part copy leaves what storing the bytes one at a time leaves |
| `Ring.CopiedIntoIs` | libuser/src/sockets.c:308-318 | the block copy as written stops an empty block and stores any other as its bytes one at a time would, with room or without |
| `Ring.OutstandingAfter` | libuser/src/sockets.c:298-322 | a byte not yet taken survives a block exactly when the block ends within a ring's length of it, and otherwise becomes the block's byte that comes round to it |
| `Ring.KeptIffRoom` | libuser/src/sockets.c:304-306 | all bytes not yet taken survive every block of a length exactly when there is room for that length |
| `Ring.SpaceTestRightIff` | libuser/src/sockets.c:304-306 | the space test gives the right answer exactly when there is room |
| `Ring.AcceptedBlockOverwrites` | libuser/src/sockets.c:304-306 | a block that passes the space test and replaces two bytes not yet taken |
| `Ring.FirstPartFitsIff` | libuser/src/sockets.c:309-318 | the first copy stays within the block exactly when the block is not empty |
| `Ring.DataRingBuffer.CopyIntoDrb` | libuser/src/sockets.c:298-322 | refused exactly by the space test as written, stopped exactly when a part leaves its bounds, otherwise the block is in the ring and the partial length has grown by its size |
| `Ring.DataRingBuffer.Store` | cherios/system/libsocket/src/sockets.c:503-545 | a block given its space is stored in one or two parts as its bytes one at a time would be |
| `Ring.DataRingBuffer.Fputc` | libuser/src/printf.c:132 | one character is appended |
| `Closing.ClosedOnce` | libuser/src/unistd.c:167-263 | in every run at most one close request per socket, each socket freed at most once, and a closed socket is parked exactly once or freed |
| `Closing.HandlesMatch` | libuser/src/sockets.c:71-103 | in every run handles in use and numbered sockets correspond one to one and every other handle is free exactly once |
| `Closing.StagesAdvance` | libuser/src/unistd.c:167-225 | no call takes a socket back to an earlier stage |
| `Closing.StageAfterIs` | libuser/src/unistd.c:167-225 | a close stops at the first stage, from the one reached on, that applies to the socket and would block, and is done exactly when there is none |
| `Closing.StageShutIs` | libuser/src/net.c:443-480 | a shutdown likewise, up to the close request |
| `Closing.CloseFinishesIff` | libuser/src/unistd.c:227-263 | close_file frees the socket at once exactly when none of its remaining stages would block, and otherwise parks it in front, at the first that would |
| `Closing.ProcessedKeeps` | libuser/src/unistd.c:233-249 | resuming keeps exactly the unfinished sockets, in order |
| `Closing.ForceFinishes` | libuser/src/unistd.c:233-249 | forcing the parked closes finishes them all |
| `Closing.NextKeeps` | libuser/src/unistd.c:167-263 | every call keeps table, history and list consistent |
| `CloseProgram.HandleTable.AllocSockn` | libuser/src/sockets.c:78-97 | the first free handle is taken off the list threaded through the array and mapped to the socket |
| `CloseProgram.Closer.SocketInit` | libuser/src/sockets.c:262-284 | a new socket is registered, with the first free handle if it wants one |
| `CloseProgram.HandleTable.FreeSockn` | libuser/src/sockets.c:99-103 | the handle is put back in front, the list stays acyclic |
| `CloseProgram.Stages` | libuser/src/unistd.c:167-207 | the fall-through switch stops at the first stage that would block and sends the close request exactly when it passes that stage on a socket that writes by pushing |
| `CloseProgram.ReqStages` | libuser/src/unistd.c:167-190 | the part of the switch up to the close request, and whether the request was sent |
| `CloseProgram.Closer.TryCloseFile` | libuser/src/unistd.c:167-225 | one attempt has the effect of the step function, the requests sent included, and tells whether the socket is gone |
| `CloseProgram.Closer.ProcessAsyncCloses` | libuser/src/unistd.c:233-249 | rewriting the list in place through the last pointer leaves exactly the unfinished sockets |
| `CloseProgram.Closer.Close` | libuser/src/unistd.c:227-263 | resume the parked closes, try this one, park it if unfinished |
| `CloseProgram.Closer.ShutdownWrite` | libuser/src/net.c:443-480 | writing is shut down up to the close request and no further |
| `ElfImage.GenerateFoundId` | generate_found_id.py:33-73 | the walk hashes the streamed bytes with their padding and gives up exactly on unsorted headers |
| `ElfImage.ElfLoaderMem` | elf/src/elf_loader.c:373-438 | the header loop accepts exactly the allowed headers and computes the image and thread-local sizes in 64-bit arithmetic |
| `ElfImage.CreateImage` | elf/src/elf_loader.c:299-322 | the image has at each address the last segment covering it, or zero |
| `ElfImage.ImageAtIs` | elf/src/elf_loader.c:299-322 | the byte at an address is the file's, through the last segment whose file part has the address, and zero where none has |
| `ElfImage.BoundIs` | elf/src/elf_loader.c:386-387 | the image size is the largest 64-bit bound of a loadable segment |
| `ElfImage.TlsSizeIs` | elf/src/elf_loader.c:409-414 | the thread-local size is the memory size of the last thread-local segment |
| `ElfImage.AcceptableIff` | elf/src/elf_loader.c:373-438 | the rules in full, pair by pair |
| `ElfImage.SortedIff` | generate_found_id.py:33-57 | the headers are taken as sorted exactly when every loadable segment ends before each later one begins |
| `ElfImage.StreamedIsImage` | generate_found_id.py:33-57 | the stream stands at its own length and agrees with the image at every address so far |
| `ElfImage.HashedIsLoadedIff` | elf/src/elf_loader.c:299-322 | for every program both tools accept, the bytes hashed are the bytes loaded exactly when the padded image fits in 64 bits |
| `ElfImage.WrapDisagrees` | elf/src/elf_loader.c:386-387 | a program both accept whose image wraps around |
| `Asprintf.FullIffPower` | libuser/src/printf.c:238 | the power-of-two test starts a new buffer exactly when the last one is full |
| `Asprintf.State.Emit` | libuser/src/printf.c:235-246 | each character is added after the others and the pointer back never overwrites one |
| `Asprintf.State.Condense` | libuser/src/printf.c:266-289 | all pieces reach the newest buffer and each buffer between is freed once |
| `Asprintf.Vasprintf` | libuser/src/printf.c:248-299 | the string holds exactly the characters emitted, is all that is left allocated, and no other memory changed |
| `SegMap.SwapInversions` | libcrt/crtbeginC.c:175-183 | a swap of neighbours out of order removes exactly one inversion |
| `SegMap.SortMap` | libcrt/crtbeginC.c:168-183 | the step-back sort ends with a sorted, stable permutation |
| `SegMap.Scan` | libcrt/crtbeginC.c:186-190 | with the all-ones entry the scan stays in bounds and ends at the last segment not above the address |
| `SegMap.LogicalToCap` | libcrt/crtbeginC.c:186-206 | the nearest segment below the address; the thread-local one exactly for a thread-local address with at most one other segment in between |
| `ForEachPhy.ForEach` | include/sys/mman.h:173-208 | the calls cover exactly the pointwise translation in maximal runs, flags mark first and last, the result counts the calls or is the failing call's |
| `Rounding.SmearedIsMask` | include/cheric.h:138-145 | the shifts and ors give all ones up to the highest bit |
| `Rounding.RoundedIsLeast` | include/cheric.h:137-147 | the mask is 2^k - 1 and the rounded length the least multiple of 2^k not below the length, with a quotient in precision, exactly when the addition does not overflow |
| `Rounding.PrecisionAlign` | include/nano/nanokernel.h:134-149 | no split underflows, the base is aligned inside the reservation, nothing is lost, and the length is exact unless the last split is refused |
| `Rounding.CapMalloc` | libuser/src/mmap.c:119-128 | from the threshold on, the reservation allocated has exactly the rounded length, aligned; below it, it starts where the given one does and has the length asked for unless the last split is refused |
| `SizeClass.LogIsLog` | include/nano/nanokernel.h:204-230 | n stages compute the logarithm of every number below 2^(2^n) |
| `SizeClass.SmallestClassIff` | include/nano/nanokernel.h:153-241 | the class found is not below the size exactly within the stages' reach, and the class before it is smaller |
| `SizeClass.SmallestOfAll` | include/nano/nanokernel.h:153-241 | it is the smallest class not below the size |
| `SizeClass.ScaleRoundTrip` | include/nano/nanokernel.h:153-241 | on classes the two functions are inverse |
| `SizeClass.ScaleMonotone` | include/nano/nanokernel.h:153-165 | larger scales are larger sizes |
| `SizeClass.SizeMonotone` | include/nano/nanokernel.h:192-241 | larger sizes have no smaller scale |
| `SizeClass.ComputeScale` | include/nano/nanokernel.h:192-241 | the staged computation is the function the theorems are about |

## Left out

- Socket setup, accept loops, signal registration, and the results of mmap, mprotect and sigaction: plumbing.
- Receive and send errors other than the peer closing, EINTR retries, and refused allocations in the page server; a
  write that finds no memory is answered without being drained, and that path is not modelled.
- The instruction reordering that the memory barriers of the mutex are for: steps are sequentially consistent.
- Mutex fairness: the code does not promise it. That a thread made owner returns is proved for schedules that let it
  take its steps. Runs that overflow the 64-bit nesting count or unlock from a thread that does not own the mutex are
  excluded from the ownership theorem, as the assertion demands.
- Compact.CompactCode: starts from the sorted list; scanning the relocations, the library sort, the cache operations and
  slots that lie inside the moved segment are not modelled. That the comparison sorts needs addresses within 31 bits.
  Where the cursor passes an object the loop on values (`Compacted`) says what happens, and the method is not followed,
  because the relocation table it reads may be overwritten as well.
- Session.StaysAligned: for calls as the client makes them, a write carrying as many payload bytes as its header says.
- Snake drawing, ANSI output and name input; that a free pair or cell exists is a precondition of the two searches.
- FileRing.ReadsAreFlat: for copied writes and waiting calls; no-copy writes, sendfile, SEEK_END and non-blocking calls
  are left out, as is the limit on the number of queued requests, and positions are integers, so a seek before the
  start is not refused. A buffered send of no bytes stops the machine, as the copy does.
- FileRing.ReadsLag: for receives that waited for the writes pending when they began; one that did not, which takes a put
  since the last send, may read before or after those writes.
- Closing.ClosedOnce: listening sockets, which have their own close function, are left out, and closing the two
  underlying channels at the last stage is taken to succeed, as the assertion there demands.
- ElfImage.HashedIsLoadedIff: the hash is any function of the bytes; the allocation is taken to be zeroed, and a copy
  outside the file or the allocation stops the loader.
- Asprintf.Vasprintf: the formatter is the sequence of characters it emits; allocation does not fail.
- SegMap.LogicalToCap: some segment must start at or below the address, one that is not thread-local for an ordinary
  address; the code has no answer otherwise. Setting the bounds of the result is not modelled.
- ForEachPhy.ForEach: addresses do not wrap around at 2^64.
- Rounding.RoundedIsLeast: the computation for 128-bit capabilities without the alignment-mask instruction.
- HTTP server, RPC benchmarks, message wrappers, the kernel, the nanokernel and the socket library's own rings: not part
  of this model.
