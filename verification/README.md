# MemInfo, verified

MemInfo keeps an application's bytes on other machines. This project models its layers as a stack in
Dafny and proves that each layer behaves like the simple thing it replaces:

| layer | files | behaves like |
|---|---|---|
| daemon store | `Slab.dfy`, `PageTracker.dfy`, `ServerSpec.dfy`, `Answers.dfy`, `Daemon.dfy` | one flat zeroed byte array per handle, private to its session |
| wire | `Crc32c.dfy`, `Framing.dfy` | polynomial division; frames delivered in order, however they are cut |
| client store | `LruCache.dfy`, `Peers.dfy`, `Stripes.dfy`, `Transport.dfy`, `RemoteBlocks.dfy`, `RemoteIo.dfy`, `ClientModel.dfy`, `MemoryClient.dfy`, `ClientRoom.dfy`, `Restarts.dfy`, `ClientRun.dfy` | a plain map from handle to bytes |
| demand paging | `PageStates.dfy`, `FaultBackend.dfy`, `InPlace.dfy`, `HeapModel.dfy`, `RemoteHeap.dfy`, `HeapRun.dfy` | flat memory |
| arena | `ArenaModel.dfy`, `HeapArena.dfy` | a partition of the region into free and live blocks |

`Bytes.dfy`, `Paging.dfy`, `Sums.dfy` and `Wrappers.dfy` are shared helpers. `dafny verify dfyconfig.toml`
checks everything.

## How to read the contracts

The daemon is a function on a `Store` (`ServerSpec`), and the classes over arrays and page tables are proved
equal to it. The client talks to a `Net`: a sequence of peers, each holding a `Store`, one session of ours on
each. Between and during calls the network may evolve in any way that leaves our blocks alone or ends our
session on a peer, and a daemon may be restarted and count its handles from 1 again; a call may go unanswered
although the peer served it. Operating-system memory pressure, announced capacities and refused allocations are
arbitrary.

What happens is not left to the code that is judged by it. Whether a network can change at all is a constant of the
transport, `calm`; whether the operating system refuses anything sensible is a constant of the fault backend,
`lenient`; the memory it reports is a field of the client, `available`; and the address at which it would put a heap
is an argument, `offer`. So each layer also says, from these and the state before, when an operation must succeed,
up to two theorems without any condition on what happened. In a calm world with room on one peer, any program of
client operations is answered exactly as a plain map answers it, whatever is evicted and reloaded meanwhile
(`ClientRun.Run`, `Foretold`). And with a lenient system, any program on a heap that can be created shows exactly what
it shows on plain memory (`HeapRuns.Session`, `Plainly`).

What a handle reads as is a sequence of cells, each `Known(byte)` or `Lost`. Ghost counters in the transport
say what has happened: `drops` counts sessions of ours that ended, `silent` calls that went unanswered,
`setbacks` moments at which a daemon's counter of handles had gone back, and `shifts` every change the peers made
by themselves; `Undisturbed` means that calls were answered and nothing shifted, as is always so in a calm world.
`DecayedView(v, w)` says that `w` is `v` with some cells lost and nothing else different. So most
client contracts have the form: at worst cells are lost, and if no session ended the map is exact. One more
counter, `shed`, is the client's own: reloads that gave pieces up because a later one was too long for a reply.

All of them are stated up to the first clash of references, which the ghost flag `clashed` records: a daemon
handed out a reference that some handle still goes by, and the new block is kept under it or still held. There
is none as long as there is no setback, counted from any moment at which every daemon's counter was past all
references in use (`Client.MemoryClient.Settle`), such as the start. What a clash does is under the next heading.

The heap carries a ghost flat memory `mem`, changed only by completed stores, and a ghost set `damaged` of
heap pages. A load that completes outside the damaged pages returns `mem`. Pages become damaged only in three
ways: `unfilled` counts faults the heap left unresolved, `discarded` counts evictions that macOS refused, and a
clash in the client damages every page. There are never more damaged pages than the two counters together while
nothing clashed. On Windows an unresolved fault ends the process, so without a clash nothing is damaged while it
lives; Linux has no `discarded`.

What causes these is counted below the heap: `misfills` and `denials` in the fault backend are the fills, and the
evictions and promotions, that the operating system refused. `Ledger` collects all of this at one moment, and
`Follows(a, b)` relates two moments: while no session ends, calls are answered, nothing clashes and the peers hold
the whole backing block (`Supplied`), it stays whole and faults are left unfilled only by refused fills. If the
operating system refuses nothing either (`Calm`), every access goes through; and where nothing can be refused or
change and nothing has been damaged yet (`Orderly`), it stays calm.

## Where the code does less than it promises

Each of these is kept as the code has it, with the condition under which the promise holds.

- `owns` computes `base + size` in 64 bits. If the arena ends at 2^64 it owns nothing, and `deallocate` frees
  nothing (`HeapArenas.OwnsExactly`, `HeapArenas.HeapArena.Deallocate`).
- The daemon goes on handling buffered frames after one was refused, so what is handled depends on how the
  stream was cut, exactly if a frame other than the last is refused (`Framing.ServerChunking`). The client's
  loop stops there and does not (`Framing.PeerConnection.OnPeerRead`).
- The client keeps a peer's read buffer when the connection ends, and the next connection's bytes go behind it.
  The next connection's messages arrive as they were sent exactly if the last one left nothing in the buffer
  (`Framing.ReconnectDelivers`, `Framing.CutOffSwallows`).
- The client's table of remote blocks is not cleared when a daemon is restarted, and a restarted daemon gives
  its handles out again. A new block can then get the reference of an old one, and the old handle reads as the
  new block (`Restarts.RestartMixesBlocks`). This can happen exactly if some daemon's counter is not past every
  reference the client still has on it (`Restarts.CollisionAhead`), which takes a setback.
- A reply to an empty read has no data field. On a single peer this is a failure, on stripes it is not, and an
  empty block that was evicted cannot be read back (`RemoteIo.ReadRemote`, `Client.MemoryClient.Read`).
- `write_remote` does not look at the reply. If the session ended meanwhile the write reports success and the
  bytes are lost; in every other case it has taken effect (`Peers.ServedWrite`, `RemoteIo.WriteRemote`).
- A daemon answers no read of more than 64 MB. A piece longer than that can be read in parts, if the block is used
  in place, but not reloaded. Reloading a striped block frees each stripe as it is read, so a stripe that is too
  long loses exactly the stripes before it (`Client.MemoryClient.Reload`). A reload with all calls answered loses
  bytes if and only if such a stripe is not the first (`RemoteIo.ShedLoses`), and never if the block is at most
  64 MB.
- The comment in `evict_page` says eviction stops for the round when a page cannot be written back. The loop
  that calls it goes on with the next page, so the page just faulted in can be the one evicted, and if every
  attempt fails the loop does not end (`RemoteHeaps.NewestSurvives`, `RemoteHeaps.NewestCanBeEvicted`).
- Linux maps a zero page where the heap could not supply one. Filling a page that is already present makes the
  Linux backend forget that it is there, and its stores with it (`FaultBackends.RefillForgets`); the contract
  holds exactly if no page of the range is present.
- On macOS a failed eviction may already have discarded the contents, and `clear_dirty` on an absent page makes
  it readable without a fault (`FaultBackends.ClearExposes`).
- `round_up` wraps: a local budget within a page of 2^64 becomes a budget of one page, and such a page size
  becomes zero, by which the constructor then divides (`HeapRuns.SizesFit`, `HeapRuns.UnlimitedBudgetIsOnePage`).

## Model

| member | source | states |
|---|---|---|
| ArenaModel.LeadIsGap | memclient/src/heap_arena.cpp:9-12 | The 64-bit, possibly wrapping alignment arithmetic yields the least offset at which the address is aligned, whenever the block lies below 2^64 |
| ArenaModel.CarveKeepsPartition | memclient/src/heap_arena.cpp:40-46 | Cutting an aligned piece out of a free block keeps free and live blocks a partition with no two free blocks touching, and moves exactly its bytes from free to live |
| ArenaModel.MergeKeepsPartition | memclient/src/heap_arena.cpp:70-90 | Giving a span back with merging on both sides restores the partition and adds exactly its bytes |
| ArenaModel.FreeIsDetermined | memclient/src/heap_arena.cpp:22-90 | The live blocks alone determine the free blocks: no history of splits and merges can leave them differently |
| ArenaModel.NothingLiveIsWhole | memclient/src/heap_arena.cpp:70-90 | With nothing live there is exactly one free block, of full size |
| ArenaModel.FirstFitIsLowest | memclient/src/heap_arena.cpp:28-48 | The first free block long enough gives the lowest aligned span of that length avoiding every live block |
| ArenaModel.NoBlockNoFit | memclient/src/heap_arena.cpp:28-50 | If every free block is too short, no aligned span of that length anywhere avoids the live blocks |
| HeapArenas.OwnsExactly | memclient/include/meminfo/client/heap_arena.h:41-44 | The ownership test is right for all addresses if and only if the region ends below 2^64 or is empty |
| HeapArenas.HeapArena.Allocate | memclient/src/heap_arena.cpp:22-51 | Null exactly when no aligned span of that length avoids every live block, otherwise the lowest such address; the partition and the byte counts are kept |
| HeapArenas.HeapArena.Deallocate | memclient/src/heap_arena.cpp:53-68 | Frees exactly the live block starting there; double, interior and foreign frees change nothing, nor does any free when the region ends at 2^64 |
| HeapArenas.HeapArena.MergeBack | memclient/src/heap_arena.cpp:70-90 | The code's merge turns the hole left by a freed block into a partition again and conserves bytes |
| HeapArenas.HeapArena.BlockSize | memclient/src/heap_arena.cpp:92-98 | Positive exactly for addresses of live blocks the arena recognises, and then their length |
| HeapArenas.HeapArena.GetStats | memclient/src/heap_arena.cpp:100-111 | In-use plus free bytes is the whole size, and the largest free block is a maximum; with nothing live it is the whole size |
| HeapArenas.AllocateThenRelease | memclient/src/heap_arena.cpp:22-90 | Allocating, exactly if some aligned span of that length avoids the live blocks, and freeing restores both block maps exactly, whatever was live |
| Crc32c.GenerateTable | common/src/crc32c.cpp:12-26 | Entry i is eight bit-at-a-time steps from i |
| Crc32c.TableStep | common/src/crc32c.cpp:53 | Eight bit steps of any register are one table entry for the low byte and a shift of the rest |
| Crc32c.Compute | common/src/crc32c.cpp:32-57 | The table-driven loop computes the bit-at-a-time checksum of every input from every initial value |
| Crc32c.PolynomialIsGenerator | common/src/crc32c.cpp:18 | The constant is the bit-reversed CRC32C generator of section 12.1 of RFC 3720 |
| Crc32c.ChecksumIsRemainder | common/src/crc32c.cpp:32-57 | The checksum is the complemented remainder of long division of the message, with its first 32 bits flipped and 32 zeros appended |
| Crc32c.DivisionLaw | common/src/crc32c.cpp:32-57 | Division with remainder by the generator: dividend is quotient times generator plus remainder for exactly one quotient and one remainder, and the division loop finds them |
| Crc32c.RemainderIsCongruent | common/src/crc32c.cpp:32-57 | The remainder is the one word that differs from the dividend by a multiple of the generator |
| Crc32c.ChecksumContinues | common/src/crc32c.cpp:32-33 | Checksumming a concatenation equals continuing from the first part's checksum |
| Crc32c.BurstDetected | common/src/crc32c.cpp:32-57 | Two different messages of equal length that differ only within 32 consecutive bits have different checksums |
| Crc32c.FourByteErrorDetected | common/src/crc32c.cpp:32-57 | The same for a difference within any four consecutive bytes |
| Framing.ParseResumes | memoryd/src/client_session.cpp:54-69 | Draining after part of a stream and again after the rest yields the frames and the tail of the whole |
| Framing.PrefixReads | memoryd/src/client_session.cpp:56 | The receiver reads back the length the sender put in front, byte 0 lowest, for every length below 2^32 and whatever follows |
| Framing.FrameIsEncoded | memoryd/src/client_session.cpp:54-69 | A buffer is one whole frame within the limit if and only if it is some message of at most 64 MB behind its length |
| Framing.FramesRoundTrip | memoryd/src/client_session.cpp:54-69 | Any messages of at most 64 MB, each sent behind its length, are parsed into exactly those messages, and an incomplete rest is what stays |
| Framing.StreamIsItsFrames | memoryd/src/client_session.cpp:54-69 | Every stream is the concatenation of its frames and its tail: no byte is dropped or repeated |
| Framing.ClientSession.OnRead | memoryd/src/client_session.cpp:36-52 | A read has the effect of the chunk on the receiver state: frames handed on, tail kept, closing recorded |
| Framing.ClientSession.ProcessBuffer | memoryd/src/client_session.cpp:54-69 | Hands on exactly the complete frames, also those after a refused one, keeps the tail, and closes exactly on an oversized length or a refusal; what frames are is fixed by `PrefixReads` and `FramesRoundTrip` |
| Framing.ServerChunking | memoryd/src/client_session.cpp:36-69 | Every way of cutting a stream hands on all its frames if and only if no frame but the last is refused |
| Framing.CutAfterRefusal | memoryd/src/client_session.cpp:71-79 | For every stream with a refused frame before the last, a cut after which not all frames are handed on |
| Framing.SessionDelivers | memoryd/src/client_session.cpp:36-69 | Accepted messages of at most 64 MB, sent one after the other and cut in any way, reach the handler exactly as sent and in order, and exactly the incomplete rest stays buffered |
| Framing.TooLongCloses | memoryd/src/client_session.cpp:57-61 | A length above 64 MB closes the connection, however the stream is cut, after exactly the messages before it were delivered |
| Framing.PeerConnection.OnPeerRead | memclient/src/client_api.cpp:959-1000 | After any sequence of reads the client has handled exactly the longest accepted run of frames of all bytes received from the peer, however they were cut; `PeerDelivers` says it for messages |
| Framing.PeerDelivers | memclient/src/client_api.cpp:959-1000 | If what the peer sent is accepted messages of at most 64 MB and an incomplete rest, exactly those were delivered, in order, the connection is open and the rest is buffered |
| Framing.PeerConnection.OnPeerEnd | memclient/src/client_api.cpp:1002-1018 | The socket is let go and the buffer and everything delivered stay; a socket closed for a bad message is never let go |
| Framing.PeerConnection.StartConnect | memclient/src/client_api.cpp:127-187 | A new connection takes over the buffer of the last one |
| Framing.PeerRun | memclient/src/client_api.cpp:959-1021 | Any connections one after the other, cut in any way, deliver exactly what one stream of all their bytes would |
| Framing.ReconnectDelivers | memclient/src/client_api.cpp:1002-1018 | The messages of the next connection are delivered as they are, for every list of messages, if and only if the last connection left no incomplete message |
| Framing.CutOffSwallows | memclient/src/client_api.cpp:1002-1018 | Three bytes of a response left over swallow the next connection's first response |
| Slab.SlabAllocator.constructor | memoryd/src/slab_allocator.cpp:9-32 | All pages free, each listed once |
| Slab.SlabAllocator.AllocatePages | memoryd/src/slab_allocator.cpp:38-59 | Fails exactly when too few pages are free and then changes nothing; otherwise distinct, previously free, zeroed pages, and no other page changes |
| Slab.SlabAllocator.FreePages | memoryd/src/slab_allocator.cpp:61-72 | Frees each allocated page of the list once; out-of-range, repeated and free entries are ignored |
| Slab.ReleasesAll | memoryd/src/slab_allocator.cpp:61-72 | A list of distinct allocated pages is released as a whole |
| Slab.SlabAllocator.WritePage | memoryd/src/slab_allocator.cpp:74-86 | Changes exactly the range of that page, or reports which bound failed and changes nothing |
| Slab.SlabAllocator.ReadPage | memoryd/src/slab_allocator.cpp:88-97 | Returns exactly the range of that page, or reports which bound failed |
| PageTables.FlatWriteRun | memoryd/src/page_tracker.cpp:74-82 | Overwriting part of one page overwrites exactly that run of the flat block the page table stands for |
| PageTables.FlatReadRun | memoryd/src/page_tracker.cpp:107-115 | Part of one page is exactly that run of the flat block |
| PageTables.AddTable | memoryd/src/page_tracker.cpp:34-39 | A table over cleared, previously free pages reads as zeros and changes no other handle; every page still has one holder |
| PageTables.DropTable | memoryd/src/page_tracker.cpp:46-49 | Dropping a table frees its pages only and changes no other handle |
| PageTables.WriteTable | memoryd/src/page_tracker.cpp:74-82 | Changing pages of one table changes that handle only |
| Tracker.PageTracker.Allocate | memoryd/src/page_tracker.cpp:25-40 | A fresh handle reading as zeros even on recycled pages; fails exactly when the size overflows or too few pages are free |
| Tracker.PageTracker.Free | memoryd/src/page_tracker.cpp:42-50 | Removes that handle and returns its page count, or reports why not and changes nothing |
| Tracker.PageTracker.CopyIn | memoryd/src/page_tracker.cpp:71-82 | The page-splitting loop ends and overwrites exactly the range of the flat block; no page write in it can fail |
| Tracker.PageTracker.CopyOut | memoryd/src/page_tracker.cpp:104-115 | The page-splitting loop ends and returns exactly the range of the flat block |
| Tracker.PageTracker.Write | memoryd/src/page_tracker.cpp:52-83 | Ownership, then bounds, then exactly the range of that handle; a write past the checks never fails half-way |
| Tracker.PageTracker.Read | memoryd/src/page_tracker.cpp:85-116 | Ownership, then bounds, then the bytes last written |
| Tracker.PageTracker.AssignOwner | memoryd/src/page_tracker.cpp:118-124 | Changes the owner of that handle and nothing else |
| Tracker.PageTracker.FreeAllForOwner | memoryd/src/page_tracker.cpp:126-141 | The sweep removes exactly that session's handles, whatever the order of iteration |
| Tracker.ProcessRequest | memoryd/src/memory_protocol.cpp:36-108 | The arrays and page tables answer and change as the flat reference store does, for every request and session; what each answer means is stated by the lemmas of `Answers` |
| ServerSpec.PagesForIsLeast | memoryd/src/page_tracker.cpp:28-32 | The page count is the least that holds the block: one page fewer is too small |
| Answers.StatusMeans | memoryd/src/memory_protocol.cpp:36-108 | Each of the six refusals is given if and only if its condition on request and store holds: wrong version; damaged data; unknown handle; a handle of another session; fewer bytes free in whole pages than asked for; no such operation, no data, a range outside the block or more than 64 MB |
| Answers.OkMeans | memoryd/src/memory_protocol.cpp:51-98 | A request is answered OK if and only if version, data and size are right, the handle it needs is live and the session's or nobody's, and the range lies inside the block |
| Answers.OnlyOkChanges | memoryd/src/memory_protocol.cpp:97-107 | Only an allocation, free or write answered OK changes the store; only such an allocation carries a handle and only such a read carries data |
| Answers.WriteLands | memoryd/src/memory_protocol.cpp:64-74 | After a write answered OK the block holds, byte by byte, the data in its range and its old bytes elsewhere; owner, length, other blocks and free pages stay |
| Answers.ReadShows | memoryd/src/memory_protocol.cpp:76-87 | A read answered OK carries exactly the bytes of the range and their checksum, or no data if it asked for none, and changes nothing |
| Answers.WriteThenRead | memoryd/src/memory_protocol.cpp:64-87 | Reading the range of a write of at most 64 MB that was answered OK returns its data, under the checksum it was sent with |
| Answers.FreeForgets | memoryd/src/memory_protocol.cpp:59-62 | After a free answered OK the handle is unknown to every session, no other block changed, and the pages given back are the least that held it |
| Answers.AllocGrants | memoryd/src/memory_protocol.cpp:53-57 | An allocation answered OK hands out a handle that was not in use, for a zeroed block of that size that no other session can use, and takes the least pages that hold it; one of no bytes hands out 0 and changes nothing |
| ServerSpec.ApplyKeepsSound | memoryd/src/memory_protocol.cpp:51-107 | Every step conserves pages: free plus held equals the total, and handles stay fresh |
| ServerSpec.RunKeepsSound | memoryd/src/memory_protocol.cpp:51-107 | The same over every run of requests and disconnects from any sessions |
| ServerSpec.ReplyAt | memoryd/src/memory_protocol.cpp:51-107 | The answer at any place of a run is the one the store after the events before it gives |
| ServerSpec.RunIsolates | memoryd/src/page_tracker.cpp:15-23 | No run of other sessions' steps changes, adds or removes a session's blocks |
| ServerSpec.ReadBackAfterOthers | memoryd/src/memory_protocol.cpp:64-87 | What a session wrote is what it reads after any run of the others |
| ServerSpec.DisconnectIsExact | memoryd/src/client_session.cpp:25-27 | A disconnect returns exactly that session's pages and leaves every other session's blocks |
| ServerSpec.DamagedWriteRefused | memoryd/src/memory_protocol.cpp:64-73 | A write damaged within four consecutive bytes is answered with a checksum mismatch and changes nothing |
| Daemon.ServeAll | memoryd/src/memory_protocol.cpp:36-108 | Whole runs on the arrays give the answers of the reference store, end in its state and conserve pages |
| Daemon.ServeFresh | memoryd/src/memory_daemon.cpp:22-25 | From an empty pool of any size, any events are answered as by the reference store and leave the arrays in its state, with free plus held pages equal to the total |
| Lru.FittingIsLongest | memclient/src/lru_cache.cpp:22-27 | What the eviction loop keeps fits, and no longer prefix does |
| Lru.LastIsOldest | memclient/src/lru_cache.cpp:71-76 | In every reachable list the last block is the one touched longest ago, and the map holds it |
| Lru.LruCache.Put | memclient/src/lru_cache.cpp:8-34 | Refuses what can never fit; otherwise the new block in front of the longest most recent run of the others that fits beside it, and nothing is dropped if all fit |
| Lru.LruCache.Get | memclient/src/lru_cache.cpp:36-48 | Returns the block and makes it the most recent; contents and byte count stay |
| Lru.LruCache.Remove | memclient/src/lru_cache.cpp:50-62 | Removes that block from list, map and byte count together |
| Lru.LruCache.EvictOne | memclient/src/lru_cache.cpp:64-79 | Takes out the block touched before every other, or nothing from an empty cache |
| Peers.OthersEvolve | memoryd/src/memory_protocol.cpp:51-107 | Every run of other sessions on a peer is an evolution that keeps all our blocks |
| Peers.ServedWrite | memoryd/src/memory_protocol.cpp:64-74 | A write to a block we still hold, in range, always takes effect, so its reply need not be looked at |
| Peers.ServedAlloc | memoryd/src/memory_protocol.cpp:53-57 | An allocation is granted exactly if the peer has room, and then is a fresh zeroed block under the counter's value |
| Peers.ServedStanding | memoryd/src/memory_protocol.cpp:51-87 | Every request of ours leaves the sum of a peer's free pages and the pages it holds for us, and all it says of itself |
| Stripes.CellsWrite | memclient/src/client_api.cpp:645-679 | Writing one piece writes exactly that run of the flat block and loses nothing elsewhere that was not lost |
| Transports.Transport.Call | memclient/src/client_api.cpp:394-419 | A call reaches the peer's store or does not, and the network may change before and after, restarted daemons included; what may have changed is bounded in each case, and the counters say what did |
| RemoteBlocks.Candidates | memclient/src/client_api.cpp:464-477 | The connected peers, those of known capacity first and then by free memory |
| RemoteBlocks.RankedIsSorted | memclient/src/client_api.cpp:464-477 | In every order of preference a peer of known capacity comes before those of unknown capacity and before known ones with less free memory |
| RemoteBlocks.TruthfulAddUp | memclient/src/client_api.cpp:528-578 | Over peers that have what they claim, the parts offered leave unplaced exactly the block less the sum of the claims |
| RemoteBlocks.UnknownTakesRest | memclient/src/client_api.cpp:534-542 | A peer of unknown capacity is offered all that is left |
| RemoteBlocks.PlaceableAlike | memclient/src/client_api.cpp:453-603 | Whether a block can be placed depends only on what the peers claim and have free |
| RemoteBlocks.FreeRemote | memclient/src/client_api.cpp:605-643 | Touches only this allocation's pieces, and if every call is answered none of them is held any more; if nothing else happens, every peer gets back exactly the pages of its pieces |
| RemoteBlocks.TrySingle | memclient/src/client_api.cpp:485-526 | One piece of the full size on a connected peer, or nothing held anywhere; if calls are answered and nothing else happens, it is on the first candidate that may fit it and has the pages, and fails exactly if there is none |
| RemoteBlocks.TryStripes | memclient/src/client_api.cpp:528-599 | Pieces in order, of positive length, on different peers, tiling the block; if they do not add up, all are given back; if calls are answered and nothing else happens, it succeeds exactly if the parts that the peers are offered and have the pages for add up to the block, and a failure leaves every peer's claims and free pages as they were |
| RemoteBlocks.AllocateRemote | memclient/src/client_api.cpp:453-603 | Either fresh pieces that tile the size and read as zeros, or every peer holds for us what it held before, if calls are answered; if nothing else happens, it succeeds if some connected peer would take the block or the peers together would, however the sort breaks ties, and only if they would for some way of breaking them; success costs no peer more pages than the block needs, and failure costs none |
| RemoteIo.WritePass | memclient/src/client_api.cpp:647-679 | One pass over the stripes covers any in-range write, so the outer loop ends after it |
| RemoteIo.WriteRemote | memclient/src/client_api.cpp:645-698 | Striped or not, the effect of one flat write; if it throws, each byte is old, new or lost, and if every call was answered nothing changed; with calls answered it throws exactly if the one peer of the block is not connected |
| RemoteIo.ReadPass | memclient/src/client_api.cpp:704-763 | One pass over the stripes covers any in-range read; if calls are answered it succeeds exactly if the range is complete and no stripe's part of it exceeds 64 MB; with release it has freed every stripe it read, and with a complete block exactly those before the first that is too long |
| RemoteIo.ReadRemote | memclient/src/client_api.cpp:700-811 | Striped or not, bytes returned are those of the flat block; fails on an empty read of a single peer; otherwise, with calls answered, it succeeds exactly if the range is complete and no piece's part of it exceeds 64 MB |
| RemoteIo.StuckCells | memclient/src/client_api.cpp:700-760 | After a reload stuck at a stripe too long for a reply, the stripes before it are lost and all others read as before |
| RemoteIo.ShedLoses | memclient/src/client_api.cpp:735-750 | Reloading a complete block with calls answered loses bytes if and only if a stripe above 64 MB follows another one |
| Client.MemoryClient.constructor | memclient/src/client_api.cpp:14-22 | The empty map |
| Client.MemoryClient.EvictBlock | memclient/src/client_api.cpp:882-927 | All or nothing: the oldest block moves to the peers, or it is back in the cache as it was with no remote entry; every handle reads as before; if calls are answered and nothing shifts, it moves if the peers can take it, costs them no more pages than it needs, and a failure costs none |
| Client.MemoryClient.EvictIfNeeded | memclient/src/client_api.cpp:875-930 | Every handle reads as before, also those evicted before a later failure; on success the cache holds exactly its longest most recent run that leaves the room asked for, and nothing at all under memory pressure; if calls are answered and nothing shifts, it fails only at a block that the peers cannot take at that moment, and never if some peer has room for all that is cached |
| Client.MemoryClient.Push | memclient/src/client_api.cpp:887-926 | A block and its registry entry move together or not at all; if calls are answered and nothing shifts, it moves if the peers can take it and only if they could for some way of breaking ties |
| Client.MemoryClient.LoadToLocal | memclient/src/client_api.cpp:932-957 | The block is in the cache and released on its peers, and every handle reads as before; no other handle changes unless a session ended; with calls answered and a complete block it loses bytes only if a stripe above 64 MB follows another one, and if it fits the cache without pressure, or some peer has room for all that is cached and nothing shifts, it succeeds exactly if no piece is above 64 MB; behind it the cache keeps its longest most recent run that fits |
| Client.MemoryClient.Reload | memclient/src/client_api.cpp:940-957 | With calls answered and a complete block: succeeds exactly if no piece is above 64 MB, and otherwise exactly the stripes before the first such one are lost |
| Client.MemoryClient.Allocate | memclient/src/client_api.cpp:434-451 | A fresh handle reading as zeros in one of the two tiers, or a throw that leaves the map; a cached one is in front of the longest most recent run that fits beside it; it succeeds if the block fits the cache without pressure; if calls are answered and nothing shifts, a block for the cache succeeds if some peer has room for all that is cached and fails only at a victim the peers cannot take, and one too large for it succeeds if the connected peers would take it, one of them or together |
| Client.MemoryClient.Free | memclient/src/client_api.cpp:813-824 | Removes that handle from whichever tier holds it; unknown handles are ignored |
| Client.MemoryClient.Read | memclient/src/client_api.cpp:826-847 | Bytes returned are those stored; invalid handle exactly for unknown handles; out of range only if it is; other handles change only if a session ended, and this one, with calls answered, only by a reload that sheds stripes; a cached block is always read; with calls answered a block used in place is read exactly if the range is complete and each piece's part is at most 64 MB, and a block that fits the cache exactly if no piece is above 64 MB, also if others must be evicted for it and some peer has room for all of them |
| Client.MemoryClient.Write | memclient/src/client_api.cpp:849-873 | A write that returns changed exactly its range; one that throws leaves its bytes old, new or lost and every other handle alone; with calls answered a thrown write changes nothing unless a reload sheds stripes, and a complete block used in place is always written; one that must be reloaded is written exactly if no piece is above 64 MB, if some peer has room for all that is cached and nothing shifts |
| Client.MemoryClient.OnPressure | memclient/src/client_api.cpp:18-22 | The pressure callback leaves the map as it is; on success the cache holds exactly the longest most recent run that leaves half its bytes or 1 MB free, and nothing while the system reports pressure; it succeeds if calls are answered, nothing shifts and some peer has room for all that is cached |
| Restarts.RestartMixesBlocks | memclient/src/client_api.cpp:329-339 | A daemon's counter is back at the handle of a piece the client still has there, and a new block of any length is placed on it: it gets the same reference, and that piece of the old handle reads as the new block, and as lost beyond its end |
| Restarts.RestartIsSetback | memclient/src/client_api.cpp:329-339 | A daemon that was just restarted is an evolution of the one before, and its counter has gone back |
| Restarts.CounterDecides | memoryd/src/page_tracker.cpp:34-39 | After some steps of other sessions our next allocation gets a given handle if and only if the counter is not past it |
| Restarts.CollisionAhead | memclient/src/client_api.cpp:329-339 | A new block can get a reference some handle goes by if and only if some daemon's counter is not past all of them |
| Restarts.CollisionIsReady | memclient/src/client_api.cpp:329-339 | Wherever a reference can be given out again, other sessions' steps lead to a daemon whose counter is at it and that has room |
| Restarts.CollisionMixes | memclient/src/client_api.cpp:329-339 | So at every possible collision, for every piece, a new block overwrites what the old handle reads as |
| Client.MemoryClient.Settle | memclient/src/client_api.cpp:329-339 | Once every daemon's counter is past all references in use, setbacks before that moment no longer count: every operation keeps this state, and the map, until the next one |
| ClientRoom.HeldByHandles | memclient/src/client_api.cpp:453-603 | What a peer holds for this client is never more than the blocks the client has on peers would take there, each at most once, striped or not |
| ClientRoom.RoomForAll | memclient/src/client_api.cpp:875-930 | In a calm world, a peer that has room for all the client's blocks at once always has room for those that are cached, whatever moved where before |
| ClientRoom.RoomForOne | memclient/src/client_api.cpp:434-451 | And for one block more, if it has room for that as well |
| ClientRun.Step | memclient/src/client_api.cpp:434-957 | Before any clash, each operation answers as the map of possible bytes allows and keeps the client within it; exactly, if no session ended, calls were answered and no reload shed stripes; and as the plain map answers, if the world is calm, nothing was lost, some peer has room for what is cached or allocated and the block can be used in either tier |
| ClientRun.Run | memclient/src/client_api.cpp:434-957 | Every run from an empty client, with any peers, restarts, losses, refusals and pressure, is consistent with a plain map up to the first clash, and has none while no counter goes back; if moreover no session ended, all calls were answered and no reload shed stripes, the client holds exactly that map; none does if every block is at most 64 MB or too large for the cache, and in a calm world all of this holds; if there one peer has room for all blocks of the program at any time and its blocks can be used in either tier, the whole trace, handles and errors included, is the one the operations alone determine on a plain map |
| ClientRun.SureMap | memclient/src/client_api.cpp:826-873 | Without a write that threw part-way each byte has one possible value, the one last written |
| ClientRun.SureReads | memclient/src/client_api.cpp:826-847 | Then every read that returns, in any such run, returns the bytes last written |
| InPlace.Receive | memclient/src/client_api.cpp:832-840 | A part of a block too large for the cache: the bytes its cells show; it succeeds if the peers serve, hold the block and the part is at most 64 MB |
| InPlace.Send | memclient/src/client_api.cpp:855-862 | Overwrites a part of such a block, or leaves it torn; it succeeds if the peers serve and hold the block |
| InPlace.Elsewhere | memclient/src/client_api.cpp:434-957 | Allocating, freeing, reading and writing other handles, pressure and time leave the block as it was unless a session ended or references clashed |
| FaultBackends.FaultBackend.RegionFor | platform/src/windows/page_fault_win.cpp:242-253 | Finds a region exactly if the address is in one, and it is the only one that contains the address |
| FaultBackends.FaultBackend.ForEachPage | platform/src/windows/page_fault_win.cpp:268-296 | Changes exactly the tracked pages of the range and keeps the resident count equal to the number of pages that are not absent |
| FaultBackends.FaultBackend.ReserveRegion | platform/src/windows/page_fault_win.cpp:79-104 | Fresh absent pages at the address the system offers, exactly if that address is a page and all the pages from there are unused; otherwise nothing |
| FaultBackends.FaultBackend.ReleaseRegion | platform/src/windows/page_fault_win.cpp:106-115 | Removes exactly that region's pages and takes its resident ones off the count |
| FaultBackends.FaultBackend.ResolveFault | platform/src/windows/page_fault_win.cpp:122-167 | The pages hold the data, are dirty if the fault was a store or protecting them failed, and stay guarded against unseen stores; on Linux the fill fails if a page is present, and exactly the present pages lose their tracking; a lenient system fills whenever the pages are tracked and, on Linux, none is present, and after a load they are not dirty, except on Linux |
| FaultBackends.FaultBackend.CopyIn | platform/src/linux/page_fault_linux.cpp:146-194 | Linux: recorded before the copy and unrecorded if it does not happen |
| FaultBackends.FaultBackend.MapIn | platform/src/macos/page_fault_mac.cpp:116-145 | Windows and macOS: filled, then protected, or dirty from the start if that fails |
| FaultBackends.FaultBackend.IsDirty | platform/include/meminfo/platform/IPageFaultBackend.h:61-68 | True exactly if a page of the range is dirty, and always if one was stored to since it was filled or cleared, except pages whose tracking was lost by filling or clearing them in the wrong state |
| FaultBackends.FaultBackend.ClearDirty | platform/src/windows/page_fault_win.cpp:174-191 | Either nothing changes and the pages stay dirty, or every later store to them traps again; off Linux no page of the range is then dirty: those that were are resident, the others and all pages outside keep their state; a lenient system clears every tracked range, on Windows if all of it is present |
| FaultBackends.ClearThenStore | platform/include/meminfo/platform/IPageFaultBackend.h:61-71 | On a range of resident pages: once cleared it is reported clean, except on Linux, where it is always reported dirty; the next store to it makes it dirty again; a lenient system clears it and lets the store through |
| FaultBackends.FaultBackend.EvictPages | platform/src/windows/page_fault_win.cpp:193-215 | On success every page of the range was tracked, is absent, traps and is empty, or on macOS not yet, and every other page keeps state and contents; on failure nothing changes, except that macOS may have discarded contents; a lenient system evicts every tracked range |
| FaultBackends.FaultBackend.Trap | platform/src/windows/page_fault_win.cpp:298-347 | The callback is asked only for absent pages; a store to a resident page is let through and recorded dirty, unless the system refuses, as a lenient one does not; a foreign address is passed on; nothing else is fatal to a store |
| FaultBackends.FaultBackend.Settle | platform/src/linux/page_fault_linux.cpp:289-336 | An unresolved fault is fatal on Windows and macOS and becomes a dirty zero page on Linux |
| FaultBackends.RefillForgets | platform/src/linux/page_fault_linux.cpp:184-191 | A page that was stored to and is filled again is not filled, is reported clean and counts as absent while its contents are still there |
| FaultBackends.ClearExposes | platform/src/macos/page_fault_mac.cpp:159-170 | Clearing an absent page makes it readable while it counts as absent; a lenient system does so |
| PageStates.CountDropped | platform/src/windows/page_fault_win.cpp:259-265 | Dropping a region's pages lowers the number of resident pages by the resident ones among them |
| PageStates.OneCover | platform/src/windows/page_fault_win.cpp:242-253 | A page belongs to at most one region |
| HeapModel.SpanHolds | memclient/src/remote_heap.cpp:105-120 | The operating-system pages the backend computes for a heap page hold exactly the bytes of that heap page |
| HeapModel.FetchedIsFlat | memclient/src/remote_heap.cpp:118-131 | Bytes fetched for an absent page are those the program last stored there |
| HeapModel.FillKeepsGood | memclient/src/remote_heap.cpp:141 | Mapping them in keeps memory and backing block in step with the flat memory |
| HeapModel.FlushKeepsGood | memclient/src/remote_heap.cpp:171-173 | A write-back puts the whole page on the peers and changes no other page |
| HeapModel.TornFlushKeepsGood | memclient/src/remote_heap.cpp:174-180 | A write-back that throws part-way leaves every clean page backed and the dirty ones in memory |
| HeapModel.EvictKeepsGood | memclient/src/remote_heap.cpp:203-212 | A page dropped after its write-back is still on the peers |
| HeapModel.StoreKeepsGood | memclient/src/remote_heap.cpp:110-213 | A store changes the flat memory at that byte only, and the page is dirty |
| HeapModel.BackedIsFlat | memclient/src/remote_heap.cpp:215-220 | If the peers lost nothing, a fully written-back heap is on them byte for byte |
| RemoteHeaps.FailuresRotate | memclient/src/remote_heap.cpp:157-159 | Any number of failed attempts only rotates the list of resident pages |
| RemoteHeaps.NewestSurvives | memclient/src/remote_heap.cpp:153-160 | The page just faulted in stays resident if and only if the failures before the eviction do not bring it to the front |
| RemoteHeaps.NewestCanBeEvicted | memclient/src/remote_heap.cpp:193-201 | Two pages, the older cannot be written back: the page just faulted in is evicted |
| RemoteHeaps.OldestGoes | memclient/src/remote_heap.cpp:153-160 | If write-backs succeed, at most one page goes, it is the oldest, and the newest stays |
| RemoteHeaps.RemoteHeap.FlushPage | memclient/src/remote_heap.cpp:162-184 | A page that is not dirty costs no call and changes nothing; else on return the page is on the peers, no page loses its backing, and it is clean, on a lenient system other than Linux; if the write throws the page stays dirty and resident; it does not throw if the peers serve and hold the block; nothing is damaged unless references clashed |
| RemoteHeaps.RemoteHeap.EvictOldest | memclient/src/remote_heap.cpp:186-213 | The oldest page is gone and backed, or at the back of the list with its contents; list, set and byte count agree; it goes if the peers serve, hold the block and the system does not refuse; at most that page is damaged, and only if macOS refused it |
| RemoteHeaps.RemoteHeap.EnforceBudget | memclient/src/remote_heap.cpp:153-160 | Ends within the budget after at most one eviction, with the list as the log of attempts says; hangs only after a failed attempt; no attempt fails if the peers serve, hold the block and the system refuses no eviction |
| RemoteHeaps.RemoteHeap.HandleFault | memclient/src/remote_heap.cpp:110-151 | The budget holds after every serviced fault; with successful write-backs the page is resident and at most the oldest is gone; if the peers serve, hold the block and the system refuses nothing, the fault is filled and every write-back succeeds; a load fault makes no page dirty, on a lenient system other than Linux |
| RemoteHeaps.RemoteHeap.Fetch | memclient/src/remote_heap.cpp:118-139 | Bytes fetched for an absent, undamaged page are those last stored there; they come if the peers serve and hold the block and a page is at most 64 MB |
| RemoteHeaps.RemoteHeap.Access | platform/src/windows/page_fault_win.cpp:298-371 | One attempt at an access: permitted, retried after one fault, or the end of the process; a resident page is accessible after one trap, an absent one is resident exactly if it was spared; at most one fault is left unfilled, none if the access was permitted; if all goes well the process lives and no write-back fails |
| RemoteHeaps.RemoteHeap.Readable | memclient/src/remote_heap.cpp:110-151 | A resident, undamaged page can be read without a fault |
| RemoteHeaps.RemoteHeap.Load | memclient/src/remote_heap.cpp:110-160 | A load that completes outside the damaged pages returns the byte last stored there, or zero; it completes at once on a resident page and after one retry otherwise, if the process lives, the page is undamaged and no write-back was refused; all three hold if the peers serve, hold the block and the system refuses nothing; a load makes no page dirty, on a lenient system other than Linux |
| RemoteHeaps.RemoteHeap.Store | memclient/src/remote_heap.cpp:110-160 | A store that completes changes that byte of the flat memory only; it completes after one retry on a resident page and two otherwise, under the same conditions |
| RemoteHeaps.RemoteHeap.Flush | memclient/src/remote_heap.cpp:215-220 | On success everything undamaged is on the peers; it succeeds if they serve and hold the block |
| RemoteHeaps.RemoteHeap.FlushAndEvictAll | memclient/src/remote_heap.cpp:222-235 | Ends; if nothing stays resident, everything undamaged is on the peers and no bytes are held; nothing stays if the peers serve, hold the block and the system refuses no eviction |
| HeapRuns.RoundUpNext | memclient/src/remote_heap.cpp:13-15 | The next multiple if the sum does not wrap, and zero if it does |
| HeapRuns.SizesFit | memclient/src/remote_heap.cpp:43-50 | Page size, capacity and budget are each the least multiple that is large enough, the budget at least one page, if and only if its rounding does not wrap; if it does, there is no page size, a capacity of zero or a budget of one page |
| HeapRuns.UnlimitedBudgetIsOnePage | memclient/src/remote_heap.cpp:50 | The largest possible budget becomes one page |
| HeapRuns.Create | memclient/src/remote_heap.cpp:29-84 | Nothing without a capacity or a working backend, and then no peer is asked; otherwise a heap of zeros larger than the client's cache at the address offered, or a throw that leaves neither address space nor block behind; if calls are answered and nothing shifts, it is created if the configuration makes sense, the address space is free and the peers can take the block |
| HeapRuns.Destroy | memclient/src/remote_heap.cpp:86-103 | The region and the backing block are gone and no other handle changes |
| HeapRuns.Step | memclient/src/remote_heap.cpp:110-235 | Each operation of the program, or of another user of the client, keeps the heap and the flat memory in step, and records a load only of a load and a store only of a store; it leaves at most as many faults unfilled as it makes attempts, and damages pages only as its causes allow; if all goes well it goes through |
| HeapRuns.Run | memclient/src/remote_heap.cpp:110-235 | Over every run of loads, stores, faults, evictions and flushes, with other users of the client and peers failing, every event is one of the operation at its place, and each completed load outside the damaged pages returns the plain memory of the completed stores; without exception on Windows before a clash; if no session ended, calls were answered, nothing clashed, the peers held the block and a page is at most 64 MB, no page is damaged on Linux unless a fill was refused, nor on macOS unless a fill or an eviction was; if nothing was refused, every load and store goes through and the run is exactly the program's on plain memory; and nothing is if nothing can be |
| HeapRuns.Session | memclient/src/remote_heap.cpp:29-235 | From creation on: the heap is created under the conditions of `Create`; if the peers serve and the system refuses nothing, every load and store with enough attempts goes through, and the run shows exactly what the program shows on plain memory; in a calm world with a lenient system this holds of every program, given only that the peers can take the block, the address space is free and a page is at most 64 MB |
| HeapRuns.ShowsProgram | memclient/src/remote_heap.cpp:110-235 | A faithful run in which everything went through shows, event by event, what the operations alone determine on plain memory |
| HeapRuns.LoadsBack | memclient/src/remote_heap.cpp:110-235 | A stored byte is what later loads there return until the next store there, whatever flushes, evictions and other uses lie between |

## Left out

- Concurrency: client, tracker and heap calls, faults, flushes and evictions are atomic steps; per-page locks and real interleavings are not modelled.
- Sockets, event loops, connection set-up, retries, timers and thread shutdown: the network is an arbitrary evolution of peer states.
- FlatBuffers encoding and verification: requests and responses are datatypes, frames are bytes behind a little-endian length.
- Lengths of encoded messages: a write of more than 64 MB in one message, or a reply within a few bytes of it, closes the connection in the code. In the model such a call may go unanswered or the session end, like any other, but it may also be served.
- Discovery, peer tables, GPU daemon, hooks, tools, Windows LAN sharing, dashboard, configuration and logging: they would only add easy members.
- The SSE4.2 path of the checksum, which is a hardware instruction.
- Address masks are written as rounding to a multiple of the page size, which is the same for the powers of two the systems use.
- Byte counts of the cache and handle counters are unbounded integers; only the arena, page tracker and heap sizing wrap or check 64 bits.
- Peers of equal rank are tried in the order of their numbers; the code's sort leaves that order open.
- How long a heap goes on trying to evict pages that cannot be written back: the process may hang after any failed attempt.
- A call of the operating system either has its whole effect or none. On macOS discarded pages lose their contents at once or never.
- Client.MemoryClient.Read: if other blocks must be evicted for a reload, promises that it succeeds only where some peer has room for all that is cached; peers that could take each in turn but not all may or may not do.
- ClientRun.Run: promises the foretold run only where one peer could hold all blocks of the program at once; several peers may also do. Blocks that cannot be used in either tier are those of the known limits above: empty ones, and cached ones above 64 MB.
- After a clash of references only the sizes of blocks, the set of handles and the errors for unknown handles are promised; a heap then has all pages damaged.
- FaultBackends.FaultBackend.IsDirty: does not promise to see stores to pages whose tracking was lost, because the code does not either (`FaultBackends.RefillForgets`, `FaultBackends.ClearExposes`).
- Other users of the client in `HeapRuns.Run` do not use the heap's own handle, which the heap keeps to itself.
- RemoteHeaps.RemoteHeap.WriteBack: reads a page's memory directly; on Linux a damaged page may be partly absent, and reading it there would fault under the heap's own lock.
- RemoteHeaps.RemoteHeap.HandleFault: the check that the fetched length is right is not repeated, because the client's contract already gives it.
- RemoteHeaps.RemoteHeap.EvictOldest: takes the oldest page rather than any index, which is how both callers use it.
