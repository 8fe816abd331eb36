# Verification model of the iSCSI initiator

A Dafny model of the `iscsi-lib` crate: the block device that puts byte-addressed reads and writes on top of a
coalescing buffer, a chunk cache and burst-sized SCSI commands; the session with its task tags, command window,
read reassembly and write transfer; and the codecs for headers, PDU streams, command blocks and login text.
Code that updates state in place is modelled by classes and loops, proved against functions and step relations
on values; the theorems are about those, over every input and every run.

## What is modelled

**Block device** (`DirtyMap`, `Cache`, `Pipeline`, `BlockSpec`, `Modes`, `Block`). `Pipeline.Target` is the SCSI target seen
through its medium: it answers reads of blocks and lets the write commands it is given complete in an arbitrary order.
`Pipeline.Pipeline` splits transfers into commands within one burst. `Cache.BlockCache` is a map from chunk
address to bytes that may lose entries at any moment, also in the middle of a read. `DirtyMap.DirtyMap` is the
coalescing buffer. `Block.BlockDeviceWorker` serves requests in turn, and between any two of them the
coalescing timer may fire, a readahead may fetch chunks of any range, and the cache may drop entries.
Its methods are proved to take the steps of the relation in `BlockSpec`, and about runs of that relation it is proved
that they answer as one flat byte array would (`BlockRefinement`, `Coalescing`). What is asked of a run
is then shown to be needed (`BlockLimits`, `FlushLimits`): for each condition it is proved, over the steps of the
relation and for all contents, that the promise holds exactly when the condition does. Runs that start with an empty
buffer, on any device and medium, show that what happens otherwise can be come by (`LimitRuns`).

**Session** (`Bits`, `IttPool`, `TagSystem`, `CmdWindow`, `Reassembly`, `WriteTransfer`, `WriteDelivery`, `Session`,
`ReadDelivery`, `Transfers`). The tag
allocator works on two 64-bit words with real bit operations. `TagSystem` is the system of any number of submitters racing
through load and compare-and-swap steps (which may fail spuriously), callers that time out, a target that answers
each command once in any order, and the receiver; the accesses of `IttPool.IttPool` to its words and senders are proved
to take its steps. `CmdWindow` is the system of submitters that check CmdSN and
later increment it; the counters are unbounded and the machine's words are those modulo 2^32. `Session.Session`
holds the receiver loop and its handlers; read data is put together per tag, R2Ts are answered with Data-Outs and
pings with pongs, while other tasks send PDUs and register write data at any moment. `WriteDelivery` says what the
handled PDUs make the receiver write, and what a target makes of the stream, with many tags interleaved on it.
`ReadDelivery` says the same of the other direction, from the fields of the target's headers to the answers and the PDUs
sent in return; `Transfers` submits single commands with their blocks.

**Codecs** (`Pdu`, `HeaderBytes`, `Transport`, `Streams`, `Command`, `Login`, `Agreed`). Headers are twelve rows of 32 bits,
written in place by the builders; the layout follows RFC 7143 sections 11.2 to 11.19. Command blocks are decoded as SBC-4 lays them
out. Login text follows RFC 7143 section 13; a key's value is a number, truth being one, and `Agreed` says by the keys'
names what an accepted response makes of each parameter.

`Overlay` holds the theory that disk writes, Data-Ins and Data-Outs share: patches laid over a byte string, and what
happens when they are laid in another order. `Arithmetic`, `Bytes`, `Sets` and `Wrappers` are helpers. `Sealing`
keeps a predicate's definition out of a proof until the proof asks for it.

## Where a promise needs a condition

- A read's length is the distance to the end of the device cut to 32 bits, so a read far from the end of a large
  device can come back short or empty (`AnswerIsCompleteIff`, `NothingFourGigabytesFromTheEnd`).
- Whole chunks are fetched, so reads near the end of a device whose size is not a multiple of the chunk size fail
  (`EveryReadAnsweredIff`). The refinement theorems allow a read to fail for this reason and for no other.
- The cache is invalidated when a write is buffered, not when it is flushed: a chunk cached in between stays stale
  after the flush (`StaleReadAfterFlush`, `FlushKeepsCoherenceIff`). In sync mode there is no in-between.
- A dirty entry is known by its first block only, and read-modify-write reads the medium and not the buffer, so in
  coalescing mode a write can lose bytes of another one (`WriteRightIff`, `LostWrite`), and a read that is only
  partly dirty misses the new bytes (`ReadRightIff`, `PartlyDirtyRead`). The comment on `read_overlap` promises read-your-writes; the code keeps that
  promise only in these cases.
- The window check and the increment are separate steps: with k concurrent submitters a CmdSN can pass MaxCmdSN by
  up to k - 1, which RFC 7143 section 4.2.2.1 does not allow (`WindowRespectedIff`).
- A PDU whose header length is zero although data follows, or whose length does not fit 24 bits, does not arrive
  (`RoundTripIff`). Segment limits of 2^24 and more, which only a misbehaving peer announces, make such PDUs.
- The header digest covers additional header segments, which are never put on the wire, so a PDU with such segments
  fails the check at the other end unless the checksum happens not to notice them (`Framed`).
- `encode_lun` keeps only the low 8 bits of a unit number (`LunRoundTripIff`).

## Model

| member | source | states |
|---|---|---|
| Block.BlockDeviceWorker.Run | crates/iscsi-lib/src/block/mod.rs:264-313 | Serving any requests, with timer flushes, readaheads and evictions in between any two, is a run of the step relation with just these replies, ending with nothing dirty and in the mode requested last; from sync mode with an empty buffer and a coherent cache every reply is that of a flat byte array with the clamped writes applied in order, and the medium ends as that array |
| Block.RepliesAreFlat | crates/iscsi-lib/src/block/mod.rs:264-313 | The same for every run with these requests and replies: all replies are the flat device's and the final medium is that device |
| Block.RunEndsInMode | crates/iscsi-lib/src/block/mod.rs:287-288 | In every run the mode at the end is the one the callers requested last, or the initial one |
| Modes.ModeIsLastAsked | crates/iscsi-lib/src/block/mod.rs:287-288 | At every moment of every run, in whichever mode it began, the mode is the one asked for last |
| Modes.SyncWritesAreOnMedium | crates/iscsi-lib/src/block/mod.rs:420-427 | Whenever the mode asked for last is sync, over every guarded run: after each answered write nothing is dirty and the medium is the flat array with all writes so far |
| Modes.CoalescedWritesAreBuffered | crates/iscsi-lib/src/block/mod.rs:414-428 | Whenever it is not, over every run: a write that together with what is dirty stays below the threshold leaves the medium as it was and its bytes in the buffer |
| Block.BlockDeviceWorker.HandleRead | crates/iscsi-lib/src/block/mod.rs:317-375 | A read takes a read step: clamped in 32 bits, from one dirty entry if it holds all the blocks, else through the cache |
| Block.BlockDeviceWorker.HandleWrite | crates/iscsi-lib/src/block/mod.rs:379-432 | A write takes a write step: clamped, read-modify-write unless it is whole blocks, buffered, cache invalidated, flushed in sync mode or past the threshold |
| Block.BlockDeviceWorker.FlushDirty | crates/iscsi-lib/src/block/mod.rs:436-475 | A flush drains all entries and applies all their write commands in some order |
| Block.BlockDeviceWorker.PrepareWrite | crates/iscsi-lib/src/block/mod.rs:393-412 | The bytes buffered are the data itself or the medium's blocks with the data laid over them; too short a read is an error |
| Block.BlockDeviceWorker.constructor | crates/iscsi-lib/src/block/mod.rs:251-261 | A worker starts with an empty dirty map and the given mode |
| BlockRefinement.SyncRunIsFlat | crates/iscsi-lib/src/block/mod.rs:317-475 | Sync mode, every run: each event answers as the flat array with the writes before it; between events nothing is dirty, the medium is the flat array, and every cached chunk equals it |
| BlockRefinement.DisciplinedRunIsFlat | crates/iscsi-lib/src/block/mod.rs:264-475 | Any mode, every run whose events keep clear of partly dirty ranges: the same answers, the medium with the dirty entries laid over it is the flat array, and it is the medium once nothing is dirty |
| BlockRefinement.StepKeeps | crates/iscsi-lib/src/block/mod.rs:264-475 | One step of any kind keeps the invariant for the flat device after it and answers rightly |
| BlockRefinement.FlushReachesImage | crates/iscsi-lib/src/block/mod.rs:436-466 | Whatever order the concurrent writes finish in, a flush makes the medium the image of the dirty map and changes nothing else |
| BlockRefinement.BufferKeeps | crates/iscsi-lib/src/block/mod.rs:388-418 | Buffering a write before any flush is the flat write seen through the larger dirty map, with the cache still coherent |
| BlockRefinement.WriteDataIsFlat | crates/iscsi-lib/src/block/mod.rs:393-412 | The entry made for any byte range holds exactly what the flat device holds on those blocks after the write: the clamped bytes change and no others |
| BlockRefinement.ReadThroughIsDisk | crates/iscsi-lib/src/block/cache.rs:80-134 | From a coherent cache, under any evictions, what is read for a block range is exactly the medium's slice |
| BlockSpec.AlignmentIsSmallest | crates/iscsi-lib/src/block/mod.rs:483-490 | The block range is the smallest one covering the bytes, start times block size plus skip is the offset, and the skip is less than a block |
| BlockSpec.AlignmentFits | crates/iscsi-lib/src/block/mod.rs:487-487 | Fewer than 2^32 bytes never need so many blocks that the count is cut |
| Coalescing.CoalescedRunIsFlat | crates/iscsi-lib/src/block/mod.rs:199-220 | Runs of whole-block writes with pairwise identical or disjoint extents, in any succession with flushes and timer ticks: dirty entries stay disjoint, the medium overlaid with them is the flat array, and every flush reaches that array |
| Coalescing.BufferStaysSmall | crates/iscsi-lib/src/block/mod.rs:420-428 | In every run, whatever is asked, between requests the buffer holds less than the threshold or nothing; nothing at all while the mode stays sync |
| FlushLimits.WriteRightIff | crates/iscsi-lib/src/block/mod.rs:379-466 | For every medium, cache, buffer contents and data of these extents: every write step followed by a flush, whichever way the commands complete, leaves the medium as the flat array with the write, if and only if each dirty entry is apart from the blocks written, or starts where the bytes start and is overwritten whole |
| BlockLimits.ReadRightIff | crates/iscsi-lib/src/block/mod.rs:327-339 | For all contents, every answered read step before the flush gives the flat bytes, if and only if one dirty entry holds all its blocks or no entry holds any of its bytes |
| FlushLimits.FlushKeepsCoherenceIff | crates/iscsi-lib/src/block/mod.rs:414-466 | For all contents every flush step, whichever way the commands complete, leaves a coherent cache coherent, if and only if no cached chunk meets a dirty entry |
| LimitRuns.StaleReadAfterFlush | crates/iscsi-lib/src/block/mod.rs:303-310 | On any device, from any medium with an empty buffer and cache: a run in which a chunk prefetched between the write of a block and the flush makes a later read return what was there before, if that differs |
| LimitRuns.LostWrite | crates/iscsi-lib/src/block/mod.rs:199-208 | On any such device: a run in which a second write to the first of two written blocks makes what the first write put in the other one never reach the medium |
| LimitRuns.PartlyDirtyRead | crates/iscsi-lib/src/block/mod.rs:327-339 | On any such device: a run in which a read of a written block together with the next one, before any flush, returns what was there before |
| LimitRuns.EveryDeviceHasPlace | crates/iscsi-lib/src/block/cache.rs:58-73 | Every device with 64 KB chunks, two blocks and a whole chunk has a place where these runs are possible |
| BlockLimits.AnswerIsCompleteIff | crates/iscsi-lib/src/block/mod.rs:323-323 | An answered read has all its bytes up to the end of the device if and only if the end is less than 2^32 bytes away or the low 32 bits of the distance do not cut it |
| BlockLimits.NothingFourGigabytesFromTheEnd | crates/iscsi-lib/src/block/mod.rs:323-323 | Exactly 2^32 bytes before the end, an answered read is empty |
| BlockLimits.EveryReadAnsweredIff | crates/iscsi-lib/src/block/cache.rs:106-114 | With nothing dirty, whatever medium and cache hold, no read step fails, if and only if the size of the device is a multiple of the chunk's |
| DirtyMap.DirtyMap.Insert | crates/iscsi-lib/src/block/mod.rs:199-208 | The entry at the first block is replaced, and the running byte total stays the sum of all entries' lengths |
| DirtyMap.DirtyMap.DrainSorted | crates/iscsi-lib/src/block/mod.rs:211-220 | All entries come out once each in ascending order, and the map is empty with total zero |
| DirtyMap.DirtyMap.Lookup | crates/iscsi-lib/src/block/mod.rs:225-244 | The lookup returns what ReadOverlap says |
| DirtyMap.ReadOverlapExact | crates/iscsi-lib/src/block/mod.rs:222-244 | On disjoint entries the lookup, which inspects one key, succeeds if and only if some entry contains the whole range |
| DirtyMap.ReadOverlapAt | crates/iscsi-lib/src/block/mod.rs:233-241 | If an entry contains the range, the bytes returned are that entry's bytes for exactly that range |
| DirtyMap.DirtyBytesInsert | crates/iscsi-lib/src/block/mod.rs:200-207 | Replacing an entry changes the sum of lengths by the difference of the two |
| DirtyMap.InOrder | crates/iscsi-lib/src/block/mod.rs:212-216 | Walking the ordered map lists each entry once in ascending order |
| Cache.BlockCache.ReadBlocks | crates/iscsi-lib/src/block/cache.rs:86-134 | Under arbitrary evictions the answer is the medium seen through the entries still there when visited; it succeeds if and only if all visited chunks lie inside the device; only old entries and fresh chunks remain cached |
| Cache.BlockCache.InvalidateRange | crates/iscsi-lib/src/block/cache.rs:138-147 | Exactly the chunks meeting the range are gone |
| Cache.BlockCache.Prefetch | crates/iscsi-lib/src/block/cache.rs:238-251 | A readahead adds only chunks as the medium has them |
| Cache.BlockCache.ChunkLba | crates/iscsi-lib/src/block/cache.rs:76-78 | Rounding by division gives the greatest chunk start at or below the address |
| Cache.BlockCache.constructor | crates/iscsi-lib/src/block/cache.rs:58-73 | An empty cache whose chunks have 64 KB divided by the block size blocks |
| Cache.Geometry.SpanIffOverlap | crates/iscsi-lib/src/block/cache.rs:96-100 | A chunk is visited for a non-empty range if and only if it overlaps the range |
| Cache.Geometry.CoherentIffViewIsDisk | crates/iscsi-lib/src/block/cache.rs:80-134 | Every cached chunk equals the medium if and only if looking through the cache shows the medium |
| Cache.Geometry.ChunkOfUnique | crates/iscsi-lib/src/block/cache.rs:75-78 | Chunks are disjoint: the bytes of one belong to no other |
| Pipeline.ChunkListTiles | crates/iscsi-lib/src/iscsi/pipeline.rs:501-514 | The chunks tile the range in order, ceil(count/max) of them, all full but possibly the last |
| Pipeline.ChunksWithinBurst | crates/iscsi-lib/src/iscsi/pipeline.rs:78-86 | No chunk moves more bytes than the negotiated burst, and none is empty |
| Pipeline.BurstHoldsBlocksIff | crates/iscsi-lib/src/iscsi/pipeline.rs:529-534 | The chunk size is positive, so that the chunk loop ends, if and only if the burst is at least one block |
| Pipeline.ComputeReadChunks | crates/iscsi-lib/src/iscsi/pipeline.rs:501-514 | The loop computes the chunk list |
| Pipeline.Pipeline.ScsiRead | crates/iscsi-lib/src/iscsi/pipeline.rs:96-131 | Chunked reads joined in order, each within the burst, equal one read of the whole range; outside the medium it fails |
| Pipeline.Pipeline.ScsiWrite | crates/iscsi-lib/src/iscsi/pipeline.rs:145-195 | Chunk writes completing in any order equal one write of the whole blocks; it succeeds if and only if they fit |
| Pipeline.Pipeline.SplitWrite | crates/iscsi-lib/src/iscsi/pipeline.rs:158-184 | Consecutive slices of the data go to consecutive chunks, none empty and none longer than the burst |
| Pipeline.JobsWithinBurst | crates/iscsi-lib/src/iscsi/pipeline.rs:158-184 | No command of a write moves more than the burst holds, and none moves nothing |
| Pipeline.JobsWriteAll | crates/iscsi-lib/src/iscsi/pipeline.rs:158-195 | The commands of one write, applied in any order, are one splice of its data |
| Pipeline.JobsFitIff | crates/iscsi-lib/src/iscsi/pipeline.rs:158-195 | All commands of a write fit the device if and only if the whole write does |
| Pipeline.WholeBlocksExactIff | crates/iscsi-lib/src/iscsi/pipeline.rs:151-151 | No byte of a write is dropped if and only if its length is below 2^32 and a multiple of the block size |
| Pipeline.Target.Complete | crates/iscsi-lib/src/iscsi/pipeline.rs:186-192 | Concurrent writes take effect one at a time in some order; all succeed if and only if all fit |
| Overlay.AnyOrder | crates/iscsi-lib/src/block/mod.rs:444-466 | Writes that do not overlap reach one image in every order of completion |
| Overlay.OrderHarmlessIff | crates/iscsi-lib/src/block/mod.rs:444-466 | Completion order is harmless for all contents if and only if no two extents overlap |
| Overlay.SlicesRebuildInAnyOrder | crates/iscsi-lib/src/block/mod.rs:444-466 | Slices of one image that fill in all that is missing rebuild it in any order, overlapping or not |
| TagSystem.TagSafety | crates/iscsi-lib/src/iscsi/session.rs:67-119 | In every interleaving no two live commands share a tag, tags are below 128, the set bits are exactly the live tags and the one being freed, and each answer delivered is to its receiver's own command, at most one each |
| TagSystem.EveryoneAnswered | crates/iscsi-lib/src/iscsi/session.rs:187-195 | In every run that ends with all commands answered and the receiver idle, who sent and did not time out has been handed its own answer exactly once, who was handed one had sent and did not time out, who timed out ended without one, and only commands not yet sent hold tags |
| TagSystem.StepKeeps | crates/iscsi-lib/src/iscsi/session.rs:67-195 | Every single step of any submitter, the target or the receiver keeps the invariant |
| IttPool.IttPool.Alloc | crates/iscsi-lib/src/iscsi/session.rs:67-119 | Run alone, however often the exchange fails for no reason, the lowest free tag is taken and its waiter stored; it fails if and only if all 128 are taken |
| IttPool.IttPool.LoadLo | crates/iscsi-lib/src/iscsi/session.rs:70-72 | At any moment of the system of submitters and receiver, loading the first word takes the system's load step; the loop goes on to the second word if and only if no bit is free |
| IttPool.IttPool.SwapLo | crates/iscsi-lib/src/iscsi/session.rs:74-89 | At any moment, the exchange takes the system's swap step: the tag is claimed if and only if the word is still the one loaded and the exchange does not fail spuriously |
| IttPool.IttPool.LoadHi | crates/iscsi-lib/src/iscsi/session.rs:97-99 | The same for the second word; no tag is had if and only if no bit is free |
| IttPool.IttPool.SwapHi | crates/iscsi-lib/src/iscsi/session.rs:101-114 | The same for the second word, whose tags start at 64 |
| IttPool.IttPool.StoreWaiter | crates/iscsi-lib/src/iscsi/session.rs:85-85 | Storing the sender of a claimed tag takes the system's store step |
| IttPool.IttPool.TakeWaiter | crates/iscsi-lib/src/iscsi/session.rs:189-189 | Taking out the sender for the answer at hand takes the system's take step and yields whoever waits in the system |
| IttPool.IttPool.Free | crates/iscsi-lib/src/iscsi/session.rs:175-183 | Exactly that tag is freed, which is the system's free step at any moment it is due |
| IttPool.IttPool.Complete | crates/iscsi-lib/src/iscsi/session.rs:187-195 | The stored waiter is taken out, and the tag is freed |
| IttPool.IttPool.OutstandingItts | crates/iscsi-lib/src/iscsi/session.rs:234-254 | Exactly the taken tags, in strictly ascending order |
| Bits.SetBits | crates/iscsi-lib/src/iscsi/session.rs:239-244 | Peeling off the lowest set bit lists every set bit once, ascending, in as many turns as there are bits |
| Bits.BitsOfDropLowest | crates/iscsi-lib/src/iscsi/session.rs:243-243 | bits & (bits - 1) clears exactly the lowest set bit |
| Bits.LowestFree | crates/iscsi-lib/src/iscsi/session.rs:71-71 | The trailing zeros of the complement are the lowest clear bit, 64 if there is none |
| Bits.BitsOfSet | crates/iscsi-lib/src/iscsi/session.rs:73-76 | Or with the mask adds exactly that bit |
| Bits.BitsOfClear | crates/iscsi-lib/src/iscsi/session.rs:178-181 | And with the inverted mask removes exactly that bit |
| CmdWindow.StampsStayNearWindow | crates/iscsi-lib/src/iscsi/session.rs:363-380 | In every run of k submitters stamped CmdSNs are consecutive and pass the current MaxCmdSN by at most k - 1 |
| CmdWindow.BoundIsMet | crates/iscsi-lib/src/iscsi/session.rs:363-380 | For every k > 0 some run reaches that bound |
| CmdWindow.WindowRespectedIff | crates/iscsi-lib/src/iscsi/session.rs:286-290 | The window is respected in every run if and only if at most one submitter runs |
| CmdWindow.CheckAgrees | crates/iscsi-lib/src/iscsi/session.rs:286-306 | In every run the 32-bit check agrees with the unbounded counters while the number is less than 2^31 below the ceiling |
| CmdWindow.SerialLeSeesDistance | crates/iscsi-lib/src/iscsi/session.rs:301-306 | The wrapped comparison holds if and only if the distance modulo 2^32 is below 2^31 |
| CmdWindow.SerialLeAgrees | crates/iscsi-lib/src/iscsi/session.rs:297-306 | While counters are less than 2^31 apart the wrapped comparison is theirs |
| CmdWindow.SessionState.CheckMaxCmdSn | crates/iscsi-lib/src/iscsi/session.rs:286-290 | The second half of the check takes the system's check step |
| CmdWindow.SessionState.LoadCmdSn | crates/iscsi-lib/src/iscsi/session.rs:286-287 | The first half of the check takes the system's load step |
| CmdWindow.SessionState.TakeCmdSn | crates/iscsi-lib/src/iscsi/session.rs:380-380 | The wrapping increment takes the system's take step and yields its number |
| CmdWindow.SessionState.UpdateSequenceNumbers | crates/iscsi-lib/src/iscsi/session.rs:512-523 | The header's three numbers are stored whatever they are; if the ceiling they stand for is not below the current one, that is the system's raise step |
| CmdWindow.SessionState.constructor | crates/iscsi-lib/src/iscsi/session.rs:273-280 | A session starts with a window of one number |
| Session.ReadIsAnswered | crates/iscsi-lib/src/iscsi/session.rs:556-595 | When the data for a tag since its previous command ended are slices covering a source buffer, in any order and among any PDUs of other tags, the tag's waiter is handed exactly that buffer |
| ReadDelivery.ReadIsDelivered | crates/iscsi-lib/src/iscsi/session.rs:465-595 | From the target's PDUs on the stream, read by the fields of their headers, to the answer: if the Data-Ins of a command bring slices of a buffer at their buffer offsets and together all of it, in any order and among PDUs of any tags, then over every run of the receiver the tag's waiter is handed exactly that buffer, with the status of the PDU that ends the command |
| ReadDelivery.EndIsAnswered | crates/iscsi-lib/src/iscsi/session.rs:533-595 | Over every run a PDU that ends a command is answered to the tag's waiter with its status, and with the data of a response, as after a CHECK CONDITION, as sense data; any other PDU is answered to nobody |
| ReadDelivery.NothingIsDelivered | crates/iscsi-lib/src/iscsi/session.rs:533-554 | A command whose PDUs bring no data is answered without data |
| ReadDelivery.ArrivalReads | crates/iscsi-lib/src/iscsi/session.rs:561-595 | What a PDU does to the buffers, for every header by the message it reads as: its data goes to its buffer offset, and a response or the S bit ends the command |
| ReadDelivery.RequestIsAnswered | crates/iscsi-lib/src/iscsi/session.rs:601-683 | For every R2T header by the message it reads as, inside the registered data: the Data-Outs carry its tag, its transfer tag and its status number plus one, are numbered from zero, follow each other without gap from its offset to its end with the data's bytes there, and only the last is final; without registered data there are none |
| ReadDelivery.PingIsAnswered | crates/iscsi-lib/src/iscsi/session.rs:690-710 | For every other header: a ping's answer has the reserved tag, the ping's transfer tag, the current CmdSN and its status number plus one; nothing else is answered |
| Session.Session.Receive | crates/iscsi-lib/src/iscsi/session.rs:465-502 | While other tasks take tags, register data and send PDUs at any moment, the receiver handles exactly the PDUs at the front of the stream, until no more can be read or a handler fails; buffers are those of the PDUs' histories, each answer goes to whoever waited for its tag, and the stream gets exactly the PDUs the handled ones ask for, in their order, interleaved with the other tasks' |
| Session.Session.Dispatch | crates/iscsi-lib/src/iscsi/session.rs:475-499 | The session's numbers become the header's; a PDU that ends a command is answered to the tag's waiter and frees the tag, no other is; and what is written is exactly what the PDU asks for |
| Session.Session.HandleDataIn | crates/iscsi-lib/src/iscsi/session.rs:561-595 | Data is laid at its offset of the tag's buffer; with the S bit the buffer is handed over and removed and the waiter taken out; registered write data stays |
| Session.Session.HandleScsiResponse | crates/iscsi-lib/src/iscsi/session.rs:533-554 | The tag's buffer is handed over and removed with the status and the sense data, the waiter taken out, and its write data dropped |
| Reassembly.ResponseIsSourceIff | crates/iscsi-lib/src/iscsi/session.rs:561-595 | The response is the source buffer if and only if the slices that came reach its end and leave out only zeros; no buffer is left for the tag |
| Reassembly.CoveredReadIsAnswered | crates/iscsi-lib/src/iscsi/session.rs:561-595 | Slices covering a non-empty source give just that buffer, and other tags are not touched |
| Reassembly.BuffersAreHistories | crates/iscsi-lib/src/iscsi/session.rs:561-595 | However tags interleave, each buffer is made of its own tag's data alone and exists only while a command has data and has not ended |
| Reassembly.LaidRebuildsIff | crates/iscsi-lib/src/iscsi/session.rs:566-574 | Growing a buffer slice by slice rebuilds the source if and only if the furthest slice ends where it ends and uncovered bytes are zero |
| WriteDelivery.WriteIsDeliveredIff | crates/iscsi-lib/src/iscsi/pipeline.rs:437-456 | From data to target over whatever the receiver writes in a run, R2Ts of any tags in any order and other tasks' PDUs in between: the stream decodes to exactly the PDUs sent, and for a tag's latest command, laying its immediate data and the tag's Data-Outs since at their headers' offsets rebuilds the write data if and only if every byte was sent immediately, asked for by an R2T of the tag, or there already |
| WriteDelivery.DataOutsAreDeliveredIff | crates/iscsi-lib/src/iscsi/session.rs:601-683 | In any stream whose PDUs for a tag, from its latest command on, are that command and the Data-Outs of some R2Ts inside the data, in any order: laying them rebuilds the data if and only if nothing is missing |
| WriteDelivery.TagOutput | crates/iscsi-lib/src/iscsi/session.rs:475-499 | However many tags' R2Ts are answered in between, what the receiver writes has for each tag just the Data-Outs of that tag's R2Ts, in order |
| WriteDelivery.CommandArrivesIff | crates/iscsi-lib/src/iscsi/session.rs:383-402 | A command arrives as meant if and only if its immediate data, if any, is non-empty and below 2^24 bytes |
| WriteDelivery.BuiltHeader | crates/iscsi-lib/src/iscsi/session.rs:383-390 | A built header survives serialising and parsing, and the accessors find in it what the builder was given |
| WriteTransfer.WriteArrivesIff | crates/iscsi-lib/src/iscsi/session.rs:601-683 | In whatever order immediate data and Data-Outs are laid, the target has the write data if and only if every byte was sent, asked for or right already |
| WriteTransfer.SegmentsOfRequest | crates/iscsi-lib/src/iscsi/session.rs:637-680 | For a request inside the data the Data-Outs join to the requested slice, follow each other without gap, are numbered from zero, non-empty, within the limit, and only the last is final |
| WriteTransfer.AnsweredInFullIff | crates/iscsi-lib/src/iscsi/session.rs:640-680 | A request is answered in full if and only if it lies inside the data |
| WriteTransfer.RunsOffTheEndIff | crates/iscsi-lib/src/iscsi/session.rs:643-645 | The slice goes out of range if and only if the last segment would start beyond the data |
| WriteTransfer.DataOutsArriveIff | crates/iscsi-lib/src/iscsi/session.rs:648-672 | A list of Data-Outs arrives whole if and only if no segment is empty or of 2^24 bytes or more |
| WriteTransfer.DataOutReads | crates/iscsi-lib/src/iscsi/session.rs:648-661 | The accessors of a received Data-Out give the segment's offset, number, finality, length and tags |
| WriteTransfer.RequestIsSmall | crates/iscsi-lib/src/iscsi/session.rs:628-661 | Below 4 GB and with a limit below 2^24, every segment fits its header fields |
| WriteTransfer.Immediate | crates/iscsi-lib/src/iscsi/pipeline.rs:438-447 | If allowed, as much of the data as the first burst has room for goes with the command, never nothing and never more |
| WriteTransfer.MaxSegment | crates/iscsi-lib/src/iscsi/session.rs:628-634 | The segment limit is the target's wherever it set one, else ours, and never zero |
| Session.Session.HandleR2t | crates/iscsi-lib/src/iscsi/session.rs:601-683 | Without registered data nothing is sent; with it, exactly the Data-Outs of the requested slice, in order, with other tasks' PDUs possibly in between |
| Session.Session.HandleNopIn | crates/iscsi-lib/src/iscsi/session.rs:690-710 | A target's ping is answered once with its transfer tag; the answer to our own ping is not |
| Session.Session.SendSegments | crates/iscsi-lib/src/iscsi/session.rs:636-682 | The loop writes the Data-Outs of the request, in order, or stops where it runs off the data; other tasks may write between any two of them |
| Session.Session.SendCommand | crates/iscsi-lib/src/iscsi/session.rs:383-402 | What is written is received, whatever follows, as a command with just these fields and this data, if and only if there is no immediate data or it is between one byte and 2^24 - 1 bytes |
| Session.CommandIsReceivedIff | crates/iscsi-lib/src/iscsi/session.rs:383-402 | The same for the bytes of the command's PDU, for all arguments |
| Transfers.SubmitRead | crates/iscsi-lib/src/iscsi/pipeline.rs:362-380 | The command of a read is received with a block that decodes to the read of these blocks, the R bit alone, its transfer length and no data |
| Transfers.SubmitWrite | crates/iscsi-lib/src/iscsi/pipeline.rs:422-456 | The command of a write is received with a block that decodes to the write of these blocks, the W bit alone, its transfer length and the first bytes of the data up to the first burst if immediate data is allowed; all data is registered for its tag |
| Session.CommandFits | crates/iscsi-lib/src/iscsi/session.rs:383-402 | With the immediate data that a first burst below 2^24 lets go with it, a command's PDU fits its header and is framed |
| Pdu.BuiltReadsBack | crates/iscsi-lib/src/iscsi/pdu.rs:141-215 | For every builder, the accessors of the parsed wire form return the builder's arguments if and only if the header has room for them |
| Pdu.Reserialised | crates/iscsi-lib/src/iscsi/pdu.rs:90-135 | Re-serialising what parses clears byte 4 and bit 7 of byte 0 and changes nothing else, and parses to the same fields |
| Pdu.ReserialisedTwice | crates/iscsi-lib/src/iscsi/pdu.rs:90-135 | A second pass changes nothing; the first changes nothing if and only if those bits were clear |
| Pdu.HeaderOfWire | crates/iscsi-lib/src/iscsi/pdu.rs:90-135 | A built header is a fixed point of serialising and parsing |
| Pdu.TryFrom | crates/iscsi-lib/src/iscsi/pdu.rs:37-63 | An opcode is recognised if and only if it is some opcode's code, and then it is that one |
| Pdu.Bhs.Serialize | crates/iscsi-lib/src/iscsi/pdu.rs:90-111 | The 48 bytes are the wire form |
| Pdu.Bhs.SyncRawFromFields | crates/iscsi-lib/src/iscsi/pdu.rs:246-255 | The common fields go to their rows; other bytes stay |
| Pdu.Bhs.SetRawU32 | crates/iscsi-lib/src/iscsi/pdu.rs:258-260 | One row changes and no other |
| Pdu.BuildScsiCommand | crates/iscsi-lib/src/iscsi/pdu.rs:273-301 | The serialised header has the rows of RFC 7143 section 11.3 |
| Pdu.BuildDataOut | crates/iscsi-lib/src/iscsi/pdu.rs:304-330 | The serialised header has the rows of RFC 7143 section 11.7 |
| Pdu.BuildLoginRequest | crates/iscsi-lib/src/iscsi/pdu.rs:334-369 | The serialised header has the rows of RFC 7143 section 11.12 |
| Pdu.BuildNopOut | crates/iscsi-lib/src/iscsi/pdu.rs:372-388 | The serialised header has the rows of RFC 7143 section 11.18 |
| Pdu.BuildLogoutRequest | crates/iscsi-lib/src/iscsi/pdu.rs:391-410 | The serialised header has the rows of RFC 7143 section 11.14 |
| Pdu.BuildScsiResponse | crates/iscsi-lib/src/iscsi/pdu.rs:414-439 | The serialised header has the rows of RFC 7143 section 11.4 |
| Pdu.BuildDataIn | crates/iscsi-lib/src/iscsi/pdu.rs:442-479 | The serialised header has the rows of RFC 7143 section 11.7 |
| Pdu.BuildNopIn | crates/iscsi-lib/src/iscsi/pdu.rs:482-507 | The serialised header has the rows of RFC 7143 section 11.19 |
| Pdu.BuildR2t | crates/iscsi-lib/src/iscsi/pdu.rs:510-543 | The serialised header has the rows of RFC 7143 section 11.8 |
| HeaderBytes.CommandBytes | crates/iscsi-lib/src/iscsi/pdu.rs:273-301 | The bytes of a SCSI Command header, each field at the place RFC 7143 section 11.3 gives it |
| HeaderBytes.DataOutBytes | crates/iscsi-lib/src/iscsi/pdu.rs:304-330 | The bytes of a Data-Out header, each field at the place RFC 7143 section 11.7 gives it |
| HeaderBytes.LoginBytes | crates/iscsi-lib/src/iscsi/pdu.rs:334-369 | The bytes of a Login Request header, each field at the place RFC 7143 section 11.12 gives it |
| HeaderBytes.PingBytes | crates/iscsi-lib/src/iscsi/pdu.rs:372-388 | The bytes of a NOP-Out header, each field at the place RFC 7143 section 11.18 gives it |
| HeaderBytes.LogoutBytes | crates/iscsi-lib/src/iscsi/pdu.rs:391-410 | The bytes of a Logout Request header, each field at the place RFC 7143 section 11.14 gives it |
| HeaderBytes.ResponseBytes | crates/iscsi-lib/src/iscsi/pdu.rs:414-439 | The bytes of a SCSI Response header, each field at the place RFC 7143 section 11.4 gives it |
| HeaderBytes.DataInBytes | crates/iscsi-lib/src/iscsi/pdu.rs:442-479 | The bytes of a Data-In header, each field at the place RFC 7143 section 11.7 gives it |
| HeaderBytes.PongBytes | crates/iscsi-lib/src/iscsi/pdu.rs:482-507 | The bytes of a NOP-In header, each field at the place RFC 7143 section 11.19 gives it |
| HeaderBytes.ReadyBytes | crates/iscsi-lib/src/iscsi/pdu.rs:510-543 | The bytes of a R2T header, each field at the place RFC 7143 section 11.8 gives it |
| Transport.RoundTripIff | crates/iscsi-lib/src/iscsi/transport.rs:119-221 | One PDU arrives, with whatever follows left unread, if and only if its header announces its data and the header digest is over what is sent |
| Transport.StreamRoundTripIff | crates/iscsi-lib/src/iscsi/transport.rs:119-221 | Any list of PDUs arrives PDU by PDU, consuming exactly its bytes before any suffix, if and only if each is so framed |
| Transport.DigestsAreChecked | crates/iscsi-lib/src/iscsi/transport.rs:184-207 | With arbitrary digest bytes in place of its own, a PDU is refused for the header exactly when they are not the checksum of its header, big-endian, else for the data exactly when they are not that of its data, and otherwise arrives |
| Transport.EncodedIff | crates/iscsi-lib/src/iscsi/transport.rs:119-151 | The bytes of a PDU are exactly these: the header, with header digests the checksum of the header and additional segments, the data, zeros up to a multiple of four, and with data digests the checksum of the unpadded data |
| Transport.AlteredDataIsRefused | crates/iscsi-lib/src/iscsi/digest.rs:38-53 | Data altered on the way so that its checksum is another one never arrives |
| Transport.AlteredHeaderIsRefused | crates/iscsi-lib/src/iscsi/digest.rs:12-35 | A header altered on the way so that its checksum is another one never arrives |
| Transport.UnknownIsRefused | crates/iscsi-lib/src/iscsi/transport.rs:180-193 | A header of no known opcode is refused once its digest is right |
| Transport.CutIsEof | crates/iscsi-lib/src/iscsi/transport.rs:180-210 | A stream cut anywhere inside a PDU yields an early end and no PDU |
| Streams.ManyArriveIff | crates/iscsi-lib/src/iscsi/transport.rs:119-221 | For any encoder and decoder of one item: a list arrives if and only if each item does |
| Transport.TransportWriter.SendPdu | crates/iscsi-lib/src/iscsi/transport.rs:119-151 | What is written is the encoding of the PDU, with just these bytes and checksums |
| Transport.TransportReader.RecvPdu | crates/iscsi-lib/src/iscsi/transport.rs:180-221 | What is read is the decoding of the stream, with the error it fails with |
| Transport.PadTo4 | crates/iscsi-lib/src/iscsi/pdu.rs:563-565 | The least multiple of four not below the length |
| Command.CdbDecodes | crates/iscsi-lib/src/iscsi/command.rs:207-237 | For every address and length, in whichever form is chosen, the target decodes what was asked for; all other bytes of the block are zero |
| Command.ChunkCdbsTile | crates/iscsi-lib/src/iscsi/pipeline.rs:501-534 | The command blocks of one transfer decode to non-empty pieces within the burst that tile its blocks in order |
| Command.CommandOnWire | crates/iscsi-lib/src/iscsi/session.rs:383-396 | A command built, serialised and parsed again still decodes to the transfer, with its tag, number and direction |
| Command.LunRoundTripIff | crates/iscsi-lib/src/iscsi/command.rs:92-99 | Unit numbers survive if and only if they are below 256 |
| Command.LunBytes | crates/iscsi-lib/src/iscsi/command.rs:92-94 | The unit number is in the second of the eight bytes and the others are zero |
| Command.BuildRead | crates/iscsi-lib/src/iscsi/command.rs:207-213 | The short form if it has room, else the long one |
| Command.BuildWrite | crates/iscsi-lib/src/iscsi/command.rs:216-222 | The short form if it has room, else the long one |
| Command.BuildSynchronizeCache10 | crates/iscsi-lib/src/iscsi/command.rs:230-238 | The 10-byte form that the target decodes to the same range |
| Login.OwnTextIsFixed | crates/iscsi-lib/src/iscsi/login.rs:65-232 | Our own text, parsed and applied to the parameters it was made of, changes nothing but the send limit, which becomes our receive limit |
| Login.DecimalRoundTripIff | crates/iscsi-lib/src/iscsi/login.rs:91-134 | A printed number is read back if and only if it is within the reader's range |
| Login.ParsesIff | crates/iscsi-lib/src/iscsi/login.rs:160-227 | A number is read exactly from its decimal form, possibly after a plus sign and zeros, when it is in range; every other text is an error |
| Login.PairsRoundTripIff | crates/iscsi-lib/src/iscsi/login.rs:458-476 | Pairs written one after another are parsed back if and only if no key holds = or NUL and no value holds NUL |
| Login.OneEntry | crates/iscsi-lib/src/iscsi/login.rs:458-476 | An entry without an equals sign has no pair; any other is cut at the first one |
| Login.EntriesApart | crates/iscsi-lib/src/iscsi/login.rs:458-476 | The pairs of a text are those before a NUL and those after it |
| Login.AppliedByKey | crates/iscsi-lib/src/iscsi/login.rs:140-232 | A response is accepted if and only if no known key has a bad value; each field then combines our value with the offers for its own key alone |
| Agreed.DigestsAgreed | crates/iscsi-lib/src/iscsi/login.rs:145-158 | After every accepted response a digest is used if and only if the last value of its key is CRC32C, or as before without one |
| Agreed.OrderAgreed | crates/iscsi-lib/src/iscsi/login.rs:200-205 | The order keys are yes if and only if their last value is Yes, or as before without one |
| Agreed.SendLimitAgreed | crates/iscsi-lib/src/iscsi/login.rs:159-165 | The send limit is the number of the last MaxRecvDataSegmentLength, or as before without one; the receive limit stays |
| Agreed.TimesAgreed | crates/iscsi-lib/src/iscsi/login.rs:212-223 | The two times are the number of the last value of their keys, or as before without one |
| Agreed.BurstsAgreed | crates/iscsi-lib/src/iscsi/login.rs:166-177 | The burst lengths are the least of ours and all values of their keys |
| Agreed.CountsAgreed | crates/iscsi-lib/src/iscsi/login.rs:188-199 | The numbers of R2Ts and connections are the least of ours and all values of their keys |
| Agreed.LevelAgreed | crates/iscsi-lib/src/iscsi/login.rs:206-211 | The recovery level is the least of ours and all values of its key |
| Agreed.InitialR2tAgreed | crates/iscsi-lib/src/iscsi/login.rs:178-182 | InitialR2T is yes if and only if ours or some value is Yes |
| Agreed.ImmediateDataAgreed | crates/iscsi-lib/src/iscsi/login.rs:183-187 | ImmediateData is yes if and only if ours and all values are Yes |
| Agreed.AcceptedIff | crates/iscsi-lib/src/iscsi/login.rs:140-232 | A response is accepted if and only if every digest is CRC32C or None and every number is one its field has room for; unknown keys never matter |
| Agreed.RefusedAt | crates/iscsi-lib/src/iscsi/login.rs:140-232 | A refused response has taken effect up to its first bad pair |
| Login.NegotiationOnlyRestricts | crates/iscsi-lib/src/iscsi/login.rs:169-220 | Over every accepted response no limit rises, InitialR2T only rises, ImmediateData only falls, and the receive limit stays |
| Login.LegalKept | crates/iscsi-lib/src/iscsi/login.rs:140-232 | Legal offers to legal parameters (RFC 7143 sections 13.1 to 13.20) leave every parameter legal |
| Login.DefaultsAreLegal | crates/iscsi-lib/src/iscsi/login.rs:38-56 | Our defaults are legal, with FirstBurst within MaxBurst |
| Login.OwnPairsAre | crates/iscsi-lib/src/iscsi/login.rs:65-136 | Our text says, key by key in this order, what our parameters are |
| Login.JoinLast | crates/iscsi-lib/src/iscsi/login.rs:68-133 | Each pair adds to the text its key, an equals sign, its value and a NUL, and nothing else |
| Login.DefaultPairs | crates/iscsi-lib/src/iscsi/login.rs:38-56 | The text of the defaults, pair by pair |
| Login.ApplyingTwice | crates/iscsi-lib/src/iscsi/login.rs:140-232 | Applying a response twice equals applying it once |
| Login.OnlyPairsMatterIff | crates/iscsi-lib/src/iscsi/login.rs:143-229 | Order and repetition of the pairs do not matter, for all parameters, if and only if the response is refused or no two pairs set one field to different values |
| Login.BurstsOrderedIff | crates/iscsi-lib/src/iscsi/login.rs:169-180 | FirstBurst <= MaxBurst afterwards if and only if one of the first-burst candidates, ours or offered, is within all the max-burst candidates |
| Login.MaxBurstAloneIff | crates/iscsi-lib/src/iscsi/login.rs:169-174 | A response that only lowers MaxBurst keeps the order if and only if it does not go below our FirstBurst |
| Login.ParseKvPairs | crates/iscsi-lib/src/iscsi/login.rs:458-476 | Splitting at NUL and the first = gives the pairs; text that is not UTF-8 has none |
| Login.NegotiatedParams.BuildOperationalText | crates/iscsi-lib/src/iscsi/login.rs:65-136 | The text is our fourteen pairs in order |
| Login.NegotiatedParams.ApplyTargetResponse | crates/iscsi-lib/src/iscsi/login.rs:140-232 | The fields become what applying the pairs one after another gives, up to the first bad one |

## Left out

- TCP connection, socket tuning, keepalive timers with our own pings, and recovery after a lost session: I/O and wall-clock behaviour.
- CRC32C: any function from bytes to 32 bits.
- The cache library's policy and the readahead heuristic (window, midpoint, in-flight flag): the cache may drop any entry at any moment, and a readahead may fetch any range, as one step between two requests.
- SCSI commands that fail for other reasons than lying outside the medium, timeouts and retries, and dirty data lost by a failed flush.
- The effect of SYNCHRONIZE CACHE on the target's own volatile cache; its command block is modelled.
- Channels, tasks and locks other than through the step systems; logging.
- INQUIRY, READ CAPACITY and sense data parsing, UNIT ATTENTION retries, and the mapping of status bytes to names: a response keeps its status byte.
- ExpStatSN as an invariant: it is stored from every PDU, also from those whose field carries none.
- The login exchange around the text (stages, authentication, discovery); UTF-8 decoding: text is given decoded, or as not being UTF-8.
- Configuration, command line, daemon and DriverKit code.
- Register and R2T racing: the handler's wait of up to 50 ms for data not yet registered; in the model data is registered when the R2T is handled or the R2T is answered with nothing.
- The block worker and the session are not composed into one system: the target of the pipeline answers whole commands, and that commands and data arrive is proved in WriteDelivery and Session.
- Block.BlockDeviceWorker.FlushDirty: always succeeds, because the entries lie inside the medium and other failures are left out.
- Cache.BlockCache.constructor: asks for blocks of at most 64 KB; for larger ones the source makes a cache whose chunks have no block and divides by zero when it is first asked.
- Pipeline.ComputeReadChunks: asks for a positive chunk size, because with zero the source's loop does not end; Pipeline.BurstHoldsBlocksIff says when it is positive.
- Pipeline.Pipeline.ScsiWrite: does not model that a write of a single command also offers the target the bytes after its last whole block; the block worker always writes whole blocks.
- IttPool.IttPool.Free: takes a tag below 128, as the source asserts in debug builds; for larger ones see the outcome Panicked of Session.Session.Dispatch.
- CmdWindow.StampsStayNearWindow: assumes that MaxCmdSN never falls and that at most 2^31 submitters run, and leaves out the logout request, which takes a number without looking at the window.
- Session.Session.SendCommand: takes the tag and the CmdSN as given; how they are come by is modelled in TagSystem and CmdWindow. That a transfer's data is registered whenever one of its R2Ts is handled is a condition of WriteDelivery.WriteIsDeliveredIff, as the transfer's task and the receiver are not run together.
- WriteDelivery.WriteIsDeliveredIff: asks for segment limits and a first burst below 2^24, the most that RFC 7143 sections 13.12 and 13.14 allow to be announced (Login.LegalKept keeps them there), for R2Ts inside the data, and for PDUs of other tasks that fit their headers (Session.CommandFits for commands).
- FlushLimits.WriteRightIff: speaks of writes inside the device on blocks of less than 2^32 bytes together, and of whole and disjoint dirty entries, which safe writes leave so (Coalescing.CoalescedRunIsFlat); what a longer write loses is said by Pipeline.WholeBlocksExactIff.
- BlockLimits.ReadRightIff: speaks of reads whose chunks lie inside the device and whose length is not cut to 32 bits, as BlockLimits.EveryReadAnsweredIff and BlockLimits.AnswerIsCompleteIff are about those.
- Transfers.SubmitWrite: says what is received for a first burst below 2^24, the most that may be announced, and takes the tag and the CmdSN as given; waiting for the response and its status are left out.
