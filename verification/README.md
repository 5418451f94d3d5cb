# Verified model of the ASMB8-iKVM virtual-media engine

This project models the parts of the collection that keep a virtual CD-ROM attached to a
BMC, and proves what they promise. `dafny verify dfyconfig.toml` checks everything.

| file | models |
|---|---|
| `Wrappers.dfy`, `Text.dfy` | optional values and results; decimal numerals and whitespace |
| `Bytes.dfy`, `IusbFrame.dfy` | integer codecs; the 32-byte IUSB header and whole frames |
| `Lru.dfy`, `WindowCache.dfy` | the windowed LRU cache in front of a fixed-size medium, with write-through |
| `CacheInterleaving.dfy` | concurrent readers through the cache's two critical sections and the unlocked fetch |
| `CacheWrites.dfy` | writes beside those readers, and exactly when they leave a stale window |
| `CdromDevice.dfy` | the SCSI emulator over the cache, against a device over the flat image |
| `Wire.dfy`, `IusbWire.dfy`, `ServeLoop.dfy` | exact reads over a chopped stream with timeouts; media packets; the serve loop |
| `TraceLog.dfy`, `MediaDaemon.dfy` | the append-only READ trace and its crash behaviour; idle streaks and counters |
| `SessionPhase.dfy`, `Lifecycle.dfy` | attach, detach and reclaim as an interleaved state machine |
| `StateFileRace.dfy`, `RecordRefinement.dfy` | the first-record race on files, and that it refines the lifecycle's atomic writes |
| `Ivtp.dfy`, `IvtpVideo.dfy`, `IvtpHandshake.dfy` | console packets on the byte stream, frame reassembly, handshake |
| `BracketScan.dfy` | the quote-aware bracket scanner of the WEBVAR parser |
| `HttpRange.dfy`, `HttpTarget.dfy` | byte ranges, the copy loop, and request-target confinement of the HTTP origin |

Stateful parts are classes (`Cache`, `Medium`, `CDROMDevice`, `Transport`, `Daemon`,
`FrameReassembler`) whose methods are proved against value-level specifications. A
concurrent or crash-prone protocol is a state machine whose runs are finite sequences of
steps; its theorems hold for every such sequence. An exception of the source is a value of
a result type (an integer that does not fit its bytes is `Overflow`).

Results worth knowing first:

* `ServeIsFold` with `RunSession`: for every chopping of the stream, every placing of polls
  between frames and every stop time, the loop sends exactly the answers of `process_frame`.
  The device behind it is `Handle`, whose answers are those of the flat image.
* `InterleavedReadsAreFlat`, `ReadersFinish`: every schedule of every set of concurrent readers.
* `LruExact`, `LruInclusion`, `LruHitsMonotone`: the cache is exact LRU, without Belady's anomaly.
* `OneDaemonPerEndpoint`: no reachable state has two active daemons on one endpoint;
  `AttachAchieves`, `DetachAchieves`: what each call has done when it is over.
* `ReadersNeverGoBack`, `FilesRefineRecords`: no interleaving of the two writers shows a reader an older
  record, and each is a run of the lifecycle's atomic record writes.
* `PollsOnlyStutter`: a session without its polls is the same session.
* `CrashKeepsCompleteEntries`, `CrashLosesAtMostOne`: any prefix of the trace log.

Five properties turned out not to hold as one might state them; each has its failing input and
its exact condition:

* A poll timeout is harmless exactly at a frame boundary (`TimeoutInFrame`,
  `TimeoutHarmlessIff`). Between header and payload it is taken for idle and the header is
  lost, although the documentation of `IdleTimeout` speaks of fresh headers only:
  the session goes on as if the payload alone had been sent (`PollAfterHeaderLosesHeader`),
  which ends a sound session unless the payload looks like a header.
* Response data reaches the host intact exactly when the envelope has 29 bytes, or nothing is
  appended, or the whole response is shorter than 29 bytes (`DataSurvivesIff`); for a READ,
  exactly when its request has 29 bytes (`ReadDeliversIff`, `ShortEnvelopeCorrupts`).
* A video frame within the cap is captured exactly when no single fragment carries more than
  the cap less two bytes, because packets are capped before fragments are counted
  (`FrameIsCapturedIff`, `MaximalFrameInOneFragmentIsRefused`).
* Exclusive use of the media slot needs signalled daemons to exit within their timeout. The
  record of a live daemon is removed in two places, by a detach that gives up and by an
  attach that gives up reclaiming; exclusion is kept in all futures exactly when no such
  removal finds its process still active (`GivingUpIsSafeIff`, `DetachGivesUpIff`,
  `ReclaimGivesUpIff`), and `DetachBreaksExclusion` and `ReclaimBreaksExclusion` are the
  failing runs.
* A write through the cache beside concurrent readers can leave a stale window exactly when
  there is room for one and a reader still holds bytes fetched before the write
  (`DropIsSafeIff`, `StaleRun`).

## Model

| member | source | states |
|---|---|---|
| Bytes.FromLEOfToLE | plugins/module_utils/iusb.py:221-230 | a little-endian field written in its width reads back as itself, for every value that fits |
| Bytes.ToLEOfFromLE | plugins/module_utils/iusb.py:253-254 | every byte string is the little-endian writing of the number it reads as, which is below 256 to its length |
| Bytes.FromBEOfToBE | plugins/module_utils/iusb.py:722-727 | a big-endian field written in its width reads back as itself |
| Bytes.ToLEDigit | plugins/module_utils/iusb.py:221-230 | byte i of a little-endian field is the digit of weight 256 to the i, whatever the reader does |
| Bytes.ToBEDigit | plugins/module_utils/iusb.py:722-727 | byte i of a big-endian field is the digit of weight 256 to the number of bytes after it |
| IusbFrame.FillHeader | plugins/module_utils/iusb.py:200-236 | the in-place filling of the 32-byte buffer yields exactly the header value whose checksum and round trip are proved below |
| IusbFrame.ChecksumIsZero | plugins/module_utils/iusb.py:200-236 | the 32 header bytes sum to 0 modulo 256 for every header, in range or not |
| IusbFrame.HeaderBytes | plugins/module_utils/iusb.py:200-236 | every header byte by position: signature text, versions, length and sequence least significant byte first, each single field in its place |
| IusbFrame.ParseIff | plugins/module_utils/iusb.py:238-252 | a header is accepted on length and signature alone |
| IusbFrame.FrameIff | plugins/module_utils/iusb.py:789-804 | a frame is accepted exactly when header and stated length are right, and its payload is everything after the header |
| IusbFrame.KillIff | plugins/module_utils/iusb.py:286-318 | a kill is the byte 0xF6 at offset 9 of the payload |
| IusbFrame.ParseOfMarshal | plugins/module_utils/iusb.py:200-269 | parsing a marshalled header gives back every field, for all in-range fields |
| IusbFrame.MarshalOfParse | plugins/module_utils/iusb.py:238-269 | a parsed header is in range and re-marshals to the same bytes except header length, checksum and the reserved tail, which parsing ignores |
| IusbFrame.ResponseFrameRoundTrip | plugins/module_utils/iusb.py:789-820 | a response frame parses back to its payload with the request's instance and sequence number if and only if the payload length fits 32 bits |
| IusbFrame.ResponseHeaderBytes | plugins/module_utils/iusb.py:807-829 | every byte of a response header: version 1.0, device type, protocol 1, direction 128, the request's instance and sequence number, zeros elsewhere |
| Lru.TouchNewest | plugins/module_utils/iusb.py:558-582 | evicting to capacity before an access or after it leaves the same residents in the same order |
| Lru.ByLastUseMeans | plugins/module_utils/iusb.py:558-582 | the reference order is by position of last use |
| Lru.LruExact | plugins/module_utils/iusb.py:558-582 | from empty, the residents in recency order are exactly the capacity's worth of most recently used distinct window starts of the whole history |
| Lru.LruInclusion | plugins/module_utils/iusb.py:558-582 | on every access history a larger cache holds everything a smaller one holds |
| Lru.LruHitsMonotone | plugins/module_utils/iusb.py:558-582 | on every access history more capacity never means fewer hits |
| WindowCache.AlignDownIsMod | plugins/module_utils/iusb.py:546 | the window start used throughout is position minus position modulo window size, negative positions included |
| WindowCache.AlignedUnique | plugins/module_utils/iusb.py:596-604 | two aligned starts less than a window apart are equal, which is why stepping by whole windows misses none |
| WindowCache.SliceMeans | plugins/module_utils/iusb.py:531-556 | a read's bytes, pointwise, and how many there are |
| WindowCache.StartsMeans | plugins/module_utils/iusb.py:545-554 | the windows a read looks up are consecutive, each once, from the one holding its start to the last that begins before its end |
| WindowCache.Medium.ReadAt | plugins/module_utils/iusb.py:458-462 | the bytes of the medium in the requested range, short at its end, empty for non-positive lengths and negative offsets |
| WindowCache.Medium.WriteAt | plugins/module_utils/iusb.py:584-594 | the accepted bytes, all of the data or the writer's limit, read back from their place; every other byte of the medium is untouched and its size unchanged, bytes off the medium dropped |
| WindowCache.Cache.constructor | plugins/module_utils/iusb.py:510-526 | an empty cache is coherent with its medium, for every window size above zero and every capacity including zero |
| WindowCache.Cache.Lookup | plugins/module_utils/iusb.py:559-564 | first critical section: found exactly when resident, the bytes returned are the medium's, and recency takes one LRU step only on a hit |
| WindowCache.Cache.Insert | plugins/module_utils/iusb.py:571-582 | second critical section: residents stay correct and within capacity, and recency takes exactly one LRU step |
| WindowCache.Cache.Window | plugins/module_utils/iusb.py:558-582 | the window returned is the medium's aligned slice whether cached or not; order, hits and lookups advance by one exact LRU access |
| WindowCache.Cache.ReadAt | plugins/module_utils/iusb.py:531-556 | every read returns the flat medium's bytes from any coherent cache state; the accesses made are exactly the aligned windows of the range; a negative offset is an error |
| WindowCache.Cache.Invalidate | plugins/module_utils/iusb.py:596-604 | removes exactly the resident windows overlapping the written range and leaves every other one untouched |
| WindowCache.Cache.WriteAt | plugins/module_utils/iusb.py:584-604 | after a write-through, short writes included, every resident window still equals the medium; without a writer nothing changes |
| WindowCache.Run | plugins/module_utils/iusb.py:531-604 | over any mix of reads and writes every answer equals the flat array's |
| WindowCache.RunReads | plugins/module_utils/iusb.py:531-582 | a read-only run leaves resident exactly the most recently used distinct windows of the run, with exactly its hits and lookups counted |
| CacheInterleaving.LookupKeepsInv | plugins/module_utils/iusb.py:558-564 | the first critical section keeps shared state and thread correct whatever other threads did |
| CacheInterleaving.InsertKeepsInv | plugins/module_utils/iusb.py:566-582 | the second critical section keeps them correct even when another reader stored or evicted the window meanwhile |
| CacheInterleaving.StepKeepsBalance | plugins/module_utils/iusb.py:558-582 | misses always equal fetches stored plus fetches in flight, and bytes fetched never exceed a window per fetch |
| CacheInterleaving.InterleavedReadsAreFlat | plugins/module_utils/iusb.py:531-582 | for every schedule of every set of readers: each answer is the flat medium's, in program order with none skipped, residents are aligned and correct, residency never exceeds capacity, and every miss is one fetch completed or in flight |
| CacheInterleaving.AccessIsTouch | plugins/module_utils/iusb.py:558-582 | among concurrent readers a hit or a store is still one LRU access, and a miss changes nothing |
| CacheInterleaving.ReadersFinish | plugins/module_utils/iusb.py:531-582 | a reader given enough turns, however spread and whatever the others do, has answered its whole program |
| CacheWrites.EventKeepsInv | plugins/module_utils/iusb.py:558-604 | every step of readers and writers, short of a drop that leaves a reader with bytes from before the write, keeps every resident window current or about to be dropped |
| CacheWrites.ResidentsAreCurrent | plugins/module_utils/iusb.py:558-604 | over every such interleaving, once no write is pending every resident window holds the medium's present bytes, within capacity |
| CacheWrites.ReadsAfterWritesAreFlat | plugins/module_utils/iusb.py:531-604 | every read a thread begins after the last write gets the present bytes, whatever it read before and whatever readers are still in flight |
| CacheWrites.DropIsSafeIff | plugins/module_utils/iusb.py:584-604 | after the last pending write's drop no window can go stale if and only if the capacity is zero or no reader still holds bytes from before the write |
| CacheWrites.NoOverlapIsClean | plugins/module_utils/iusb.py:584-604 | a write that touches no window between its fetch and its store is such a write |
| CacheWrites.StaleRun | plugins/module_utils/iusb.py:566-594 | the failing run: a read begun after a write was over answers with the bytes from before it |
| CdromDevice.CDROMDevice.constructor | plugins/module_utils/iusb.py:634-639 | the last LBA is the last whole block, zero for an image shorter than one block |
| CdromDevice.LastLbaIsLastWholeBlock | plugins/module_utils/iusb.py:634-637 | the block after the last LBA is the first that does not fit the image whole |
| CdromDevice.CDROMDevice.Read | plugins/module_utils/iusb.py:709-720 | a read through the cache is the image zero-padded to whole blocks; counters grow by the blocks asked for and the image bytes that back them |
| CdromDevice.CDROMDevice.Handle | plugins/module_utils/iusb.py:647-704 | for every request payload and every cache history the reply is that of a device over the flat image |
| CdromDevice.ZeroFill | plugins/module_utils/iusb.py:714-717 | a short read followed by zeros is the zero-padded image at that place |
| CdromDevice.ResponseLayout | plugins/module_utils/iusb.py:690-705 | with a full envelope both length fields hold the data length, the data follows unchanged and every other envelope byte is echoed |
| CdromDevice.DataSurvivesIff | plugins/module_utils/iusb.py:697-705 | data of a given length always arrives intact if and only if the envelope has 29 bytes, nothing is appended, or the response is shorter than 29 bytes |
| CdromDevice.ReadDeliversIff | plugins/module_utils/iusb.py:669-705 | a READ of some blocks delivers them for every image if and only if its request has at least 29 bytes |
| CdromDevice.ShortEnvelopeCorrupts | plugins/module_utils/iusb.py:697-705 | a 28-byte READ(10) of one block, on an image of ones, is answered with wrong data |
| CdromDevice.OverflowIff | plugins/module_utils/iusb.py:666-705 | the integer overflow is raised exactly by a READ(12) of 2^32 bytes or more, or by READ CAPACITY or READ TOC on an image too large for them; never by READ(10) |
| CdromDevice.Read10Decodes | plugins/module_utils/iusb.py:669-672 | a READ(10) is read with its LBA and block count most significant byte first, at their places in the descriptor at offset 9 |
| CdromDevice.Read12Decodes | plugins/module_utils/iusb.py:674-677 | a READ(12) likewise, with its four-byte count |
| CdromDevice.TocDelivered | plugins/module_utils/iusb.py:679-680 | the reply to READ TOC carries the table cut to the request's allocation length, all twenty bytes if that is zero |
| CdromDevice.OthersAcknowledged | plugins/module_utils/iusb.py:647-688 | every other command is acknowledged with no data, zero length fields and its envelope back; a payload too short for an opcode gets no answer |
| CdromDevice.TransfersJoin | plugins/module_utils/iusb.py:669-677 | the data in the replies to any series of consecutive reads concatenates to one read of their total |
| CdromDevice.CapacityDelivered | plugins/module_utils/iusb.py:722-727 | the READ CAPACITY reply carries the last LBA, most significant byte first, and the block size |
| CdromDevice.HostRecoversImage | plugins/module_utils/iusb.py:666-727 | from the replies alone: a host that asks for the capacity and reads as many blocks as the reply says, in any transfer sizes, recovers a whole-block image exactly |
| CdromDevice.TocHonoursAllocation | plugins/module_utils/iusb.py:729-783 | the TOC is a prefix of the full one cut to the allocation length, still states the full length, describes one data track from LBA 0 and a lead-out one past the last LBA |
| CdromDevice.TocBytes | plugins/module_utils/iusb.py:765-778 | the twenty bytes of the table, each by value, the lead-out most significant byte first |
| CdromDevice.ReadWithinImage | plugins/module_utils/iusb.py:709-720 | a read serves at most 2048 bytes per block, and exactly that many if and only if it stays inside the image |
| Wire.Transport.Recv | plugins/module_utils/iusb.py:993-1002 | one receive removes exactly what it returns from the stream and never more than asked for |
| Wire.Transport.RecvExact | plugins/module_utils/iusb.py:980-1004 | the result depends on the byte, timeout and error sequence alone, not on chopping: n bytes, idle if nothing had arrived, stall if some had, end of stream, or socket error |
| IusbWire.ReadPacket | plugins/module_utils/iusb.py:1017-1032 | reading a packet from any chopping consumes exactly what the stream-level definition consumes |
| IusbWire.WholeFrameIsRead | plugins/module_utils/iusb.py:1017-1032 | a well-formed frame within the cap is read back as the packet `parse_request_frame` gives, with nothing beyond it consumed |
| IusbWire.RefusedIff | plugins/module_utils/iusb.py:1025-1028 | a packet is refused exactly for its signature or a payload above 135168 bytes, with none of the payload read |
| IusbWire.TimeoutInFrame | plugins/module_utils/iusb.py:991-998 | the exact effect of a timeout at every position of a frame |
| IusbWire.TimeoutHarmlessIff | plugins/module_utils/iusb.py:1017-1032 | a timeout before the end of a frame is a lossless idle poll if and only if it comes before the frame's first byte |
| ServeLoop.ServeRequest | plugins/module_utils/iusb.py:1177-1183 | the callback runs before the device, and device counters equal the sums over the reported history again afterwards |
| ServeLoop.ServeForever | plugins/module_utils/iusb.py:1131-1183 | the loop's bytes sent, callbacks and ending are a function of the stream alone, for every chopping and stop time, with trace and device in step throughout |
| ServeLoop.ReadsOfPlayed | plugins/module_utils/iusb.py:1017-1032 | a stream of whole frames and polls is read back item by item, none lost or merged |
| ServeLoop.ServedCountIsFirst | plugins/module_utils/iusb.py:1164-1176 | the items served are exactly those before the stop, the end of stream or the first item that ends the session |
| ServeLoop.ServeIsFold | plugins/module_utils/iusb.py:832-848 | over every script of whole frames and polls, and every stop time, the bytes sent are the in-order answers of `process_frame` to the items before the first frame with 0xF6 at payload offset 9 or without an encodable answer, the stop or the end of the stream; each of them, and the failing one, is reported once; the ending names which it was |
| ServeLoop.IdleReadsOnlyStutter | plugins/module_utils/iusb.py:1164-1183 | the same of the loop over any sequence of reads at all and any device |
| ServeLoop.PollsOnlyStutter | plugins/module_utils/iusb.py:1169-1172 | for every script and stop time, the session without its polls, stopped as many checks earlier, sends the same bytes, ends the same way and reports the same requests |
| ServeLoop.AnswerEchoesRequest | plugins/module_utils/iusb.py:807-848 | every answer parses back to the device's reply with its request's instance and sequence number, direction 128, device type 5, protocol 1 |
| ServeLoop.PollAfterHeaderLosesHeader | plugins/module_utils/iusb.py:1164-1172 | after a poll between header and payload the session goes on exactly as if the peer had sent the payload alone |
| ServeLoop.PollAfterHeaderKillsSession | plugins/module_utils/iusb.py:1164-1172 | unless what follows such a poll looks like a header, the session ends without answering or reporting the frame: in a protocol error, a stall, a fault or as closed, according to what follows |
| ServeLoop.RunSession | plugins/module_utils/media_session.py:916-942 | for every stream and stop time: bytes sent, counters equal to the sums over the reported requests, the final record, and no open idle streak after a normal ending only |
| TraceLog.DecodeOfRender | plugins/module_utils/media_session.py:886-899 | a trace line decodes to the entry it was written from, for every opcode, LBA and block count |
| TraceLog.RenderedLine | plugins/module_utils/media_session.py:886-899 | the text of a trace line |
| Text.DecDigit | plugins/module_utils/media_session.py:886-899 | a number is written in decimal, each digit by weight, without leading zero |
| TraceLog.LineBreaks | plugins/module_utils/media_session.py:424-429 | the log's lines end at newline, carriage return or both |
| TraceLog.TornLine | plugins/module_utils/media_session.py:404-411 | a trace line cut anywhere before its last character decodes to nothing |
| TraceLog.JsonLinesAreCodec | plugins/module_utils/media_session.py:886-899 | the line format meets the conditions the crash theorems need |
| TraceLog.Absorb | plugins/module_utils/media_session.py:435-442 | one more entry grows the head while it has room, afterwards slides the bounded tail |
| TraceLog.ReadTraceSummary | plugins/module_utils/media_session.py:366-444 | head, dropped middle and tail make up every entry, once and in order; the tail stays empty until the head is full; entries are dropped only when the tail is full |
| TraceLog.SummaryUnique | plugins/module_utils/media_session.py:388-412 | that description determines the summary |
| TraceLog.CrashKeepsCompleteEntries | plugins/module_utils/media_session.py:366-444 | any prefix of the log reads back as exactly the entries completely written |
| TraceLog.CrashLosesAtMostOne | plugins/module_utils/media_session.py:101-105 | an entry is recovered if and only if its last character made it out, and of the entries started at most one is lost |
| TraceLog.SummariseAfterCrash | plugins/module_utils/media_session.py:366-444 | the summary of a log cut anywhere describes exactly the entries completely written |
| MediaDaemon.Daemon.CloseIdleStreak | plugins/module_utils/media_session.py:332-349 | afterwards no streak is open, and the last one recorded is the latest idle spell of the whole history, just ended or not |
| MediaDaemon.Daemon.OnIdle | plugins/module_utils/media_session.py:847-862 | the record stays the one the history determines after one more poll |
| MediaDaemon.Daemon.OnRequest | plugins/module_utils/media_session.py:864-901 | the record and log stay those the history determines after one more request, counters copied before it is served |
| MediaDaemon.Daemon.Finish | plugins/module_utils/media_session.py:918-926 | a normal exit closes the streak and copies the final counters, the log untouched |
| MediaDaemon.RecordMeaning | plugins/module_utils/media_session.py:847-901 | the record is, for every run of callbacks: lifetime polls, the open spell or none, the latest closed spell, and one line per READ in order |
| MediaDaemon.ExitMeaning | plugins/module_utils/media_session.py:918-926 | after a normal exit no streak is open, the last one is the latest of all, and lifetime polls are the total of all streaks |
| MediaDaemon.SpellFields | plugins/module_utils/media_session.py:855-860 | a streak is recorded with its polls and two seconds for each |
| MediaDaemon.PollsAreStreaks | plugins/module_utils/media_session.py:847-871 | lifetime idle polls equal the total of all closed streaks plus the open one |
| MediaDaemon.OpenStreakIsTrailingRun | plugins/module_utils/media_session.py:855-860 | the open streak is the maximal run of polls at the end of the history |
| MediaDaemon.LastClosedIsLatestRun | plugins/module_utils/media_session.py:332-349 | the last closed streak is the latest maximal run of polls that a request ended |
| MediaDaemon.TraceEntryIsExtent | plugins/module_utils/media_session.py:874-890 | the callback logs a request exactly when the device reads for it, with the same LBA and block count |
| MediaDaemon.TraceMatchesDevice | plugins/module_utils/media_session.py:874-899 | the blocks in the trace add up to the device's count over every run |
| MediaDaemon.TraceLeadsDevice | plugins/module_utils/media_session.py:872-899 | when a request is announced the trace is ahead of the device by that request's blocks alone |
| MediaDaemon.BytesMatchBlocks | plugins/module_utils/iusb.py:709-720 | over every run bytes served are at most 2048 per block, with equality if and only if no READ ran past the image |
| MediaDaemon.LogSurvivesCrash | plugins/module_utils/media_session.py:886-899 | any prefix of the daemon's log reads back as the READs of its history up to the last one completely written |
| Lifecycle.StepKeepsInv | plugins/modules/asmb8_media.py:664-835 | every step of an attach, detach or daemon, short of a removal that finds its process still active, keeps exclusion, records and the progress of the call consistent |
| Lifecycle.OneDaemonPerEndpoint | plugins/modules/asmb8_media.py:664-835 | over every run of calls interleaved with daemon moves, exits and crashes, with signalled daemons exiting in time: at every step at most one active daemon and one record per endpoint, and every active daemon has its own current record, save one just forked whose parent has yet to write it |
| Lifecycle.AttachAchieves | plugins/modules/asmb8_media.py:664-709 | a whole attach changes nothing if its session runs; else it is abandoned with nothing forked and no record of the session, or exactly one process is forked and recorded and no other record names the endpoint |
| Lifecycle.DetachAchieves | plugins/modules/asmb8_media.py:796-835 | a whole detach, however daemons move and whether its wait gives up, removes the session's record and no other, and has told its process to stop, and no other, unless it was dead |
| Lifecycle.ReclaimSignals | plugins/module_utils/media_session.py:524-530 | when an attach has forked, every process another session's record named for the endpoint has been told to stop or is dead |
| Lifecycle.StopIsFinal | plugins/module_utils/daemon_runtime.py:239-250 | over every run a stop is never taken back and a dead process stays dead |
| Lifecycle.ReclaimRemoveKeeps | plugins/module_utils/media_session.py:491-532 | removing a reclaimed session's record never unrecords another active daemon |
| Lifecycle.DetachGivesUpIff | plugins/modules/asmb8_media.py:829-835 | a detach that gives up waiting keeps exclusion in every future, and keeps every active daemon on record, if and only if the process waited for is not active |
| Lifecycle.ReclaimGivesUpIff | plugins/module_utils/media_session.py:524-530 | the same of a reclaim that gives up, whose own attach goes on to spawn |
| Lifecycle.GivingUpIsSafeIff | plugins/module_utils/media_session.py:524-530 | over every run in which waits may give up: exclusion is guaranteed from every state on, and every active daemon stays on record, if and only if no removal, by detach or by reclaim, finds the process it waited for still active |
| Lifecycle.DetachBreaksExclusion | plugins/modules/asmb8_media.py:829-835 | a concrete run with one timed-out detach ends with two active daemons on one endpoint |
| Lifecycle.ReclaimBreaksExclusion | plugins/module_utils/media_session.py:524-530 | so does one of two attaches and no detach, when the second gives up reclaiming the first |
| StateFileRace.StepKeepsInv | plugins/module_utils/daemon_runtime.py:116-158 | every step of parent, daemon or reader keeps the race invariant and never lowers the rank under the path |
| StateFileRace.ReadersNeverGoBack | plugins/module_utils/daemon_runtime.py:87-158 | in every interleaving, the parent's fill landing before or after its file is replaced, the ranks a reader sees never go down |
| StateFileRace.DaemonRecordNeverClobbered | plugins/module_utils/media_session.py:626-633 | once the daemon has published, the path holds its own latest record whatever the parent still does |
| RecordRefinement.StepSimulates | plugins/module_utils/daemon_runtime.py:116-158 | each create, fill or rename on disk is at most one atomic write of the lifecycle model: the parent's takes effect at the fill, or nowhere if the daemon came first, the daemon's at the rename |
| RecordRefinement.FilesRefineRecords | plugins/module_utils/media_session.py:626-633 | every interleaving of parent and daemon on the files, from the fork on, is a run of the lifecycle's writes, and the path shows a reader exactly the record the lifecycle has |
| BracketScan.ScanMatchingBracket | plugins/module_utils/webvar.py:241-290 | the loop, with its two-character escape step running off the end if need be, returns the end of the first closing, or the right error |
| BracketScan.FirstCloseIsFirst | plugins/module_utils/webvar.py:241-290 | the result is the first position where an unquoted closing bracket brings the depth to zero, and none means there is none |
| BracketScan.ArrayIsFoundWhole | plugins/module_utils/webvar.py:241-290 | for every nested array literal, anywhere in a text and before any suffix, the scanner ends exactly where the literal ends, whatever its strings contain |
| Ivtp.ParseOfMarshal | plugins/module_utils/ivtp.py:135-143 | a console header parses back from its marshalling, whatever follows it |
| Ivtp.HeaderBytes | plugins/module_utils/ivtp.py:135-143 | type, body size and status sit in that order, least significant byte first |
| Ivtp.ReadPacket | plugins/module_utils/ivtp.py:624-639 | a packet read from any chopping consumes exactly what the stream-level definition consumes; timeout, end of stream, socket error and implausible size are told apart |
| Ivtp.ReadSerialised | plugins/module_utils/ivtp.py:624-639 | a packet at the front of a stream is read back with the rest untouched, unless its body exceeds the cap |
| Ivtp.StreamIsReadBack | plugins/module_utils/ivtp.py:624-639 | a byte stream of packets is read back packet by packet, none lost or merged, up to the first oversized one; without one, what follows is read on |
| Ivtp.BrokenStreamIsPrefix | plugins/module_utils/ivtp.py:563-584 | a stream broken off at any byte, by its end, a timeout or an error, yields a prefix of the packets sent and nothing else |
| Ivtp.HeaderLost | plugins/module_utils/ivtp.py:563-584 | why a header is missing: closed, socket error, or timeout with or without bytes read |
| Ivtp.BodyLost | plugins/module_utils/ivtp.py:563-584 | the same of a body |
| Ivtp.ValidatePacket | plugins/module_utils/ivtp.py:242-268 | built exactly when all three fields fit, and then always 8 + 324 bytes |
| Ivtp.ValidateLayout | plugins/module_utils/ivtp.py:242-268 | header and fields sit at their fixed offsets |
| Ivtp.ValidateDetermines | plugins/module_utils/ivtp.py:231-268 | NUL-free token, address and user name are determined by the packet |
| IvtpVideo.FrameReassembler.Feed | plugins/module_utils/ivtp.py:504-516 | the buffer never exceeds the cap, failing fragments included, and becomes what one fragment makes of it |
| IvtpVideo.CaptureOneFrame | plugins/module_utils/ivtp.py:742-774 | for every byte stream and chopping, the outcome is that of the packet-by-packet definition on the packets the stream carries |
| IvtpVideo.CaptureIgnoresNoise | plugins/module_utils/ivtp.py:764-774 | dropping every packet that is neither fragment, stop nor oversized changes no outcome |
| IvtpVideo.CaptureEndsAt | plugins/module_utils/ivtp.py:764-774 | while no frame is complete, a stop ends the capture with its status, a fragment without number or an oversized packet with an error |
| IvtpVideo.StreamEndsAt | plugins/module_utils/ivtp.py:764-774 | the same of the bytes on the wire |
| IvtpVideo.WaitIsLost | plugins/module_utils/ivtp.py:742-774 | a stream that stops with no outcome yet is reported as closed, failed or timed out |
| IvtpVideo.RefreshIsRead | plugins/module_utils/ivtp.py:302-313 | the nudge is one empty packet of type 5 |
| IvtpVideo.FrameIsCapturedIff | plugins/module_utils/ivtp.py:475-516 | a frame in 1 to 32768 fragments of any status, after any unfinished frame and among any noise, is returned unchanged if and only if it fits the cap and no fragment exceeds the packet cap; otherwise an error, never other bytes |
| IvtpVideo.StreamedFrameIsCapturedIff | plugins/module_utils/ivtp.py:742-774 | the same of the bytes on the wire, whatever follows them |
| IvtpVideo.BrokenStreamNeverLies | plugins/module_utils/ivtp.py:742-774 | a stream broken off at any byte gives the whole stream's outcome or reports the loss, never another frame |
| IvtpVideo.MaximalFrameInOneFragmentIsRefused | plugins/module_utils/ivtp.py:624-639 | a frame of exactly the maximum size in one fragment is refused |
| IvtpHandshake.OpenChannel | plugins/module_utils/ivtp.py:666-739 | for every byte stream and chopping, sends and outcome follow from the greeting, the fields and the one deciding packet the stream carries |
| IvtpHandshake.SendsReadBack | plugins/module_utils/ivtp.py:694-730 | what goes out, read back as the peer reads it: nothing before acceptance; then the token as type 21 exactly when asked for, one type 18 packet with token, address and user each in its field, and an empty type 6 exactly on a grant; only the token if the fields do not fit |
| IvtpHandshake.OutcomeTable | plugins/module_utils/ivtp.py:347-450 | what the deciding packet decides, status by status, sub-status included |
| IvtpHandshake.ResumeIff | plugins/module_utils/ivtp.py:701-739 | RESUME_REDIRECTION is sent if and only if the greeting is accepted, the fields fit and the first verdict, stop or oversized packet is a verdict whose first byte is 1 |
| IvtpHandshake.NoiseChangesNothing | plugins/module_utils/ivtp.py:711-724 | deleting every other packet after the greeting changes neither sends nor result |
| IvtpHandshake.HandshakeOfStream | plugins/module_utils/ivtp.py:701-739 | packets that settle the handshake settle it alike as bytes on the wire, whatever follows them |
| IvtpHandshake.WaitIsLost | plugins/module_utils/ivtp.py:701-739 | silence before a verdict is reported as closed, failed or timed out, with no resume sent |
| IvtpHandshake.BrokenHandshakeNeverLies | plugins/module_utils/ivtp.py:701-739 | a stream broken off at any byte settles the handshake as the whole one would, or reports the loss with no resume sent |
| HttpRange.ParseRange | plugins/module_utils/http_origin.py:419-483 | every accepted range lies inside the file, whatever integer spellings are accepted |
| HttpRange.CanonicalRange | plugins/module_utils/http_origin.py:463-483 | every plain `a-b` and `a-` gets exactly its slice, an ignored header or 416, a start past the end being 416 even when backwards |
| HttpRange.CanonicalSuffix | plugins/module_utils/http_origin.py:448-461 | every plain suffix `-n` gets the last n bytes or all there are, 416 if that is none |
| HttpRange.SuffixIsEnd | plugins/module_utils/http_origin.py:448-461 | the body answering `-n` is the end of the file, as long as asked for or the whole file |
| HttpRange.Copy | plugins/module_utils/http_origin.py:585-597 | the copy loop sends exactly the slice, less only what a shrunken file no longer has, and counts what it sends |
| HttpRange.Get | plugins/module_utils/http_origin.py:560-597 | the response is that of the whole header analysis below, Content-Length is the number of bytes sent, and with no usable header it is 200 with the file |
| HttpRange.UnusableIsIgnored | plugins/module_utils/http_origin.py:434-446 | no header, an empty one, several ranges, another unit or no dash: 200, the file and its length |
| HttpRange.RangeAnswered | plugins/module_utils/http_origin.py:446-483 | every single range, blanks around it allowed, gets exactly the status, length and bytes its numbers ask for |
| HttpRange.RefusedIff | plugins/module_utils/http_origin.py:457-473 | 416 exactly for a start below zero or at or past the end, a suffix not above zero, or a suffix of an empty file |
| Text.StripRemoves | plugins/module_utils/http_origin.py:445 | stripping removes all whitespace at both ends and nothing else |
| HttpRange.RangesConcatenate | plugins/module_utils/http_origin.py:419-597 | for any cut points the bodies of consecutive ranges, the last open-ended, concatenate to the file from the first cut on |
| HttpTarget.ResolveWithinRoot | plugins/module_utils/http_origin.py:333-395 | any path returned lies in the root, for every symlink resolution function, and its decoded target is valid UTF-8 without NUL or parent-directory segment |
| HttpTarget.ResolveIff | plugins/module_utils/http_origin.py:333-395 | exactly when a target resolves and to what |
| HttpTarget.PathPartMeans | plugins/module_utils/http_origin.py:374 | the path ends before the first question mark or number sign |
| HttpTarget.StrayPercent | plugins/module_utils/http_origin.py:375-376 | a percent sign without two hex digits stands for itself |
| HttpTarget.SplitMeans | plugins/module_utils/http_origin.py:383 | segments are what lies between slashes |
| HttpTarget.DropMeans | plugins/module_utils/http_origin.py:383 | exactly the empty and "." segments are left out |
| HttpTarget.UnquoteSpelling | plugins/module_utils/http_origin.py:375-378 | one decoding pass recovers the bytes from every mixture of literal and percent-encoded spelling in either hex case |
| HttpTarget.SpellingIrrelevant | plugins/module_utils/http_origin.py:374-395 | all spellings of the same path, with or without a query or fragment, resolve alike |
| HttpTarget.DotDotRefused | plugins/module_utils/http_origin.py:384-386 | a path with a parent-directory segment is refused in every spelling, with any query or fragment |
| HttpTarget.NoDotDot | plugins/module_utils/http_origin.py:384-386 | dropping empty and "." segments before the test hides no parent-directory segment |
| HttpTarget.SelfTestPathResolves | plugins/module_utils/http_origin.py:866-867 | the self-test's quoted path resolves to exactly the probe file's parts, whatever bytes its names contain |

## Left out

- Real sockets, TLS, fork, signals and file descriptors: streams are event sequences, processes are alive or dead, a pending SIGTERM is a flag.
- Wire.Transport: a failing send is not modelled; every send succeeds.
- The authentication handshake of `iusb.py`, token minting and eject detection: short codecs and one status test that would only add easy members.
- WindowCache.Run: single-threaded; writes beside concurrent readers are the subject of `CacheWrites`.
- CacheWrites.ReadsAfterWritesAreFlat: says nothing of a read during which a write happens; such a read may mix bytes from before and after it.
- CacheInterleaving.InterleavedReadsAreFlat: the medium answers a fetch in one atomic step; the unlocked seek-then-read of a shared file object is not modelled, nor is the hit counter here (`WindowCache` counts hits exactly).
- TraceLog.DecodeOfRender: JSON is the one line shape the daemon writes; other JSON text, which the daemon never writes, is refused here rather than decoded.
- MediaDaemon.Daemon: timestamps, log messages and the per-callback rewriting of the state file are not modelled.
- Lifecycle.OneDaemonPerEndpoint: process ids are not reused, calls do not overlap, and the module process itself does not die between fork and first write.
- StateFileRace.ReadersNeverGoBack: removal of the record is not a step of this model; one reader stands for any.
- RecordRefinement.FilesRefineRecords: for daemons that write nothing after a terminal record, as the source's does; exits and other sessions are steps of the lifecycle model alone.
- Ivtp.ValidatePacket: text fields are their ASCII bytes; the encoding error for other text is not modelled.
- The regular expressions, literal evaluation and sentinel removal of `webvar.py`, path resolution, UTF-8 validity and integer parsing are foreign or trivial: parameters where a property needs them.
- HttpTarget.ResolveWithinRoot: targets are ASCII with percent-escapes, text is its UTF-8 bytes.
- The HTTP handler's counters, access log, HEAD requests and threading, and the reporting, power, boot, network and inventory modules: no hard property.
