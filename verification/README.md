# Block download of a LAN file synchroniser, verified in Dafny

The program keeps a directory in step with its peers on a local network. A peer announces its files; a file
that is wanted is cut into blocks of 1 MiB; a single worker thread hands the blocks out to the peers that
own the file, five at a time, and sends requests; the event thread reads replies from TCP connections, writes
their bytes to disk and ticks the blocks off until the file is complete. This project models that engine and
the wire layer below it, and proves what it guarantees, and exactly where it does not.

    dafny verify dfyconfig.toml

checks everything.

## The parts

| file | models |
|---|---|
| `Octets.dfy` | bytes, byte strings, unsigned arithmetic with wrap-around |
| `Splitting.dfy`, `Decimal.dfy`, `RangeText.dfy` | `splitstr`, number printing and scanning, the two range headers |
| `Wire.dfy`, `Packets.dfy` | the bytes of a packet, and the packet class with its two incremental lengths |
| `Receiving.dfy` | what the receiver makes of any frame |
| `Framing.dfy` | `read_cb` and `isExtraAllDataNow`: packets out of a TCP byte stream |
| `FileIo.dfy` | `readSize` with its monitors and `writeFile`, in passes of 2 MiB |
| `Blocks.dfy` | the block list of the `SyncRs` constructor |
| `Allocator.dfy`, `Announcements.dfy` | `RsSyncManager`: who has which block, and what announcements add up to |
| `LocalTable.dfy` | which rows of a peer's table are wanted |
| `Tasks.dfy` | the task queue |
| `Machine.dfy` | the two threads as a state machine, one step per lock, and its invariant |
| `Downloads.dfy`, `Accounting.dfy` | whole runs: safety, the bytes on disk, work |
| `Owners.dfy` | who owns a file after any run |
| `Handlers.dfy` | which runs the handlers and the worker can produce |
| `LateReplies.dfy`, `LostReplies.dfy` | what replies that come too late, or not at all, do to a file |
| `Progress.dfy`, `Finishing.dfy` | runs that complete a file, and when there are none |
| `Phantoms.dfy` | the entries that lookups of absent files leave behind |
| `Exchange.dfy` | one block over the wire, from the request to the completed range |
| `Serving.dfy` | all the replies to one request, from the server's short reads to the client's file |
| `Client.dfy` | the handlers and the worker task as code, each shown to be a run of the machine |

## Reading the model

- An object the program updates in place is a class (`RsSyncManager`, `TaskManager`, `LanSyncPkt`,
  `Connection`, `DiskFile`, `SyncClient`); each method is proved against a function of the old state, and the
  theorems are about those functions. `SyncRs` is a value, because the program keeps it by value in a map.
- `std::map` iterates in key order. Here the order is any enumeration of the keys (`Wire.IsOrder`), so the
  results hold for every order.
- `junk` is the indeterminate size of an entry that `operator[]` makes for an absent uri. Such a phantom has an
  empty uri field; reachable states can contain it, and it never has a block.
- `Answers` lists what the `read` and `write` calls return: any short count, or nothing moved at all. `Io` adds
  that the file may not open.
- `Machine.Sys` has two pieces of history that the program does not keep: `done`, the finished blocks of the
  tracked version, and `said`, all announcements.
- The worker's random choice of an owner is any index below the owner count it read.
- Safety results hold for every run of the machine. Where a result says that there is a run, it is one that
  whole handler calls and steps of the worker produce (`Handlers.Produced`), with the tasks each handler adds at
  its end; `Client.dfy` shows that its methods are such calls.

## What the proofs found

Each of these is a theorem below, with the exact condition where there is one.

- `BLOCK_SIZE` has no parentheses, so the number of blocks is computed as `(size / 1024) * 1024 + 1` in 32
  bits. A file is covered by its blocks exactly when `Blocks.WholeFileCut` holds: always below 4 GiB, never
  from 4 PiB on. A file of exactly 4 GiB is cut into one block and reported complete with 1 MiB on disk.
- A reply is saved before its range is looked up. A late reply that matches no range in flight still
  overwrites its bytes, finished blocks included, and the file is dropped as complete all the same. Finished
  blocks survive a save exactly when it agrees with the content on every offset inside them, and a dropped
  file is right exactly when, offset by offset, the last save that covered it carried the right byte.
- `writeFile` starts over at the front of its buffer in every pass. It is right exactly when every byte of the
  data equals the byte at the same distance from the front as it has from the start of its pass; with full
  writes, when the data repeats every 2 MiB. One short write is enough to go wrong.
- A file that cannot be opened for writing is not noticed either: it is dropped as complete with nothing on
  disk.
- The worker copies the owner list in one step and counts the owners in a later one. If a further owner is
  announced in between, the index it draws can lie behind the copy; if the copy was empty, every index does. A
  file that is not empty can be completed from every reachable state, except when the worker is bound for an
  index into an empty copy and some block of the file is still open.
- A request is made once. If five replies for a file are lost, nothing of it is ever asked for again, until one of
  them comes after all or a larger version is announced.
- A lookup of an absent file leaves a phantom of indeterminate size. The next announcement of the file gets
  through exactly when its size is larger, so a task that runs after its file is complete can make later
  versions unreachable for good.
- `compareChar` never moves its pointers. A changed file of equal size is fetched exactly when the first
  characters of the two hashes differ.
- A packet comes back from its bytes exactly when no key or value has a colon or a NUL, no value is empty, and
  its length is not a multiple of 2^24 by one to seven: the length is tested before it is byte-swapped.
- A header value is cut at its first colon. A request for `/a:b.txt` asks the server for `/a`.
- A byte of another protocol version in front of the input buffer is never taken out. From then on the connection
  hands nothing over, whatever arrives.
- `queryXheader` on an absent key makes the lengths wrong for that packet.
- The comments on `Range` list "0-" as a text it takes; the server answers such a request with silence. The one
  block of an empty file is `[0,0)`, which the worker takes for "no block", so an empty file is assigned but
  never asked for.
- One callback of `read_cb` hands over up to 1025 frames, one more than its constant says.
- Between two locked sections no entry has the success flag set: it is set on an entry that is erased before the
  lock is released. `rs_sync_mamanger_test.cpp` expects it to be set and reads a phantom. (This leaves out a copy
  made without the lock, as the worker makes one, which can catch the flag in between.)

## Model

| member | source | states |
|---|---|---|
| Splitting.SplitStr | src/proto/lan_share_protocol.cpp:88-98 | The getline loop yields the tokens of `Split`, whose inverse and cleanness are the next two rows |
| Splitting.JoinUndoesSplit | src/proto/lan_share_protocol.cpp:88-98 | Joining the tokens gives the string back, except that one separator at the very end is lost |
| Splitting.TokensAreClean | src/proto/lan_share_protocol.cpp:88-98 | No token contains the separator, and no byte is invented |
| Decimal.ScanUndoesPrint | src/proto/lan_share_protocol.cpp:307-315 | Scanning with `%lu` inverts printing for every 64-bit number |
| Decimal.ScanMeans | src/proto/lan_share_protocol.cpp:307-315 | What `%lu` reads from any text that begins with a number: blanks, one sign, digits, saturation from 2^64 on, negation modulo 2^64 |
| Decimal.LeadingZero | src/proto/lan_share_protocol.cpp:307-315 | Leading zeros do not change the number read |
| Decimal.ScanFails | src/proto/lan_share_protocol.cpp:307-315 | Without a digit there, nothing is read |
| RangeText.RangeRoundTrip | src/proto/lan_share_protocol.cpp:304-343 | Every `Range` survives its text, including the open form and ends that wrap past 2^64 |
| RangeText.RangeOfEnds | src/proto/lan_share_protocol.cpp:304-316 | Any two numbers with a dash between them are a range, whose size is their difference modulo 2^64; what follows a second dash is ignored |
| RangeText.OpenRange | src/proto/lan_share_protocol.cpp:307-312 | A number alone, or followed by a dash, is a range without an end |
| RangeText.BadEnd | src/proto/lan_share_protocol.cpp:313-315 | An end that is no number counts as 0 |
| RangeText.NoStart | src/proto/lan_share_protocol.cpp:306-307 | A text that begins with the dash has no start |
| RangeText.ExampleTexts | src/proto/lan_share_protocol.cpp:331-343 | 0-500 and 7-, letter by letter |
| RangeText.ContentRangeRoundTrip | src/proto/lan_share_protocol.cpp:250-298 | Every `ContentRange` survives its text, with the last/more flag |
| RangeText.ContentRangeOf | src/proto/lan_share_protocol.cpp:250-264 | Any three numbers and a word written as a content range: the size is the difference of the ends modulo 2^64, the flag is set by "last" alone, and what follows a second dash or a third slash is ignored |
| RangeText.ExampleContentTexts | src/proto/lan_share_protocol.cpp:287-298 | 0-500/500/last and 7-7/500/more, letter by letter |
| RangeText.RangeTextIsInjective | src/proto/lan_share_protocol.cpp:333-343 | Different ranges have different texts |
| RangeText.RangeTextIsPlain | src/proto/lan_share_protocol.cpp:333-343 | A range text is never empty and has no colon or NUL, so it can travel as a header value |
| RangeText.ContentRangeTextIsPlain | src/proto/lan_share_protocol.cpp:288-298 | The same for content ranges |
| Wire.HeaderBytesAt | src/proto/lan_share_protocol.cpp:152-159 | The space the headers need does not depend on the order they are walked in |
| Wire.LayoutSize | src/proto/lan_share_protocol.cpp:148-159 | In every order of the map, the written headers take exactly the counted space |
| Wire.WireLength | src/proto/lan_share_protocol.cpp:137-168 | `write` fills its buffer of total_len bytes exactly |
| Wire.RawLengthShort | src/proto/lan_share_protocol.cpp:102-107 | The length test before byte swapping rejects exactly the multiples of 2^24 by zero to seven |
| Wire.BigEndianRoundTrip | src/proto/lan_share_protocol.cpp:110-111 | Byte order conversion of both length fields is undone on arrival |
| Wire.WireParts | src/proto/lan_share_protocol.cpp:137-168 | Where version, type, lengths, headers and data lie in the written bytes; the data starts at header_len |
| Wire.ReadLayout | src/proto/lan_share_protocol.cpp:115-129 | The header loop reads back exactly the written strings and stops at the end of the headers, wherever they lie |
| Wire.StoreLayout | src/proto/lan_share_protocol.cpp:119-129 | The padding after a cut value reads as empty strings that store nothing |
| Wire.StoreMeans | src/proto/lan_share_protocol.cpp:124-128 | Any header string: the key is what stands before its first colon, the value what stands between that and the next one; nothing is stored without a colon or with nothing behind it |
| Wire.ArrivingIs | src/proto/lan_share_protocol.cpp:119-128 | A plain value arrives whole, and one with a colon or a NUL arrives up to it |
| Wire.StoreTruncates | src/proto/lan_share_protocol.cpp:119-128 | An entry with a plain key is stored with the part of its value that arrives, and not at all when the value is empty or begins with a NUL |
| Wire.StorePairsPlain | src/proto/lan_share_protocol.cpp:115-129 | With plain keys, whatever the values and the order, exactly those entries come back, each with the part of its value that arrives |
| Wire.StoredIsPlain | src/proto/lan_share_protocol.cpp:124-128 | Whatever was written, what the receiver stores has no colon and no NUL |
| Wire.StoredBackIff | src/proto/lan_share_protocol.cpp:115-129 | The headers come back exactly when all are plain and none is empty |
| Wire.WireParses | src/proto/lan_share_protocol.cpp:100-135 | What the receiver makes of every packet whose lengths are right: rejected, or all fields, the stored headers and the data |
| Wire.PacketRoundTripIff | src/proto/lan_share_protocol.cpp:100-168 | Parsing inverts `write` if and only if the headers are clean and the length is not one the raw test mistakes |
| Receiving.AnyFrame | src/proto/lan_share_protocol.cpp:100-135 | What the receiver makes of any frame whose header part is made of strings, whoever wrote it: version, type, lengths, the stored strings, and the data from the header length to the total length |
| Receiving.ShortFrame | src/proto/lan_share_protocol.cpp:130-134 | A frame shorter than it declares, or than its headers, is read outside |
| Receiving.Unterminated | src/proto/lan_share_protocol.cpp:115-123 | So is one whose header loop meets a string without a NUL before the end, or before its 16-bit counter wraps |
| Receiving.ReadLines | src/proto/lan_share_protocol.cpp:115-129 | The header loop reads every string that begins before the end of the headers, whole, and no other |
| Receiving.RejectedIff | src/proto/lan_share_protocol.cpp:102-107 | A frame is rejected if and only if its length, before it is swapped, is below eight |
| Receiving.LastStringWins | src/proto/lan_share_protocol.cpp:124-128 | A later header string replaces an earlier one of the same key |
| Packets.LanSyncPkt.constructor | src/proto/lan_share_protocol.h:126-127 | A new packet has no headers, no data and both lengths 8 |
| Packets.LanSyncPkt.AddXheader | src/proto/lan_share_protocol.cpp:170-185 | Whole new state of the packet, with 16-bit and 32-bit arithmetic, for a new or an overwritten key |
| Packets.LanSyncPkt.QueryXheader | src/proto/lan_share_protocol.cpp:187-190 | The value, and an inserted empty entry when the key is absent |
| Packets.LanSyncPkt.SetData | src/proto/lan_share_protocol.cpp:202-216 | Whole new state, replacing earlier data |
| Packets.LanSyncPkt.Write | src/proto/lan_share_protocol.cpp:137-168 | Writing into the zeroed buffer yields the bytes of `ToWire`, for every order of the map |
| Packets.Parse | src/proto/lan_share_protocol.cpp:100-135 | The parsing constructor with its loops computes `ParseFrame`, the inverse of `ToWire` |
| Packets.ParseHeaders | src/proto/lan_share_protocol.cpp:115-129 | The header loop stores exactly the strings up to the header length, or runs out of the frame |
| Packets.HeaderLenCountsHeaders | src/proto/lan_share_protocol.cpp:170-216 | After any sequence of adds, overwrites, queries and data, header_len is 8 plus the live headers modulo 2^16 |
| Packets.LengthsStayExact | src/proto/lan_share_protocol.cpp:170-216 | When nothing overflows on the way, both lengths are exact at the end |
| Packets.DataLenKeptIff | src/proto/lan_share_protocol.cpp:170-185 | A header leaves the data length, total_len - header_len, alone if and only if header_len does not overflow |
| Packets.DataCounted | src/proto/lan_share_protocol.cpp:202-216 | Data that is set, once or again, is counted exactly |
| Packets.ExamplePacket | src/proto/lan_share_protocol.cpp:137-168 | A small packet, byte for byte |
| Packets.ExactFits | src/proto/lan_share_protocol.cpp:137-168 | Exact lengths without empty values are what `write` needs |
| Packets.QueryBreaksFit | src/proto/lan_share_protocol.cpp:187-190 | After a query the packet still fits its buffer if and only if the key was there |
| Framing.Connection.ReadCb | src/net/net_framework_impl_with_event.cpp:69-111 | The extraction loop does what `Drain` does with its cap; the rows from `StuckIff` on say what that is |
| Framing.Connection.Receive | src/net/net_framework_impl_with_event.cpp:69-111 | One arrival: the bytes join the input and one callback runs |
| Framing.StuckIff | src/logics/controllers/sync_controller.cpp:59-78 | A callback hands over nothing if and only if the first byte is not version 1, or the frame in front is not all there as far as 32 bits can tell, or declares that it is empty |
| Framing.OtherVersionStops | src/logics/controllers/sync_controller.cpp:66-70 | A byte of another version in front stops the connection for good: over any further fragments nothing is handed over and the bytes pile up |
| Framing.HugeFrameAborts | src/net/net_framework_impl_with_event.cpp:95-101 | A complete frame of 2 GiB or more is cut off, not handed over, and fails the length assertion |
| Framing.WrittenIsFramed | src/logics/controllers/sync_controller.cpp:59-78 | Every packet `write` produces below 2 GiB is a frame the decision recognises |
| Framing.WantsFirst | src/logics/controllers/sync_controller.cpp:59-78 | At the front of a packet stream, the wanted length is that of the first packet, as soon as it is there and never before |
| Framing.DrainPackets | src/net/net_framework_impl_with_event.cpp:86-108 | One callback hands over exactly the complete packets up to its cap and leaves the rest in the buffer |
| Framing.Reassembly | src/net/net_framework_impl_with_event.cpp:69-111 | For every fragmentation, what was handed over is a prefix of the packet list, and delivered plus buffered is what arrived |
| Framing.LastArrivalDecides | src/net/net_framework_impl_with_event.cpp:82-107 | All complete packets are handed over if and only if the last callback had at most 1025 of them to do |
| Framing.FragmentationIndependence | src/net/net_framework_impl_with_event.cpp:69-111 | Two ways of cutting the same bytes end in the same state unless a last callback hits its cap |
| Framing.PacketsArrive | src/net/net_framework_impl_with_event.cpp:69-111 | For clean packets of an accepted length and any fragmentation, parsing what was handed over gives the first packets that were written, in order |
| Framing.AllPacketsArrive | src/net/net_framework_impl_with_event.cpp:82-107 | Once all their bytes are there it gives all of them, if and only if the last callback had at most 1025 to do |
| FileIo.DiskFile.WriteFile | src/utils/io_utils.cpp:83-113 | The file after `writeFile` and the returned length, for any short or empty writes, and for a file that does not open |
| FileIo.StoredBytes | src/utils/io_utils.cpp:95-108 | The file byte by byte: which byte of the buffer the passes carry to which place, and nothing else changed |
| FileIo.OverlayBytes | src/utils/io_utils.cpp:83-113 | A write changes its own range, fills a hole before it with zeros, and nothing else |
| FileIo.WrittenRightIff | src/utils/io_utils.cpp:95-108 | `writeFile` is right if and only if every byte of the data equals the one as far from the front as it is from the start of its pass |
| FileIo.FullWritesRightIff | src/utils/io_utils.cpp:95-108 | With full writes it is right if and only if the data repeats itself every 2 MiB |
| FileIo.OnePassWrites | src/utils/io_utils.cpp:95-98 | One full pass of at most 2 MiB is always right |
| FileIo.ShortWriteGoesWrong | src/utils/io_utils.cpp:100-108 | Two bytes written one at a time come out as the first one twice |
| FileIo.SaveKeepsRanges | src/modules/rs_local_manager.cpp:203-220 | Saving a piece of the source makes that piece right and spoils none that was right |
| FileIo.SavingInAnyOrder | src/modules/rs_local_manager.cpp:203-220 | Pieces that cover the source, in any order, overlapping or repeated, turn any file not longer than it into the source |
| FileIo.ReadSize | src/utils/io_utils.cpp:32-81 | Buffer, returned length and monitor calls, for any short or empty reads, and for a file that does not open or an offset that cannot be sought |
| FileIo.WrappedRangeReadsNothing | src/utils/io_utils.cpp:47-54 | A range that ends behind 2^64 reads nothing |
| FileIo.ChunksFollow | src/utils/io_utils.cpp:52-77 | Chunks are consecutive, at most 2 MiB, and hold the bytes of the file at their place |
| FileIo.ChunksTile | src/utils/io_utils.cpp:52-77 | Together they are all that was asked for and exists |
| FileIo.ChunkEnds | src/utils/io_utils.cpp:46-77 | Only the final chunk reaches the end of what is read |
| Blocks.CutBlocks | src/modules/rs_sync_mamanger.cpp:9-35 | The constructor's loop yields `Cut(size)` for every 64-bit size, with the macro expanded as written |
| Blocks.BlockShape | src/modules/rs_sync_mamanger.cpp:16-34 | Blocks lie in the file, have at most 1 MiB, and are empty only for an empty file |
| Blocks.CutTiles | src/modules/rs_sync_mamanger.cpp:16-34 | Blocks follow each other from 0 to `Reach`, all full but the last |
| Blocks.CutDistinct | src/modules/rs_sync_mamanger.cpp:16-34 | No two blocks overlap |
| Blocks.CutHolds | src/modules/rs_sync_mamanger.cpp:16-34 | The one block an offset falls into, and none from `Reach` on |
| Blocks.BlocksCoverFileIff | src/modules/rs_sync_mamanger.cpp:22-33 | The blocks cover the file if and only if its size passes a test that can be made beforehand |
| Blocks.BelowFourGiB | src/modules/rs_sync_mamanger.cpp:22-33 | Every size below 2^32 passes |
| Blocks.FourGiBIsCutToOne | src/constants/constants.h:16-21 | The size 2^32 gets a single block of 1 MiB |
| Blocks.FourPiBNeverCovered | src/modules/rs_sync_mamanger.cpp:22-33 | No size from 2^52 on passes |
| Allocator.RsSyncManager.RegSyncRs | src/modules/rs_sync_mamanger.cpp:65-76 | Whole new map and result, for new, larger, smaller, different and known announcements |
| Allocator.RsSyncManager.UpdateSyncRs | src/modules/rs_sync_mamanger.cpp:78-115 | The same, under the lock |
| Allocator.RegisterAnswersIff | src/modules/rs_sync_mamanger.cpp:65-115 | An announcement is answered with true if and only if its peer owns exactly the announced version afterwards; otherwise nothing has changed |
| Allocator.OtherVersions | src/modules/rs_sync_mamanger.cpp:89-101 | A larger version starts over with all blocks open and its peer alone; a smaller or a different one is ignored |
| Allocator.RsSyncManager.RegReqSyncRsAuto | src/modules/rs_sync_mamanger.cpp:117-138 | Whole new map and the block given to an owner, or none to anybody else |
| Allocator.AssignedLast | src/modules/rs_sync_mamanger.cpp:120-135 | An owner is given the block that became open last, and that block is what the worker gets |
| Allocator.RsSyncManager.UnregReqSyncRsByBlock | src/modules/rs_sync_mamanger.cpp:140-153 | Whole new map after one range is returned |
| Allocator.GivenBackIsNext | src/modules/rs_sync_mamanger.cpp:143-152 | A returned block is the next one to be assigned, and of equal ranges only the last one leaves |
| Allocator.RsSyncManager.UnregAllReqSyncRsByPeer | src/modules/rs_sync_mamanger.cpp:155-177 | Whole new map after everything of a peer is returned and the peer removed |
| Allocator.ReturnedLatestFirst | src/modules/rs_sync_mamanger.cpp:158-167 | The ranges of a peer come back latest first |
| Allocator.OldestIsNext | src/modules/rs_sync_mamanger.cpp:158-167 | What was open stays in front of what comes back, and the oldest range of the peer is the next one to be assigned |
| Allocator.OthersKeepOrder | src/modules/rs_sync_mamanger.cpp:158-176 | All others keep their ranges and their places among the owners |
| Allocator.RsSyncManager.SyncingRangeDone | src/modules/rs_sync_mamanger.cpp:179-215 | Whole new map after a completion: no change, one range less, or the entry gone |
| Allocator.FinishedTakesRange | src/modules/rs_sync_mamanger.cpp:182-206 | A completion takes out the last matching range and leaves the open blocks alone; the entry goes when nothing is left |
| Allocator.UnmatchedChangesNothing | src/modules/rs_sync_mamanger.cpp:140-215 | A return or a completion without such a range changes nothing |
| Allocator.RsSyncManager.GetOwnerSize | src/modules/rs_sync_mamanger.cpp:221-225 | Counting the owners of a file that is there changes nothing; an absent one counts as none and has become a phantom |
| Allocator.RsSyncManager.GetBlockSize | src/modules/rs_sync_mamanger.cpp:227-231 | Counting the open blocks of a file that is there changes nothing; an absent one counts as none and has become a phantom |
| Allocator.RsSyncManager.GetSyncingSize | src/modules/rs_sync_mamanger.cpp:233-237 | Counting the ranges in flight of a file that is there changes nothing; an absent one counts as none and has become a phantom |
| Allocator.AssignedConserves | src/modules/rs_sync_mamanger.cpp:117-138 | An assignment neither loses nor invents a block |
| Allocator.GaveBackConserves | src/modules/rs_sync_mamanger.cpp:140-153 | Nor does the return of one range |
| Allocator.GaveBackAllConserves | src/modules/rs_sync_mamanger.cpp:155-177 | Nor does the return of all ranges of a peer |
| Allocator.FinishedConserves | src/modules/rs_sync_mamanger.cpp:179-215 | A completion takes out exactly the finished block, or nothing when no such range is in flight |
| Announcements.AnnouncementFold | src/modules/rs_sync_mamanger.cpp:65-115 | After any announcements: the largest size, the hash first announced with it, and the peers that announced both, in order of their first offer and once each |
| LocalTable.CompareChar | src/proto/lan_share_protocol.cpp:240-248 | Equal exactly when nothing is compared or the first bytes agree |
| LocalTable.CmpThenRetNeedToSyncTable | src/modules/rs_local_manager.cpp:154-196 | Each wanted name once, with its last row that has a uri, exactly when that row beats every local row of the name |
| LocalTable.LastOfferAt | src/modules/rs_local_manager.cpp:158-164 | The offer of a name is its last row with a uri |
| LocalTable.NoOffer | src/modules/rs_local_manager.cpp:158-164 | A name of which no row has a uri has none |
| LocalTable.SizesDecide | src/modules/rs_local_manager.cpp:174-189 | A file larger than every row of its name here is fetched, one smaller than some row is not |
| LocalTable.SameSizeFetchedIff | src/modules/rs_local_manager.cpp:180-186 | A different file of equal size is fetched if and only if the hashes differ in their first byte |
| LocalTable.DifferentFileNotFetched | src/modules/rs_local_manager.cpp:180-186 | Two different files of which the newer is not fetched |
| Tasks.TaskManager.AddTask | src/modules/task/task_manager.cpp:48-59 | The id goes to the end unless it is pending |
| Tasks.TaskManager.TakeFront | src/modules/task/task_manager.cpp:34-39 | The worker gets the first id |
| Tasks.FirstInFirstOut | src/modules/task/task_manager.cpp:30-59 | Pending ids stay distinct and the worker gets accepted ids in the order of acceptance, over any history |
| Machine.StepOk | src/logics/services/sync_service.cpp:62-158 | Every step of either thread keeps the invariant: conservation, at most five in flight, coherent owners, distinct tasks |
| Machine.RunOk | src/modules/task/req_rs_task.cpp:32-64 | So does every interleaving of the two threads |
| Machine.AllotOk | src/modules/task/req_rs_task.cpp:42-58 | An assignment stays within the limit, because nobody else adds between the worker's look and its assignment |
| Machine.SendFailedOk | src/modules/task/req_rs_task.cpp:18-29 | The failure path keeps the invariant |
| Machine.CompleteOk | src/modules/rs_sync_mamanger.cpp:179-215 | A completion keeps the invariant, also while the worker is between two looks |
| Machine.AnnounceOk | src/modules/rs_sync_mamanger.cpp:65-115 | An announcement keeps it, also when it replaces the version under way |
| Downloads.BlocksAreConserved | src/modules/rs_sync_mamanger.cpp:78-215 | In every reachable state open, in-flight and finished blocks together are the blocks of the file, each exactly once |
| Downloads.InFlightIsBounded | src/modules/task/req_rs_task.cpp:42-47 | In every reachable state no file has more than five ranges in flight and no task is pending twice |
| Downloads.OwnersAreCoherent | src/modules/rs_sync_mamanger.cpp:78-177 | Owners are distinct, each announced exactly the tracked version, and every range is with an owner |
| Owners.AnnouncementAddsOwner | src/modules/rs_sync_mamanger.cpp:104-110 | Whoever announces the version under way joins its owners at the end, whatever is in flight, and disturbs no block and no range |
| Owners.AnnouncedIsThere | src/modules/rs_sync_mamanger.cpp:55-63 | After any further announcements, a file that was announced has an entry of at least its size, and with its size and hash that peer is among the owners |
| Owners.OwnersExactly | src/modules/rs_sync_mamanger.cpp:78-177 | In every reachable state the owners of a file are exactly the peers that announced its size and hash since the version began and to which no request of it has failed since |
| Downloads.GoneStaysGone | src/modules/rs_sync_mamanger.cpp:117-177 | A peer without the file and without ranges of it stays so until it announces the file again |
| Downloads.FailedPeerGetsNothing | src/modules/task/req_rs_task.cpp:23-29 | After a failed send, whatever follows, that peer gets no block of the file until it announces it again |
| Downloads.EveryByteAccountedFor | src/logics/services/sync_service.cpp:126-158 | At every moment of a run with faithful replies, each byte the blocks reach is pending or on disk and right |
| Downloads.CompletedFileIsTheSource | src/modules/rs_sync_mamanger.cpp:191-205 | A file that is dropped as complete holds the source as far as its blocks reach: all of it when they cover it |
| Downloads.OnlyCompletionDrops | src/modules/rs_sync_mamanger.cpp:204-204 | Nothing but a completion takes an entry away |
| Downloads.DroppedIsDone | src/modules/rs_sync_mamanger.cpp:191-205 | When it does, every block of the version has been finished exactly once |
| Downloads.SuccessIsNeverSeen | src/modules/rs_sync_mamanger.cpp:191-205 | Between locked sections every entry, and every lookup of an absent file, has the success flag unset |
| LateReplies.LastSaveDecides | src/logics/services/sync_service.cpp:144-144 | After any run, whatever was saved: the byte at an offset is the one the last save carried there, else the old one |
| LateReplies.FinishedWasSaved | src/logics/services/sync_service.cpp:144-154 | Every finished block was saved, with exactly its range, earlier in the run |
| LateReplies.DroppedByteRightIff | src/logics/services/sync_service.cpp:144-154 | When a file is dropped, whatever the replies carried, a byte its blocks reach is right if and only if the last save that covered it carried the right one |
| LateReplies.DroppedFileRightIff | src/logics/services/sync_service.cpp:144-154 | The dropped file is right if and only if that is so at every offset |
| LateReplies.DroppedAtOnceIff | src/logics/services/sync_service.cpp:144-154 | With one full pass per save: the dropped file is right if and only if, at every offset, the data of the last save that covered it is |
| LateReplies.SaveKeepsFinishedIff | src/logics/services/sync_service.cpp:144-144 | The finished blocks stay right under a save if and only if it agrees with the content on every offset inside them |
| LateReplies.LateReplySpoils | src/logics/services/sync_service.cpp:144-154 | A run from the start in which every reply is honest for the version its sender announced, an unmatched late one overwrites a finished block, and the dropped file is not the source |
| LateReplies.UnopenedFileCompletes | src/modules/rs_local_manager.cpp:215-219 | A run in which the file does not open, and is dropped as complete with nothing on disk |
| Phantoms.PhantomAnnouncedIff | src/modules/rs_sync_mamanger.cpp:89-113 | An announcement makes a file tracked again if and only if its size exceeds the junk size of the phantom |
| Phantoms.PhantomStays | src/modules/rs_sync_mamanger.cpp:78-237 | A phantom stays one, of the same size, in every run without a larger announcement |
| Phantoms.UntrackedStays | src/modules/rs_sync_mamanger.cpp:78-237 | In every reachable state an untracked entry is a phantom, and the file stays untracked until an announcement exceeds its size |
| Phantoms.NeverTrackedAgain | src/modules/rs_sync_mamanger.cpp:89-101 | With the largest junk size, no run ever tracks the file again |
| Phantoms.CompletedOnceForAll | src/modules/task/req_rs_task.cpp:40-47 | A run from the start that ends there: the file is completed, then a pending task looks it up |
| Accounting.WorkIsAccountedFor | src/modules/rs_sync_mamanger.cpp:117-215 | Over any run of one version, twice the open plus the in-flight ranges falls by one per assignment and completion and grows by one per return |
| Accounting.DownloadTakesExactly | src/modules/rs_sync_mamanger.cpp:117-215 | A download of n blocks takes exactly n completions, and n assignments plus one per block returned |
| Accounting.AssignmentIsSentIff | src/modules/task/req_rs_task.cpp:58-63 | An assigned block is asked for if and only if the file is not empty |
| Accounting.RequestedIsInFlight | src/modules/task/req_rs_task.cpp:57-63 | What a request asks for has just gone from the open blocks to the ranges in flight with the peer it goes to, who owns the file; without a request nothing has |
| Accounting.DrawnOwnerIsAsked | src/modules/task/req_rs_task.cpp:52-62 | Whichever owner of its copy the worker draws, that one is asked for the last open block, when it still owns the file |
| Accounting.RequestsAreProper | src/modules/task/req_rs_task.cpp:58-63 | In every reachable state a request under way asks for at least one byte and at most 1 MiB |
| Accounting.DroppedBlocksCoverIff | src/modules/rs_sync_mamanger.cpp:191-205 | The finished blocks of a dropped file cover it if and only if its size passes the test |
| Progress.DownloadRuns | src/modules/task/req_rs_task.cpp:32-64 | From any point of an undisturbed download there is a run that finishes it |
| Progress.HonestDownload | src/logics/services/sync_service.cpp:97-158 | Every non-empty file can be fetched from one honest peer, and the copy is right if and only if the blocks cover the file |
| Progress.FourGiBCompletesAtOneMiB | src/modules/rs_sync_mamanger.cpp:22-33 | A run that drops a 4 GiB file as complete with 1 MiB on disk |
| LostReplies.LostForGood | src/logics/services/sync_service.cpp:117-122 | With five ranges in flight, the open and in-flight blocks of a file never change in a run without a matching reply or a larger announcement |
| LostReplies.FiveLost | src/modules/task/req_rs_task.cpp:42-47 | A run from the start that gets there, for every file of at least five blocks |
| Finishing.CanFinish | src/logics/services/sync_service.cpp:126-158 | From every state in which a non-empty file has an owner, wherever both threads stand, honest replies alone can complete it, and it is right as far as its blocks reach if it was so far; unless the worker is doomed and still needed |
| Finishing.ReachableCanFinishIff | src/modules/task/req_rs_task.cpp:40-63 | For every reachable state and every non-empty tracked file: the handlers can complete it if no block is open or the worker is not doomed, and otherwise no run does |
| Finishing.DoomedForGood | src/modules/task/req_rs_task.cpp:40-57 | Once the worker is bound to index an empty copy, nothing prevents it and no open block is ever assigned |
| Finishing.ReturnDooms | src/modules/task/req_rs_task.cpp:40-57 | A run from the start that gets there: the only owner fails and comes back between the copy and the count |
| Finishing.CopyHolds | src/modules/task/req_rs_task.cpp:40-57 | Without an announcement of the file between copy and count, every index the worker can draw is in range |
| Finishing.CopyOutdated | src/modules/task/req_rs_task.cpp:40-57 | A run in which one further owner makes the count larger than the copy |
| Exchange.SendRsReq | src/modules/task/req_rs_task.cpp:7-16 | The bytes of a request, in every header order; they begin with version 1 and type 5 |
| Exchange.KeyLetters | src/proto/lan_share_protocol.h:29-48 | The header names, letter by letter |
| Exchange.Monitor | src/components/sync_io_read_monitor.cpp:5-31 | The bytes of one reply, in every header order; they begin with version 1 and type 6 |
| Exchange.HandleReqResource | src/logics/services/sync_service.cpp:62-95 | What goes out for a request: the packets of `Serve` one by one, nothing for an unknown file or one that does not open |
| Exchange.RequestArrivesIff | src/modules/task/req_rs_task.cpp:9-16 | A request arrives as sent if and only if the uri has no colon and no NUL |
| Exchange.RequestReadAs | src/logics/services/sync_service.cpp:62-75 | Which file and range the server reads from a request for any uri: the uri up to its first colon or NUL, and always the range that was asked for |
| Exchange.ColonCutsRequest | src/proto/lan_share_protocol.cpp:119-128 | So a uri with a colon is cut there |
| Exchange.ReplyArrivesIff | src/components/sync_io_read_monitor.cpp:5-31 | A reply is a frame of its own and arrives as sent if and only if uri and hash are plain and not empty |
| Exchange.ReplyReadAs | src/logics/services/sync_service.cpp:126-144 | What the client reads from any packet with a content range: nothing without a uri or enough data, else the file, the start and exactly so many bytes |
| Exchange.LastFlagIff | src/components/sync_io_read_monitor.cpp:12-23 | For any short reads exactly the final chunk is flagged last, and only when the file has all that was asked for |
| Exchange.BlockComesBackIff | src/utils/io_utils.cpp:46-77 | A chunk that is the requested block exists if and only if the file opens, can be positioned and reaches the end of the block, and the first read that returns anything returns all of it |
| Exchange.OpenRangeGetsNoReply | src/logics/services/sync_service.cpp:62-95 | A range without an end is answered with silence |
| Exchange.ServedInOneReply | src/logics/services/sync_service.cpp:62-95 | A block the file has, read at once, is answered with one reply, flagged last, with exactly that content range |
| Serving.ServedFileArrives | src/logics/services/sync_service.cpp:62-95 | Whatever the short reads: the replies to a request read as consecutive pieces of the file, carry exactly the bytes asked for as far as the file has them, and saving them all changes exactly these bytes |
| Exchange.RequestAndReplyAgree | src/logics/services/sync_service.cpp:126-142 | From request bytes to reply bytes: one reply, and the client reads from it exactly the block it asked for |
| Exchange.ReplyFinishesBlock | src/logics/services/sync_service.cpp:142-154 | Saving and completing that reply finishes exactly the assigned range, with its bytes on disk |
| Exchange.LastReplyRightIff | src/logics/services/sync_service.cpp:144-154 | The reply for the last range in flight completes the file whatever it carries; the file is right if and only if it carried the tracked version and the rest was right already, as it is when every finished block is |
| Exchange.TableReplyNeverRejected | src/proto/lan_share_protocol.cpp:102-107 | No resource table has one of the lengths the raw test rejects |
| Client.SyncClient.AddReqTask | src/logics/services/sync_service.cpp:111-124 | A run that adds a task for every file with fewer than five ranges in flight, unless one is pending, and adds no other |
| Client.SyncClient.SaveReply | src/logics/services/sync_service.cpp:142-154 | Save, then complete, as a run of the machine |
| Client.SyncClient.HandleReplyResource | src/logics/services/sync_service.cpp:126-158 | One whole handler call as a run of the machine: save, complete, the tasks for what that leaves; nothing for a reply without uri |
| Client.SyncClient.RegisterRows | src/modules/rs_sync_mamanger.cpp:55-63 | A run of announcements: one for each wanted row, none for any other |
| Client.SyncClient.HandleReplyTableIndex | src/logics/services/sync_service.cpp:97-109 | One whole handler call: announces every wanted row and no other, then adds the tasks; the file of every wanted row then has an entry of at least its size, and with its size and hash the peer is among the owners |
| Client.SyncClient.WorkerStep | src/modules/task/req_rs_task.cpp:32-64 | One step of the worker from one lock to the next is one step of the machine, whatever the handlers did in between |
| Client.SyncClient.RunTask | src/modules/task/req_rs_task.cpp:32-64 | A whole task without interference as a run of the machine, and its effect on the entries |

## Left out

- Sockets, libevent, timers, logging, configuration, discovery and the dispatch of packets by type: plumbing.
- Hashing and directory scanning: the local table is given. The hash check at completion only logs.
- Sessions: the session of the chosen peer is assumed to exist, and replies to come from the recorded peer;
  the program looks sessions up by IP address alone.
- Data races: `regSyncRs` and `getAllUriRs` look at the map without the lock. Here each of them is one step.
- `SyncingRange.timeOut`, which nothing reads; `TaskManager::rmTask` and `stop`; object deletion.
- Machine.Choose: the random index is within the copied owner list. When it can lie behind it is proved
  (Finishing.CopyHolds, Finishing.CopyOutdated); what the program then reads from memory is not modelled.
- Machine.SaveFailed: the program never takes this branch, because an unsigned length is tested for being
  negative; the step is kept so that the return of one range is covered.
- Machine.Save: names a file, as the handler demands, and ends below 2^63.
- FileIo.ReadSize: `read` calls that return -1, after which the program reads outside its buffer; files from
  2^63 on; an allocation that fails because the requested size is huge; `read` returning 0 for ever, because
  the file got shorter, which makes the program loop for ever.
- FileIo.DiskFile.WriteFile: `write` calls that return -1, for the same reason, or 0 for ever, and a failed
  seek, which only offsets from 2^63 on can cause.
- Client.SyncClient.SaveReply: requires a reply to end below 2^63. Beyond that the seek or the write fails, and
  the program goes on writing from outside the buffer.
- Client.SyncClient.HandleReplyResource: the same.
- Wire.ParseFrame: a frame that makes the constructor read outside it, or that wraps the 16-bit string counter,
  is `Malformed`; what the program then reads from neighbouring memory is not modelled.
- RangeText.ParseRange: a text without a token, or whose start is no number, gives no range; the program reads past
  a vector or leaves the start unset. An end that is no number reads as 0, as in the program.
- RangeText.ParseContentRange: the same, and also for the total.
- Exchange.ReadReply: a content range longer than the data counts as unreadable, where the program would save
  bytes from behind the packet.
- Packets.LanSyncPkt.Write: requires the lengths to be right, because the program writes outside its buffer
  when they are not; when they are is proved separately.
- Exchange.SendRsReq: the uri is shorter than the 2048 bytes of a table row, from which it comes.
- Framing.LastArrivalDecides: less than 4 GiB in the input buffer, whose length is kept in 32 bits;
  Framing.Reassembly has no such limit. The input does not grow during a callback.
- Downloads.CompletedFileIsTheSource: replies are faithful, fit into one pass and are written in full. What any
  other replies do is the subject of LateReplies.DroppedByteRightIff.
- Exchange.LastReplyRightIff: the reply that matches. One that matches no range is the subject of
  LateReplies.SaveKeepsFinishedIff and LateReplies.LateReplySpoils.
- Handlers.Produced: a handler call is not interrupted by the worker, which only narrows the runs that are shown to
  exist; the results about all runs have the worker anywhere.
- LocalTable.CmpThenRetNeedToSyncTable: the result is a map from names to rows, not a vector in key order.
- Client.SyncClient.AddReqTask: walks the map in any order.
- Client.SyncClient.RunTask: one task without interference; with interference the worker is a sequence of
  Client.SyncClient.WorkerStep.
- Reverse loops over empty vectors, which compare iterators before the beginning: here they do nothing.
- The Wireshark plugin, the scripts and the bundled libraries.
