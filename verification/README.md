# Verification of the caches, converters, schedulers and filters of avplayer and libtorrent

A Dafny 4.11 project that models the stateful and algorithmic core of the repository and proves what it is relied on
for. `dafny verify dfyconfig.toml` checks everything.

| file | what it models |
|---|---|
| Common.dfy | bytes and facts about sequences that several models share |
| DiskBlocks.dfy, DiskCache.dfy, DiskRun.dfy | the block cache of the disk thread between peers and storage: write cache, read cache, flushing, eviction, read-ahead, and whole runs of jobs |
| Elevator.dfy | the sorted list of deferred reads and the elevator that sweeps over it |
| Unicode.dfy, ConvertUTF.dfy, ConvertLaws.dfy, EncodingForms.dfy | the characters of the three encoding forms, the six converters with bounded targets, their laws, and what they make of any text, by grammar |
| BandwidthShares.dfy, BandwidthRound.dfy, Bandwidth.dfy | channels, requests, one round as a function, and the manager that computes it by loops |
| ChainedBuffer.dfy, Payloads.dfy, SendPath.dfy | the send buffer, the payload ranges over it, and both together as a connection uses them |
| SyncScan.dfy | the scan for a synchronisation pattern |
| ConnectionQueue.dfy | the half-open connection queue under any interleaving of threads |
| LruCache.dfy | the LRU simulator and its stack property |
| Bencode.dfy | the bencoder and its unique readability |
| FileHashes.dfy | file hashes computed while pieces are read |
| AudioFilters.dfy | the in-place filters that double or halve a buffer |

Main results. A run of the disk thread is transparent: every successful read returns the bytes last written, whatever
was flushed, evicted or read ahead in between, and reads fail only with the storage (`DiskRun.Run`); and whatever the
number of rounds, flushing keeps the order of its algorithm (`DiskCache.FlushKeepsOrder`). The elevator takes every job
at most once, passes none by (`Elevator.PickPassesNone`), and goes back between two changes of direction at most once
for each abort that disturbs it (`Elevator.ReadQueue.Valid`). The converters round-trip, commute and can be resumed
(`ConvertLaws`), and read and write exactly what the grammars of the encoding forms say (`EncodingForms`). No bandwidth
channel is over-committed or passes more than its rate, and every requested byte is accounted for
(`Bandwidth.Manager.Valid`, `Bandwidth.Manager.UpdateQuotas`). A connection sends the bytes it queued, in order, and
counts exactly the payload among them (`SendPath.Connection.Valid`). The sync scan and the file hashes do not depend on
how the stream is cut (`SyncScan.Scan.Valid`, `FileHashes.SetPieceHashes`). on_connect is called at most once per ticket
under every interleaving (`ConnectionQueue.Queue.Valid`). Bencoding identifies exactly the values that are the same
(`Bencode.EncodesTheSame`), and an independent reader gives them back (`Bencode.ReadsBack`).

Four properties do not hold without a condition, and are stated with the exact one:

- isLegalUTF8 is wider than Table 3-7 of the Unicode Standard; `Unicode.LegalExactly` says by exactly which sequences,
  and `ConvertLaws.Utf8ThereAndBack` that these, and only these, do not survive the way to UTF-16 and back.
- Conversion in pieces gives the output and the stop of one call, but the result of its last call only: it differs
  exactly if a faulty UTF-32 character lies before that call and none behind its start (`ConvertLaws.Resumable`,
  `ConvertLaws.PiecesMakeTheWhole`); `ConvertLaws.ResumingForgets` reaches that case.
- An abort leaves the elevator in order, whatever is deferred afterwards, exactly if it is spared: the elevator waits
  for a new list, or goes up after going up, or, going up after a turn, some job at or behind the position stays or none
  at all, or, going down, some job there stays and the first of them is not above the last one taken
  (`Elevator.Spared`, `Elevator.AbortExactly`). If the next job is taken at once the condition is wider
  (`Elevator.NextAfterAbort`). `Elevator.AbortMayTurnBack` runs from the constructor into an abort that makes the
  elevator go back; the pick after it restores order.
- Empty files behind the last byte of a torrent get no hash (`FileHashes.EmptyFileHashed`).

Assumptions. Storage writes succeed, and storage of a piece is not written while the piece is in the read cache; a
block has 16 KiB; the header constants of ConvertUTF are 0xFFFD, 0xFFFF and 0x10FFFF; timestamps of LRU requests
increase and the size is positive; the clock of the connection queue stays below max_time. Clocks, the set of
disconnecting peers and the outcomes of storage reads are parameters.

## Model

| member | source | states |
|---|---|---|
| `DiskRun.Run` | libtorrent/src/disk_io_thread.cpp:1972-2208 | over any run of write, hash and read jobs with flushing, eviction and expiry in between, every read that succeeds returns the bytes last written there, and as many reads fail as read calls of the storage failed |
| `DiskRun.Turn` | libtorrent/src/disk_io_thread.cpp:247-293 | expiry and one job keep the caches fitting the history, whatever is flushed or evicted |
| `DiskRun.Perform` | libtorrent/src/disk_io_thread.cpp:1972-2208 | one job changes what readers see exactly as the job says, and answers a read with the current contents unless a read call of the storage failed |
| `DiskBlocks.FlushKeepsView` | libtorrent/src/disk_io_thread.cpp:570-691 | writing the cached blocks of any range to storage and dropping them leaves the contents a reader sees unchanged |
| `DiskBlocks.WriteRunExtendsOverlay` | libtorrent/src/disk_io_thread.cpp:596-649 | one run written at its own first block extends storage by exactly the bytes of that run, a short last block included |
| `DiskBlocks.RunBytesAt` | libtorrent/src/disk_io_thread.cpp:596-649 | byte k of the piece is at k minus the offset of the run in the bytes of its write call |
| `DiskBlocks.RunBytesLength` | libtorrent/src/disk_io_thread.cpp:596-649 | the length of a write call is that of the blocks of its run, up to the end of the piece |
| `DiskBlocks.CountCleared` | libtorrent/src/disk_io_thread.cpp:660-690 | dropping a range frees exactly the cached blocks in it |
| `DiskBlocks.HashPositionOfRun` | libtorrent/src/disk_io_thread.cpp:647-647 | flushing a run that starts at next_block_to_hash moves it to the end of the run |
| `DiskBlocks.HashPositionIs` | libtorrent/src/disk_io_thread.cpp:647-647 | a flush moves next_block_to_hash, if it is in the range, to the first hole behind it or to the end of the range, and otherwise leaves it |
| `DiskBlocks.LongestRunIsLongest` | libtorrent/src/disk_io_thread.cpp:427-473 | the longest run is a run, and no run of cached blocks is longer |
| `DiskBlocks.FreeFirstLeft` | libtorrent/src/disk_io_thread.cpp:378-390 | freeing the first block that is left keeps the rest a middle part of what was cached |
| `DiskBlocks.FreeLastLeft` | libtorrent/src/disk_io_thread.cpp:392-400 | freeing the last block that is left keeps the rest a middle part of what was cached |
| `DiskBlocks.DropKeepsCoherence` | libtorrent/src/disk_io_thread.cpp:340-407 | a piece that showed the stored bytes still does after any of its blocks were dropped |
| `DiskBlocks.CoherentBlockwise` | libtorrent/src/disk_io_thread.cpp:736-867 | a cached piece shows the stored bytes exactly when each cached block holds the bytes of its place |
| `DiskBlocks.PartOfBlock` | libtorrent/src/disk_io_thread.cpp:1203-1237 | a part of a coherent block is the same part of the stored piece |
| `DiskBlocks.PartOfRead` | libtorrent/src/disk_io_thread.cpp:800-867 | each block of a read over several blocks gets the stored bytes of its own place, also the short last one |
| `DiskBlocks.FetchedIsHit` | libtorrent/src/disk_io_thread.cpp:1158-1201 | reading from the first missing block of the request makes the request a hit |
| `DiskBlocks.HitMeansHeld` | libtorrent/src/disk_io_thread.cpp:1124-1146 | is_cache_hit is true exactly when every requested byte is cached, over one block or two |
| `DiskBlocks.AddBlockView` | libtorrent/src/disk_io_thread.cpp:2055-2162 | a block put into the write cache replaces what readers see at its place and nothing else |
| `DiskBlocks.IsolatedBlock` | libtorrent/src/disk_io_thread.cpp:409-425 | a block without cached neighbours cannot lengthen the longest run |
| `DiskBlocks.ReplacedBlock` | libtorrent/src/disk_io_thread.cpp:2083-2109 | replacing a cached block leaves the longest run as it was |
| `DiskBlocks.SingleBlock` | libtorrent/src/disk_io_thread.cpp:694-732 | the first block of an entry makes a longest run of one |
| `DiskCache.FlushKeepsContents` | libtorrent/src/disk_io_thread.cpp:570-691 | flushing any range of an entry changes nothing a reader of any piece can see |
| `DiskCache.FlushKeepsCaches` | libtorrent/src/disk_io_thread.cpp:570-691 | flushing keeps both caches valid: what is written is never in the read cache |
| `DiskCache.WriteShows` | libtorrent/src/disk_io_thread.cpp:2055-2162 | the written bytes replace what a reader saw at their place, in that piece only |
| `DiskCache.EvictKeepsReadCache` | libtorrent/src/disk_io_thread.cpp:340-407 | an entry of the read cache may lose blocks and stays coherent with storage |
| `DiskCache.RefillKeepsReadCache` | libtorrent/src/disk_io_thread.cpp:736-867 | an entry that gained blocks read from storage stays coherent |
| `DiskCache.TotalUpdate` | libtorrent/src/disk_io_thread.cpp:920-986 | changing one entry changes the number of cached blocks by the difference of its own |
| `DiskCache.FlushHashable` | libtorrent/src/disk_io_thread.cpp:537-544 | after the blocks from next_block_to_hash on were flushed nothing of the entry can be flushed without a later read back |
| `DiskCache.DiskIoThread.ContiguousBlocks` | libtorrent/src/disk_io_thread.cpp:409-425 | the result is the length of the longest run of cached blocks |
| `DiskCache.DiskIoThread.EndRun` | libtorrent/src/disk_io_thread.cpp:598-625 | the end of a run issues one write call with the bytes of that run at the offset of its first block |
| `DiskCache.DiskIoThread.TakeBlock` | libtorrent/src/disk_io_thread.cpp:626-648 | a cached block adds its filled part to the pending write call, in either form |
| `DiskCache.DiskIoThread.WriteRuns` | libtorrent/src/disk_io_thread.cpp:596-649 | storage becomes the overlay of the range, by one write call per maximal run, the same in the coalesced and the vectored form |
| `DiskCache.DiskIoThread.FreeRange` | libtorrent/src/disk_io_thread.cpp:660-690 | exactly the cached blocks of the range are freed, and counted |
| `DiskCache.DiskIoThread.FlushEntry` | libtorrent/src/disk_io_thread.cpp:570-691 | the entry and storage after a flush, and the number of blocks flushed |
| `DiskCache.DiskIoThread.FlushRange` | libtorrent/src/disk_io_thread.cpp:570-691 | contents unchanged, invariants kept, and the result is the drop in cache_size and in buffers in use |
| `DiskCache.DiskIoThread.FlushContiguousBlocks` | libtorrent/src/disk_io_thread.cpp:427-473 | flushes one longest run, or with avoid_readback the run at next_block_to_hash, or nothing if it is below the limit, and returns its length |
| `DiskCache.DiskIoThread.LargestRange` | libtorrent/src/disk_io_thread.cpp:449-468 | the loop finds a longest run and its position |
| `DiskCache.DiskIoThread.RunAt` | libtorrent/src/disk_io_thread.cpp:438-446 | the avoid_readback loop finds how far the cached blocks go from next_block_to_hash |
| `DiskCache.DiskIoThread.FlushRun` | libtorrent/src/disk_io_thread.cpp:464-472 | the run found is flushed unless it is below the limit |
| `DiskCache.DiskIoThread.FlushAndErase` | libtorrent/src/disk_io_thread.cpp:502-514 | every block of the entry reaches storage before the entry goes |
| `DiskCache.DiskIoThread.FlushLru` | libtorrent/src/disk_io_thread.cpp:502-514 | terminates, keeps contents, frees what was asked, and no entry more, or everything; what stays is untouched and expires no earlier than anything that went |
| `DiskCache.DiskIoThread.FlushLongestRun` | libtorrent/src/disk_io_thread.cpp:515-526 | of the entry whose counter is largest a run goes that no run of any entry exceeds; the result is its length, and the entry goes exactly if it is empty then |
| `DiskCache.DiskIoThread.FlushLargestContiguous` | libtorrent/src/disk_io_thread.cpp:515-526 | terminates with the exact drop in cache_size; round by round a longest run of the whole cache goes, until enough is free; one of the longest runs at the start is gone |
| `DiskCache.DiskIoThread.FlushHashed` | libtorrent/src/disk_io_thread.cpp:536-543 | the blocks from next_block_to_hash up to the next hole go, and no others |
| `DiskCache.DiskIoThread.FlushHashableBlocks` | libtorrent/src/disk_io_thread.cpp:530-549 | terminates; round by round the hashable blocks of the entry that expires first among those that have any go; frees what was asked, or leaves no entry whose next block to hash is cached |
| `DiskCache.DiskIoThread.FlushUnhashable` | libtorrent/src/disk_io_thread.cpp:551-565 | terminates; round by round a longest run goes; frees what was asked, or leaves no block |
| `DiskCache.DiskIoThread.FlushAvoidReadback` | libtorrent/src/disk_io_thread.cpp:528-567 | the default algorithm: blocks that need no read back first, then the longest runs; no other block goes while a hashable one is left; frees what was asked, or everything |
| `DiskCache.DiskIoThread.FreePiece` | libtorrent/src/disk_io_thread.cpp:295-337 | every cached block of the entry is freed once |
| `DiskCache.DiskIoThread.FreeFirst` | libtorrent/src/disk_io_thread.cpp:378-390 | the scan index stops at the first block left without leaving the piece |
| `DiskCache.DiskIoThread.FreeLast` | libtorrent/src/disk_io_thread.cpp:392-400 | the scan index stops at the last block left without leaving the piece |
| `DiskCache.DiskIoThread.TrimEnds` | libtorrent/src/disk_io_thread.cpp:366-402 | exactly n blocks go, alternately from start and end |
| `DiskCache.DiskIoThread.Evict` | libtorrent/src/disk_io_thread.cpp:355-407 | frees the smaller of the asked and the present number of blocks; the entry goes with its last |
| `DiskCache.DiskIoThread.ClearOldestReadPiece` | libtorrent/src/disk_io_thread.cpp:340-407 | only the oldest entry not spared, and only if expired, loses blocks: exactly the minimum of asked and present |
| `DiskCache.DiskIoThread.ClearReadPieces` | libtorrent/src/disk_io_thread.cpp:485-495 | expired read pieces go oldest first until enough is free, or none has expired, or the oldest expired one held no block |
| `DiskCache.DiskIoThread.FlushCacheBlocks` | libtorrent/src/disk_io_thread.cpp:482-568 | terminates with the exact drop in cache_size, contents unchanged, spared pieces untouched; the write cache goes through rounds of the algorithm that is set, while less is free than was asked, and keeps its order |
| `DiskCache.DiskIoThread.FlushByAlgorithm` | libtorrent/src/disk_io_thread.cpp:502-567 | each round takes what the algorithm that is set says: a whole entry that expires first, a longest run, or hashable blocks as long as there are any |
| `DiskCache.FlushKeepsOrder` | libtorrent/src/disk_io_thread.cpp:502-567 | after any number of rounds: under lru what stays is untouched and expires no earlier than anything gone; under largest_contiguous one of the longest runs is gone; under avoid_readback nothing hashable is left or only hashable blocks are gone |
| `DiskCache.LongestRound` | libtorrent/src/disk_io_thread.cpp:515-526 | a longest run of the entry with the largest counter is a longest run of the cache |
| `DiskCache.LongestKeepsUnhashable` | libtorrent/src/disk_io_thread.cpp:551-565 | flushing any run makes no entry hashable that was not |
| `DiskCache.HashedStep` | libtorrent/src/disk_io_thread.cpp:530-549 | an entry is as it was, or has lost hashable blocks only and is not hashable any more: kept by a round |
| `DiskCache.DiskIoThread.AllocateBlocks` | libtorrent/src/disk_io_thread.cpp:754-799 | buffers for the missing blocks up to the next cached one, as far as there is room |
| `DiskCache.DiskIoThread.FillBlocks` | libtorrent/src/disk_io_thread.cpp:833-867 | what was read fills exactly the new blocks, each with its own stored bytes |
| `DiskCache.DiskIoThread.ReadIntoPiece` | libtorrent/src/disk_io_thread.cpp:736-867 | on success the piece holds more blocks and is coherent; on failure it is empty of new ones and the counters agree |
| `DiskCache.DiskIoThread.FetchBlocks` | libtorrent/src/disk_io_thread.cpp:1171-1201 | a miss makes room without evicting the piece being served, and the request becomes a hit |
| `DiskCache.DiskIoThread.MakeRoom` | libtorrent/src/disk_io_thread.cpp:1187-1194 | room comes from the read cache alone and never from the spared piece |
| `DiskCache.DiskIoThread.ReadAhead` | libtorrent/src/disk_io_thread.cpp:887-891 | as many blocks as are left and fit a cache line, and beyond three only as far as twice their number fits the cache; never less for another reason |
| `DiskCache.DiskIoThread.CopyBlock` | libtorrent/src/disk_io_thread.cpp:1206-1216 | the part of the block lands at its place of the buffer, the rest of the buffer is untouched |
| `DiskCache.DiskIoThread.CopyOut` | libtorrent/src/disk_io_thread.cpp:1203-1237 | the buffer gets exactly the bytes asked for, also across two blocks |
| `DiskCache.DiskIoThread.CopyStep` | libtorrent/src/disk_io_thread.cpp:1206-1234 | one turn of the loop: a part of a block is copied, and only blocks up to it may be dropped |
| `DiskCache.DiskIoThread.CopyFromPiece` | libtorrent/src/disk_io_thread.cpp:1148-1237 | success fills the buffer with the stored bytes; hit is is_cache_hit before any read |
| `DiskCache.DiskIoThread.Deliver` | libtorrent/src/disk_io_thread.cpp:1203-1237 | a hit is answered from the cache alone |
| `DiskCache.DiskIoThread.CacheReadBlock` | libtorrent/src/disk_io_thread.cpp:871-917 | a new entry is coherent and holds at least the first block of the request, or it is not kept; -1 exactly if the storage failed |
| `DiskCache.DiskIoThread.TryReadFromCache` | libtorrent/src/disk_io_thread.cpp:1239-1288 | a successful read fills the buffer with exactly the stored bytes, keeps every invariant, and renews the expiry of the entry or drops an empty one |
| `DiskCache.DiskIoThread.FreeBackwards` | libtorrent/src/disk_io_thread.cpp:1217-1232 | a volatile cache drops the read block and the contiguous cached ones right before it, and only those |
| `DiskCache.DiskIoThread.PutBlock` | libtorrent/src/disk_io_thread.cpp:2083-2110 | the block and both counters of the entry follow a write |
| `DiskCache.DiskIoThread.CacheBlock` | libtorrent/src/disk_io_thread.cpp:694-732 | a new write entry shows the written block to readers and has its expiry, and storage is not touched |
| `DiskCache.DiskIoThread.WriteCached` | libtorrent/src/disk_io_thread.cpp:2080-2124 | a write to an entry shows the new bytes, renews its expiry, and leaves no run of write_cache_line_size blocks that was not there before, or with avoid_readback no hashable one |
| `DiskCache.LongRunGone` | libtorrent/src/disk_io_thread.cpp:2115-2120 | a run as long as a cache line that a new block completes holds that block, so that none is left when it is flushed |
| `DiskCache.DiskIoThread.FlushDownTo` | libtorrent/src/disk_io_thread.cpp:2154-2159 | the cache ends within the limit or with nothing to flush, in the order of the algorithm |
| `DiskCache.DiskIoThread.WriteJob` | libtorrent/src/disk_io_thread.cpp:2055-2162 | after the job readers see the written bytes and nothing else changed, whatever was flushed |
| `DiskCache.DiskIoThread.WriteThrough` | libtorrent/src/disk_io_thread.cpp:2125-2146 | a piece of one block goes straight to storage with the same visible effect |
| `DiskCache.DiskIoThread.ReadJob` | libtorrent/src/disk_io_thread.cpp:1972-2054 | from the cache or straight from storage, the answer is the stored bytes; -1 exactly if a read call of the storage failed, and -2 never leaves the job |
| `DiskCache.DiskIoThread.HashJob` | libtorrent/src/disk_io_thread.cpp:2186-2208 | what the peers delivered is in storage when the hash is taken |
| `DiskCache.DiskIoThread.FlushExpiredPieces` | libtorrent/src/disk_io_thread.cpp:254-279 | no expired write piece is left but those that avoid_readback keeps without blocks because they are not fully hashed; readers see no change |
| `DiskCache.DiskIoThread.FlushExpired` | libtorrent/src/disk_io_thread.cpp:256-278 | the entry goes exactly if the algorithm is not avoid_readback or its whole piece went to disk in order |
| `DiskCache.DiskIoThread.DropExpiredReadPieces` | libtorrent/src/disk_io_thread.cpp:281-293 | no expired read piece is left unless the cache is explicit |
| `Elevator.ReadQueue.Defer` | libtorrent/src/disk_io_thread.cpp:1661-1678 | the list stays sorted, the position stays on its job or at the end, and the job counts once |
| `Elevator.ReadQueue.Pick` | libtorrent/src/disk_io_thread.cpp:1681-1726 | one job moves from the list to the taken ones, the right one; on the way to the next position no job is passed by, and the elevator turns at the ends only; one in order does not go back, and after any pick it is in order |
| `Elevator.PickPassesNone` | libtorrent/src/disk_io_thread.cpp:1692-1726 | the job taken is the one at the position, or the first not below the last offset, or the last; between it and the one at the new position no job waits; it turns down above all jobs and up below all |
| `Elevator.RestNearest` | libtorrent/src/disk_io_thread.cpp:1709-1725 | after a job was taken the position is at the next waiting job in the direction, or at the end |
| `Elevator.ReadQueue.Arrive` | libtorrent/src/disk_io_thread.cpp:1692-1708 | the elevator stands at the next job, looked up anew after an empty list, or the last one when it turns |
| `Elevator.ReadQueue.TakeJob` | libtorrent/src/disk_io_thread.cpp:1709-1726 | after the erasure the position denotes a remaining job or the end |
| `Elevator.ReadQueue.Abort` | libtorrent/src/disk_io_thread.cpp:1829-1841 | exactly the jobs of the torrent go, the position stays on its job or the next one that stays; over any run the elevator goes back at most once per abort that is not spared |
| `Elevator.ReadQueue.AbortIfOf` | libtorrent/src/disk_io_thread.cpp:1830-1841 | one step of the erasing loop leaves the position on a remaining job |
| `Elevator.DeferKeepsAhead` | libtorrent/src/disk_io_thread.cpp:1661-1670 | a job deferred during a sweep cannot make the sweep go back |
| `Elevator.DeferKeepsKnown` | libtorrent/src/disk_io_thread.cpp:1661-1670 | what is behind a rising elevator stays behind it |
| `Elevator.DeferredStays` | libtorrent/src/disk_io_thread.cpp:1669-1670 | an insertion leaves the position on its element, or at the end |
| `Elevator.TakeLeavesAhead` | libtorrent/src/disk_io_thread.cpp:1709-1725 | after a job is taken all the others are ahead again, whatever was before |
| `Elevator.NextFollows` | libtorrent/src/disk_io_thread.cpp:1692-1708 | the next job of an elevator in order follows the last one, by lower_bound after an empty list or by turning at the end |
| `Elevator.TakeKeepsOrdered` | libtorrent/src/disk_io_thread.cpp:1681-1726 | taking a job keeps the number of times the elevator went back within the number of disturbing aborts |
| `Elevator.DeferKeepsOrdered` | libtorrent/src/disk_io_thread.cpp:1661-1678 | deferring a job keeps it |
| `Elevator.LowerBoundSplits` | libtorrent/src/disk_io_thread.cpp:1696-1697 | what std::multimap::lower_bound promises |
| `Elevator.UpperBoundSplits` | libtorrent/src/disk_io_thread.cpp:1669-1670 | where std::multimap::insert puts an element |
| `Elevator.DeferConserves` | libtorrent/src/disk_io_thread.cpp:1669-1670 | every deferred job waits, was taken or was aborted, exactly once: kept by an insertion |
| `Elevator.PickConserves` | libtorrent/src/disk_io_thread.cpp:1709-1725 | the same, kept by taking a job |
| `Elevator.AbortConserves` | libtorrent/src/disk_io_thread.cpp:1838-1840 | the same, kept by an abort |
| `Elevator.OthersMembers` | libtorrent/src/disk_io_thread.cpp:1829-1841 | what an abort leaves is exactly the jobs of other torrents |
| `Elevator.OthersSorted` | libtorrent/src/disk_io_thread.cpp:1829-1841 | what an abort leaves is sorted |
| `Elevator.AbortKeepsOrdered` | libtorrent/src/disk_io_thread.cpp:1829-1841 | an abort keeps it, counting one more exactly if it was in order and is not spared |
| `Elevator.AbortKeepsAhead` | libtorrent/src/disk_io_thread.cpp:1838-1840 | an elevator in order is in order after an abort exactly if the abort is spared, which can be told before |
| `Elevator.AbortExactly` | libtorrent/src/disk_io_thread.cpp:1829-1841 | an abort of an elevator in order leaves it in order, whatever is deferred afterwards, exactly if it is spared |
| `Elevator.NextAfterAbort` | libtorrent/src/disk_io_thread.cpp:1692-1841 | with nothing deferred in between, the exact condition under which the job taken after an abort follows the last one |
| `Elevator.NotAheadGoesBack` | libtorrent/src/disk_io_thread.cpp:1661-1708 | an elevator that is not in order can be made to go back by deferring at most one more job |
| `Elevator.AbortKeepsKnown` | libtorrent/src/disk_io_thread.cpp:1829-1841 | what is behind a rising elevator stays behind it through an abort |
| `Elevator.BreaksNone` | libtorrent/src/disk_io_thread.cpp:1692-1725 | the elevator never went back exactly if the taken offsets are monotone between changes of direction |
| `Elevator.AbortMayTurnBack` | libtorrent/src/disk_io_thread.cpp:1681-1841 | from the start, by deferring, picking and one abort: a falling elevator that loses the job it stands at takes offset 9 right after 7 |
| `Elevator.SweepStep` | libtorrent/src/disk_io_thread.cpp:1830-1841 | each iteration moves the boundary between swept and untouched jobs by one |
| `Elevator.SweptAll` | libtorrent/src/disk_io_thread.cpp:1830-1841 | at the end the list and the position are those of the other torrents |
| `Unicode.LegalExactly` | libtorrent/src/ConvertUTF.cpp:295-332 | isLegalUTF8 accepts exactly the well-formed characters of Table 3-7 and the sequences after 0xED or 0xF4 whose second byte is below 0x80 |
| `Unicode.OverlookedExample` | libtorrent/src/ConvertUTF.cpp:303-312 | ED 41 80 is ill-formed and decodes to U+C040 |
| `Unicode.LegalIsScalar` | libtorrent/src/ConvertUTF.cpp:336-405 | whatever isLegalUTF8 accepts decodes to a Unicode scalar value, so the later surrogate and range branches are unreachable |
| `Unicode.DecodedSum` | libtorrent/src/ConvertUTF.cpp:352-361 | the shifted sum minus the table offset is the value of the payload bits, in 32-bit arithmetic |
| `Unicode.WellFormedSum` | libtorrent/src/ConvertUTF.cpp:266-272 | writing the value of a well-formed character gives its bytes back |
| `Unicode.Utf8WellFormed` | libtorrent/src/ConvertUTF.cpp:255-272 | every scalar value is written as a well-formed character |
| `Unicode.Utf8ReadsBack` | libtorrent/src/ConvertUTF.cpp:336-361 | the bytes written for a scalar value are read back as it, whatever follows |
| `Unicode.Utf8WritesBack` | libtorrent/src/ConvertUTF.cpp:295-361 | the character read from legal bytes is written in as many bytes, and in the same bytes exactly if they were well formed |
| `Unicode.Utf16ReadsBack` | libtorrent/src/ConvertUTF.cpp:119-148 | the units written for a scalar value are read back as it, in either mode |
| `Unicode.Utf16WritesBack` | libtorrent/src/ConvertUTF.cpp:119-148 | the character read from UTF-16 is written in the same units; strictly read, it is a scalar value |
| `ConvertUTF.Run` | libtorrent/src/ConvertUTF.cpp:61-520 | each of the six loops, over a bounded target: result, source pointer and target are those of the step list, and nothing behind the output is touched |
| `ConvertUTF.Iterate` | libtorrent/src/ConvertUTF.cpp:61-520 | one iteration writes one step or stops with its reason, at the room the code asks for |
| `ConvertUTF.Next16To8` | libtorrent/src/ConvertUTF.cpp:222-276 | one iteration of ConvertUTF16toUTF8 |
| `ConvertUTF.Next16To32` | libtorrent/src/ConvertUTF.cpp:117-150 | one iteration of ConvertUTF16toUTF32 |
| `ConvertUTF.Next32To8` | libtorrent/src/ConvertUTF.cpp:415-454 | one iteration of ConvertUTF32toUTF8, which flags and replaces characters out of range |
| `ConvertUTF.Next32To16` | libtorrent/src/ConvertUTF.cpp:67-102 | one iteration of ConvertUTF32toUTF16, which checks for room first and skips a character out of range in strict mode |
| `ConvertUTF.Next8To16` | libtorrent/src/ConvertUTF.cpp:342-401 | one iteration of ConvertUTF8toUTF16 |
| `ConvertUTF.Next8To32` | libtorrent/src/ConvertUTF.cpp:468-516 | one iteration of ConvertUTF8toUTF32 |
| `ConvertUTF.ReadUtf16` | libtorrent/src/ConvertUTF.cpp:119-145 | pairs, unpaired surrogates and a high surrogate at the end, per mode |
| `ConvertUTF.ReadUtf8` | libtorrent/src/ConvertUTF.cpp:352-361 | the loop over trailing bytes yields the decoded value |
| `ConvertUTF.IsLegal` | libtorrent/src/ConvertUTF.cpp:295-318 | the fall-through switch decides the legality predicate |
| `ConvertUTF.PutUtf8` | libtorrent/src/ConvertUTF.cpp:255-275 | the bytes of a character written last to first, or nothing if they do not fit |
| `ConvertUTF.PutUtf16` | libtorrent/src/ConvertUTF.cpp:370-400 | one unit or a pair, or nothing if they do not fit |
| `EncodingForms.LenientReads` | libtorrent/src/ConvertUTF.cpp:117-148 | read leniently UTF-16 is never illegal: it ends with sourceExhausted exactly if the text ends in a high surrogate, which alone is left, and the output is the text with each pair joined and every other unit by itself |
| `EncodingForms.JoinedOnce` | libtorrent/src/ConvertUTF.cpp:119-130 | there is one way to join the pairs of a text |
| `EncodingForms.LenientWrites8` | libtorrent/src/ConvertUTF.cpp:222-276 | from UTF-16 to UTF-8, leniently, every character read is written in its own bytes, an unpaired surrogate too, with the same stop |
| `EncodingForms.StrictStops` | libtorrent/src/ConvertUTF.cpp:119-145 | strictly, what was read is well formed, and sourceExhausted is told from sourceIllegal by whether the rest is a single high surrogate |
| `EncodingForms.Utf8Stops` | libtorrent/src/ConvertUTF.cpp:342-351 | what was read is legal, and sourceExhausted is told from sourceIllegal by whether the rest is shorter than its first byte announces |
| `EncodingForms.ModeIrrelevant` | libtorrent/src/ConvertUTF.cpp:342-401 | for text in UTF-8 the mode does not matter |
| `EncodingForms.Writes8From32` | libtorrent/src/ConvertUTF.cpp:415-454 | to UTF-8 each character up to the stop is written in its bytes, and one out of range as U+FFFD |
| `EncodingForms.Writes16From32` | libtorrent/src/ConvertUTF.cpp:67-102 | to UTF-16 each character up to the stop is written in its units; what is no scalar value is left out strictly and replaced leniently |
| `EncodingForms.PairUnits` | libtorrent/src/ConvertUTF.cpp:119-130 | a character beyond the basic plane is a high and a low surrogate, and its value is 0x10000 plus the ten bits of each |
| `EncodingForms.Utf16Layout` | libtorrent/src/ConvertUTF.cpp:79-95 | section 2.1 of RFC 2781: the upper ten of the twenty bits behind 110110, the lower ten behind 110111 |
| `EncodingForms.Utf8Layout1` | libtorrent/src/ConvertUTF.cpp:255-272 | section 3 of RFC 3629, one byte: 0 and seven bits |
| `EncodingForms.Utf8Layout2` | libtorrent/src/ConvertUTF.cpp:255-272 | two bytes: 110 and five bits, 10 and six |
| `EncodingForms.Utf8Layout3` | libtorrent/src/ConvertUTF.cpp:255-272 | three bytes: 1110 and four bits, 10 and six, twice |
| `EncodingForms.Utf8Layout4` | libtorrent/src/ConvertUTF.cpp:255-272 | four bytes: 11110 and three bits, 10 and six, three times |
| `ConvertLaws.Utf16ThereAndBack` | libtorrent/src/ConvertUTF.cpp:214-405 | UTF-16 that converts strictly to UTF-8 converts back to itself, in either mode |
| `ConvertLaws.StrictOutputWellFormed` | libtorrent/src/ConvertUTF.cpp:214-280 | strict output is well-formed UTF-8, section 4 of RFC 3629 |
| `ConvertLaws.StrictIffWellFormed16` | libtorrent/src/ConvertUTF.cpp:117-145 | strict reading succeeds exactly on well-formed UTF-16 |
| `ConvertLaws.WellFormed8Accepted` | libtorrent/src/ConvertUTF.cpp:336-361 | every well-formed text is accepted to its end, in either mode |
| `ConvertLaws.Utf8ThereAndBack` | libtorrent/src/ConvertUTF.cpp:214-405 | accepted bytes come back from UTF-16 with their length, and unchanged exactly if they were well formed |
| `ConvertLaws.Through16` | libtorrent/src/ConvertUTF.cpp:110-163 | UTF-8 to UTF-16 to UTF-32 gives what UTF-8 to UTF-32 gives, with the same result and stop, on every input |
| `ConvertLaws.Through32` | libtorrent/src/ConvertUTF.cpp:214-280 | UTF-16 to UTF-32 to UTF-8 gives what UTF-16 to UTF-8 gives, with the same result and stop, on every input in either mode |
| `ConvertLaws.Resumable` | libtorrent/src/ConvertUTF.cpp:264-268 | in all six converters targetExhausted stops at a character boundary with less room than the next character needs; going on completes the conversion, with the same result exactly if no faulty character was passed or one is left |
| `ConvertLaws.OtherwiseAmple` | libtorrent/src/ConvertUTF.cpp:264-268 | without targetExhausted a bounded call did all an ample one would do |
| `ConvertLaws.PiecesMakeTheWhole` | libtorrent/src/ConvertUTF.cpp:366-458 | in all six converters successive targets of at least four units yield the same output and stop as one ample target, and the same result exactly if no faulty character lies before the last call or one lies behind its start |
| `ConvertLaws.ResumingForgets` | libtorrent/src/ConvertUTF.cpp:432-443 | it happens: [0x110000, 0x10000] into targets of four bytes ends with conversionOK instead of sourceIllegal |
| `ConvertLaws.StrictIffScalar` | libtorrent/src/ConvertUTF.cpp:61-106 | strict conversion from UTF-32 returns conversionOK exactly on scalar values, although it goes on behind one out of range |
| `ConvertLaws.OkExactly` | libtorrent/src/ConvertUTF.cpp:61-458 | from UTF-32, in either mode, conversionOK exactly if no character is faulty |
| `ConvertLaws.Utf32ThereAndBack` | libtorrent/src/ConvertUTF.cpp:61-163 | what comes back from UTF-16, in any modes, is never longer, and the same text exactly if all characters are scalar values |
| `ConvertLaws.Through16From32` | libtorrent/src/ConvertUTF.cpp:61-458 | UTF-32 to UTF-16 to UTF-8 on every input: the same stop as UTF-32 to UTF-8, and the same bytes exactly if no character on the way is out of range (strict) or a surrogate (lenient) |
| `ConvertLaws.AmpleRoom` | libtorrent/src/ConvertUTF.cpp:264-268 | one unit more than the output is ample room for any converter |
| `ConvertLaws.ExhaustedFill` | libtorrent/src/ConvertUTF.cpp:264-268 | a call that runs out, whatever it met before, did what an ample call does up to its stop, and what it met are the faulty characters before it |
| `ConvertLaws.StepRemembers` | libtorrent/src/ConvertUTF.cpp:61-520 | a converter goes on after illegal input exactly behind a faulty UTF-32 character |
| `ConvertLaws.Pieces` | libtorrent/src/ConvertUTF.cpp:366-458 | the result of the pieces is that of their last call, and the whole call also tells what was met before it |
| `ConvertLaws.StaysIllegal` | libtorrent/src/ConvertUTF.cpp:432-443 | a remembered illegal character is not forgotten within a call |
| `BandwidthShares.NeverOverCommitted` | libtorrent/src/bandwidth_queue_entry.cpp:60-70 | the bytes charged to a throttled channel in one round are at most its distribute_quota, also if a request holds it twice |
| `BandwidthShares.ChargedByWeight` | libtorrent/src/bandwidth_queue_entry.cpp:60-70 | what any part of the queue takes is bounded by its share of the priorities |
| `BandwidthShares.GrantWithinShare` | libtorrent/src/bandwidth_queue_entry.cpp:60-66 | a grant is at most the rounded-down share of every throttled channel of the request |
| `BandwidthShares.GrantWithinQuota` | libtorrent/src/bandwidth_queue_entry.cpp:55-66 | a grant is at most what the request still lacks |
| `BandwidthShares.GrantIsShare` | libtorrent/src/bandwidth_queue_entry.cpp:52-66 | a request gets all it lacks, or exactly the rounded-down share of one of its throttled channels |
| `BandwidthShares.PaidBySlot` | libtorrent/src/bandwidth_queue_entry.cpp:67-70 | a request pays a channel once for each slot the channel takes |
| `BandwidthRound.QuotaStaysUp` | libtorrent/src/bandwidth_manager.cpp:136-214 | after a round a channel is not below zero, or not deeper below than before |
| `BandwidthRound.RoundSplits` | libtorrent/src/bandwidth_manager.cpp:194-213 | no byte is lost between remaining and completed requests, the remaining ones are live, and nobody is called with zero |
| `BandwidthRound.AfterRoundBounds` | libtorrent/src/bandwidth_manager.cpp:199-212 | a granted request has at most its size; it is complete with something, or live, and a round older |
| `BandwidthRound.KeptAreQueued` | libtorrent/src/bandwidth_manager.cpp:150-174 | exactly the requests of peers that stay are kept |
| `BandwidthRound.NoWeightNoCharge` | libtorrent/src/bandwidth_manager.cpp:176-186 | a channel nobody competes for is not charged |
| `BandwidthRound.RoundBalances` | libtorrent/src/bandwidth_manager.cpp:136-214 | over a round a competing throttled channel gains limit * dt / 1000 to the nearest byte, up to a quota of three times the limit, and loses what is charged; any other gets only what is returned |
| `BandwidthRound.BalancedKeepsPace` | libtorrent/src/bandwidth_limit.cpp:60-66 | the rate: since its limit was set a channel passed and holds no more than it started with, limit * time / 1000, and half a byte a round |
| `BandwidthRound.UpdateGains` | libtorrent/src/bandwidth_limit.cpp:60-66 | the gain of a channel, to the nearest byte and below the cap |
| `Bandwidth.Manager.UpdateQuotas` | libtorrent/src/bandwidth_manager.cpp:136-221 | the whole round: queue, channels and callbacks as functions of the state before; every byte accounted for; no channel newly below zero; the quota of every channel balances, and over any run with a fixed limit what it passed, less what was returned, is at most the limit times the time and half a byte a round |
| `Bandwidth.Manager.RequestBandwidth` | libtorrent/src/bandwidth_manager.cpp:87-121 | granted at once exactly if no passed channel is throttled; else queued with the throttled channels |
| `Bandwidth.Manager.Close` | libtorrent/src/bandwidth_manager.cpp:55-60 | the queue and queued_bytes are empty, and the bytes are accounted as closed |
| `Bandwidth.Manager.DropDisconnecting` | libtorrent/src/bandwidth_manager.cpp:150-174 | requests of disconnecting peers go, and their quota returns to each of their channels |
| `Bandwidth.Manager.DropAt` | libtorrent/src/bandwidth_manager.cpp:150-174 | one step of the first loop keeps the byte ledger |
| `Bandwidth.Manager.SumPriorities` | libtorrent/src/bandwidth_manager.cpp:176-186 | each competing channel has the sum of its priorities and is listed exactly once |
| `Bandwidth.Manager.UpdateAll` | libtorrent/src/bandwidth_manager.cpp:188-192 | each listed channel gets its quota exactly once: limit * dt / 1000 to the nearest byte, up to three times the limit |
| `Bandwidth.Manager.GrantAll` | libtorrent/src/bandwidth_manager.cpp:194-213 | all grants are those of the channels before the first one: the order of the queue does not matter |
| `Bandwidth.Manager.GrantAt` | libtorrent/src/bandwidth_manager.cpp:197-213 | one step of the granting loop keeps the byte ledger |
| `Bandwidth.Manager.AssignBandwidth` | libtorrent/src/bandwidth_queue_entry.cpp:52-72 | the loop computes the grant and charges it to every channel of the request |
| `Bandwidth.Manager.CallBack` | libtorrent/src/bandwidth_manager.cpp:215-220 | completed requests are called back from the last to the first |
| `Bandwidth.Manager.Throttle` | libtorrent/src/bandwidth_limit.cpp:46-52 | only the limit of that channel changes, and its book starts anew |
| `Bandwidth.PreparedInSteps` | libtorrent/src/bandwidth_manager.cpp:148-193 | the three loops before the grants compose to returned quota, weight and new quota per channel |
| `Bandwidth.ChargedSameShares` | libtorrent/src/bandwidth_queue_entry.cpp:66-70 | charging does not change the shares still to be granted |
| `Bandwidth.DeliveredIsHeld` | libtorrent/src/bandwidth_manager.cpp:215-220 | the bytes delivered are those held by the completed requests |
| `Bandwidth.GrantStep` | libtorrent/src/bandwidth_manager.cpp:197-213 | the queue during the erasing loop is what remains of the done part and the rest |
| `Bandwidth.DropStep` | libtorrent/src/bandwidth_manager.cpp:150-174 | the same for the first loop |
| `Bandwidth.ListsZero` | libtorrent/src/bandwidth_manager.cpp:183-186 | tmp is zero exactly for channels that are not listed yet |
| `ChainedBuffer.Chain.PopFront` | libtorrent/src/chained_buffer.cpp:38-64 | drops exactly the first bytes; buffers are freed once and in the order they came |
| `ChainedBuffer.Chain.PopSome` | libtorrent/src/chained_buffer.cpp:41-63 | one step shortens or frees the front buffer |
| `ChainedBuffer.Chain.AppendBuffer` | libtorrent/src/chained_buffer.cpp:66-81 | appends the used bytes of the buffer |
| `ChainedBuffer.Chain.AllocateAppendix` | libtorrent/src/chained_buffer.cpp:106-116 | succeeds exactly if the last buffer has the space, and extends it in place |
| `ChainedBuffer.Chain.Append` | libtorrent/src/chained_buffer.cpp:95-101 | appends the bytes if there is space, else changes nothing |
| `ChainedBuffer.Chain.BuildIovec` | libtorrent/src/chained_buffer.cpp:118-136 | the slices join to exactly the first bytes, or all |
| `ChainedBuffer.Chain.Destroy` | libtorrent/src/chained_buffer.cpp:138-156 | every buffer handed in has been freed exactly once, in order |
| `ChainedBuffer.DropWithin` | libtorrent/src/chained_buffer.cpp:45-54 | moving the start of the front buffer drops a prefix of the whole |
| `ChainedBuffer.FillLast` | libtorrent/src/chained_buffer.cpp:95-116 | copying behind the used part of the last buffer appends to the whole |
| `ChainedBuffer.JoinedAppend` | libtorrent/src/chained_buffer.cpp:66-81 | a buffer at the end adds its used bytes, capacity and identity |
| `ChainedBuffer.TakeBuffer` | libtorrent/src/chained_buffer.cpp:118-136 | the prefix of the whole, one buffer at a time |
| `Payloads.PeerConnection.OnSent` | libtorrent/src/bt_peer_connection.cpp:3288-3338 | counts exactly the payload bytes among those sent, and the ranges describe what is left |
| `Payloads.PeerConnection.WritePiece` | libtorrent/src/bt_peer_connection.cpp:2256-2323 | the block, and not its header, becomes payload at the end of the buffer |
| `Payloads.PeerConnection.Slide` | libtorrent/src/bt_peer_connection.cpp:3303-3320 | the loop slides every range and adds up what was sent |
| `Payloads.PeerConnection.RemoveBelowZero` | libtorrent/src/bt_peer_connection.cpp:3323-3327 | exactly the ranges that are gone are removed, in order |
| `Payloads.SentIsTrues` | libtorrent/src/bt_peer_connection.cpp:3300-3321 | the amount counted is the number of payload bytes in the prefix |
| `Payloads.SentGrows` | libtorrent/src/bt_peer_connection.cpp:3300-3321 | one more byte sent counts exactly if it is payload |
| `Payloads.LeftOrdered` | libtorrent/src/bt_peer_connection.cpp:3356-3363 | sliding keeps the ranges ordered, disjoint and inside the buffer |
| `Payloads.LeftSlides` | libtorrent/src/bt_peer_connection.cpp:3303-3327 | a byte is payload after sending exactly if it was before, at its old place |
| `Payloads.LeftAgrees` | libtorrent/src/bt_peer_connection.cpp:3303-3327 | ranges and payload bytes still say the same after sending |
| `Payloads.PieceAgrees` | libtorrent/src/bt_peer_connection.cpp:2322-2322 | the new range keeps order and agreement |
| `Payloads.NotBeyond` | libtorrent/src/bt_peer_connection.cpp:3356-3363 | no byte outside the buffer is payload |
| `SendPath.Connection.SendBuffer` | libtorrent/src/peer_connection.cpp:5050-5097 | a message of any length, over the room left and new small buffers, is queued byte for byte and is no payload |
| `SendPath.Connection.WritePiece` | libtorrent/src/bt_peer_connection.cpp:2256-2323 | header and block are queued in order, and exactly the block is payload |
| `SendPath.Connection.SetupSend` | libtorrent/src/peer_connection.cpp:4771-4793 | the socket gets the bytes that are next in the order they were queued, as far as the quota allows |
| `SendPath.Connection.OnSendData` | libtorrent/src/peer_connection.cpp:5528-5569 | over any run the bytes left are those queued and not sent, and the payload counted is exactly that among the bytes sent |
| `SendPath.Connection.Copy` | libtorrent/src/peer_connection.cpp:5056-5095 | the copying appends exactly the message |
| `SyncScan.Scan.OnReceive` | libtorrent/src/bt_peer_connection.cpp:2445-2518 | however the stream is cut, the status is the verdict on all bytes so far, and no byte behind the pattern is lost |
| `SyncScan.Scan.Look` | libtorrent/src/bt_peer_connection.cpp:2453-2460 | the packet_finished branch of a short window is unreachable |
| `SyncScan.Scan.Search` | libtorrent/src/bt_peer_connection.cpp:2590-2662 | locks on the first pattern, disconnects exactly when the limit is used up, or keeps the last bytes and a packet size that still accepts more |
| `SyncScan.GetSyncOffset` | libtorrent/src/bt_peer_connection.cpp:650-693 | the first match of the window except at its last position, or -1 |
| `SyncScan.FindFirst` | libtorrent/src/bt_peer_connection.cpp:650-693 | the position found is a match with no earlier one; none means none |
| `SyncScan.FindInWindow` | libtorrent/src/bt_peer_connection.cpp:2479-2500 | searching the kept window finds the first match of the whole stream |
| `SyncScan.WindowVerdict` | libtorrent/src/bt_peer_connection.cpp:2479-2518 | the verdict on the stream from the search of its window |
| `SyncScan.SkippedStay` | libtorrent/src/bt_peer_connection.cpp:2488-2498 | a position that was cut off never becomes a match |
| `SyncScan.VerdictStands` | libtorrent/src/bt_peer_connection.cpp:2445-2518 | bytes that follow do not change a lock or a disconnect |
| `ConnectionQueue.Queue.Enqueue` | libtorrent/src/connection_queue.cpp:70-105 | front or back by priority, with a fresh ticket; posts exactly if there is a free slot |
| `ConnectionQueue.Queue.Done` | libtorrent/src/connection_queue.cpp:107-127 | the entry with the ticket goes, and no other, the counter follows, and try_connect is posted exactly if there is a free slot then |
| `ConnectionQueue.Queue.CloseBegin` | libtorrent/src/connection_queue.cpp:129-143 | the queue is emptied into the list of the closing thread |
| `ConnectionQueue.Queue.CloseOne` | libtorrent/src/connection_queue.cpp:145-160 | an entry is put back, told -1 or timed out, once, with the counter exact in between; only this and the setter can exceed the limit, by at most the entry put back |
| `ConnectionQueue.Queue.PutBack` | libtorrent/src/connection_queue.cpp:147-154 | an entry of high priority is queued again and counted if it connects |
| `ConnectionQueue.Queue.CallBack` | libtorrent/src/connection_queue.cpp:155-159 | any other is told -1 if it waited, and timed out if it was connecting |
| `ConnectionQueue.Queue.TryConnect` | libtorrent/src/connection_queue.cpp:187-259 | the first waiting entries start, afterwards no entry waits while a slot is free, and the limit is not exceeded by more than before |
| `ConnectionQueue.Queue.StartNext` | libtorrent/src/connection_queue.cpp:214-247 | one iteration: an entry starts within the limit, and the loop goes on exactly while a slot is free |
| `ConnectionQueue.Queue.Start` | libtorrent/src/connection_queue.cpp:214-247 | one entry starts; the limit holds, and the first one sets the timer |
| `ConnectionQueue.Queue.ConnectOne` | libtorrent/src/connection_queue.cpp:251-257 | on_connect outside the lock, at most once per ticket |
| `ConnectionQueue.Queue.TimeoutBegin` | libtorrent/src/connection_queue.cpp:271-310 | exactly the expired entries leave, in order, and the others stay; the timer will be set again exactly if some of them connect |
| `ConnectionQueue.Queue.Expire` | libtorrent/src/connection_queue.cpp:294-310 | the loop: exactly the expired entries move to the thread, in order, the others stay, and the result is their earliest expiry |
| `ConnectionQueue.Queue.ExpireIf` | libtorrent/src/connection_queue.cpp:297-309 | one iteration moves the boundary between looked at and untouched entries by one |
| `ConnectionQueue.FreshMembers` | libtorrent/src/connection_queue.cpp:294-310 | what stays are exactly the entries that are not overdue |
| `ConnectionQueue.OverdueMembers` | libtorrent/src/connection_queue.cpp:295-305 | the tickets that time out are those of the other entries |
| `ConnectionQueue.TimerNeeded` | libtorrent/src/connection_queue.cpp:295-326 | there is a next expiry exactly if some of the entries that stay connect |
| `ConnectionQueue.EarliestOf` | libtorrent/src/connection_queue.cpp:307-308 | the next expiry is that of a connecting entry that stays, and none is earlier |
| `ConnectionQueue.Queue.TimeoutOne` | libtorrent/src/connection_queue.cpp:316-323 | on_timeout outside the lock, at most once per ticket |
| `ConnectionQueue.Queue.TimeoutEnd` | libtorrent/src/connection_queue.cpp:325-338 | sets the timer again and fills free slots |
| `ConnectionQueue.Queue.SetLimit` | libtorrent/src/connection_queue.cpp:163-167 | a higher limit exceeds by no more than before; by the other operations the excess over the limit never grows but by an entry that close puts back |
| `ConnectionQueue.EnqueueKeeps` | libtorrent/src/connection_queue.cpp:70-105 | both once-only invariants are kept by a new entry |
| `ConnectionQueue.StartKeeps` | libtorrent/src/connection_queue.cpp:231-238 | the right to call on_connect moves from the queue to the thread |
| `ConnectionQueue.ExpireKeeps` | libtorrent/src/connection_queue.cpp:297-304 | the right to call on_timeout moves from the queue to the thread |
| `ConnectionQueue.CloseKeeps` | libtorrent/src/connection_queue.cpp:155-159 | close uses up the right it exercises |
| `ConnectionQueue.PutBackKeeps` | libtorrent/src/connection_queue.cpp:147-154 | an entry put back is in one list only |
| `ConnectionQueue.SwapKeeps` | libtorrent/src/connection_queue.cpp:136-138 | swapping the queue into the local list keeps both invariants |
| `ConnectionQueue.CallMoves` | libtorrent/src/connection_queue.cpp:251-257 | a callback turns one pending right into one call |
| `LruCache.Cache.IncomingRequest` | libtorrent/examples/parse_request_log.cpp:126-150 | a request hits exactly if the piece was seen before and fewer than size distinct others came since |
| `LruCache.Cache.Insert` | libtorrent/examples/parse_request_log.cpp:135-149 | a miss evicts exactly the bottom of the stack when full |
| `LruCache.Cache.MinElement` | libtorrent/examples/parse_request_log.cpp:141-143 | an entry with the least timestamp |
| `LruCache.CachedIffRecent` | libtorrent/examples/parse_request_log.cpp:126-150 | the stack property, on any trace |
| `LruCache.Inclusion` | libtorrent/examples/parse_request_log.cpp:123-155 | a larger cache holds all a smaller one holds, on any trace |
| `LruCache.StackDepth` | libtorrent/examples/parse_request_log.cpp:126-150 | the depth in the recency stack is the number of distinct pieces requested since |
| `LruCache.StackByTime` | libtorrent/examples/parse_request_log.cpp:141-145 | further down the stack is longer ago |
| `LruCache.BottomIsOldest` | libtorrent/examples/parse_request_log.cpp:141-145 | the least timestamp belongs to the bottom of the stack |
| `LruCache.HitKeepsContent` | libtorrent/examples/parse_request_log.cpp:130-134 | a hit changes no content |
| `LruCache.MissReplacesBottom` | libtorrent/examples/parse_request_log.cpp:137-149 | a miss in a full cache exchanges the bottom for the new piece |
| `Bencode.PrefixFree` | libtorrent/dht_flood.py:11-46 | no encoding is a prefix of another, up to the order of dictionaries |
| `Bencode.Injective` | libtorrent/dht_flood.py:11-46 | equal encodings exactly for equal values, up to the order of dictionaries |
| `Bencode.OrderIrrelevant` | libtorrent/dht_flood.py:26-33 | the encoding of a dictionary does not depend on the insertion order of its own entries |
| `Bencode.EncodesTheSame` | libtorrent/dht_flood.py:11-46 | two values have the same encoding, or one is a prefix of the other, exactly if they are the same: equal items, equal keys and the same value under each key, at any depth |
| `Bencode.CanonSame` | libtorrent/dht_flood.py:26-33 | sorting every dictionary makes two values equal exactly if they are the same in that sense |
| `Bencode.RawUnique` | libtorrent/dht_flood.py:11-46 | a value can be told from the front of a text, whatever follows |
| `Bencode.RawReadsBack` | libtorrent/dht_flood.py:11-46 | an independent reader, which knows numbers by their digits, gives a value back from the front of any text |
| `Bencode.ReadsBack` | libtorrent/dht_flood.py:11-46 | so an encoding denotes its value with the dictionaries sorted |
| `Bencode.NaturalDenotes` | libtorrent/dht_flood.py:18-19 | the digits of a length denote it, without a leading zero |
| `Bencode.DecimalDenotes` | libtorrent/dht_flood.py:15-16 | the digits and the sign of an integer denote it |
| `Bencode.LessMeans` | libtorrent/dht_flood.py:29-30 | keys are ordered by the first character at which they differ, and a proper prefix comes before the longer key |
| `Bencode.DecimalUnique` | libtorrent/dht_flood.py:15-16 | integers, negative ones too, end at their e |
| `Bencode.FramedUnique` | libtorrent/dht_flood.py:18-19 | a string ends where its length says |
| `Bencode.ItemsUnique` | libtorrent/dht_flood.py:21-25 | a list ends at its e and nowhere before |
| `Bencode.EntriesUnique` | libtorrent/dht_flood.py:27-33 | a dictionary ends at its e and nowhere before |
| `Bencode.Sorted` | libtorrent/dht_flood.py:29-30 | sorting keeps the entries and puts distinct keys in ascending order |
| `Bencode.AscendingUnique` | libtorrent/dht_flood.py:29-30 | there is one ascending order of the same entries |
| `Bencode.LessTransitive` | libtorrent/dht_flood.py:29-30 | the order of byte strings is transitive |
| `Bencode.Encoder.Encode` | libtorrent/dht_flood.py:35-46 | the shared list grows by parts that join to the encoding |
| `Bencode.Encoder.EncodeList` | libtorrent/dht_flood.py:21-25 | items in order between l and e |
| `Bencode.Encoder.EncodeDict` | libtorrent/dht_flood.py:26-33 | entries in key order between d and e |
| `Bencode.Encoder.EncodeInt` | libtorrent/dht_flood.py:15-16 | a decimal that denotes the integer, between i and e |
| `Bencode.Encoder.EncodeString` | libtorrent/dht_flood.py:18-19 | a numeral that denotes the length, colon, bytes |
| `Bencode.BencodeValue` | libtorrent/dht_flood.py:43-46 | the joined parts are the encoding, and the independent reader gives the value back |
| `FileHashes.SetPieceHashes` | libtorrent/src/create_torrent.cpp:206-255 | for any cutting of the bytes into pieces, the calls of set_file_hash are those of the files up to the last one with bytes, in order |
| `FileHashes.EveryFileOnce` | libtorrent/src/create_torrent.cpp:222-249 | each file with bytes that is no pad has exactly one call, over exactly its own bytes |
| `FileHashes.EmptyFileHashed` | libtorrent/src/create_torrent.cpp:240-248 | an empty file is hashed exactly if a file with bytes follows |
| `FileHashes.HashSome` | libtorrent/src/create_torrent.cpp:229-249 | one iteration: what piece and file have in common is hashed, and a complete file is reported |
| `FileHashes.HashPiece` | libtorrent/src/create_torrent.cpp:220-250 | a whole piece, across any number of files |
| `FileHashes.ScanHashes` | libtorrent/src/create_torrent.cpp:231-236 | the running hash holds the bytes of the current file and no others |
| `FileHashes.ScanAdvances` | libtorrent/src/create_torrent.cpp:240-248 | a complete file is reported once |
| `FileHashes.ScanEnds` | libtorrent/src/create_torrent.cpp:246-247 | at the end of the pieces no reachable file is left |
| `FileHashes.FileAt` | libtorrent/src/create_torrent.cpp:206-236 | the place of the bytes of a file in the stream of pieces |
| `AudioFilters.AudioConvert.Widen` | audio/audiocvt.h:1352-1547 | the backward loop in place equals the out-of-place widening, and touches nothing behind it |
| `AudioFilters.AudioConvert.WidenFrame` | audio/audiocvt.h:357-437 | one frame becomes two although source and target overlap; also for zero-extended samples |
| `AudioFilters.AudioConvert.Narrow` | audio/audiocvt.h:1108-1269 | the forward loop in place equals the out-of-place narrowing |
| `AudioFilters.AudioConvert.NarrowFrame` | audio/audiocvt.h:331-348 | one frame from two: the first, the second, or the mean |
| `AudioFilters.AudioConvert.MixFrame` | audio/audiocvt.h:1001-1104 | both samples are read before the mean is written, for each width, sign and byte order |
| `AudioFilters.AudioConvert.CopyWithin` | audio/audiocvt.h:1117-1135 | the unrolled copies of a frame |
| `AudioFilters.NarrowedWidened` | audio/audiocvt.h:1108-1547 | on whole frames the partner filter gives back every byte |
| `AudioFilters.WidenedSample` | audio/audiocvt.h:357-437 | every widened sample is 0x100 times the 8-bit one, read in the byte order of the filter |
| `AudioFilters.MixSame` | audio/audiocvt.h:1001-1104 | a duplicated channel mixes back to itself, signed or not, in either byte order |
| `AudioFilters.MixBetween` | audio/audiocvt.h:1001-1104 | the mixed sample is the mean rounded towards zero, between the two, and fits its bytes |
| `AudioFilters.SampleOfBytes` | audio/audiocvt.h:1056-1063 | masking and shifting a sample in range and reading it again is the identity |
| `AudioFilters.CountFrames` | audio/audiocvt.h:1358-1372 | the loop counter of a filter is the number of frames |

## Left out

- Disk cache: storage write errors, allocation failure, statistics and timing, job callbacks, and
  read_piece_from_cache_and_hash with cache_piece.
- DiskCache.DiskIoThread.FlushFromHashPosition: an entry whose blocks all went to disk while they were written stays
  until it expires or is hashed, and its next_block_to_hash stands behind its last block; the code then looks at the
  element behind the array, which the model takes as no cached block.
- Disk cache: an entry changed in place is modelled as a value that is put back under its key; entries of equal age are
  taken in any order; a vectored read is one read whose bytes are distributed over the blocks.
- ConvertUTF.Run: one loop for the six functions, which share it; masks and shifts appear as quotients and remainders.
- Bandwidth: channels are values in a map by number instead of shared pointers; the widths of int and int64_t and the
  assertions against overflow; callbacks that re-enter the manager.
- SendPath: allocation failure and disconnecting, m_requests_in_buffer, corking, and the flags of the socket.
- Peer streams: encryption, the extension messages, write_bitfield and its lazy pieces, on_sent with an error.
- ConnectionQueue: exceptions thrown by callbacks, and cancelled timer operations beyond their number.
- Bencode: encode_bencached, and dictionaries whose keys are not strings.
- FileHashes: SHA-1 itself (a call carries the bytes that are hashed), storage errors, and the Merkle tree.
- LruCache: the packing of info-hash and piece into one key.
- AudioFilters: ConvertSurround, ConvertStrip, ConvertSign, ConvertEndian, RateSLOW, the format word and the chain of
  filters; trailing bytes that are no whole frame.
- Device, window, network and demuxing code of the player: foreign calls and timing.
- Log parsers, alert messages, GeoIP, file pool, bloom filter: they would add only easy members.
