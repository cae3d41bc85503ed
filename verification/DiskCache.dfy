/**
  * disk_io_thread: the block cache for reads and writes in front of the piece storage. The entries of the two caches
  * are values kept in a container, as they are in the multi_index containers of the program: an operation on an entry
  * works on its value and puts it back under its key.
  */
module DiskCache {
  import opened Common
  import opened DiskBlocks

  /** cached_piece_entry. */
  datatype CachedPiece = CachedPiece(
    blocks: seq<Block>,
    numBlocks: int,
    numContiguousBlocks: int,
    nextBlockToHash: nat,
    expire: int
  )

  type Cache = map<Key, CachedPiece>

  type Disk = map<Key, seq<byte>>

  datatype Algorithm = Lru | LargestContiguous | AvoidReadback

  datatype Settings = Settings(
    cacheSize: int,
    algorithm: Algorithm,
    coalesceWrites: bool,
    readCacheLineSize: int,
    writeCacheLineSize: int,
    useReadCache: bool,
    explicitReadCache: bool,
    volatileReadCache: bool
  )

  /** What the torrents keep on disk: the bytes of each piece. Writes succeed; a read may fail or come up short. */
  class Storage {
    var data: Disk
    /** The write calls made so far, the number of read calls, and how many of these failed or came up short. */
    ghost var calls: seq<WriteCall>
    ghost var readCalls: nat
    ghost var failedReads: nat

    constructor (data: Disk)
      ensures this.data == data && calls == [] && readCalls == failedReads == 0
    {
      this.data, calls, readCalls, failedReads := data, [], 0, 0;
    }

    method WriteImpl(iov: seq<seq<byte>>, k: Key, offset: nat) returns (ret: nat)
      requires k in data && offset + |Flatten(iov)| <= |data[k]|
      modifies this`data, this`calls
      ensures data == old(data)[k := Splice(old(data)[k], offset, Flatten(iov))]
      ensures calls == old(calls) + [WriteCall(k, offset, Flatten(iov))]
      ensures ret == |Flatten(iov)|
    {
      var bytes := Flatten(iov);
      data := data[k := Splice(data[k], offset, bytes)];
      calls := calls + [WriteCall(k, offset, bytes)];
      ret := |bytes|;
    }

    method ReadImpl(size: nat, k: Key, offset: nat) returns (ret: int, bytes: seq<byte>)
      requires k in data && offset + size <= |data[k]|
      modifies this`readCalls, this`failedReads
      ensures ret <= size && readCalls == old(readCalls) + 1
      ensures ret >= 0 ==> bytes == data[k][offset..offset + ret]
      ensures failedReads == old(failedReads) + if ret == size then 0 else 1
    {
      readCalls := readCalls + 1;
      ret :| -1 <= ret <= size;
      failedReads := failedReads + if ret == size then 0 else 1;
      bytes := if ret < 0 then [] else data[k][offset..offset + ret];
    }
  }

  /** A read or write job of the disk thread. */
  datatype Job = Job(key: Key, offset: nat, bufferSize: nat, maxCacheLine: int, cacheMinTime: nat) {
    function Block(): nat { offset / BLOCK_SIZE }

    /** A request for part of a piece, no longer than a block. */
    predicate Valid(disk: Disk) {
      key in disk && 0 < bufferSize <= BLOCK_SIZE && offset + bufferSize <= |disk[key]|
    }
  }

  /** The buffer starts with the bytes the job asked for, and is otherwise as it was. */
  ghost predicate Copied(j: Job, now: seq<byte>, was: seq<byte>, disk: Disk)
    requires j.Valid(disk) && j.bufferSize <= |was|
  {
    now == disk[j.key][j.offset..j.offset + j.bufferSize] + was[j.bufferSize..]
  }

  /** No block of the entry was lost. */
  ghost predicate KeepsBlocks(was: CachedPiece, now: CachedPiece) {
    |now.blocks| == |was.blocks| && forall i :: 0 <= i < |was.blocks| && was.blocks[i].Cached? ==> now.blocks[i].Cached?
  }

  // ----- The caches as a whole -----

  /** Every cached block of the piece equals the bytes in storage. */
  ghost predicate Coherent(data: seq<byte>, blocks: seq<Block>) {
    View(data, blocks) == data
  }

  lemma FreedIsCoherent(data: seq<byte>, blocks: seq<Block>)
    requires Count(blocks) == 0
    ensures Coherent(data, blocks)
  {
    EmptyView(data, blocks);
  }

  lemma RefilledIsCoherent(data: seq<byte>, was: seq<Block>, now: seq<Block>, start: nat, end: nat)
    requires |was| == |now| == BlocksInPiece(|data|) && Coherent(data, was)
    requires forall i :: 0 <= i < |was| ==> if start <= i < end then HoldsStored(data, i, now[i]) else now[i] == was[i]
    ensures Coherent(data, now)
  {
    CoherentBlockwise(data, was);
    CoherentBlockwise(data, now);
  }

  predicate ValidPiece(p: CachedPiece, size: nat) {
    && size > 0 && |p.blocks| == BlocksInPiece(size) && p.numBlocks == Count(p.blocks)
    && p.nextBlockToHash <= |p.blocks|
  }

  ghost predicate ValidWriteCache(m: Cache, disk: Disk) {
    forall k :: k in m ==>
      k in disk && ValidPiece(m[k], |disk[k]|) && m[k].numContiguousBlocks == LongestRun(m[k].blocks)
  }

  /** Every cached read block equals the bytes in storage. */
  ghost predicate ValidReadCache(m: Cache, disk: Disk) {
    forall k :: k in m ==>
      k in disk && ValidPiece(m[k], |disk[k]|) && Coherent(disk[k], m[k].blocks)
  }

  /** What a reader must get for every piece: a write-cached block if there is one, else the bytes in storage. */
  ghost function Contents(m: Cache, disk: Disk): Disk {
    map k | k in disk :: if k in m then View(disk[k], m[k].blocks) else disk[k]
  }

  lemma ContentsSizes(m: Cache, disk: Disk)
    ensures Contents(m, disk).Keys == disk.Keys
    ensures forall k :: k in disk ==> |Contents(m, disk)[k]| == |disk[k]|
  {
  }

  /** The number of blocks the entries hold. */
  ghost function Total(m: Cache): int {
    if m == map[] then 0 else var k :| k in m; m[k].numBlocks + Total(m - {k})
  }

  lemma {:induction false} TotalSplit(m: Cache, k: Key)
    requires k in m
    ensures Total(m) == m[k].numBlocks + Total(m - {k})
  {
    var j :| j in m && Total(m) == m[j].numBlocks + Total(m - {j});
    if j != k {
      TotalSplit(m - {j}, k);
      TotalSplit(m - {k}, j);
      assert m - {j} - {k} == m - {k} - {j};
    }
  }

  lemma TotalUpdate(m: Cache, k: Key, p: CachedPiece)
    ensures Total(m[k := p]) == Total(m - {k}) + p.numBlocks
    ensures k in m ==> Total(m[k := p]) == Total(m) - m[k].numBlocks + p.numBlocks
  {
    TotalSplit(m[k := p], k);
    assert m[k := p] - {k} == m - {k};
    if k in m {
      TotalSplit(m, k);
    } else {
      assert m - {k} == m;
    }
  }

  lemma TotalPut(m: Cache, k: Key, p: CachedPiece)
    ensures Total(m[k := p]) == Total(m) + p.numBlocks - if k in m then m[k].numBlocks else 0
  {
    TotalUpdate(m, k, p);
    if k !in m {
      assert m - {k} == m;
    }
  }

  lemma {:induction false} TotalZero(m: Cache)
    requires forall k :: k in m ==> m[k].numBlocks == 0
    ensures Total(m) == 0
  {
    if k :| k in m {
      TotalSplit(m, k);
      TotalZero(m - {k});
    }
  }

  lemma {:induction false} TotalNonNegative(m: Cache)
    requires forall k :: k in m ==> m[k].numBlocks >= 0
    ensures Total(m) >= 0
  {
    if k :| k in m {
      TotalSplit(m, k);
      TotalNonNegative(m - {k});
    }
  }

  /** A new entry with no blocks. */
  function NewPiece(blocksInPiece: nat, expire: int): (p: CachedPiece)
    ensures p.numBlocks == Count(p.blocks)
  {
    var p := CachedPiece(seq(blocksInPiece, _ => Empty), 0, 0, 0, expire);
    CountPositive(p.blocks, 0, |p.blocks|);
    p
  }

  // ----- Flushing -----

  /** The entry after its blocks lo..hi went to disk. */
  function Flushed(p: CachedPiece, lo: nat, hi: nat): CachedPiece
    requires lo <= hi <= |p.blocks|
  {
    var blocks := Cleared(p.blocks, lo, hi);
    CachedPiece(blocks, p.numBlocks - CountIn(p.blocks, lo, hi),
                if CountIn(p.blocks, lo, hi) > 0 then LongestRun(blocks) else p.numContiguousBlocks,
                HashPosition(p.blocks, lo, hi, p.nextBlockToHash), p.expire)
  }

  /** The entry after the scan of flush_range took its blocks lo..hi: the counters follow, the blocks are there yet. */
  function Scanned(p: CachedPiece, lo: nat, hi: nat): CachedPiece
    requires lo <= hi <= |p.blocks|
  {
    p.(numBlocks := p.numBlocks - CountIn(p.blocks, lo, hi),
       nextBlockToHash := HashPosition(p.blocks, lo, hi, p.nextBlockToHash))
  }

  lemma ScannedStep(p: CachedPiece, lo: nat, i: nat)
    requires lo <= i < |p.blocks|
    ensures var was, now := Scanned(p, lo, i), Scanned(p, lo, i + 1);
      && was.blocks == p.blocks
      && (now == if p.blocks[i].Empty? then was else was.(numBlocks := was.numBlocks - 1,
            nextBlockToHash := was.nextBlockToHash + if i == was.nextBlockToHash then 1 else 0))
    ensures CountIn(p.blocks, lo, i + 1) == CountIn(p.blocks, lo, i) + if p.blocks[i].Cached? then 1 else 0
  {
  }

  /** Flushing any range of an entry changes nothing a reader can see. */
  lemma FlushKeepsContents(m: Cache, disk: Disk, k: Key, lo: nat, hi: nat)
    requires k in m && k in disk && lo <= hi <= |m[k].blocks|
    ensures Contents(m[k := Flushed(m[k], lo, hi)], disk[k := Overlay(disk[k], m[k].blocks, lo, hi)])
      == Contents(m, disk)
  {
    FlushKeepsView(disk[k], m[k].blocks, lo, hi);
  }

  /** The next block to hash is cached: it can be flushed and hashed without being read back. */
  predicate Hashable(p: CachedPiece) {
    p.nextBlockToHash < |p.blocks| && p.blocks[p.nextBlockToHash].Cached?
  }

  /** The blocks that can be hashed without being read back end here. */
  function HashableEnd(p: CachedPiece): (r: nat)
    requires p.nextBlockToHash <= |p.blocks|
    ensures p.nextBlockToHash <= r <= |p.blocks| && IsRun(p.blocks, p.nextBlockToHash, r)
  {
    RunEnd(p.blocks, p.nextBlockToHash, |p.blocks|)
  }

  /** Flushing them moves the hash position to their end, so that nothing of them is hashable any more. */
  lemma FlushHashable(q: CachedPiece, len: nat) returns (p: CachedPiece)
    requires Hashable(q) && q.nextBlockToHash + len == HashableEnd(q)
    ensures len > 0 && IsRun(q.blocks, q.nextBlockToHash, q.nextBlockToHash + len)
    ensures p == Flushed(q, q.nextBlockToHash, q.nextBlockToHash + len)
    ensures p.nextBlockToHash == HashableEnd(q) && !Hashable(p)
  {
    HashPositionOfRun(q.blocks, q.nextBlockToHash, HashableEnd(q));
    p := Flushed(q, q.nextBlockToHash, q.nextBlockToHash + len);
  }

  lemma FlushedNothing(p: CachedPiece, at: nat)
    requires at <= |p.blocks|
    ensures Flushed(p, at, at) == p
  {
    assert Cleared(p.blocks, at, at) == p.blocks;
  }

  /** Flushing keeps both caches valid: the read cache has no entry for what is written. */
  lemma FlushKeepsCaches(m: Cache, readCache: Cache, disk: Disk, k: Key, lo: nat, hi: nat)
    requires ValidWriteCache(m, disk) && ValidReadCache(readCache, disk) && k !in readCache
    requires k in m && lo <= hi <= |m[k].blocks|
    ensures var disk' := disk[k := Overlay(disk[k], m[k].blocks, lo, hi)];
      ValidWriteCache(m[k := Flushed(m[k], lo, hi)], disk') && ValidReadCache(readCache, disk')
  {
    CountCleared(m[k].blocks, lo, hi);
  }

  lemma EraseEmpty(m: Cache, disk: Disk, k: Key)
    requires ValidWriteCache(m, disk) && k in m && m[k].numBlocks == 0
    ensures ValidWriteCache(m - {k}, disk) && Contents(m - {k}, disk) == Contents(m, disk)
    ensures Total(m - {k}) == Total(m)
  {
    TotalSplit(m, k);
    EmptyView(disk[k], m[k].blocks);
  }

  /** What a write of block i does to an entry: the block, and the entry's counters. */
  ghost predicate BlockWritten(was: CachedPiece, now: CachedPiece, i: nat, buf: Buffer, expire: int)
    requires i < |was.blocks|
  {
    && now.blocks == was.blocks[i := Cached(buf)] && now.numBlocks == Count(now.blocks)
    && now.numContiguousBlocks == LongestRun(now.blocks)
    && now.nextBlockToHash == was.nextBlockToHash && now.expire == expire
  }

  /** The written bytes replace what a reader saw at their place, in that piece only. */
  lemma WriteShows(m: Cache, disk: Disk, k: Key, p: CachedPiece, i: nat, buf: Buffer)
    requires ValidWriteCache(m, disk) && k in disk && i < BlocksInPiece(|disk[k]|)
    requires |p.blocks| == BlocksInPiece(|disk[k]|)
    requires if k in m then p.blocks == m[k].blocks[i := Cached(buf)]
      else p.blocks == seq(BlocksInPiece(|disk[k]|), _ => Empty)[i := Cached(buf)]
    requires ValidPiece(p, |disk[k]|) && p.numContiguousBlocks == LongestRun(p.blocks)
    ensures ValidWriteCache(m[k := p], disk)
    ensures i * BLOCK_SIZE + BlockLen(|disk[k]|, i) <= |disk[k]|
    ensures Contents(m[k := p], disk) == Contents(m, disk)[k :=
      Splice(Contents(m, disk)[k], i * BLOCK_SIZE, buf[..BlockLen(|disk[k]|, i)])]
  {
    var was := if k in m then m[k].blocks else seq(BlocksInPiece(|disk[k]|), _ => Empty);
    AddBlockView(disk[k], was, i, buf);
    if k !in m {
      CountPositive(was, 0, |was|);
      EmptyView(disk[k], was);
    }
  }

  /**
    * A write leaves nothing to flush at once: no hashable run of a cache line, under avoid_readback, and otherwise no
    * run of a cache line at all, unless the entry had one before.
    */
  ghost predicate NoLongRun(settings: Settings, was: CachedPiece, now: CachedPiece) {
    if settings.algorithm == AvoidReadback then
      (forall hi: nat :: Hashable(now) && IsRun(now.blocks, now.nextBlockToHash, hi) ==>
        hi - now.nextBlockToHash < settings.writeCacheLineSize)
    else LongestRun(was.blocks) < settings.writeCacheLineSize ==> LongestRun(now.blocks) < settings.writeCacheLineSize
  }

  lemma LongRunFlushed(settings: Settings, was: CachedPiece, p: CachedPiece, i: nat, buf: Buffer, pos: nat, len: nat,
      ret: nat, now: CachedPiece)
    requires i < |was.blocks| && p.blocks == was.blocks[i := Cached(buf)] && p.nextBlockToHash <= |p.blocks|
    requires IsRun(p.blocks, pos, pos + len)
    requires (if settings.algorithm == AvoidReadback
      then pos == p.nextBlockToHash && pos + len == RunEnd(p.blocks, pos, |p.blocks|) else len == LongestRun(p.blocks))
    requires ret == (if len < settings.writeCacheLineSize then 0 else len) && now == Flushed(p, pos, pos + ret)
    ensures NoLongRun(settings, was, now)
  {
    var n := settings.writeCacheLineSize;
    if len < n {
      FlushedNothing(p, pos);
      LongestRunIsLongest(p.blocks);
    } else if settings.algorithm == AvoidReadback {
      HashPositionOfRun(p.blocks, pos, pos + len);
    } else if LongestRun(was.blocks) < n {
      LongRunGone(was.blocks, p.blocks, i, buf, pos, len, now.blocks, n);
    }
  }

  /** A run that does not hold the new block was there before. */
  lemma RunBefore(was: seq<Block>, blocks: seq<Block>, i: nat, buf: Buffer, lo: nat, hi: nat)
    requires i < |was| && blocks == was[i := Cached(buf)] && IsRun(blocks, lo, hi)
    ensures lo <= i < hi || hi - lo <= LongestRun(was)
  {
    LongestRunIsLongest(was);
    assert lo <= i < hi || forall x :: lo <= x < hi ==> was[x] == blocks[x];
    assert lo <= i < hi || IsRun(was, lo, hi);
  }

  /** A run of a cache line that a new block completes holds that block, so that none is left when it is flushed. */
  lemma LongRunGone(was: seq<Block>, blocks: seq<Block>, i: nat, buf: Buffer, pos: nat, len: nat, now: seq<Block>,
      n: int)
    requires i < |was| && blocks == was[i := Cached(buf)] && LongestRun(was) < n <= len
    requires IsRun(blocks, pos, pos + len) && now == Cleared(blocks, pos, pos + len)
    ensures LongestRun(now) < n
  {
    RunBefore(was, blocks, i, buf, pos, pos + len);
    LongestRunIsLongest(now);
    var lo: nat, hi: nat :| IsRun(now, lo, hi) && hi - lo == LongestRun(now);
    forall x | lo <= x < hi ensures blocks[x].Cached? {
      assert now[x].Cached?;
    }
    assert now[i].Empty?;
    RunBefore(was, blocks, i, buf, lo, hi);
  }

  // ----- Eviction -----

  /** `now` is `was` without some of its blocks. */
  ghost predicate BlocksFreed(was: CachedPiece, now: CachedPiece) {
    && |now.blocks| == |was.blocks| && now.numBlocks == Count(now.blocks)
    && (forall i :: 0 <= i < |was.blocks| ==> now.blocks[i] == was.blocks[i] || now.blocks[i].Empty?)
    && now == was.(blocks := now.blocks, numBlocks := now.numBlocks)
  }

  /** `now` is what `was` leaves after n of its blocks were evicted, `low` from the start and the rest from the end. */
  ghost predicate Evicted(was: CachedPiece, now: CachedPiece, n: nat, low: nat) {
    && BlocksFreed(was, now)
    && now.numBlocks == was.numBlocks - Min(n, was.numBlocks)
    && (n < was.numBlocks && low <= n ==> EndsFreed(was.blocks, now.blocks, low, n - low))
  }

  /** The read cache after an eviction of n blocks from entry k, which goes with its last block. */
  ghost predicate EvictedFrom(was: Cache, now: Cache, k: Key, n: nat, low: nat) {
    && k in was
    && exists p :: Evicted(was[k], p, n, low) && now == if p.numBlocks == 0 then was - {k} else was[k := p]
  }

  /** The read cache `was` after evictions that spared `ignore`. */
  ghost predicate Shrunk(was: Cache, now: Cache, ignore: set<Key>) {
    now.Keys <= was.Keys && forall k :: k in was && k in ignore ==> k in now && now[k] == was[k]
  }

  /** No entry that is not spared has expired. */
  ghost predicate Unexpired(m: Cache, ignore: set<Key>, now: int) {
    forall k :: k in m && k !in ignore ==> now < m[k].expire
  }

  /** The oldest entry had expired and held no block: it went, and nothing was freed. */
  ghost predicate EmptyDropped(was: Cache, m: Cache, ignore: set<Key>, now: int) {
    exists k :: IsOldest(was, ignore, k) && was[k].numBlocks == 0 && was[k].expire <= now && m == was - {k}
  }

  lemma NothingEvicted(was: Cache, m: Cache, ignore: set<Key>, now: int, k: Key, n: nat, low: nat)
    requires IsOldest(was, ignore, k) && was[k].expire <= now && EvictedFrom(was, m, k, n, low)
    requires n > 0 && Min(n, was[k].numBlocks) == 0
    ensures EmptyDropped(was, m, ignore, now)
  {
  }

  /** A read entry may lose blocks. */
  lemma EvictKeepsReadCache(m: Cache, disk: Disk, k: Key, p: CachedPiece)
    requires ValidReadCache(m, disk) && k in m && BlocksFreed(m[k], p)
    ensures ValidReadCache(m[k := p], disk) && ValidReadCache(m - {k}, disk)
    ensures Total(m[k := p]) == Total(m) - m[k].numBlocks + p.numBlocks
    ensures Total(m - {k}) == Total(m) - m[k].numBlocks
  {
    TotalUpdate(m, k, p);
    TotalSplit(m, k);
    DropKeepsCoherence(disk[k], m[k].blocks, p.blocks);
  }

  lemma RefillKeepsReadCache(m: Cache, disk: Disk, k: Key, p: CachedPiece)
    requires ValidReadCache(m, disk) && k in disk && ValidPiece(p, |disk[k]|) && Coherent(disk[k], p.blocks)
    ensures ValidReadCache(m[k := p], disk)
    ensures k in m ==> Total(m[k := p]) == Total(m) - m[k].numBlocks + p.numBlocks
    ensures k !in m ==> Total(m[k := p]) == Total(m) + p.numBlocks
  {
    TotalPut(m, k, p);
  }

  /** Blocks up to this one may be dropped without harm to later bytes. */
  lemma LaterHeld(was: seq<Block>, now: seq<Block>, block: nat, from: nat, to: nat)
    requires |was| == |now| && forall i :: block < i < |was| ==> now[i] == was[i]
    requires from < to ==> from >= (block + 1) * BLOCK_SIZE
    requires forall k :: from <= k < to ==> Held(was, 0, |was|, k)
    ensures forall k :: from <= k < to ==> Held(now, 0, |now|, k)
  {
    forall k | from <= k < to ensures Held(now, 0, |now|, k) {
      assert Held(was, 0, |was|, k);
      LaterBlock(block + 1, k);
    }
  }

  lemma Buffered(buffer: seq<byte>, was: seq<byte>, data: seq<byte>, offset: nat, n: nat)
    requires |buffer| == |was| && offset + n <= |data| && n <= |was|
    requires forall x :: 0 <= x < |buffer| ==> buffer[x] == if x < n then data[offset + x] else was[x]
    ensures buffer == data[offset..offset + n] + was[n..]
  {
    var now := data[offset..offset + n] + was[n..];
    forall x | 0 <= x < |buffer| ensures buffer[x] == now[x] {
    }
  }

  /** The least recently used key other than `ignore`. */
  ghost predicate IsOldest(m: Cache, ignore: set<Key>, k: Key) {
    k in m && k !in ignore && forall j :: j in m && j !in ignore ==> m[k].expire <= m[j].expire
  }

  /** Flushing a longest run of no block leaves an entry without blocks. */
  lemma LongestRunFlushed(q: CachedPiece, pos: nat, n: nat) returns (p: CachedPiece)
    requires pos + n <= |q.blocks| && n == LongestRun(q.blocks) && q.numBlocks == Count(q.blocks)
    ensures p == Flushed(q, pos, pos + n) && (n == 0 ==> p.numBlocks == 0)
  {
    LongestRunPositive(q.blocks);
    if n == 0 {
      FlushedNothing(q, pos);
    }
    p := Flushed(q, pos, pos + n);
  }

  /** Of these entries none can be flushed without a later read back. */
  ghost predicate NoneHashable(m: Cache, keys: set<Key>) {
    forall k :: k in m && k in keys ==> !Hashable(m[k])
  }

  /** An entry without blocks that is kept because not all of its piece is hashed. */
  predicate Remembered(p: CachedPiece) {
    p.numBlocks == 0 && p.nextBlockToHash < |p.blocks|
  }

  ghost predicate AllRemembered(m: Cache, keys: set<Key>) {
    forall k :: k in m && k in keys ==> Remembered(m[k])
  }

  /** None of the other entries has expired. */
  ghost predicate AllFresh(m: Cache, keys: set<Key>, now: int, cacheExpiry: nat) {
    forall k :: k in m && k !in keys ==> now - m[k].expire <= cacheExpiry
  }

  lemma StillNotHashable(was: Cache, now: Cache, keys: set<Key>, k: Key)
    requires NoneHashable(was, keys) && OnlyEntry(was, now, k) && (k in now ==> !Hashable(now[k]))
    ensures NoneHashable(now, keys + {k})
  {
    assert forall j :: j in now && j != k ==> j in now - {k} && (now - {k})[j] == (was - {k})[j] == was[j];
  }

  lemma StillRemembered(was: Cache, now: Cache, keys: set<Key>, k: Key)
    requires AllRemembered(was, keys) && OnlyEntry(was, now, k) && (k in now ==> Remembered(now[k]))
    ensures AllRemembered(now, keys + {k})
  {
    assert forall j :: j in now && j != k ==> j in now - {k} && (now - {k})[j] == (was - {k})[j] == was[j];
  }

  /** Only entry k is another, or gone. */
  ghost predicate OnlyEntry(was: Cache, now: Cache, k: Key) {
    now.Keys <= was.Keys && now - {k} == was - {k}
  }

  lemma AfterFlush(was: Cache, k: Key, p: CachedPiece, now: Cache)
    requires k in was && now == was[k := p]
    ensures now.Keys == was.Keys && OnlyEntry(was, now, k) && OnlyEntry(was, now - {k}, k)
    ensures |(now - {k}).Keys| < |was.Keys|
  {
    assert (now - {k}).Keys == was.Keys - {k};
  }

  lemma PutSame(m: Cache, k: Key, p: CachedPiece)
    requires k in m && p == m[k]
    ensures m[k := p] == m
  {
  }

  lemma EraseOnly(was: Cache, now: Cache, k: Key)
    requires OnlyEntry(was, now, k)
    ensures OnlyEntry(was, now - {k}, k)
  {
    assert now - {k} - {k} == now - {k};
  }

  lemma {:induction false} SubsetSize<T>(a: set<T>, b: set<T>)
    requires a <= b
    ensures |a| <= |b|
  {
    if x :| x in a {
      SubsetSize(a - {x}, b - {x});
    }
  }

  /** One more key was visited, and no new one came. */
  lemma Fewer(was: set<Key>, now: set<Key>, visited: set<Key>, k: Key)
    requires k in was && k !in visited && now <= was
    ensures |now - (visited + {k})| < |was - visited|
  {
    SubsetSize(now - (visited + {k}), was - visited - {k});
  }

  // ----- The order in which blocks go -----

  /** Only the run lo..hi of entry k goes, and the entry with it only if it has no other block. */
  ghost predicate RunGoes(was: Cache, now: Cache, k: Key, lo: nat, hi: nat) {
    && k in was && OnlyEntry(was, now, k) && IsRun(was[k].blocks, lo, hi)
    && (if k in now then now[k] == Flushed(was[k], lo, hi) else Count(Cleared(was[k].blocks, lo, hi)) == 0)
  }

  /** No entry has more contiguous blocks. */
  ghost predicate NoneLonger(m: Cache, len: int) {
    forall k, lo: nat, hi: nat :: k in m && IsRun(m[k].blocks, lo, hi) ==> hi - lo <= len
  }

  /** Of the entries that can be flushed without a later read back none expires earlier. */
  ghost predicate NoneSooner(m: Cache, expire: int) {
    forall k :: k in m && Hashable(m[k]) ==> expire <= m[k].expire
  }

  /** lru: a whole entry goes, and none that stays expires earlier. */
  ghost predicate OldestGoes(was: Cache, now: Cache) {
    exists k :: k in was && now == was - {k} && forall j :: j in was ==> was[k].expire <= was[j].expire
  }

  /** largest_contiguous: a longest run goes, and the entry with it exactly if that leaves it empty. */
  ghost predicate LongestGoes(was: Cache, now: Cache) {
    exists k, lo: nat, hi: nat :: RunGoes(was, now, k, lo, hi) && NoneLonger(was, hi - lo)
      && (k in now ==> Count(now[k].blocks) > 0)
  }

  /** The run from the next block to hash up to the first hole goes, and the entry with it exactly if it is complete. */
  ghost predicate HashedGoes(was: Cache, now: Cache, k: Key, hi: nat) {
    && k in was && Hashable(was[k]) && RunGoes(was, now, k, was[k].nextBlockToHash, hi)
    && (hi < |was[k].blocks| ==> was[k].blocks[hi].Empty?)
    && (k in now <==> hi < |was[k].blocks| || Count(Cleared(was[k].blocks, was[k].nextBlockToHash, hi)) > 0)
  }

  /** avoid_readback: while there are hashable blocks, those of the entry that expires first, else a longest run. */
  ghost predicate HashableGoes(was: Cache, now: Cache) {
    if NoneHashable(was, was.Keys) then LongestGoes(was, now)
    else exists k, hi: nat :: HashedGoes(was, now, k, hi) && NoneSooner(was, was[k].expire)
  }

  ghost predicate Goes(algorithm: Algorithm, was: Cache, now: Cache) {
    match algorithm
    case Lru => OldestGoes(was, now)
    case LargestContiguous => LongestGoes(was, now)
    case AvoidReadback => HashableGoes(was, now)
  }

  /** Round i: less than n blocks were free before it, and what goes is what the algorithm says. */
  ghost predicate Round(algorithm: Algorithm, states: seq<Cache>, n: int, i: nat)
    requires 0 < i < |states|
  {
    Total(states[0]) - Total(states[i - 1]) < n && Goes(algorithm, states[i - 1], states[i])
  }

  /** The write cache went through these states, a round at a time, until n blocks were free. */
  ghost predicate Flushing(algorithm: Algorithm, states: seq<Cache>, was: Cache, now: Cache, n: int) {
    && states != [] && states[0] == was && states[|states| - 1] == now
    && forall i :: 0 < i < |states| ==> Round(algorithm, states, n, i)
  }

  lemma FlushMore(algorithm: Algorithm, states: seq<Cache>, was: Cache, mid: Cache, now: Cache, n: int)
    requires Flushing(algorithm, states, was, mid, n) && Total(was) - Total(mid) < n && Goes(algorithm, mid, now)
    ensures Flushing(algorithm, states + [now], was, now, n)
  {
    var more := states + [now];
    forall i | 0 < i < |more| ensures Round(algorithm, more, n, i) {
      assert more[i - 1] == states[i - 1];
      if i < |states| {
        assert Round(algorithm, states, n, i);
      }
    }
  }

  /** The entry whose longest run is longest loses that run, and goes with it if it has no other block. */
  lemma LongestRound(was: Cache, k: Key, p: CachedPiece, pos: nat, len: nat, now: Cache)
    requires k in was && IsRun(was[k].blocks, pos, pos + len) && p == Flushed(was[k], pos, pos + len)
    requires forall j :: j in was ==> was[j].numContiguousBlocks == LongestRun(was[j].blocks) <= len
    requires was[k].numBlocks == Count(was[k].blocks)
    requires now == if p.numBlocks == 0 then was[k := p] - {k} else was[k := p]
    ensures LongestGoes(was, now)
  {
    CountCleared(was[k].blocks, pos, pos + len);
    AfterFlush(was, k, p, was[k := p]);
    forall j, lo: nat, hi: nat | j in was && IsRun(was[j].blocks, lo, hi) ensures hi - lo <= len {
      LongestRunIsLongest(was[j].blocks);
    }
    assert RunGoes(was, now, k, pos, pos + len) && NoneLonger(was, pos + len - pos);
  }

  /** The hash position stays where it is at a block that is not cached. */
  lemma {:induction false} HashPositionAtHole(blocks: seq<Block>, lo: nat, hi: nat, next: nat)
    requires lo <= hi <= |blocks| && (next < |blocks| ==> blocks[next].Empty?)
    ensures HashPosition(blocks, lo, hi, next) == next
  {
    if lo < hi {
      HashPositionAtHole(blocks, lo, hi - 1, next);
    }
  }

  /** Flushing a run never makes an entry hashable that was not. */
  lemma LongestKeepsUnhashable(was: Cache, now: Cache)
    requires NoneHashable(was, was.Keys) && LongestGoes(was, now)
    ensures NoneHashable(now, now.Keys)
  {
    var k, lo: nat, hi: nat :| RunGoes(was, now, k, lo, hi) && NoneLonger(was, hi - lo)
      && (k in now ==> Count(now[k].blocks) > 0);
    HashPositionAtHole(was[k].blocks, lo, hi, was[k].nextBlockToHash);
    StillNotHashable(was, now, was.Keys, k);
  }

  // ----- What is left after a flush -----

  /** What stays is as it was, and what is gone expired no later than anything that stays. */
  ghost predicate OldestGone(was: Cache, now: Cache) {
    && (forall k :: k in now ==> k in was && now[k] == was[k])
    && (forall k, j :: k in was && k !in now && j in now ==> was[k].expire <= was[j].expire)
  }

  /** Block i of entry k was cached, and is no more. */
  ghost predicate Gone(was: Cache, now: Cache, k: Key, i: nat) {
    && k in was && i < |was[k].blocks| && was[k].blocks[i].Cached?
    && (k in now ==> i < |now[k].blocks| && now[k].blocks[i].Empty?)
  }

  /** One of the longest runs there were is gone. */
  ghost predicate LongestGone(was: Cache, now: Cache) {
    exists k, lo: nat, hi: nat :: k in was && IsRun(was[k].blocks, lo, hi) && NoneLonger(was, hi - lo)
      && (forall i: nat :: lo <= i < hi ==> Gone(was, now, k, i)) && (lo == hi ==> k !in now)
  }

  /** Only blocks are gone that could be hashed without being read back: no hole lies between the next one and them. */
  ghost predicate HashableGone(was: Cache, now: Cache) {
    forall k, i: nat :: Gone(was, now, k, i) ==>
      was[k].nextBlockToHash <= i && IsRun(was[k].blocks, was[k].nextBlockToHash, i + 1)
  }

  /** What a reader of the settings may rely on after a flush, whatever the number of rounds. */
  ghost predicate OrderKept(algorithm: Algorithm, was: Cache, now: Cache) {
    match algorithm
    case Lru => OldestGone(was, now)
    case LargestContiguous => now == was || LongestGone(was, now)
    case AvoidReadback => NoneHashable(now, now.Keys) || HashableGone(was, now)
  }

  /** An entry is as it was, or has lost hashable blocks only and is not hashable any more. */
  ghost predicate HashedOnly(was: Cache, now: Cache) {
    && HashableGone(was, now)
    && (forall k :: k in now ==> k in was && (now[k] == was[k] || !Hashable(now[k])))
  }

  lemma {:induction false} OldestUpTo(states: seq<Cache>, n: int, i: nat)
    requires i < |states| && forall j :: 0 < j < |states| ==> Round(Lru, states, n, j)
    ensures OldestGone(states[0], states[i])
  {
    if i > 0 {
      OldestUpTo(states, n, i - 1);
      assert Round(Lru, states, n, i);
    }
  }

  lemma HashedStep(was: Cache, mid: Cache, now: Cache)
    requires HashedOnly(was, mid) && HashableGoes(mid, now) && !NoneHashable(mid, mid.Keys)
    ensures HashedOnly(was, now)
  {
    var k, hi: nat :| HashedGoes(mid, now, k, hi) && NoneSooner(mid, mid[k].expire);
    var next := mid[k].nextBlockToHash;
    assert mid[k] == was[k];
    forall j | j in now ensures j in was && (now[j] == was[j] || !Hashable(now[j])) {
      if j == k {
        HashPositionOfRun(mid[k].blocks, next, hi);
      } else {
        Untouched(mid, now, k, j);
      }
    }
    forall j, i: nat | Gone(was, now, j, i)
      ensures was[j].nextBlockToHash <= i && IsRun(was[j].blocks, was[j].nextBlockToHash, i + 1)
    {
      if j == k {
        GoneInRun(mid, now, k, next, hi, i);
      } else {
        Untouched(mid, now, k, j);
        assert Gone(was, mid, j, i);
      }
    }
  }

  lemma Untouched(was: Cache, now: Cache, k: Key, j: Key)
    requires OnlyEntry(was, now, k) && j != k
    ensures (j in was <==> j in now) && (j in now ==> now[j] == was[j])
  {
    assert j in now <==> j in now - {k};
    assert j in was <==> j in was - {k};
    assert j in now ==> now[j] == (now - {k})[j] == (was - {k})[j] == was[j];
  }

  lemma GoneInRun(was: Cache, now: Cache, k: Key, lo: nat, hi: nat, i: nat)
    requires RunGoes(was, now, k, lo, hi) && Gone(was, now, k, i)
    ensures lo <= i < hi
  {
    var c := Cleared(was[k].blocks, lo, hi);
    CountPositive(c, 0, |c|);
    assert c[i].Empty?;
  }

  lemma {:induction false} HashedUpTo(states: seq<Cache>, n: int, i: nat)
    requires i < |states| && forall j :: 0 < j < |states| ==> Round(AvoidReadback, states, n, j)
    ensures NoneHashable(states[i], states[i].Keys) || HashedOnly(states[0], states[i])
  {
    if i > 0 {
      HashedUpTo(states, n, i - 1);
      assert Round(AvoidReadback, states, n, i);
      if NoneHashable(states[i - 1], states[i - 1].Keys) {
        LongestKeepsUnhashable(states[i - 1], states[i]);
      } else {
        HashedStep(states[0], states[i - 1], states[i]);
      }
    }
  }

  /** What a longest run left, and the next round after it. */
  lemma GoneStays(was: Cache, mid: Cache, now: Cache, k: Key, i: nat)
    requires LongestGoes(mid, now)
    ensures Gone(was, mid, k, i) ==> Gone(was, now, k, i)
    ensures k !in mid ==> k !in now
  {
    var j, lo: nat, hi: nat :| RunGoes(mid, now, j, lo, hi) && NoneLonger(mid, hi - lo)
      && (j in now ==> Count(now[j].blocks) > 0);
    if k != j {
      Untouched(mid, now, j, k);
    }
  }

  lemma NoRun(m: Cache, k: Key)
    requires k in m && NoneLonger(m, 0)
    ensures Count(m[k].blocks) == 0
  {
    CountPositive(m[k].blocks, 0, |m[k].blocks|);
    assert forall i: nat :: i < |m[k].blocks| && m[k].blocks[i].Cached? ==> IsRun(m[k].blocks, i, i + 1);
  }

  lemma LongestFirst(was: Cache, now: Cache)
    requires LongestGoes(was, now)
    ensures LongestGone(was, now)
  {
    var k, lo: nat, hi: nat :| RunGoes(was, now, k, lo, hi) && NoneLonger(was, hi - lo)
      && (k in now ==> Count(now[k].blocks) > 0);
    assert forall i: nat :: lo <= i < hi ==> Gone(was, now, k, i);
    if lo == hi && k in now {
      FlushedNothing(was[k], lo);
      NoRun(was, k);
    }
  }

  lemma {:induction false} LongestUpTo(states: seq<Cache>, n: int, i: nat)
    requires 0 < i < |states| && forall j :: 0 < j < |states| ==> Round(LargestContiguous, states, n, j)
    ensures LongestGone(states[0], states[i])
  {
    assert Round(LargestContiguous, states, n, i);
    if i == 1 {
      LongestFirst(states[0], states[1]);
    } else {
      LongestUpTo(states, n, i - 1);
      var was, mid, now := states[0], states[i - 1], states[i];
      var k, lo: nat, hi: nat :| k in was && IsRun(was[k].blocks, lo, hi) && NoneLonger(was, hi - lo)
        && (forall x: nat :: lo <= x < hi ==> Gone(was, mid, k, x)) && (lo == hi ==> k !in mid);
      forall x: nat | lo <= x <= hi ensures x < hi ==> Gone(was, now, k, x) ensures k !in mid ==> k !in now {
        GoneStays(was, mid, now, k, x);
      }
    }
  }

  /** Whatever the number of rounds, they leave the order of the algorithm. */
  lemma FlushKeepsOrder(algorithm: Algorithm, states: seq<Cache>, was: Cache, now: Cache, n: int)
    requires Flushing(algorithm, states, was, now, n)
    ensures OrderKept(algorithm, was, now)
  {
    var last := |states| - 1;
    match algorithm
    case Lru => OldestUpTo(states, n, last);
    case LargestContiguous =>
      if last > 0 {
        LongestUpTo(states, n, last);
      }
    case AvoidReadback => HashedUpTo(states, n, last);
  }

  class DiskIoThread {
    const storage: Storage
    var settings: Settings
    /** The write cache and the read cache. */
    var pieces: Cache
    var readPieces: Cache
    /** The cached blocks, and those of the read cache. */
    var cacheSize: int
    var readCacheSize: int
    /** The buffers taken from the pool: the cached blocks, and send and receive buffers. */
    var inUse: int

    constructor (storage: Storage, settings: Settings)
      ensures Valid() && this.storage == storage && this.settings == settings && pieces == readPieces == map[]
    {
      this.storage, this.settings := storage, settings;
      pieces, readPieces := map[], map[];
      cacheSize, readCacheSize, inUse := 0, 0, 0;
    }

    /** What every operation keeps. No piece is in both caches: storage is not written behind the read cache's back. */
    ghost predicate Valid()
      reads this, storage
    {
      && ValidWriteCache(pieces, storage.data) && ValidReadCache(readPieces, storage.data)
      && pieces.Keys !! readPieces.Keys
      && readCacheSize == Total(readPieces) && cacheSize == Total(pieces) + readCacheSize && cacheSize <= inUse
    }

    /** The abstract value of the write cache and the storage. */
    ghost function View(): Disk
      reads this, storage
    {
      Contents(pieces, storage.data)
    }

    /** The cached blocks of the entry satisfy the request. */
    ghost predicate HitBy(j: Job)
      requires Valid() && j.Valid(storage.data)
      reads this, storage
    {
      j.key in readPieces && IsCacheHit(readPieces[j.key].blocks, j.offset, j.bufferSize)
    }

    /** contiguous_blocks */
    method ContiguousBlocks(blocks: seq<Block>) returns (ret: nat)
      ensures ret == LongestRun(blocks)
    {
      ret := 0;
      var current, i := 0, 0;
      while i < |blocks|
        invariant i <= |blocks|
        invariant current == TailRun(blocks[..i]) && Max(ret, current) == LongestRun(blocks[..i])
      {
        assert blocks[..i + 1][..i] == blocks[..i];
        if blocks[i].Cached? {
          current := current + 1;
        } else {
          if current > ret {
            ret := current;
          }
          current := 0;
        }
        i := i + 1;
      }
      assert blocks[..i] == blocks;
      if current > ret {
        ret := current;
      }
    }

    // ----- flush_range -----

    /** The end of a contiguous run: the scan met a hole, or the end of the range, at block i. */
    method EndRun(k: Key, blocks: seq<Block>, i: nat, ghost last: nat, iov: seq<seq<byte>>, bufferSize: nat,
                  ghost stored: seq<byte>, ghost start: nat, ghost first: nat)
      requires |blocks| == BlocksInPiece(|stored|) && start <= first <= i <= last <= |blocks|
      requires k in storage.data && storage.data[k] == Overlay(stored, blocks, start, first)
      requires (i == last || blocks[i].Empty?) && IsRun(blocks, first, i)
      requires Flatten(iov) == RunBytes(|stored|, blocks, first, i) && bufferSize == |Flatten(iov)|
      modifies storage`data, storage`calls
      ensures storage.data == old(storage.data)[k := Overlay(stored, blocks, start, Min(i + 1, last))]
      ensures storage.calls + RunCalls(k, |stored|, blocks, Min(i + 1, last), last)
        == old(storage.calls) + RunCalls(k, |stored|, blocks, first, last)
    {
      if bufferSize != 0 {
        RunEndUnique(blocks, first, i, last);
        RunBytesLength(|stored|, blocks, first, i);
        WriteRunExtendsOverlay(stored, blocks, start, first, i);
        var at := Min(i * BLOCK_SIZE, |storage.data[k]|) - bufferSize;
        var _ := storage.WriteImpl(iov, k, at);
      } else if first < i {
        RunBytesLength(|stored|, blocks, first, i);
      }
      if i < last {
        OverlaySkip(stored, blocks, start, i);
      }
    }

    /** The same with the bytes collected so far, in the form the settings ask for. */
    method EndPending(k: Key, blocks: seq<Block>, i: nat, ghost last: nat, buf: seq<byte>, iov: seq<seq<byte>>,
                      bufferSize: nat, ghost stored: seq<byte>, ghost start: nat, ghost first: nat)
      requires |blocks| == BlocksInPiece(|stored|) && start <= first <= i <= last <= |blocks|
      requires k in storage.data && storage.data[k] == Overlay(stored, blocks, start, first)
      requires (i == last || blocks[i].Empty?) && IsRun(blocks, first, i) && bufferSize <= |buf|
      requires buf[..bufferSize] == Flatten(iov) == RunBytes(|stored|, blocks, first, i)
      modifies storage`data, storage`calls
      ensures storage.data == old(storage.data)[k := Overlay(stored, blocks, start, Min(i + 1, last))]
      ensures storage.calls + RunCalls(k, |stored|, blocks, Min(i + 1, last), last)
        == old(storage.calls) + RunCalls(k, |stored|, blocks, first, last)
    {
      if settings.coalesceWrites {
        assert Flatten([buf[..bufferSize]]) == buf[..bufferSize];
        EndRun(k, blocks, i, last, [buf[..bufferSize]], bufferSize, stored, start, first);
      } else {
        EndRun(k, blocks, i, last, iov, bufferSize, stored, start, first);
      }
    }

    /** The scan met a cached block: its filled part joins the bytes of the next write call. */
    method TakeBlock(p: CachedPiece, i: nat, ghost first: nat, buf: seq<byte>, offset: nat, iov: seq<seq<byte>>,
                     bufferSize: nat)
      returns (p': CachedPiece, buf': seq<byte>, offset': nat, iov': seq<seq<byte>>, bufferSize': nat)
      requires |p.blocks| == BlocksInPiece(|buf|) && first <= i < |p.blocks| && IsRun(p.blocks, first, i + 1)
      requires offset == bufferSize <= |buf|
      requires buf[..bufferSize] == Flatten(iov) == RunBytes(|buf|, p.blocks, first, i)
      modifies this`cacheSize
      ensures |buf'| == |buf| && bufferSize' == |RunBytes(|buf|, p.blocks, first, i + 1)| <= |buf|
      ensures i + 1 < |p.blocks| ==> offset' == bufferSize'
      ensures buf'[..bufferSize'] == Flatten(iov') == RunBytes(|buf|, p.blocks, first, i + 1)
      ensures cacheSize == old(cacheSize) - 1
      ensures p' == p.(numBlocks := p.numBlocks - 1,
                       nextBlockToHash := p.nextBlockToHash + if i == p.nextBlockToHash then 1 else 0)
    {
      RunBytesLength(|buf|, p.blocks, first, i + 1);
      var blockSize := BlockLen(|buf|, i);
      var bytes := p.blocks[i].buf[..blockSize];
      buf' := Splice(buf, offset, bytes);
      offset' := offset + BLOCK_SIZE;
      iov' := iov + [bytes];
      assert iov'[..|iov|] == iov;
      bufferSize' := bufferSize + blockSize;
      p' := p.(numBlocks := p.numBlocks - 1);
      cacheSize := cacheSize - 1;
      if i == p.nextBlockToHash {
        p' := p'.(nextBlockToHash := p.nextBlockToHash + 1);
      }
    }

    /** The first loop of flush_range: one write call for each contiguous run, coalesced into a buffer or vectored. */
    method WriteRuns(k: Key, q: CachedPiece, start: nat, last: nat) returns (p: CachedPiece)
      requires k in storage.data && ValidPiece(q, |storage.data[k]|) && start < last <= |q.blocks|
      modifies this`cacheSize, storage`data, storage`calls
      ensures p == Scanned(q, start, last)
      ensures cacheSize == old(cacheSize) - CountIn(q.blocks, start, last)
      ensures storage.data == old(storage.data)[k := Overlay(old(storage.data)[k], q.blocks, start, last)]
      ensures storage.calls == old(storage.calls) + RunCalls(k, |old(storage.data)[k]|, q.blocks, start, last)
    {
      p := q;
      ghost var stored := storage.data[k];
      var pieceSize := |storage.data[k]|;
      ghost var todo := RunCalls(k, pieceSize, q.blocks, start, last);
      var bufferSize, offset, buf: seq<byte>, iov: seq<seq<byte>> := 0, 0, seq(pieceSize, _ => 0), [];
      ghost var first := start;
      assert Overlay(stored, q.blocks, start, start) == stored;

      var i := start;
      while i < last
        invariant start <= first <= i <= last && IsRun(q.blocks, first, i) && |buf| == pieceSize
        invariant bufferSize == |RunBytes(pieceSize, q.blocks, first, i)| <= pieceSize
        invariant i < last ==> offset == bufferSize
        invariant buf[..bufferSize] == Flatten(iov) == RunBytes(pieceSize, q.blocks, first, i)
        invariant p == Scanned(q, start, i)
        invariant cacheSize == old(cacheSize) - CountIn(q.blocks, start, i)
        invariant storage.data == old(storage.data)[k := Overlay(stored, q.blocks, start, first)]
        invariant storage.calls + RunCalls(k, pieceSize, q.blocks, first, last) == old(storage.calls) + todo
      {
        ScannedStep(q, start, i);
        if p.blocks[i].Empty? {
          EndPending(k, p.blocks, i, last, buf, iov, bufferSize, stored, start, first);
          bufferSize, offset, iov, first := 0, 0, [], i + 1;
        } else {
          p, buf, offset, iov, bufferSize := TakeBlock(p, i, first, buf, offset, iov, bufferSize);
        }
        i := i + 1;
      }
      // the pass with i == end
      EndPending(k, p.blocks, i, last, buf, iov, bufferSize, stored, start, first);
    }

    /** The last loop of flush_range: the buffers of the written blocks go back to the pool. */
    method FreeRange(blocks: seq<Block>, start: nat, last: nat) returns (blocks': seq<Block>, ret: nat)
      requires start <= last <= |blocks|
      modifies this`inUse
      ensures blocks' == Cleared(blocks, start, last)
      ensures ret == CountIn(blocks, start, last) == old(inUse) - inUse
    {
      blocks', ret := blocks, 0;
      var i := start;
      while i < last
        invariant start <= i <= last && blocks' == Cleared(blocks, start, i)
        invariant ret == CountIn(blocks, start, i)
      {
        if blocks'[i].Cached? {
          blocks' := blocks'[i := Empty];
          ret := ret + 1;
        }
        i := i + 1;
      }
      inUse := inUse - ret;
    }

    /** flush_range, as far as the entry and the storage go. */
    method FlushEntry(k: Key, q: CachedPiece, start: nat, last: nat) returns (p: CachedPiece, ret: nat)
      requires k in storage.data && ValidPiece(q, |storage.data[k]|) && start < last <= |q.blocks|
      modifies this`cacheSize, this`inUse, storage`data, storage`calls
      ensures p == Flushed(q, start, last)
      ensures ret == CountIn(q.blocks, start, last) == old(cacheSize) - cacheSize == old(inUse) - inUse
      ensures storage.data == old(storage.data)[k := Overlay(old(storage.data)[k], q.blocks, start, last)]
      ensures storage.calls == old(storage.calls) + RunCalls(k, |old(storage.data)[k]|, q.blocks, start, last)
    {
      p := WriteRuns(k, q, start, last);
      var blocks;
      blocks, ret := FreeRange(p.blocks, start, last);
      p := p.(blocks := blocks);
      if ret > 0 {
        var n := ContiguousBlocks(p.blocks);
        p := p.(numContiguousBlocks := n);
      }
    }

    /** flush_range: writes the cached blocks of start..end to storage and drops them from the cache. */
    method FlushRange(k: Key, start: nat, end: nat) returns (ret: nat)
      requires Valid() && k in pieces && start < end && start < |pieces[k].blocks|
      modifies this`pieces, this`cacheSize, this`inUse, storage`data, storage`calls
      ensures Valid() && View() == old(View())
      ensures var p, last := old(pieces)[k], Min(end, |old(pieces)[k].blocks|);
        && pieces == old(pieces)[k := Flushed(p, start, last)]
        && ret == CountIn(p.blocks, start, last) == old(cacheSize) - cacheSize == old(inUse) - inUse
        && storage.data == old(storage.data)[k := Overlay(old(storage.data)[k], p.blocks, start, last)]
    {
      var last := Min(end, BlocksInPiece(|storage.data[k]|));
      FlushKeepsContents(pieces, storage.data, k, start, last);
      FlushKeepsCaches(pieces, readPieces, storage.data, k, start, last);
      TotalUpdate(pieces, k, Flushed(pieces[k], start, last));
      var p;
      p, ret := FlushEntry(k, pieces[k], start, last);
      pieces := pieces[k := p];
    }

    /** An entry that holds no block leaves the write cache. */
    method ErasePiece(k: Key)
      requires Valid() && k in pieces && pieces[k].numBlocks == 0
      modifies this`pieces
      ensures Valid() && View() == old(View()) && pieces == old(pieces) - {k}
    {
      EraseEmpty(pieces, storage.data, k);
      pieces := pieces - {k};
    }

    /** The run that flush_contiguous_blocks flushes: the first of the longest, or the one at the hash position. */
    ghost predicate Chosen(p: CachedPiece, avoidReadback: bool, pos: nat, len: nat) {
      && IsRun(p.blocks, pos, pos + len)
      && (if avoidReadback then pos == p.nextBlockToHash && pos + len == RunEnd(p.blocks, pos, |p.blocks|)
          else len == LongestRun(p.blocks))
    }

    /** flush_contiguous_blocks: flushes one run of the entry, unless it is too short. */
    method FlushContiguousBlocks(k: Key, lowerLimit: int, avoidReadback: bool)
      returns (ret: nat, ghost pos: nat, ghost len: nat)
      requires Valid() && k in pieces
      modifies this`pieces, this`cacheSize, this`inUse, storage`data, storage`calls
      ensures Valid() && View() == old(View())
      ensures Chosen(old(pieces[k]), avoidReadback, pos, len) && ret == if len < lowerLimit then 0 else len
      ensures pieces == old(pieces)[k := Flushed(old(pieces[k]), pos, pos + ret)]
      ensures ret == old(cacheSize) - cacheSize == old(inUse) - inUse
    {
      var n, start;
      if avoidReadback {
        start := pieces[k].nextBlockToHash;
        n := RunAt(pieces[k].blocks, start);
      } else {
        n, start := LargestRange(pieces[k].blocks);
      }
      pos, len := start, n;
      ret := FlushRun(k, start, n, lowerLimit);
    }

    /** The end of flush_contiguous_blocks: the run that was found is flushed if it is long enough. */
    method FlushRun(k: Key, start: nat, len: nat, lowerLimit: int) returns (ret: nat)
      requires Valid() && k in pieces && IsRun(pieces[k].blocks, start, start + len)
      modifies this`pieces, this`cacheSize, this`inUse, storage`data, storage`calls
      ensures Valid() && View() == old(View()) && ret == if len < lowerLimit then 0 else len
      ensures pieces == old(pieces)[k := Flushed(old(pieces[k]), start, start + ret)]
      ensures ret == old(cacheSize) - cacheSize == old(inUse) - inUse
    {
      if len < lowerLimit || len == 0 {
        FlushedNothing(pieces[k], start);
        PutSame(pieces, k, pieces[k]);
        return 0;
      }
      ghost var p, last := pieces[k], start + len;
      CountRun(p.blocks, start, last);
      assert Min(start + len, |p.blocks|) == last;
      ret := FlushRange(k, start, start + len);
      assert CountIn(p.blocks, start, last) == len;
    }

    /** The loop over the blocks from the hash position on. */
    method RunAt(blocks: seq<Block>, start: nat) returns (len: nat)
      requires start <= |blocks|
      ensures start + len == RunEnd(blocks, start, |blocks|)
    {
      len := 0;
      while start + len < |blocks| && blocks[start + len].Cached?
        invariant start + len <= |blocks| && IsRun(blocks, start, start + len)
      {
        len := len + 1;
      }
      RunEndUnique(blocks, start, start + len, |blocks|);
    }

    /** The loop of flush_contiguous_blocks: where the first of the longest runs is. */
    method LargestRange(blocks: seq<Block>) returns (len: nat, pos: nat)
      ensures len == LongestRun(blocks) && IsRun(blocks, pos, pos + len)
    {
      len, pos := 0, 0;
      var current, start, i := 0, 0, 0;
      while i < |blocks|
        invariant i <= |blocks| && start + current == i && IsRun(blocks, start, i)
        invariant IsRun(blocks, pos, pos + len) && pos + len <= i
        invariant current == TailRun(blocks[..i]) && Max(len, current) == LongestRun(blocks[..i])
      {
        assert blocks[..i + 1][..i] == blocks[..i];
        if blocks[i].Cached? {
          current := current + 1;
        } else {
          if current > len {
            len, pos := current, start;
          }
          current, start := 0, i + 1;
        }
        i := i + 1;
      }
      assert blocks[..i] == blocks;
      if current > len {
        len, pos := current, start;
      }
    }

    /** Flushes every block of the entry. */
    method FlushAll(k: Key) returns (ret: nat)
      requires Valid() && k in pieces
      modifies this`pieces, this`cacheSize, this`inUse, storage`data, storage`calls
      ensures Valid() && View() == old(View())
      ensures ret == old(pieces[k]).numBlocks == old(cacheSize) - cacheSize == old(inUse) - inUse
      ensures k in pieces && pieces[k] == Flushed(old(pieces[k]), 0, |old(pieces[k]).blocks|)
      ensures pieces[k].numBlocks == 0 && OnlyEntry(old(pieces), pieces, k)
    {
      ghost var was := pieces;
      ghost var p := AllFlushed(pieces[k]);
      ret := FlushRange(k, 0, |pieces[k].blocks|);
      AfterFlush(was, k, p, pieces);
    }

    lemma AllFlushed(q: CachedPiece) returns (p: CachedPiece)
      requires q.numBlocks == Count(q.blocks)
      ensures p == Flushed(q, 0, |q.blocks|) && p.numBlocks == 0
    {
      p := Flushed(q, 0, |q.blocks|);
    }

    /** Flushes every block of the entry and drops it, as the lru algorithm and the hash job do. */
    method FlushAndErase(k: Key) returns (ret: nat)
      requires Valid() && k in pieces
      modifies this`pieces, this`cacheSize, this`inUse, storage`data, storage`calls
      ensures Valid() && View() == old(View()) && pieces == old(pieces) - {k}
      ensures ret == old(pieces[k]).numBlocks == old(cacheSize) - cacheSize == old(inUse) - inUse
    {
      ret := FlushAll(k);
      ErasePiece(k);
    }

    /** The least recently used entry other than those in `ignore`; entries that expire together come in any order. */
    method Oldest(m: Cache, ignore: set<Key>) returns (k: Key)
      requires !(m.Keys <= ignore)
      ensures IsOldest(m, ignore, k)
    {
      k :| k in m && k !in ignore;
      var rest := m.Keys - ignore - {k};
      while rest != {}
        invariant k in m && k !in ignore && rest <= m.Keys - ignore
        invariant forall j :: j in m ==> j in ignore || j in rest || m[k].expire <= m[j].expire
        decreases |rest|
      {
        var j :| j in rest;
        if m[j].expire < m[k].expire {
          k := j;
        }
        rest := rest - {j};
      }
    }

    /** The entry with the longest contiguous run; among equals any. */
    method MostContiguous(m: Cache) returns (k: Key)
      requires m != map[]
      ensures k in m && forall j :: j in m ==> m[j].numContiguousBlocks <= m[k].numContiguousBlocks
    {
      k :| k in m;
      var rest := m.Keys - {k};
      while rest != {}
        invariant k in m && rest <= m.Keys
        invariant forall j :: j in m ==> j in rest || m[j].numContiguousBlocks <= m[k].numContiguousBlocks
        decreases |rest|
      {
        var j :| j in rest;
        if m[k].numContiguousBlocks < m[j].numContiguousBlocks {
          k := j;
        }
        rest := rest - {j};
      }
    }

    lemma CountersNonNegative()
      requires Valid()
      ensures 0 <= readCacheSize <= cacheSize
    {
      TotalNonNegative(pieces);
      TotalNonNegative(readPieces);
    }

    /** One round of the lru loop. */
    method FlushOldest() returns (ret: nat)
      requires Valid() && pieces != map[]
      modifies this`pieces, this`cacheSize, this`inUse, storage`data, storage`calls
      ensures Valid() && View() == old(View()) && pieces.Keys < old(pieces).Keys
      ensures ret == old(cacheSize) - cacheSize == old(inUse) - inUse
      ensures OldestGoes(old(pieces), pieces)
    {
      var k := Oldest(pieces, {});
      assert pieces.Keys - {k} < pieces.Keys;
      ret := FlushAndErase(k);
    }

    /** The lru loop of flush_cache_blocks. */
    method FlushLru(blocks: int) returns (ret: nat, ghost states: seq<Cache>)
      requires Valid()
      modifies this`pieces, this`cacheSize, this`inUse, storage`data, storage`calls
      ensures Valid() && View() == old(View()) && pieces.Keys <= old(pieces).Keys
      ensures ret == old(cacheSize) - cacheSize == old(inUse) - inUse
      ensures ret >= blocks || pieces == map[]
      ensures Flushing(Lru, states, old(pieces), pieces, blocks) && OldestGone(old(pieces), pieces)
    {
      ghost var was := pieces;
      ret, states := 0, [pieces];
      while blocks - ret > 0 && pieces != map[]
        invariant Valid() && View() == old(View()) && pieces.Keys <= old(pieces).Keys
        invariant ret == old(cacheSize) - cacheSize == old(inUse) - inUse
        invariant Flushing(Lru, states, was, pieces, blocks)
        decreases |pieces.Keys|
      {
        ghost var mid := pieces;
        var tmp := FlushOldest();
        ret := ret + tmp;
        FlushMore(Lru, states, was, mid, pieces, blocks);
        states := states + [pieces];
      }
      FlushKeepsOrder(Lru, states, was, pieces, blocks);
    }

    /** An entry that became empty leaves the write cache. */
    method EraseIfEmpty(k: Key)
      requires Valid() && k in pieces
      modifies this`pieces
      ensures Valid() && View() == old(View()) && pieces.Keys <= old(pieces).Keys
      ensures pieces == if old(pieces[k]).numBlocks == 0 then old(pieces) - {k} else old(pieces)
      ensures old(pieces[k]).numBlocks == 0 ==> |pieces.Keys| < |old(pieces).Keys|
    {
      if pieces[k].numBlocks == 0 {
        AfterFlush(pieces, k, pieces[k], pieces);
        ErasePiece(k);
      }
    }

    /** Flushes the longest run of the entry. */
    method FlushLongest(k: Key) returns (ret: nat, ghost pos: nat, ghost p: CachedPiece)
      requires Valid() && k in pieces
      modifies this`pieces, this`cacheSize, this`inUse, storage`data, storage`calls
      ensures Valid() && View() == old(View()) && pieces.Keys == old(pieces).Keys
      ensures ret == old(cacheSize) - cacheSize == old(inUse) - inUse == LongestRun(old(pieces[k]).blocks)
      ensures ret == 0 ==> pieces[k].numBlocks == 0
      ensures IsRun(old(pieces[k]).blocks, pos, pos + ret)
      ensures p == Flushed(old(pieces[k]), pos, pos + ret) && pieces == old(pieces)[k := p]
    {
      ghost var was, len := pieces, 0;
      ret, pos, len := FlushContiguousBlocks(k, 0, false);
      p := LongestRunFlushed(was[k], pos, ret);
      AfterFlush(was, k, p, pieces);
    }

    /** The entry is dropped when that leaves it empty. */
    method FlushLongestRun(k: Key) returns (ret: nat)
      requires Valid() && k in pieces
      requires forall j :: j in pieces ==> pieces[j].numContiguousBlocks <= pieces[k].numContiguousBlocks
      modifies this`pieces, this`cacheSize, this`inUse, storage`data, storage`calls
      ensures Valid() && View() == old(View()) && pieces.Keys <= old(pieces).Keys
      ensures ret == old(cacheSize) - cacheSize == old(inUse) - inUse == LongestRun(old(pieces[k]).blocks)
      ensures ret == 0 ==> |pieces.Keys| < |old(pieces).Keys|
      ensures LongestGoes(old(pieces), pieces)
    {
      ghost var was, pos, p := pieces, 0, pieces[k];
      ret, pos, p := FlushLongest(k);
      EraseIfEmpty(k);
      LongestRound(was, k, p, pos, ret, pieces);
    }

    /** The largest_contiguous loop of flush_cache_blocks: every round frees a block or drops an empty entry. */
    method FlushLargestContiguous(blocks: int) returns (ret: nat, ghost states: seq<Cache>)
      requires Valid()
      modifies this`pieces, this`cacheSize, this`inUse, storage`data, storage`calls
      ensures Valid() && View() == old(View()) && pieces.Keys <= old(pieces).Keys
      ensures ret == old(cacheSize) - cacheSize == old(inUse) - inUse
      ensures ret >= blocks || pieces == map[]
      ensures Flushing(LargestContiguous, states, old(pieces), pieces, blocks)
      ensures blocks > 0 && old(pieces) != map[] ==> LongestGone(old(pieces), pieces)
    {
      ghost var was := pieces;
      ret, states := 0, [pieces];
      while blocks - ret > 0 && pieces != map[]
        invariant Valid() && View() == old(View()) && pieces.Keys <= old(pieces).Keys
        invariant ret == old(cacheSize) - cacheSize == old(inUse) - inUse
        invariant Flushing(LargestContiguous, states, was, pieces, blocks)
        invariant ret > 0 || pieces.Keys < was.Keys ==> |states| > 1
        decreases blocks - ret, |pieces.Keys|
      {
        ghost var mid := pieces;
        var k := MostContiguous(pieces);
        var tmp := FlushLongestRun(k);
        ret := ret + tmp;
        FlushMore(LargestContiguous, states, was, mid, pieces, blocks);
        states := states + [pieces];
      }
      if blocks > 0 && was != map[] {
        LongestUpTo(states, blocks, |states| - 1);
      }
    }

    // ----- The avoid_readback algorithm -----

    /** Flushes a run of the entry, which is p afterwards; counting its runs again would change nothing. */
    method FlushTo(k: Key, start: nat, len: nat, ghost p: CachedPiece)
      requires Valid() && k in pieces && len > 0 && IsRun(pieces[k].blocks, start, start + len)
      requires p == Flushed(pieces[k], start, start + len)
      modifies this`pieces, this`cacheSize, this`inUse, storage`data, storage`calls
      ensures Valid() && View() == old(View()) && OnlyEntry(old(pieces), pieces, k) && k in pieces && pieces[k] == p
      ensures len == old(cacheSize) - cacheSize == old(inUse) - inUse
    {
      ghost var was := pieces;
      var ret := FlushRun(k, start, len, 0);
      AfterFlush(was, k, p, pieces);
    }

    /** The hashable blocks of an entry go. */
    method FlushHashed(k: Key) returns (ret: nat)
      requires Valid() && k in pieces && Hashable(pieces[k])
      modifies this`pieces, this`cacheSize, this`inUse, storage`data, storage`calls
      ensures Valid() && View() == old(View())
      ensures ret == old(cacheSize) - cacheSize == old(inUse) - inUse
        == HashableEnd(old(pieces[k])) - old(pieces[k]).nextBlockToHash
      ensures k in pieces && OnlyEntry(old(pieces), pieces, k)
      ensures pieces[k].nextBlockToHash == HashableEnd(old(pieces[k])) && !Hashable(pieces[k])
      ensures pieces[k] == Flushed(old(pieces[k]), old(pieces[k]).nextBlockToHash, HashableEnd(old(pieces[k])))
    {
      ret := RunAt(pieces[k].blocks, pieces[k].nextBlockToHash);
      ghost var p := FlushHashable(pieces[k], ret);
      FlushTo(k, pieces[k].nextBlockToHash, ret, p);
    }

    /** One entry of the first loop: its hashable blocks go, and the entry with them if it is complete then. */
    method FlushFromHashPosition(k: Key) returns (ret: nat)
      requires Valid() && k in pieces
      modifies this`pieces, this`cacheSize, this`inUse, storage`data, storage`calls
      ensures Valid() && View() == old(View())
      ensures ret == old(cacheSize) - cacheSize == old(inUse) - inUse
        == HashableEnd(old(pieces[k])) - old(pieces[k]).nextBlockToHash
      ensures OnlyEntry(old(pieces), pieces, k) && (k in pieces ==> !Hashable(pieces[k]))
      ensures (if Hashable(old(pieces[k])) then HashedGoes(old(pieces), pieces, k, HashableEnd(old(pieces[k])))
        else pieces == old(pieces))
    {
      ret := 0;
      if pieces[k].nextBlockToHash < |pieces[k].blocks| && pieces[k].blocks[pieces[k].nextBlockToHash].Cached? {
        ghost var was := pieces;
        ret := FlushHashed(k);
        if pieces[k].numBlocks == 0 && pieces[k].nextBlockToHash == |pieces[k].blocks| {
          EraseOnly(was, pieces, k);
          ErasePiece(k);
        }
      }
    }

    /** The oldest entry not visited before; nothing of those visited before is hashable. */
    method FlushNextHashable(visited: set<Key>) returns (ret: nat, visited': set<Key>)
      requires Valid() && !(pieces.Keys <= visited) && NoneHashable(pieces, visited)
      modifies this`pieces, this`cacheSize, this`inUse, storage`data, storage`calls
      ensures Valid() && View() == old(View()) && ret == old(cacheSize) - cacheSize == old(inUse) - inUse
      ensures pieces.Keys <= old(pieces).Keys && NoneHashable(pieces, visited')
      ensures |pieces.Keys - visited'| < |old(pieces).Keys - visited|
      ensures (pieces == old(pieces)
        || (!NoneHashable(old(pieces), old(pieces).Keys) && HashableGoes(old(pieces), pieces)))
    {
      ghost var was := pieces;
      var k := Oldest(pieces, visited);
      ret := FlushFromHashPosition(k);
      Fewer(was.Keys, pieces.Keys, visited, k);
      StillNotHashable(was, pieces, visited, k);
      visited' := visited + {k};
      if Hashable(was[k]) {
        assert HashedGoes(was, pieces, k, HashableEnd(was[k])) && NoneSooner(was, was[k].expire);
      }
    }

    /** The first loop: blocks that can be hashed without being read back go first, least recently used entry first. */
    method FlushHashableBlocks(blocks: nat) returns (ret: nat, ghost states: seq<Cache>)
      requires Valid()
      modifies this`pieces, this`cacheSize, this`inUse, storage`data, storage`calls
      ensures Valid() && View() == old(View()) && pieces.Keys <= old(pieces).Keys
      ensures ret == old(cacheSize) - cacheSize == old(inUse) - inUse
      ensures ret >= blocks || NoneHashable(pieces, pieces.Keys)
      ensures Flushing(AvoidReadback, states, old(pieces), pieces, blocks)
    {
      ghost var was := pieces;
      ret, states := 0, [pieces];
      var visited: set<Key> := {};
      while blocks - ret > 0 && !(pieces.Keys <= visited)
        invariant Valid() && View() == old(View()) && pieces.Keys <= old(pieces).Keys
        invariant ret == old(cacheSize) - cacheSize == old(inUse) - inUse
        invariant NoneHashable(pieces, visited) && Flushing(AvoidReadback, states, was, pieces, blocks)
        decreases |pieces.Keys - visited|
      {
        ghost var mid := pieces;
        var tmp;
        tmp, visited := FlushNextHashable(visited);
        ret := ret + tmp;
        if pieces != mid {
          FlushMore(AvoidReadback, states, was, mid, pieces, blocks);
          states := states + [pieces];
        }
      }
    }

    /** The second loop: if more must go, the longest runs, although they will have to be read back. */
    method FlushUnhashable(blocks: int, ghost before: seq<Cache>, ghost was: Cache, ghost n: int)
      returns (ret: nat, ghost states: seq<Cache>)
      requires Valid() && (blocks > 0 ==> NoneHashable(pieces, pieces.Keys))
      requires Flushing(AvoidReadback, before, was, pieces, n) && n - blocks == Total(was) - Total(pieces)
      modifies this`pieces, this`cacheSize, this`inUse, storage`data, storage`calls
      ensures Valid() && View() == old(View()) && pieces.Keys <= old(pieces).Keys
      ensures ret == old(cacheSize) - cacheSize == old(inUse) - inUse
      ensures ret >= blocks || Total(pieces) == 0
      ensures Flushing(AvoidReadback, states, was, pieces, n)
    {
      ret, states := 0, before;
      while blocks - ret > 0
        invariant Valid() && View() == old(View()) && pieces.Keys <= old(pieces).Keys
        invariant ret == old(cacheSize) - cacheSize == old(inUse) - inUse
        invariant blocks > 0 ==> NoneHashable(pieces, pieces.Keys)
        invariant Flushing(AvoidReadback, states, was, pieces, n)
        decreases blocks - ret
      {
        if pieces == map[] {
          return;
        }
        var k := MostContiguous(pieces);
        if pieces[k].numBlocks == 0 {
          NothingLeft(k);
          return;
        }
        LongestRunPositive(pieces[k].blocks);
        ghost var mid := pieces;
        var tmp := FlushLongestRun(k);
        ret := ret + tmp;
        LongestKeepsUnhashable(mid, pieces);
        FlushMore(AvoidReadback, states, was, mid, pieces, n);
        states := states + [pieces];
      }
    }

    lemma NothingLeft(k: Key)
      requires Valid() && k in pieces && pieces[k].numBlocks == 0
      requires forall j :: j in pieces ==> pieces[j].numContiguousBlocks <= pieces[k].numContiguousBlocks
      ensures Total(pieces) == 0
    {
      LongestRunPositive(pieces[k].blocks);
      forall j | j in pieces ensures pieces[j].numBlocks == 0 {
        LongestRunPositive(pieces[j].blocks);
      }
      TotalZero(pieces);
    }

    method FlushAvoidReadback(blocks: nat) returns (ret: nat, ghost states: seq<Cache>)
      requires Valid()
      modifies this`pieces, this`cacheSize, this`inUse, storage`data, storage`calls
      ensures Valid() && View() == old(View()) && pieces.Keys <= old(pieces).Keys
      ensures ret == old(cacheSize) - cacheSize == old(inUse) - inUse
      ensures ret >= blocks || Total(pieces) == 0
      ensures Flushing(AvoidReadback, states, old(pieces), pieces, blocks)
      ensures NoneHashable(pieces, pieces.Keys) || HashableGone(old(pieces), pieces)
    {
      ghost var was := pieces;
      ret, states := FlushHashableBlocks(blocks);
      var tmp;
      tmp, states := FlushUnhashable(blocks - ret, states, was, blocks);
      ret := ret + tmp;
      FlushKeepsOrder(AvoidReadback, states, was, pieces, blocks);
    }

    // ----- Evicting read pieces -----

    method FreeBlock(q: CachedPiece, i: nat) returns (p: CachedPiece)
      requires q.numBlocks == Count(q.blocks) && i < |q.blocks| && q.blocks[i].Cached?
      modifies this`cacheSize, this`readCacheSize, this`inUse
      ensures p == q.(blocks := q.blocks[i := Empty], numBlocks := q.numBlocks - 1) && BlocksFreed(q, p)
      ensures old(cacheSize) - cacheSize == old(readCacheSize) - readCacheSize == old(inUse) - inUse == 1
    {
      CountUpdate(q.blocks, i, Empty);
      p := q.(blocks := q.blocks[i := Empty], numBlocks := q.numBlocks - 1);
      cacheSize, readCacheSize, inUse := cacheSize - 1, readCacheSize - 1, inUse - 1;
    }

    /** drain_piece_bufs, free_piece: every cached block of the entry is freed. */
    method FreePiece(q: CachedPiece) returns (p: CachedPiece, ret: nat)
      requires q.numBlocks == Count(q.blocks)
      modifies this`cacheSize, this`readCacheSize, this`inUse
      ensures BlocksFreed(q, p) && p.numBlocks == 0 && ret == q.numBlocks
      ensures old(cacheSize) - cacheSize == old(readCacheSize) - readCacheSize == old(inUse) - inUse == ret
    {
      p, ret := q, 0;
      var i := 0;
      while i < |p.blocks|
        invariant i <= |p.blocks| && BlocksFreed(q, p) && ret == q.numBlocks - p.numBlocks
        invariant forall k :: 0 <= k < i ==> p.blocks[k].Empty?
        invariant old(cacheSize) - cacheSize == old(readCacheSize) - readCacheSize == old(inUse) - inUse == ret
      {
        if p.blocks[i].Cached? {
          p := FreeBlock(p, i);
          ret := ret + 1;
        }
        i := i + 1;
      }
      CountPositive(p.blocks, 0, |p.blocks|);
    }

    /** Frees the first cached block left of `was`. */
    method FreeFirst(q: CachedPiece, start: nat, end: nat, ghost was: seq<Block>, ghost lo: nat, ghost hi: nat)
      returns (p: CachedPiece, start': nat)
      requires 0 < q.numBlocks == Count(q.blocks) && end < |q.blocks| && KeptMiddle(was, q.blocks, lo, hi)
      requires forall k :: 0 <= k < |q.blocks| && q.blocks[k].Cached? ==> start <= k <= end
      modifies this`cacheSize, this`readCacheSize, this`inUse
      ensures BlocksFreed(q, p) && p.numBlocks == q.numBlocks - 1
      ensures start' < |p.blocks| && KeptMiddle(was, p.blocks, start' + 1, hi)
      ensures CountIn(was, 0, start' + 1) == CountIn(was, 0, lo) + 1
      ensures forall k :: 0 <= k < |p.blocks| && p.blocks[k].Cached? ==> start' <= k <= end
      ensures old(cacheSize) - cacheSize == old(readCacheSize) - readCacheSize == old(inUse) - inUse == 1
    {
      CountPositive(q.blocks, 0, |q.blocks|);
      start' := start;
      while q.blocks[start'].Empty? && start' <= end
        invariant start <= start' <= end
        invariant forall k :: 0 <= k < |q.blocks| && q.blocks[k].Cached? ==> start' <= k <= end
      {
        start' := start' + 1;
      }
      FreeFirstLeft(was, q.blocks, lo, hi, start');
      p := FreeBlock(q, start');
    }

    /** Frees the last cached block left of `was`. */
    method FreeLast(q: CachedPiece, start: nat, end: nat, ghost was: seq<Block>, ghost lo: nat, ghost hi: nat)
      returns (p: CachedPiece, end': nat)
      requires 0 < q.numBlocks == Count(q.blocks) && end < |q.blocks| && KeptMiddle(was, q.blocks, lo, hi)
      requires forall k :: 0 <= k < |q.blocks| && q.blocks[k].Cached? ==> start <= k <= end
      modifies this`cacheSize, this`readCacheSize, this`inUse
      ensures BlocksFreed(q, p) && p.numBlocks == q.numBlocks - 1
      ensures end' < |p.blocks| && KeptMiddle(was, p.blocks, lo, end')
      ensures CountIn(was, end', |was|) == CountIn(was, hi, |was|) + 1
      ensures forall k :: 0 <= k < |p.blocks| && p.blocks[k].Cached? ==> start <= k <= end'
      ensures old(cacheSize) - cacheSize == old(readCacheSize) - readCacheSize == old(inUse) - inUse == 1
    {
      CountPositive(q.blocks, 0, |q.blocks|);
      end' := end;
      while q.blocks[end'].Empty? && start <= end'
        invariant start <= end' <= end
        invariant forall k :: 0 <= k < |q.blocks| && q.blocks[k].Cached? ==> start <= k <= end'
      {
        end' := end' - 1;
      }
      FreeLastLeft(was, q.blocks, lo, hi, end');
      p := FreeBlock(q, end');
    }

    /** The number of the n evicted blocks that come from the start: every other one, or none of a volatile cache. */
    function FromStart(n: nat): (r: nat)
      reads this`settings
      ensures if settings.volatileReadCache then r == 0 else n <= 2 * r <= n + 1
    {
      if settings.volatileReadCache then 0 else (n + 1) / 2
    }

    /** What is left of q when n - left of its blocks are gone, alternately from the start and from the end. */
    ghost predicate Trimmed(q: CachedPiece, p: CachedPiece, start: nat, end: nat, lo: nat, hi: nat, low: nat,
                            high: nat) {
      && BlocksFreed(q, p) && p.numBlocks == q.numBlocks - low - high
      && end < |p.blocks| && KeptMiddle(q.blocks, p.blocks, lo, hi)
      && (forall k :: 0 <= k < |p.blocks| && p.blocks[k].Cached? ==> start <= k <= end)
      && CountIn(q.blocks, 0, lo) == low && CountIn(q.blocks, hi, |q.blocks|) == high
    }

    /** One round: the first block that is left, unless the cache is volatile, and then the last one. */
    method TrimRound(q: CachedPiece, p: CachedPiece, start: nat, end: nat, left: nat, ghost lo: nat, ghost hi: nat,
                     ghost low: nat, ghost high: nat)
      returns (p': CachedPiece, start': nat, end': nat, left': nat, ghost lo': nat, ghost hi': nat, ghost low': nat,
               ghost high': nat)
      requires Trimmed(q, p, start, end, lo, hi, low, high) && 0 < left < p.numBlocks
      modifies this`cacheSize, this`readCacheSize, this`inUse
      ensures Trimmed(q, p', start', end', lo', hi', low', high') && left' == left - (low' - low) - (high' - high)
      ensures low' == low + if settings.volatileReadCache then 0 else 1
      ensures high' == high + if settings.volatileReadCache || left > 1 then 1 else 0
      ensures old(cacheSize) - cacheSize == old(readCacheSize) - readCacheSize == old(inUse) - inUse == left - left'
    {
      p', start', end', left', lo', hi', low', high' := p, start, end, left, lo, hi, low, high;
      if !settings.volatileReadCache {
        p', start' := FreeFirst(p', start', end', q.blocks, lo', hi');
        lo', low', left' := start' + 1, low' + 1, left' - 1;
        if left' == 0 {
          return;
        }
      }
      p', end' := FreeLast(p', start', end', q.blocks, lo', hi');
      hi', high', left' := end', high' + 1, left' - 1;
    }

    /** The partial eviction of clear_oldest_read_piece: n blocks, alternately from the start and from the end. */
    method TrimEnds(q: CachedPiece, n: nat) returns (p: CachedPiece)
      requires q.numBlocks == Count(q.blocks) && n < q.numBlocks
      modifies this`cacheSize, this`readCacheSize, this`inUse
      ensures Evicted(q, p, n, FromStart(n))
      ensures old(cacheSize) - cacheSize == old(readCacheSize) - readCacheSize == old(inUse) - inUse == n
    {
      CountPositive(q.blocks, 0, |q.blocks|);
      var start: nat, end: nat, left: nat := 0, |q.blocks| - 1, n;
      p := q;
      ghost var lo: nat, hi: nat, low: nat, high: nat := 0, |q.blocks|, 0, 0;
      while left > 0
        invariant left + low + high == n && Trimmed(q, p, start, end, lo, hi, low, high)
        invariant if settings.volatileReadCache then low == 0 else low == high || (left == 0 && low == high + 1)
        invariant old(cacheSize) - cacheSize == old(readCacheSize) - readCacheSize == old(inUse) - inUse == n - left
      {
        p, start, end, left, lo, hi, low, high := TrimRound(q, p, start, end, left, lo, hi, low, high);
      }
    }

    /** The eviction of clear_oldest_read_piece from the chosen entry, which goes with its last block. */
    method Evict(k: Key, n: nat) returns (blocks: nat)
      requires Valid() && k in readPieces
      modifies this`cacheSize, this`readCacheSize, this`inUse, this`readPieces
      ensures Valid() && EvictedFrom(old(readPieces), readPieces, k, n, FromStart(n))
      ensures blocks == Min(n, old(readPieces)[k].numBlocks) == old(cacheSize) - cacheSize == old(inUse) - inUse
    {
      var q := readPieces[k];
      var p;
      if n >= q.numBlocks {
        p, blocks := FreePiece(q);
      } else {
        p := TrimEnds(q, n);
        blocks := n;
      }
      EvictKeepsReadCache(readPieces, storage.data, k, p);
      readPieces := if p.numBlocks == 0 then readPieces - {k} else readPieces[k := p];
    }

    /** clear_oldest_read_piece: frees up to n blocks of the oldest entry that is not spared, if it has expired. */
    method ClearOldestReadPiece(n: nat, ignore: set<Key>, now: int) returns (blocks: nat)
      requires Valid()
      modifies this`cacheSize, this`readCacheSize, this`inUse, this`readPieces
      ensures Valid() && Shrunk(old(readPieces), readPieces, ignore)
      ensures blocks == old(cacheSize) - cacheSize == old(inUse) - inUse
      ensures if Unexpired(old(readPieces), ignore, now)
        then blocks == 0 && readPieces == old(readPieces)
        else exists k :: (IsOldest(old(readPieces), ignore, k) && blocks == Min(n, old(readPieces)[k].numBlocks)
          && old(readPieces)[k].expire <= now && EvictedFrom(old(readPieces), readPieces, k, n, FromStart(n)))
    {
      blocks := 0;
      if readPieces.Keys <= ignore {
        return;
      }
      var k := Oldest(readPieces, ignore);
      if now >= readPieces[k].expire {
        blocks := Evict(k, n);
      }
    }

    /** One turn of the first loop of flush_cache_blocks, and why it was the last. */
    method ClearMore(blocks: nat, ignore: set<Key>, now: int) returns (tmp: nat)
      requires Valid()
      modifies this`cacheSize, this`readCacheSize, this`inUse, this`readPieces
      ensures Valid() && Shrunk(old(readPieces), readPieces, ignore)
      ensures tmp == old(cacheSize) - cacheSize == old(inUse) - inUse && tmp <= blocks
      ensures tmp == 0 < blocks ==>
        Unexpired(readPieces, ignore, now) || EmptyDropped(old(readPieces), readPieces, ignore, now)
    {
      ghost var was := readPieces;
      tmp := ClearOldestReadPiece(blocks, ignore, now);
      if tmp == 0 < blocks && !Unexpired(was, ignore, now) {
        ghost var k :| IsOldest(was, ignore, k) && tmp == Min(blocks, was[k].numBlocks)
          && was[k].expire <= now && EvictedFrom(was, readPieces, k, blocks, FromStart(blocks));
        NothingEvicted(was, readPieces, ignore, now, k, blocks, FromStart(blocks));
      }
    }

    /**
      * The first loop of flush_cache_blocks: expired read pieces go, oldest first, until enough is free, or none has
      * expired, or the oldest one had no block.
      */
    method ClearReadPieces(blocks: nat, ignore: set<Key>, now: int) returns (ret: nat, ghost last: Cache)
      requires Valid()
      modifies this`cacheSize, this`readCacheSize, this`inUse, this`readPieces
      ensures Valid() && Shrunk(old(readPieces), readPieces, ignore) && Shrunk(old(readPieces), last, ignore)
      ensures ret == old(cacheSize) - cacheSize == old(inUse) - inUse && ret <= blocks
      ensures ret < blocks ==> Unexpired(readPieces, ignore, now) || EmptyDropped(last, readPieces, ignore, now)
    {
      last := readPieces;
      var tmp := ClearMore(blocks, ignore, now);
      ret := tmp;
      while tmp > 0 && blocks - ret > 0
        invariant Valid() && Shrunk(old(readPieces), readPieces, ignore) && Shrunk(old(readPieces), last, ignore)
        invariant ret == old(cacheSize) - cacheSize == old(inUse) - inUse && ret <= blocks
        invariant tmp == 0 < blocks ==>
          Unexpired(readPieces, ignore, now) || EmptyDropped(last, readPieces, ignore, now)
        decreases tmp > 0, blocks - ret
      {
        last := readPieces;
        tmp := ClearMore(blocks - ret, ignore, now);
        ret := ret + tmp;
      }
    }

    /** The part of flush_cache_blocks that depends on the algorithm. */
    method FlushByAlgorithm(blocks: nat) returns (ret: nat, ghost states: seq<Cache>)
      requires Valid()
      modifies this`pieces, this`cacheSize, this`inUse, storage`data, storage`calls
      ensures Valid() && View() == old(View()) && pieces.Keys <= old(pieces).Keys
      ensures ret == old(cacheSize) - cacheSize == old(inUse) - inUse
      ensures ret < blocks ==> Total(pieces) == 0
      ensures Flushing(settings.algorithm, states, old(pieces), pieces, blocks)
    {
      match settings.algorithm {
        case Lru => ret, states := FlushLru(blocks);
        case LargestContiguous => ret, states := FlushLargestContiguous(blocks);
        case AvoidReadback => ret, states := FlushAvoidReadback(blocks);
      }
    }

    /** The second half of flush_cache_blocks: blocks of the write cache go, in the order of the algorithm. */
    method FlushWriteBlocks(blocks: nat, dontFlushWriteBlocks: bool) returns (ret: nat, ghost states: seq<Cache>)
      requires Valid()
      modifies this`pieces, this`cacheSize, this`inUse, storage`data, storage`calls
      ensures Valid() && View() == old(View()) && pieces.Keys <= old(pieces).Keys
      ensures ret == old(cacheSize) - cacheSize == old(inUse) - inUse
      ensures dontFlushWriteBlocks || blocks == 0 ==> pieces == old(pieces) && storage.data == old(storage.data)
      ensures !dontFlushWriteBlocks && ret < blocks ==> Total(pieces) == 0
      ensures Flushing(settings.algorithm, states, old(pieces), pieces, blocks)
    {
      states := [pieces];
      if blocks == 0 || dontFlushWriteBlocks {
        return 0, states;
      }
      if cacheSize == 0 {
        CountersNonNegative();
        return 0, states;
      }
      ret, states := FlushByAlgorithm(blocks);
    }

    /** flush_cache_blocks: frees blocks, of the read cache first, until enough are free or none is left to free. */
    method FlushCacheBlocks(blocks: nat, ignore: set<Key>, dontFlushWriteBlocks: bool, now: int)
      returns (ret: nat, ghost states: seq<Cache>)
      requires Valid()
      modifies this`pieces, this`readPieces, this`cacheSize, this`readCacheSize, this`inUse, storage`data, storage`calls
      ensures Valid() && View() == old(View()) && Shrunk(old(readPieces), readPieces, ignore)
      ensures pieces.Keys <= old(pieces).Keys
      ensures ret == old(cacheSize) - cacheSize == old(inUse) - inUse
      ensures dontFlushWriteBlocks ==> pieces == old(pieces) && storage.data == old(storage.data) && ret <= blocks
      ensures !dontFlushWriteBlocks && ret < blocks ==> Total(pieces) == 0
      ensures Flushing(settings.algorithm, states, old(pieces), pieces, blocks - (old(readCacheSize) - readCacheSize))
      ensures OrderKept(settings.algorithm, old(pieces), pieces)
    {
      ghost var last, was := map[], pieces;
      ret, last := ClearReadPieces(blocks, ignore, now);
      ghost var n := blocks - ret;
      var tmp;
      tmp, states := FlushWriteBlocks(blocks - ret, dontFlushWriteBlocks);
      ret := ret + tmp;
      FlushKeepsOrder(settings.algorithm, states, was, pieces, n);
    }

    // ----- Filling the read cache -----

    /** The first loop of read_into_piece: buffers for the blocks to read, as many as there is room for. */
    method AllocateBlocks(q: CachedPiece, start: nat, ignoreCacheSize: bool, numBlocks: nat)
      returns (p: CachedPiece, end: nat)
      requires q.numBlocks == Count(q.blocks) && start < |q.blocks| && numBlocks > 0
      modifies this`cacheSize, this`readCacheSize, this`inUse
      ensures start <= end <= Min(|q.blocks|, start + numBlocks)
      ensures p == q.(blocks := p.blocks, numBlocks := Count(p.blocks)) && |p.blocks| == |q.blocks|
      ensures (forall i :: 0 <= i < |q.blocks| ==>
        if start <= i < end then p.blocks[i].Cached? else p.blocks[i] == q.blocks[i])
      ensures cacheSize - old(cacheSize) == readCacheSize - old(readCacheSize) == inUse - old(inUse)
        == p.numBlocks - q.numBlocks
      ensures start == end ==> !ignoreCacheSize && old(inUse) >= settings.cacheSize
    {
      p, end := q, start;
      var i := start;
      while i < |p.blocks| && (ignoreCacheSize || inUse < settings.cacheSize) && end - start < numBlocks
        invariant start <= i == end <= Min(|q.blocks|, start + numBlocks)
        invariant p == q.(blocks := p.blocks, numBlocks := Count(p.blocks)) && |p.blocks| == |q.blocks|
        invariant forall j :: 0 <= j < |q.blocks| ==>
          if start <= j < end then p.blocks[j].Cached? else p.blocks[j] == q.blocks[j]
        invariant cacheSize - old(cacheSize) == readCacheSize - old(readCacheSize) == inUse - old(inUse)
          == p.numBlocks - q.numBlocks
        invariant start == end ==> inUse == old(inUse)
      {
        if p.blocks[i].Cached? {
          p := p.(numBlocks := p.numBlocks - 1);
          cacheSize, readCacheSize, inUse := cacheSize - 1, readCacheSize - 1, inUse - 1;
        }
        var b: Buffer :| true;
        CountUpdate(p.blocks, i, Cached(b));
        p := p.(blocks := p.blocks[i := Cached(b)], numBlocks := p.numBlocks + 1);
        cacheSize, readCacheSize, inUse := cacheSize + 1, readCacheSize + 1, inUse + 1;
        end, i := end + 1, i + 1;
      }
    }

    /** The part of what was read that belongs to block i. */
    method FillBlock(q: CachedPiece, start: nat, end: nat, i: nat, bytes: seq<byte>, ghost data: seq<byte>)
      returns (p: CachedPiece)
      requires |q.blocks| == BlocksInPiece(|data|) && q.numBlocks == Count(q.blocks)
      requires start <= i < end <= |q.blocks| && q.blocks[i].Cached?
      requires start * BLOCK_SIZE <= Min(end * BLOCK_SIZE, |data|)
      requires bytes == data[start * BLOCK_SIZE..Min(end * BLOCK_SIZE, |data|)]
      ensures p == q.(blocks := p.blocks) && |p.blocks| == |q.blocks| && p.numBlocks == Count(p.blocks)
      ensures p.blocks[i].Cached? && HoldsStored(data, i, p.blocks[i])
      ensures forall j :: 0 <= j < |q.blocks| && j != i ==> p.blocks[j] == q.blocks[j]
    {
      var o := (i - start) * BLOCK_SIZE;
      PartOfRead(data, start, end, i);
      var part := bytes[o..Min(o + BLOCK_SIZE, |bytes|)];
      var buf: Buffer := Splice(q.blocks[i].buf, 0, part);
      assert buf[..|part|] == part;
      CountUpdate(q.blocks, i, Cached(buf));
      p := q.(blocks := q.blocks[i := Cached(buf)]);
    }

    /** The last loop of read_into_piece: what was read goes into the blocks start..end. */
    method FillBlocks(q: CachedPiece, start: nat, end: nat, bytes: seq<byte>, ghost data: seq<byte>)
      returns (p: CachedPiece)
      requires |q.blocks| == BlocksInPiece(|data|) && q.numBlocks == Count(q.blocks)
      requires start <= end <= |q.blocks| && forall i :: start <= i < end ==> q.blocks[i].Cached?
      requires start * BLOCK_SIZE <= Min(end * BLOCK_SIZE, |data|)
      requires bytes == data[start * BLOCK_SIZE..Min(end * BLOCK_SIZE, |data|)]
      ensures p == q.(blocks := p.blocks) && |p.blocks| == |q.blocks| && p.numBlocks == Count(p.blocks)
      ensures forall i :: 0 <= i < |q.blocks| ==>
        if start <= i < end then p.blocks[i].Cached? && HoldsStored(data, i, p.blocks[i])
        else p.blocks[i] == q.blocks[i]
    {
      p := q;
      var i := start;
      while i < end
        invariant start <= i <= end
        invariant p == q.(blocks := p.blocks) && |p.blocks| == |q.blocks| && p.numBlocks == Count(p.blocks)
        invariant forall j :: start <= j < i ==> p.blocks[j].Cached? && HoldsStored(data, j, p.blocks[j])
        invariant forall j :: 0 <= j < |q.blocks| && !(start <= j < i) ==> p.blocks[j] == q.blocks[j]
      {
        p := FillBlock(p, start, end, i, bytes, data);
        i := i + 1;
      }
    }

    /** read_into_piece: reads up to numBlocks blocks from start on; -1 for a failed read, -2 when there is no room. */
    method ReadIntoPiece(k: Key, q: CachedPiece, start: nat, ignoreCacheSize: bool, numBlocks: nat)
      returns (p: CachedPiece, ret: int, ghost end: nat)
      requires k in storage.data && ValidPiece(q, |storage.data[k]|) && Coherent(storage.data[k], q.blocks)
      requires start < |q.blocks| && numBlocks > 0
      modifies this`cacheSize, this`readCacheSize, this`inUse, storage`readCalls, storage`failedReads
      ensures p == q.(blocks := p.blocks, numBlocks := p.numBlocks)
      ensures ValidPiece(p, |storage.data[k]|) && Coherent(storage.data[k], p.blocks)
      ensures cacheSize - old(cacheSize) == readCacheSize - old(readCacheSize) == inUse - old(inUse)
        == p.numBlocks - q.numBlocks
      ensures ret < 0 ==> p.numBlocks == 0 && ret >= -2
      ensures ret >= 0 ==> start < end <= Min(|q.blocks|, start + numBlocks)
      ensures ret >= 0 ==> storage.readCalls > old(storage.readCalls)
      ensures ret >= 0 ==> ret == Min(end * BLOCK_SIZE, |storage.data[k]|) - start * BLOCK_SIZE
      ensures ret >= 0 ==> forall i :: 0 <= i < |q.blocks| ==>
        if start <= i < end then p.blocks[i].Cached? else p.blocks[i] == q.blocks[i]
      ensures ret == -2 ==> !ignoreCacheSize && old(inUse) >= settings.cacheSize
      ensures storage.failedReads == old(storage.failedReads) + if ret == -1 then 1 else 0
    {
      ghost var data := storage.data[k];
      var pieceSize := |storage.data[k]|;
      var stop, freed;
      p, stop := AllocateBlocks(q, start, ignoreCacheSize, numBlocks);
      end := stop;
      if stop == start {
        p, freed := FreePiece(p);
        FreedIsCoherent(data, p.blocks);
        return p, -2, end;
      }
      var bufferSize := Min((stop - start) * BLOCK_SIZE, pieceSize - start * BLOCK_SIZE);
      var bytes;
      ret, bytes := storage.ReadImpl(bufferSize, k, start * BLOCK_SIZE);
      if ret != bufferSize {
        p, freed := FreePiece(p);
        FreedIsCoherent(data, p.blocks);
        return p, -1, end;
      }
      PartOfRead(data, start, stop, start);
      assert start * BLOCK_SIZE + bufferSize == Min(stop * BLOCK_SIZE, pieceSize);
      p := FillBlocks(p, start, stop, bytes, data);
      RefilledIsCoherent(data, q.blocks, p.blocks, start, stop);
    }

    // ----- Reading from the cache -----

    /** A volatile read cache drops the block that was read, and the blocks right before it. */
    method FreeBackwards(q: CachedPiece, block: nat) returns (p: CachedPiece, ghost first: nat)
      requires q.numBlocks == Count(q.blocks) && block < |q.blocks|
      modifies this`cacheSize, this`readCacheSize, this`inUse
      ensures IsRun(q.blocks, first, block + 1) && (first > 0 ==> q.blocks[first - 1].Empty?)
      ensures BlocksFreed(q, p) && p.blocks == Cleared(q.blocks, first, block + 1)
      ensures old(cacheSize) - cacheSize == old(readCacheSize) - readCacheSize == old(inUse) - inUse
        == q.numBlocks - p.numBlocks == block + 1 - first
    {
      p := q;
      var i := block;
      while i >= 0 && p.blocks[i].Cached?
        invariant -1 <= i <= block && BlocksFreed(q, p) && p.numBlocks == q.numBlocks - (block - i)
        invariant forall j :: 0 <= j < |q.blocks| ==> p.blocks[j] == if i < j <= block then Empty else q.blocks[j]
        invariant IsRun(q.blocks, i + 1, block + 1)
        invariant old(cacheSize) - cacheSize == old(readCacheSize) - readCacheSize == old(inUse) - inUse == block - i
        decreases i
      {
        p := FreeBlock(p, i);
        i := i - 1;
      }
      first := i + 1;
    }

    /** Copies part of a cached block to the job's buffer. */
    method CopyBlock(buffer: array<byte>, at: nat, blocks: seq<Block>, i: nat, o: nat, n: nat, ghost data: seq<byte>)
      requires |blocks| == BlocksInPiece(|data|) && i < |blocks| && Coherent(data, blocks) && blocks[i].Cached?
      requires o + n <= BlockLen(|data|, i) && at + n <= buffer.Length
      modifies buffer
      ensures forall x :: 0 <= x < buffer.Length ==>
        buffer[x] == if at <= x < at + n then data[i * BLOCK_SIZE + o + x - at] else old(buffer[x])
    {
      PartOfBlock(data, blocks, i, o, n);
      ghost var part := data[i * BLOCK_SIZE + o..i * BLOCK_SIZE + o + n];
      forall x | 0 <= x < n {
        buffer[at + x] := blocks[i].buf[o + x];
      }
      assert forall x :: 0 <= x < n ==> blocks[i].buf[o + x] == blocks[i].buf[o..o + n][x] == part[x];
    }

    /** One turn of the copying loop: part of a block is copied, and a volatile cache drops the block. */
    method CopyStep(q: CachedPiece, p: CachedPiece, buffer: array<byte>, at: nat, block: nat, o: nat, n: nat,
                    ghost data: seq<byte>)
      returns (p': CachedPiece)
      requires ValidPiece(q, |data|) && Coherent(data, q.blocks) && BlocksFreed(q, p)
      requires block < |p.blocks| && p.blocks[block].Cached? && o + n <= BlockLen(|data|, block)
      requires at + n <= buffer.Length
      modifies this`cacheSize, this`readCacheSize, this`inUse, buffer
      ensures forall x :: 0 <= x < buffer.Length ==>
        buffer[x] == if at <= x < at + n then data[block * BLOCK_SIZE + o + x - at] else old(buffer[x])
      ensures BlocksFreed(q, p') && (!settings.volatileReadCache ==> p' == p)
      ensures forall i :: block < i < |p.blocks| ==> p'.blocks[i] == p.blocks[i]
      ensures old(cacheSize) - cacheSize == old(readCacheSize) - readCacheSize == old(inUse) - inUse
        == p.numBlocks - p'.numBlocks
    {
      DropKeepsCoherence(data, q.blocks, p.blocks);
      CopyBlock(buffer, at, p.blocks, block, o, n, data);
      p' := p;
      if settings.volatileReadCache {
        ghost var first;
        p', first := FreeBackwards(p, block);
      }
    }

    /** The copying loop of copy_from_piece. */
    method CopyOut(j: Job, q: CachedPiece, buffer: array<byte>, ghost data: seq<byte>) returns (p: CachedPiece)
      requires 0 < j.bufferSize <= BLOCK_SIZE && j.offset + j.bufferSize <= |data|
      requires ValidPiece(q, |data|) && Coherent(data, q.blocks) && IsCacheHit(q.blocks, j.offset, j.bufferSize)
      requires j.bufferSize <= buffer.Length
      modifies this`cacheSize, this`readCacheSize, this`inUse, buffer
      ensures forall x :: 0 <= x < buffer.Length ==>
        buffer[x] == if x < j.bufferSize then data[j.offset + x] else old(buffer[x])
      ensures BlocksFreed(q, p) && (!settings.volatileReadCache ==> p == q)
      ensures old(cacheSize) - cacheSize == old(readCacheSize) - readCacheSize == old(inUse) - inUse
        == q.numBlocks - p.numBlocks
    {
      p := q;
      HitMeansHeld(q.blocks, j.offset, j.bufferSize);
      var block: nat, blockOffset: nat, bufferOffset: nat, size: nat :=
        j.Block(), j.offset % BLOCK_SIZE, 0, j.bufferSize;
      while size > 0
        invariant bufferOffset + size == j.bufferSize && blockOffset < BLOCK_SIZE
        invariant size > 0 ==> block * BLOCK_SIZE + blockOffset == j.offset + bufferOffset
        invariant (forall k :: j.offset + bufferOffset <= k < j.offset + j.bufferSize ==>
          Held(p.blocks, 0, |p.blocks|, k))
        invariant BlocksFreed(q, p) && (!settings.volatileReadCache ==> p == q)
        invariant old(cacheSize) - cacheSize == old(readCacheSize) - readCacheSize == old(inUse) - inUse
          == q.numBlocks - p.numBlocks
        invariant forall x :: 0 <= x < buffer.Length ==>
          buffer[x] == if x < bufferOffset then data[j.offset + x] else old(buffer[x])
      {
        assert Held(p.blocks, 0, |p.blocks|, j.offset + bufferOffset);
        InBlock(block, j.offset + bufferOffset);
        var toCopy := Min(BLOCK_SIZE - blockOffset, size);
        ghost var before := p;
        p := CopyStep(q, p, buffer, bufferOffset, block, blockOffset, toCopy, data);
        assert toCopy < size ==> (block + 1) * BLOCK_SIZE == j.offset + bufferOffset + toCopy;
        size := size - toCopy;
        bufferOffset := bufferOffset + toCopy;
        blockOffset := 0;
        LaterHeld(before.blocks, p.blocks, block, j.offset + bufferOffset, j.offset + j.bufferSize);
        block := block + 1;
      }
    }

    /** The whole buffer afterwards. */
    method CopyRequest(j: Job, q: CachedPiece, buffer: array<byte>, ghost data: seq<byte>) returns (p: CachedPiece)
      requires 0 < j.bufferSize <= BLOCK_SIZE && j.offset + j.bufferSize <= |data|
      requires ValidPiece(q, |data|) && Coherent(data, q.blocks) && IsCacheHit(q.blocks, j.offset, j.bufferSize)
      requires j.bufferSize <= buffer.Length
      modifies this`cacheSize, this`readCacheSize, this`inUse, buffer
      ensures buffer[..] == data[j.offset..j.offset + j.bufferSize] + old(buffer[..])[j.bufferSize..]
      ensures BlocksFreed(q, p) && (!settings.volatileReadCache ==> p == q)
      ensures old(cacheSize) - cacheSize == old(readCacheSize) - readCacheSize == old(inUse) - inUse
        == q.numBlocks - p.numBlocks
    {
      ghost var was := buffer[..];
      p := CopyOut(j, q, buffer, data);
      Buffered(buffer[..], was, data, j.offset, j.bufferSize);
    }

    /** How many blocks a cache miss reads ahead, before the request's own limits. */
    function ReadAhead(blocks: int): (r: int)
      reads this`settings, this`readCacheSize, this`inUse
      ensures r <= blocks && r <= settings.readCacheLineSize
      ensures r > 3 ==> inUse - readCacheSize + 2 * r <= settings.cacheSize
      ensures r < blocks && r < settings.readCacheLineSize ==>
        r >= 3 && inUse - readCacheSize + 2 * (r + 1) > settings.cacheSize
    {
      Min(Min(blocks, Max((settings.cacheSize + readCacheSize - inUse) / 2, 3)), settings.readCacheLineSize)
    }

    /** Makes room for n more blocks in the cache, from the read cache alone and without touching `ignore`. */
    method MakeRoom(n: nat, ignore: set<Key>, now: int) returns (ok: bool)
      requires Valid()
      modifies this`pieces, this`readPieces, this`cacheSize, this`readCacheSize, this`inUse, storage`data, storage`calls
      ensures Valid() && pieces == old(pieces) && storage.data == old(storage.data)
      ensures Shrunk(old(readPieces), readPieces, ignore)
      ensures ok ==> inUse + n <= settings.cacheSize
    {
      ok := true;
      if inUse + n > settings.cacheSize {
        var clear := inUse + n - settings.cacheSize;
        ghost var states;
        var freed;
        freed, states := FlushCacheBlocks(clear, ignore, true, now);
        ok := freed >= clear;
      }
    }

    /** The miss branch of copy_from_piece: makes room without touching the entry itself, and reads into it. */
    method FetchBlocks(j: Job, start: nat, now: int) returns (ret: int, ghost end: nat)
      requires Valid() && j.Valid(storage.data) && j.key in readPieces
      requires j.Block() <= start < |readPieces[j.key].blocks| && readPieces[j.key].blocks[start].Empty?
      modifies this`pieces, this`readPieces, this`cacheSize, this`readCacheSize, this`inUse, storage
      ensures Valid() && pieces == old(pieces) && storage.data == old(storage.data)
      ensures readPieces.Keys <= old(readPieces).Keys
      ensures j.key in readPieces && |readPieces[j.key].blocks| == |old(readPieces)[j.key].blocks|
      ensures -2 <= ret && (ret >= 0 ==> storage.readCalls > old(storage.readCalls))
      ensures storage.failedReads == old(storage.failedReads) + if ret == -1 then 1 else 0
      ensures ret >= 0 ==> ret == Min(end * BLOCK_SIZE, |storage.data[j.key]|) - j.Block() * BLOCK_SIZE
      ensures ret >= 0 ==> forall i :: 0 <= i < |readPieces[j.key].blocks| ==>
        (j.Block() <= i < end || old(readPieces)[j.key].blocks[i].Cached? ==> readPieces[j.key].blocks[i].Cached?)
    {
      ret, end := -2, 0;
      var stop := FirstCached(readPieces[j.key].blocks, start);
      var toRead := Max(ReadAhead(stop - j.Block()), BlocksToRead(j.offset, j.bufferSize));
      if j.maxCacheLine > 0 {
        toRead := Min(toRead, j.maxCacheLine);
      }
      var ok := MakeRoom(toRead, {j.key}, now);
      if ok {
        ret, end := ReadInto(j.key, j.Block(), toRead);
      }
    }

    /** Reads into an entry of the read cache, which is left empty when that fails. */
    method ReadInto(k: Key, start: nat, n: nat) returns (ret: int, ghost end: nat)
      requires Valid() && k in readPieces && start < |readPieces[k].blocks| && n > 0
      modifies this`readPieces, this`cacheSize, this`readCacheSize, this`inUse, storage`readCalls, storage`failedReads
      ensures Valid() && readPieces.Keys == old(readPieces).Keys
      ensures |readPieces[k].blocks| == |old(readPieces)[k].blocks|
      ensures -2 <= ret && (ret >= 0 ==> storage.readCalls > old(storage.readCalls))
      ensures storage.failedReads == old(storage.failedReads) + if ret == -1 then 1 else 0
      ensures ret >= 0 ==> ret == Min(end * BLOCK_SIZE, |storage.data[k]|) - start * BLOCK_SIZE
      ensures ret >= 0 ==> forall i :: 0 <= i < |readPieces[k].blocks| ==>
        (start <= i < end || old(readPieces)[k].blocks[i].Cached? ==> readPieces[k].blocks[i].Cached?)
    {
      var p;
      p, ret, end := ReadIntoPiece(k, readPieces[k], start, false, n);
      RefillKeepsReadCache(readPieces, storage.data, k, p);
      readPieces := readPieces[k := p];
    }

    /** The first cached block from start on, or the end of the piece. */
    method FirstCached(blocks: seq<Block>, start: nat) returns (end: nat)
      requires start < |blocks| && blocks[start].Empty?
      ensures start < end <= |blocks| && (end == |blocks| || blocks[end].Cached?)
      ensures forall i :: start <= i < end ==> blocks[i].Empty?
    {
      end := start;
      while end < |blocks| && blocks[end].Empty?
        invariant start <= end <= |blocks|
        invariant forall i :: start <= i < end ==> blocks[i].Empty?
      {
        end := end + 1;
      }
    }

    /** copy_from_piece: -1 for a failed read, -2 when there is no room; else the bytes asked for are in the buffer. */
    method CopyFromPiece(j: Job, buffer: array<byte>, now: int) returns (ret: int, hit: bool)
      requires Valid() && j.Valid(storage.data) && j.key in readPieces && j.bufferSize <= buffer.Length
      modifies this`pieces, this`readPieces, this`cacheSize, this`readCacheSize, this`inUse, storage, buffer
      ensures Valid() && pieces == old(pieces) && storage.data == old(storage.data) && j.key in readPieces
      ensures ret == j.bufferSize || -2 <= ret < 0
      ensures readPieces.Keys <= old(readPieces).Keys
      ensures ret >= 0 ==> Copied(j, buffer[..], old(buffer[..]), storage.data)
      ensures storage.failedReads == old(storage.failedReads) + if ret == -1 then 1 else 0
      ensures old(HitBy(j)) ==> ret >= 0 && hit && storage.readCalls == old(storage.readCalls)
      ensures !old(HitBy(j)) && ret >= 0 ==> !hit && storage.readCalls > old(storage.readCalls)
      ensures ret >= 0 && !settings.volatileReadCache ==>
        KeepsBlocks(old(readPieces)[j.key], readPieces[j.key]) && readPieces[j.key].numBlocks > 0
    {
      hit := true;
      ghost var q := readPieces[j.key];
      if !IsCacheHit(readPieces[j.key].blocks, j.offset, j.bufferSize) {
        hit := false;
        if settings.explicitReadCache {
          return -2, hit;
        }
        var block := j.Block();
        var start := if readPieces[j.key].blocks[block].Cached? && BlocksToRead(j.offset, j.bufferSize) > 1
          then block + 1 else block;
        ghost var end;
        ret, end := FetchBlocks(j, start, now);
        if ret < 0 {
          return;
        }
        if ret < j.bufferSize + j.offset % BLOCK_SIZE {
          return -2, hit;
        }
        FetchedIsHit(readPieces[j.key].blocks, j.offset, j.bufferSize, end, |storage.data[j.key]|);
      }
      Deliver(j, buffer);
      ret := j.bufferSize;
    }

    /** The rest of copy_from_piece: the blocks are there, and the request is answered from them. */
    method Deliver(j: Job, buffer: array<byte>)
      requires Valid() && j.Valid(storage.data) && HitBy(j) && j.bufferSize <= buffer.Length
      modifies this`readPieces, this`cacheSize, this`readCacheSize, this`inUse, buffer
      ensures Valid() && readPieces.Keys == old(readPieces).Keys && Copied(j, buffer[..], old(buffer[..]), storage.data)
      ensures !settings.volatileReadCache ==> readPieces == old(readPieces) && readPieces[j.key].numBlocks > 0
      ensures |readPieces[j.key].blocks| == |old(readPieces)[j.key].blocks|
    {
      CountPositive(readPieces[j.key].blocks, 0, |readPieces[j.key].blocks|);
      var p := CopyRequest(j, readPieces[j.key], buffer, storage.data[j.key]);
      EvictKeepsReadCache(readPieces, storage.data, j.key, p);
      readPieces := readPieces[j.key := p];
    }

    /** cache_read_block: a new read entry for a piece that has none. */
    method CacheReadBlock(j: Job, now: int) returns (ret: int)
      requires Valid() && j.Valid(storage.data) && j.key !in pieces && j.key !in readPieces
      requires settings.readCacheLineSize > 0
      modifies this`pieces, this`readPieces, this`cacheSize, this`readCacheSize, this`inUse, storage
      ensures Valid() && pieces == old(pieces) && storage.data == old(storage.data)
      ensures -2 <= ret && (ret >= 0 <==> j.key in readPieces) && readPieces.Keys <= old(readPieces).Keys + {j.key}
      ensures ret >= 0 ==> storage.readCalls > old(storage.readCalls)
      ensures ret >= 0 ==> j.Block() < |readPieces[j.key].blocks| && readPieces[j.key].blocks[j.Block()].Cached?
      ensures storage.failedReads == old(storage.failedReads) + if ret == -1 then 1 else 0
    {
      var blocksInPiece := BlocksInPiece(|storage.data[j.key]|);
      var toRead := ReadAhead(blocksInPiece - j.Block());
      if j.maxCacheLine > 0 {
        toRead := Min(toRead, j.maxCacheLine);
      }
      ret := -2;
      var ok := MakeRoom(toRead, {j.key}, now);
      if ok {
        var p := NewPiece(blocksInPiece, now + j.cacheMinTime);
        FreedIsCoherent(storage.data[j.key], p.blocks);
        ghost var end;
        p, ret, end := ReadIntoPiece(j.key, p, j.Block(), false, toRead);
        RefillKeepsReadCache(readPieces, storage.data, j.key, p);
        if ret >= 0 {
          readPieces := readPieces[j.key := p];
        }
      }
    }

    /** try_read_from_cache: a successful read fills the buffer with exactly the bytes in storage. */
    method TryReadFromCache(j: Job, buffer: array<byte>, cacheOnly: bool, now: int) returns (ret: int, hit: bool)
      requires Valid() && j.Valid(storage.data) && j.key !in pieces && j.bufferSize <= buffer.Length
      requires settings.readCacheLineSize > 0
      modifies this`pieces, this`readPieces, this`cacheSize, this`readCacheSize, this`inUse, storage, buffer
      ensures Valid() && pieces == old(pieces) && storage.data == old(storage.data)
      ensures ret == j.bufferSize || -2 <= ret < 0
      ensures readPieces.Keys <= old(readPieces).Keys + {j.key}
      ensures ret >= 0 ==> Copied(j, buffer[..], old(buffer[..]), storage.data)
      ensures storage.failedReads == old(storage.failedReads) + if ret == -1 then 1 else 0
      ensures settings.useReadCache && old(HitBy(j)) ==> ret >= 0 && hit && storage.readCalls == old(storage.readCalls)
      ensures ret >= 0 && !old(HitBy(j)) ==> !hit && storage.readCalls > old(storage.readCalls)
      ensures ret >= 0 && old(j.key in readPieces) && !settings.volatileReadCache ==>
        j.key in readPieces && KeepsBlocks(old(readPieces[j.key]), readPieces[j.key])
      ensures ret >= 0 && j.key in readPieces ==>
        readPieces[j.key].expire == now + j.cacheMinTime && readPieces[j.key].numBlocks > 0
    {
      if !settings.useReadCache {
        return -2, false;
      }
      hit := true;
      if j.key !in readPieces {
        if cacheOnly || settings.explicitReadCache {
          return -2, hit;
        }
        ret := CacheReadBlock(j, now);
        hit := false;
        if ret < 0 {
          return;
        }
      }
      var copyHit;
      ret, copyHit := CopyFromPiece(j, buffer, now);
      hit := hit && copyHit;
      if ret < 0 {
        return;
      }
      Touch(j.key, now + j.cacheMinTime);
    }

    /** After a read the entry goes if it is empty, and otherwise becomes the most recently used until its time. */
    method Touch(k: Key, expire: int)
      requires Valid() && k in readPieces
      modifies this`readPieces
      ensures Valid()
      ensures readPieces == if old(readPieces)[k].numBlocks == 0 then old(readPieces) - {k}
        else old(readPieces)[k := old(readPieces)[k].(expire := expire)]
    {
      var p := readPieces[k];
      TotalUpdate(readPieces, k, p.(expire := expire));
      TotalSplit(readPieces, k);
      readPieces := if p.numBlocks == 0 then readPieces - {k} else readPieces[k := p.(expire := expire)];
    }

    // ----- Writing -----

    /** The entry with the job's block in it: the block is replaced or added, and the counters follow. */
    method PutBlock(q: CachedPiece, block: nat, buf: Buffer, expire: int) returns (p: CachedPiece)
      requires q.numBlocks == Count(q.blocks) && q.numContiguousBlocks == LongestRun(q.blocks) && block < |q.blocks|
      modifies this`cacheSize, this`inUse
      ensures BlockWritten(q, p, block, buf, expire)
      ensures cacheSize - old(cacheSize) == p.numBlocks - q.numBlocks == if q.blocks[block].Cached? then 0 else 1
      ensures old(inUse) - inUse == if q.blocks[block].Cached? then 1 else 0
    {
      var recalcContiguous := false;
      p := q;
      CountUpdate(q.blocks, block, Cached(buf));
      if q.blocks[block].Cached? {
        inUse := inUse - 1;
        cacheSize := cacheSize - 1;
        p := p.(numBlocks := p.numBlocks - 1);
        ReplacedBlock(q.blocks, block, buf);
      } else if (block > 0 && q.blocks[block - 1].Cached?)
        || (block < |q.blocks| - 1 && q.blocks[block + 1].Cached?) || q.numBlocks == 0 {
        recalcContiguous := true;
      } else {
        CountPositive(q.blocks, 0, |q.blocks|);
        IsolatedBlock(q.blocks, block, buf);
      }
      p := p.(blocks := p.blocks[block := Cached(buf)], numBlocks := p.numBlocks + 1);
      cacheSize := cacheSize + 1;
      if recalcContiguous {
        var n := ContiguousBlocks(p.blocks);
        p := p.(numContiguousBlocks := n);
      }
      p := p.(expire := expire);
    }

    /** The bytes of one whole block of a piece, as the peers deliver them. */
    predicate IsBlockWrite(j: Job)
      reads storage
    {
      && j.Valid(storage.data) && j.offset % BLOCK_SIZE == 0
      && j.bufferSize == BlockLen(|storage.data[j.key]|, j.Block())
    }

    /** The contents with the job's bytes written. */
    function Written(view: Disk, j: Job, buf: Buffer): Disk
      requires j.Valid(view)
    {
      view[j.key := Splice(view[j.key], j.offset, buf[..j.bufferSize])]
    }

    /** cache_block: a new write entry, unless the piece has a single block. */
    method CacheBlock(j: Job, buf: Buffer, now: int) returns (ok: bool)
      requires Valid() && IsBlockWrite(j) && j.key !in pieces && j.key !in readPieces && cacheSize < inUse
      modifies this`pieces, this`cacheSize
      ensures Valid() && ok == (BlocksInPiece(|storage.data[j.key]|) > 1) && pieces.Keys <= old(pieces).Keys + {j.key}
      ensures if ok then View() == Written(old(View()), j, buf)
        else pieces == old(pieces) && cacheSize == old(cacheSize)
      ensures ok ==> j.key in pieces && pieces[j.key].expire == now + j.cacheMinTime
    {
      var blocksInPiece := BlocksInPiece(|storage.data[j.key]|);
      ok := blocksInPiece > 1;
      if ok {
        var p := NewPiece(blocksInPiece, now + j.cacheMinTime);
        CountUpdate(p.blocks, j.Block(), Cached(buf));
        SingleBlock(p.blocks, j.Block(), buf);
        p := p.(blocks := p.blocks[j.Block() := Cached(buf)], numBlocks := 1, numContiguousBlocks := 1);
        cacheSize := cacheSize + 1;
        StorePiece(j, buf, p);
      }
    }

    /** The entry that got the job's block goes into the write cache. */
    method StorePiece(j: Job, buf: Buffer, p: CachedPiece)
      requires ValidWriteCache(pieces, storage.data) && ValidReadCache(readPieces, storage.data)
      requires pieces.Keys !! readPieces.Keys && j.key !in readPieces && IsBlockWrite(j)
      requires readCacheSize == Total(readPieces) && cacheSize <= inUse
      requires cacheSize == Total(pieces) + readCacheSize
        + p.numBlocks - if j.key in pieces then pieces[j.key].numBlocks else 0
      requires ValidPiece(p, |storage.data[j.key]|) && p.numContiguousBlocks == LongestRun(p.blocks)
      requires if j.key in pieces then p.blocks == pieces[j.key].blocks[j.Block() := Cached(buf)]
        else p.blocks == seq(BlocksInPiece(|storage.data[j.key]|), _ => Empty)[j.Block() := Cached(buf)]
      modifies this`pieces
      ensures Valid() && View() == Written(old(View()), j, buf) && pieces == old(pieces)[j.key := p]
    {
      assert j.offset == j.Block() * BLOCK_SIZE;
      WriteShows(pieces, storage.data, j.key, p, j.Block(), buf);
      TotalPut(pieces, j.key, p);
      pieces := pieces[j.key := p];
    }

    /** The early flush of a write: its entry p was `was` before it. */
    method FlushLongRun(j: Job, buf: Buffer, ghost was: CachedPiece, ghost p: CachedPiece)
      requires Valid() && j.key in pieces && p == pieces[j.key] && j.Block() < |was.blocks|
      requires p.blocks == was.blocks[j.Block() := Cached(buf)]
      modifies this`pieces, this`cacheSize, this`inUse, storage`data, storage`calls
      ensures Valid() && View() == old(View()) && pieces.Keys == old(pieces).Keys
      ensures NoLongRun(settings, was, pieces[j.key]) && pieces[j.key].expire == p.expire
    {
      ghost var pos, len;
      var n;
      n, pos, len := FlushContiguousBlocks(j.key, settings.writeCacheLineSize, settings.algorithm == AvoidReadback);
      LongRunFlushed(settings, was, p, j.Block(), buf, pos, len, n, pieces[j.key]);
    }

    /** The branch of the write job for a piece that is in the write cache already. */
    method WriteCached(j: Job, buf: Buffer, now: int)
      requires Valid() && IsBlockWrite(j) && j.key in pieces && cacheSize < inUse
      modifies this`pieces, this`cacheSize, this`inUse, storage`data, storage`calls
      ensures Valid() && View() == Written(old(View()), j, buf) && pieces.Keys <= old(pieces).Keys
      ensures j.key in pieces ==>
        NoLongRun(settings, old(pieces[j.key]), pieces[j.key]) && pieces[j.key].expire == now + j.cacheMinTime
    {
      ghost var was := pieces[j.key];
      var p := PutBlock(pieces[j.key], j.Block(), buf, now + j.cacheMinTime);
      StorePiece(j, buf, p);
      FlushLongRun(j, buf, was, p);
      if pieces[j.key].numBlocks == 0 && pieces[j.key].nextBlockToHash == 0 {
        ErasePiece(j.key);
      }
    }

    /** Keeps the cache within its limit, as far as there is anything left to flush. */
    method FlushDownTo(limit: int, now: int)
      requires Valid()
      modifies this`pieces, this`readPieces, this`cacheSize, this`readCacheSize, this`inUse, storage`data, storage`calls
      ensures Valid() && View() == old(View())
      ensures pieces.Keys <= old(pieces).Keys && readPieces.Keys <= old(readPieces).Keys
      ensures inUse - cacheSize == old(inUse) - old(cacheSize)
      ensures inUse <= limit || Total(pieces) == 0
      ensures OrderKept(settings.algorithm, old(pieces), pieces)
    {
      if inUse > limit {
        ghost var states;
        var freed;
        freed, states := FlushCacheBlocks(inUse - limit, {}, false, now);
      }
    }

    /** The write job: whatever the cache does, a reader then sees the written bytes and nothing else changed. */
    method WriteJob(j: Job, buf: Buffer, now: int)
      requires Valid() && IsBlockWrite(j) && j.key !in readPieces && cacheSize < inUse
      modifies this`pieces, this`readPieces, this`cacheSize, this`readCacheSize, this`inUse, storage`data, storage`calls
      ensures Valid() && View() == Written(old(View()), j, buf)
      ensures pieces.Keys <= old(pieces).Keys + {j.key} && readPieces.Keys <= old(readPieces).Keys
    {
      FlushDownTo(settings.cacheSize - 1, now);
      ContentsSizes(pieces, storage.data);
      if j.key in pieces {
        WriteCached(j, buf, now);
      } else {
        var ok := CacheBlock(j, buf, now);
        if !ok {
          WriteThrough(j, buf);
          return;
        }
      }
      FlushDownTo(settings.cacheSize, now);
    }

    /** A piece of one block is not cached: its bytes go straight to storage, and the job's buffer back to the pool. */
    method WriteThrough(j: Job, buf: Buffer)
      requires Valid() && IsBlockWrite(j) && j.key !in pieces && j.key !in readPieces && cacheSize < inUse
      modifies this`inUse, storage`data, storage`calls
      ensures Valid() && View() == Written(old(View()), j, buf)
    {
      assert Flatten([buf[..j.bufferSize]]) == buf[..j.bufferSize];
      var _ := storage.WriteImpl([buf[..j.bufferSize]], j.key, j.offset);
      inUse := inUse - 1;
    }

    // ----- Jobs -----

    /** The read job: from the cache, or straight from storage when there is no room in the cache. */
    method ReadJob(j: Job, buffer: array<byte>, now: int) returns (ret: int)
      requires Valid() && j.Valid(storage.data) && j.key !in pieces && j.bufferSize <= buffer.Length
      requires settings.readCacheLineSize > 0
      modifies this`pieces, this`readPieces, this`cacheSize, this`readCacheSize, this`inUse, storage, buffer
      ensures Valid() && View() == old(View()) && pieces == old(pieces)
      ensures readPieces.Keys <= old(readPieces).Keys + {j.key}
      ensures ret == j.bufferSize || ret == -1
      ensures ret >= 0 ==> buffer[..j.bufferSize] == old(View())[j.key][j.offset..j.offset + j.bufferSize]
      ensures storage.failedReads == old(storage.failedReads) + if ret == -1 then 1 else 0
    {
      var hit;
      ret, hit := TryReadFromCache(j, buffer, false, now);
      if ret == -2 {
        var bytes;
        ret, bytes := storage.ReadImpl(j.bufferSize, j.key, j.offset);
        if ret != j.bufferSize {
          return -1;
        }
        forall x | 0 <= x < j.bufferSize {
          buffer[x] := bytes[x];
        }
      }
    }

    /** The hash job, up to the hashing: what it leaves in storage is what the peers delivered. */
    method HashJob(k: Key)
      requires Valid() && k in storage.data
      modifies this`pieces, this`cacheSize, this`inUse, storage`data, storage`calls
      ensures Valid() && View() == old(View()) && pieces.Keys == old(pieces).Keys - {k}
      ensures k in storage.data && storage.data[k] == old(View())[k]
    {
      if k in pieces {
        var freed := FlushAndErase(k);
      }
      ContentsSizes(pieces, storage.data);
      assert View()[k] == storage.data[k];
    }

    /** An expired entry: its blocks go, and the entry with them unless its hash position is still of use. */
    method FlushExpired(k: Key)
      requires Valid() && k in pieces
      modifies this`pieces, this`cacheSize, this`inUse, storage`data, storage`calls
      ensures Valid() && View() == old(View()) && inUse - cacheSize == old(inUse) - old(cacheSize)
      ensures OnlyEntry(old(pieces), pieces, k) && (k in pieces ==> Remembered(pieces[k]))
      ensures k in pieces <==> (settings.algorithm == AvoidReadback
        && Flushed(old(pieces[k]), 0, |old(pieces[k]).blocks|).nextBlockToHash < |old(pieces[k]).blocks|)
    {
      ghost var was := pieces;
      var freed := FlushAll(k);
      if settings.algorithm != AvoidReadback || pieces[k].nextBlockToHash == |pieces[k].blocks| {
        EraseOnly(was, pieces, k);
        ErasePiece(k);
      }
    }

    /** The oldest entry not visited before, if it has expired; those visited before stay remembered. */
    method FlushNextExpired(kept: set<Key>, now: int, cacheExpiry: nat) returns (more: bool, kept': set<Key>)
      requires Valid() && !(pieces.Keys <= kept) && AllRemembered(pieces, kept)
      requires settings.algorithm != AvoidReadback ==> pieces.Keys !! kept
      modifies this`pieces, this`cacheSize, this`inUse, storage`data, storage`calls
      ensures Valid() && View() == old(View()) && inUse - cacheSize == old(inUse) - old(cacheSize)
      ensures pieces.Keys <= old(pieces).Keys && AllRemembered(pieces, kept')
      ensures settings.algorithm != AvoidReadback ==> pieces.Keys !! kept'
      ensures more ==> |pieces.Keys - kept'| < |old(pieces).Keys - kept|
      ensures !more ==> AllFresh(pieces, kept', now, cacheExpiry)
    {
      var k := Oldest(pieces, kept);
      more, kept' := now - pieces[k].expire > cacheExpiry, kept;
      if more {
        kept' := kept + {k};
        ghost var was := pieces;
        FlushExpired(k);
        Fewer(was.Keys, pieces.Keys, kept, k);
        StillRemembered(was, pieces, kept, k);
      }
    }

    /** The first half of flush_expired_pieces: expired write pieces are flushed, oldest first. */
    method FlushExpiredPieces(now: int, cacheExpiry: nat)
      requires Valid()
      modifies this`pieces, this`cacheSize, this`inUse, storage`data, storage`calls
      ensures Valid() && View() == old(View()) && pieces.Keys <= old(pieces).Keys
      ensures inUse - cacheSize == old(inUse) - old(cacheSize)
      ensures forall k :: k in pieces ==>
        now - pieces[k].expire <= cacheExpiry || (settings.algorithm == AvoidReadback && Remembered(pieces[k]))
    {
      var kept: set<Key>, more := {}, true;
      while more && !(pieces.Keys <= kept)
        invariant Valid() && View() == old(View()) && pieces.Keys <= old(pieces).Keys
        invariant inUse - cacheSize == old(inUse) - old(cacheSize)
        invariant AllRemembered(pieces, kept) && (settings.algorithm != AvoidReadback ==> pieces.Keys !! kept)
        invariant !more ==> AllFresh(pieces, kept, now, cacheExpiry)
        decreases more, |pieces.Keys - kept|
      {
        more, kept := FlushNextExpired(kept, now, cacheExpiry);
      }
    }

    /** All blocks of a read entry are freed, and the entry goes. */
    method DropReadPiece(k: Key)
      requires Valid() && k in readPieces
      modifies this`readPieces, this`cacheSize, this`readCacheSize, this`inUse
      ensures Valid() && readPieces == old(readPieces) - {k}
      ensures inUse - cacheSize == old(inUse) - old(cacheSize)
    {
      var p, freed := FreePiece(readPieces[k]);
      EvictKeepsReadCache(readPieces, storage.data, k, p);
      readPieces := readPieces - {k};
    }

    /** The oldest read entry, if it has expired. */
    method DropNextExpired(now: int, cacheExpiry: nat) returns (more: bool)
      requires Valid() && readPieces != map[]
      modifies this`readPieces, this`cacheSize, this`readCacheSize, this`inUse
      ensures Valid() && readPieces.Keys <= old(readPieces).Keys
      ensures inUse - cacheSize == old(inUse) - old(cacheSize)
      ensures more ==> |readPieces.Keys| < |old(readPieces).Keys|
      ensures !more ==> AllFresh(readPieces, {}, now, cacheExpiry)
    {
      var k := Oldest(readPieces, {});
      more := now - readPieces[k].expire > cacheExpiry;
      if more {
        AfterFlush(readPieces, k, readPieces[k], readPieces);
        DropReadPiece(k);
      }
    }

    /** The second half: expired read pieces are dropped, unless the read cache is explicit. */
    method DropExpiredReadPieces(now: int, cacheExpiry: nat)
      requires Valid()
      modifies this`readPieces, this`cacheSize, this`readCacheSize, this`inUse
      ensures Valid() && readPieces.Keys <= old(readPieces).Keys
      ensures inUse - cacheSize == old(inUse) - old(cacheSize)
      ensures settings.explicitReadCache ==> readPieces == old(readPieces)
      ensures !settings.explicitReadCache ==> forall k :: k in readPieces ==> now - readPieces[k].expire <= cacheExpiry
    {
      if settings.explicitReadCache {
        return;
      }
      var more := true;
      while more && readPieces != map[]
        invariant Valid() && readPieces.Keys <= old(readPieces).Keys
        invariant inUse - cacheSize == old(inUse) - old(cacheSize)
        invariant !more ==> AllFresh(readPieces, {}, now, cacheExpiry)
        decreases more, |readPieces.Keys|
      {
        more := DropNextExpired(now, cacheExpiry);
      }
    }
  }
}
