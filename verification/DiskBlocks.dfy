/** The values the block cache of disk_io_thread moves around: pool buffers, the blocks of a piece, write calls. */
module DiskBlocks {
  import opened Common

  const BLOCK_SIZE: nat := 16384

  /** A buffer of the disk buffer pool: always a full 16 kiB, even when it holds a short last block. */
  type Buffer = b: seq<byte> | |b| == BLOCK_SIZE witness seq(BLOCK_SIZE, _ => 0)

  /** One slot of a cached piece: the null pointer, or a pool buffer. */
  datatype Block = Empty | Cached(buf: Buffer)

  /** One call of the storage's write function. */
  datatype WriteCall = WriteCall(key: Key, offset: nat, bytes: seq<byte>)

  /** A piece of a torrent. */
  datatype Key = Key(storage: nat, piece: nat)

  function BlocksInPiece(size: nat): nat { (size + BLOCK_SIZE - 1) / BLOCK_SIZE }

  /** The number of bytes of a piece of the given size that lie in block i: only the last block can be short. */
  function BlockLen(size: nat, i: nat): nat
    requires i < BlocksInPiece(size)
  {
    Min(size - i * BLOCK_SIZE, BLOCK_SIZE)
  }

  // ----- Counting blocks -----

  /** The number of cached blocks in lo..hi. */
  function CountIn(blocks: seq<Block>, lo: nat, hi: nat): nat
    requires hi <= |blocks|
  {
    if hi <= lo then 0 else CountIn(blocks, lo, hi - 1) + if blocks[hi - 1].Cached? then 1 else 0
  }

  function Count(blocks: seq<Block>): nat { CountIn(blocks, 0, |blocks|) }

  function Cleared(blocks: seq<Block>, lo: nat, hi: nat): (r: seq<Block>)
    ensures |r| == |blocks|
  {
    seq(|blocks|, i requires 0 <= i < |blocks| => if lo <= i < hi then Empty else blocks[i])
  }

  lemma CountPositive(blocks: seq<Block>, lo: nat, hi: nat)
    requires hi <= |blocks|
    ensures CountIn(blocks, lo, hi) > 0 <==> exists i :: lo <= i < hi && blocks[i].Cached?
  {
  }

  lemma CountSplit(blocks: seq<Block>, lo: nat, mid: nat, hi: nat)
    requires lo <= mid <= hi <= |blocks|
    ensures CountIn(blocks, lo, hi) == CountIn(blocks, lo, mid) + CountIn(blocks, mid, hi)
  {
  }

  lemma CountRun(blocks: seq<Block>, lo: nat, hi: nat)
    requires IsRun(blocks, lo, hi)
    ensures CountIn(blocks, lo, hi) == hi - lo
  {
  }

  lemma CountSame(a: seq<Block>, b: seq<Block>, lo: nat, hi: nat)
    requires hi <= |a| && hi <= |b| && forall i :: lo <= i < hi ==> a[i].Cached? == b[i].Cached?
    ensures CountIn(a, lo, hi) == CountIn(b, lo, hi)
  {
  }

  lemma CountUpdate(blocks: seq<Block>, i: nat, b: Block)
    requires i < |blocks|
    ensures Count(blocks[i := b]) ==
      Count(blocks) - (if blocks[i].Cached? then 1 else 0) + (if b.Cached? then 1 else 0)
  {
    var c := blocks[i := b];
    CountSplit(blocks, 0, i + 1, |blocks|);
    CountSplit(c, 0, i + 1, |blocks|);
    CountSame(blocks, c, 0, i);
    CountSame(blocks, c, i + 1, |blocks|);
  }

  /** Clearing the blocks lo..hi frees exactly the cached ones among them. */
  lemma CountCleared(blocks: seq<Block>, lo: nat, hi: nat)
    requires lo <= hi <= |blocks|
    ensures Count(blocks) == Count(Cleared(blocks, lo, hi)) + CountIn(blocks, lo, hi)
    ensures CountIn(blocks, lo, hi) == 0 ==> Cleared(blocks, lo, hi) == blocks
  {
    var c := Cleared(blocks, lo, hi);
    CountSplit(blocks, 0, lo, |blocks|);
    CountSplit(blocks, lo, hi, |blocks|);
    CountSplit(c, 0, lo, |blocks|);
    CountSplit(c, lo, hi, |blocks|);
    CountSame(blocks, c, 0, lo);
    CountSame(blocks, c, hi, |blocks|);
    CountPositive(c, lo, hi);
    CountPositive(blocks, lo, hi);
  }

  // ----- What a reader sees -----

  /** Whether byte k of the piece lies in a cached block of lo..hi. */
  predicate Held(blocks: seq<Block>, lo: nat, hi: nat, k: nat)
    requires hi <= |blocks|
  {
    lo <= k / BLOCK_SIZE < hi && blocks[k / BLOCK_SIZE].Cached?
  }

  /** Byte k of the piece, read from the cache. */
  function ByteAt(blocks: seq<Block>, k: nat): byte
    requires Held(blocks, 0, |blocks|, k)
  {
    blocks[k / BLOCK_SIZE].buf[k % BLOCK_SIZE]
  }

  /** The bytes of a piece with its cached blocks in lo..hi laid over the stored bytes. */
  function Overlay(data: seq<byte>, blocks: seq<Block>, lo: nat, hi: nat): (r: seq<byte>)
    requires hi <= |blocks|
    ensures |r| == |data|
  {
    seq(|data|, k requires 0 <= k < |data| => if Held(blocks, lo, hi, k) then ByteAt(blocks, k) else data[k])
  }

  lemma OverlaySkip(data: seq<byte>, blocks: seq<Block>, lo: nat, i: nat)
    requires lo <= i < |blocks| && blocks[i].Empty?
    ensures Overlay(data, blocks, lo, i + 1) == Overlay(data, blocks, lo, i)
  {
  }

  /** A cached block hides the storage behind it. */
  function View(data: seq<byte>, blocks: seq<Block>): seq<byte> {
    Overlay(data, blocks, 0, |blocks|)
  }

  lemma EmptyView(data: seq<byte>, blocks: seq<Block>)
    requires Count(blocks) == 0
    ensures View(data, blocks) == data
  {
    CountPositive(blocks, 0, |blocks|);
  }

  /** `bytes` written over `data` at `offset`. */
  function Splice(data: seq<byte>, offset: nat, bytes: seq<byte>): (r: seq<byte>)
    requires offset + |bytes| <= |data|
    ensures |r| == |data|
    ensures forall k :: 0 <= k < |data| ==>
      r[k] == if offset <= k < offset + |bytes| then bytes[k - offset] else data[k]
  {
    data[..offset] + bytes + data[offset + |bytes|..]
  }

  // ----- Contiguous runs -----

  predicate IsRun(blocks: seq<Block>, lo: nat, hi: nat) {
    lo <= hi <= |blocks| && forall i :: lo <= i < hi ==> blocks[i].Cached?
  }

  /** The bytes of the piece held by the run lo..hi: whole blocks, and the filled part of a short last one. */
  function RunBytes(size: nat, blocks: seq<Block>, lo: nat, hi: nat): seq<byte>
    requires |blocks| == BlocksInPiece(size) && IsRun(blocks, lo, hi)
  {
    if lo == hi then []
    else RunBytes(size, blocks, lo, hi - 1) + blocks[hi - 1].buf[..BlockLen(size, hi - 1)]
  }

  lemma RunBytesLength(size: nat, blocks: seq<Block>, lo: nat, hi: nat)
    requires |blocks| == BlocksInPiece(size) && IsRun(blocks, lo, hi) && lo < hi
    ensures 0 < |RunBytes(size, blocks, lo, hi)| == Min(hi * BLOCK_SIZE, size) - lo * BLOCK_SIZE
  {
    if lo + 1 < hi {
      RunBytesLength(size, blocks, lo, hi - 1);
    }
  }

  /** Byte k of the piece is byte k minus the run's own offset of the run. */
  lemma RunBytesAt(size: nat, blocks: seq<Block>, lo: nat, hi: nat, k: nat)
    requires |blocks| == BlocksInPiece(size) && IsRun(blocks, lo, hi) && lo < hi
    requires lo * BLOCK_SIZE <= k < lo * BLOCK_SIZE + |RunBytes(size, blocks, lo, hi)|
    ensures Held(blocks, lo, hi, k) && RunBytes(size, blocks, lo, hi)[k - lo * BLOCK_SIZE] == ByteAt(blocks, k)
  {
    RunBytesLength(size, blocks, lo, hi);
    if lo + 1 < hi {
      RunBytesLength(size, blocks, lo, hi - 1);
    }
    var init := RunBytes(size, blocks, lo, hi - 1);
    assert |init| == (hi - 1) * BLOCK_SIZE - lo * BLOCK_SIZE;
    if k < (hi - 1) * BLOCK_SIZE {
      RunBytesAt(size, blocks, lo, hi - 1, k);
    } else {
      InBlock(hi - 1, k);
      assert RunBytes(size, blocks, lo, hi)[k - lo * BLOCK_SIZE] == blocks[hi - 1].buf[k - (hi - 1) * BLOCK_SIZE];
    }
  }

  lemma InBlock(i: nat, k: nat)
    requires i * BLOCK_SIZE <= k < (i + 1) * BLOCK_SIZE
    ensures k / BLOCK_SIZE == i && k % BLOCK_SIZE == k - i * BLOCK_SIZE
  {
  }

  lemma LaterBlock(i: nat, k: nat)
    requires i * BLOCK_SIZE <= k
    ensures i <= k / BLOCK_SIZE
  {
  }

  /** Where the run that starts at i ends, looking no further than hi. */
  function RunEnd(blocks: seq<Block>, i: nat, hi: nat): (r: nat)
    requires i <= hi <= |blocks|
    ensures i <= r <= hi && IsRun(blocks, i, r) && (r == hi || blocks[r].Empty?)
    decreases hi - i
  {
    if i == hi || blocks[i].Empty? then i else RunEnd(blocks, i + 1, hi)
  }

  /** One write call for each maximal run in lo..hi, at the offset of the run's own first block. */
  function RunCalls(key: Key, size: nat, blocks: seq<Block>, lo: nat, hi: nat): seq<WriteCall>
    requires |blocks| == BlocksInPiece(size) && hi <= |blocks|
    decreases hi - lo
  {
    if lo >= hi then []
    else if blocks[lo].Empty? then RunCalls(key, size, blocks, lo + 1, hi)
    else
      var e := RunEnd(blocks, lo, hi);
      [WriteCall(key, lo * BLOCK_SIZE, RunBytes(size, blocks, lo, e))] + RunCalls(key, size, blocks, e, hi)
  }

  /** A run ends where the scan says it does. */
  lemma RunEndUnique(blocks: seq<Block>, lo: nat, e: nat, hi: nat)
    requires IsRun(blocks, lo, e) && e <= hi <= |blocks| && (e == hi || blocks[e].Empty?)
    ensures RunEnd(blocks, lo, hi) == e
    decreases e - lo
  {
    if lo < e {
      RunEndUnique(blocks, lo + 1, e, hi);
    }
  }

  /** Writing one run at its own offset extends the overlay by exactly that run. */
  lemma WriteRunExtendsOverlay(data: seq<byte>, blocks: seq<Block>, start: nat, lo: nat, hi: nat)
    requires |blocks| == BlocksInPiece(|data|) && start <= lo < hi && IsRun(blocks, lo, hi)
    ensures lo * BLOCK_SIZE + |RunBytes(|data|, blocks, lo, hi)| <= |data|
    ensures Splice(Overlay(data, blocks, start, lo), lo * BLOCK_SIZE, RunBytes(|data|, blocks, lo, hi))
      == Overlay(data, blocks, start, hi)
  {
    RunBytesLength(|data|, blocks, lo, hi);
    var o, bytes := lo * BLOCK_SIZE, RunBytes(|data|, blocks, lo, hi);
    var s := Splice(Overlay(data, blocks, start, lo), o, bytes);
    forall k | 0 <= k < |data| ensures s[k] == Overlay(data, blocks, start, hi)[k] {
      SplicedByte(data, blocks, start, lo, hi, k);
      if o <= k < o + |bytes| {
        RunBytesAt(|data|, blocks, lo, hi, k);
      }
    }
  }

  lemma SplicedByte(data: seq<byte>, blocks: seq<Block>, start: nat, lo: nat, hi: nat, k: nat)
    requires |blocks| == BlocksInPiece(|data|) && start <= lo < hi && IsRun(blocks, lo, hi) && k < |data|
    ensures if lo * BLOCK_SIZE <= k < Min(hi * BLOCK_SIZE, |data|)
      then Overlay(data, blocks, start, hi)[k] == ByteAt(blocks, k)
      else Overlay(data, blocks, start, hi)[k] == Overlay(data, blocks, start, lo)[k]
  {
  }

  /** Flushing the blocks of any range to storage and forgetting them changes nothing a reader can see. */
  lemma FlushKeepsView(data: seq<byte>, blocks: seq<Block>, lo: nat, hi: nat)
    requires lo <= hi <= |blocks|
    ensures View(Overlay(data, blocks, lo, hi), Cleared(blocks, lo, hi)) == View(data, blocks)
  {
  }

  // ----- Freeing blocks from both ends -----

  /** Only the blocks of lo..hi are left. */
  ghost predicate KeptMiddle(was: seq<Block>, now: seq<Block>, lo: nat, hi: nat) {
    && lo <= hi <= |was| && |now| == |was|
    && forall k :: 0 <= k < |was| ==> now[k] == if lo <= k < hi then was[k] else Empty
  }

  /** `now` is `was` without its first `low` and its last `high` cached blocks. */
  ghost predicate EndsFreed(was: seq<Block>, now: seq<Block>, low: nat, high: nat) {
    exists lo: nat, hi: nat :: KeptMiddle(was, now, lo, hi)
      && CountIn(was, 0, lo) == low && CountIn(was, hi, |was|) == high
  }

  /** The first cached block that is left is freed. */
  lemma FreeFirstLeft(was: seq<Block>, now: seq<Block>, lo: nat, hi: nat, i: nat)
    requires KeptMiddle(was, now, lo, hi) && i < |now| && now[i].Cached?
    requires forall k :: 0 <= k < i ==> now[k].Empty?
    ensures KeptMiddle(was, now[i := Empty], i + 1, hi) && CountIn(was, 0, i + 1) == CountIn(was, 0, lo) + 1
  {
    CountSplit(was, 0, lo, i);
    CountPositive(was, lo, i);
    assert forall k :: lo <= k < i ==> now[k] == was[k];
  }

  /** The last cached block that is left is freed. */
  lemma FreeLastLeft(was: seq<Block>, now: seq<Block>, lo: nat, hi: nat, i: nat)
    requires KeptMiddle(was, now, lo, hi) && i < |now| && now[i].Cached?
    requires forall k :: i < k < |now| ==> now[k].Empty?
    ensures KeptMiddle(was, now[i := Empty], lo, i) && CountIn(was, i, |was|) == CountIn(was, hi, |was|) + 1
  {
    CountSplit(was, i, i + 1, |was|);
    CountSplit(was, i + 1, hi, |was|);
    CountPositive(was, i + 1, hi);
    assert forall k :: i < k < hi ==> now[k] == was[k];
  }

  /** Dropping cached blocks leaves a coherent cache coherent. */
  lemma DropKeepsCoherence(data: seq<byte>, was: seq<Block>, now: seq<Block>)
    requires |was| == |now| && View(data, was) == data
    requires forall k :: 0 <= k < |was| ==> now[k] == was[k] || now[k].Empty?
    ensures View(data, now) == data
  {
    forall k | 0 <= k < |data| ensures View(data, now)[k] == data[k] {
      assert View(data, was)[k] == data[k];
    }
  }

  // ----- The longest run -----

  /** The length of the run that ends at the end of the sequence. */
  function TailRun(blocks: seq<Block>): nat {
    if blocks == [] || blocks[|blocks| - 1].Empty? then 0 else TailRun(blocks[..|blocks| - 1]) + 1
  }

  lemma TailRunIsLongest(blocks: seq<Block>)
    ensures TailRun(blocks) <= |blocks| && IsRun(blocks, |blocks| - TailRun(blocks), |blocks|)
    ensures forall lo: nat :: IsRun(blocks, lo, |blocks|) ==> |blocks| - lo <= TailRun(blocks)
  {
    if blocks != [] && blocks[|blocks| - 1].Cached? {
      var init := blocks[..|blocks| - 1];
      TailRunIsLongest(init);
      assert forall lo: nat :: IsRun(blocks, lo, |blocks|) && lo < |blocks| ==> IsRun(init, lo, |init|);
    }
  }

  function LongestRun(blocks: seq<Block>): nat {
    if blocks == [] then 0 else Max(LongestRun(blocks[..|blocks| - 1]), TailRun(blocks))
  }

  /** LongestRun is the length of a run, and no run is longer. */
  lemma LongestRunIsLongest(blocks: seq<Block>)
    ensures exists lo: nat, hi: nat :: IsRun(blocks, lo, hi) && hi - lo == LongestRun(blocks)
    ensures forall lo: nat, hi: nat :: IsRun(blocks, lo, hi) ==> hi - lo <= LongestRun(blocks)
  {
    if blocks == [] {
      assert IsRun(blocks, 0, 0);
    } else {
      var init := blocks[..|blocks| - 1];
      LongestRunIsLongest(init);
      var lo: nat, hi: nat :| IsRun(init, lo, hi) && hi - lo == LongestRun(init);
      assert IsRun(blocks, lo, hi);
      TailRunIsLongest(blocks);
      assert IsRun(blocks, |blocks| - TailRun(blocks), |blocks|);
      forall a: nat, b: nat | IsRun(blocks, a, b) ensures b - a <= LongestRun(blocks) {
        if b < |blocks| {
          assert IsRun(init, a, b);
        }
      }
    }
  }

  lemma LongestRunPositive(blocks: seq<Block>)
    ensures LongestRun(blocks) > 0 <==> Count(blocks) > 0
  {
    LongestRunIsLongest(blocks);
    CountPositive(blocks, 0, |blocks|);
    assert forall i :: 0 <= i < |blocks| && blocks[i].Cached? ==> IsRun(blocks, i, i + 1);
    var lo: nat, hi: nat :| IsRun(blocks, lo, hi) && hi - lo == LongestRun(blocks);
    if lo < hi {
      assert blocks[lo].Cached?;
    }
  }

  /** The hash position after the blocks lo..hi went to disk in order: it moves past the cached blocks it meets. */
  function HashPosition(blocks: seq<Block>, lo: nat, hi: nat, next: nat): (r: nat)
    requires lo <= hi <= |blocks|
    ensures r >= next && (next <= |blocks| ==> r <= |blocks|)
  {
    if lo == hi then next
    else
      var n := HashPosition(blocks, lo, hi - 1, next);
      if blocks[hi - 1].Cached? && hi - 1 == n then n + 1 else n
  }

  /** If it is among the blocks that went, it moves to the first hole behind it, or to their end, and else it stays. */
  lemma {:induction false} HashPositionIs(blocks: seq<Block>, lo: nat, hi: nat, next: nat, r: nat)
    requires lo <= hi <= |blocks| && r == HashPosition(blocks, lo, hi, next)
    ensures if lo <= next < hi then IsRun(blocks, next, r) && (r == hi || (r < hi && blocks[r].Empty?)) else r == next
  {
    if lo < hi {
      HashPositionIs(blocks, lo, hi - 1, next, HashPosition(blocks, lo, hi - 1, next));
    }
  }

  /** A run that starts at the hash position moves it to its end. */
  lemma {:induction false} HashPositionOfRun(blocks: seq<Block>, lo: nat, hi: nat)
    requires IsRun(blocks, lo, hi)
    ensures HashPosition(blocks, lo, hi, lo) == hi
  {
    if lo < hi {
      HashPositionOfRun(blocks, lo, hi - 1);
    }
  }

  // ----- Filling and reading blocks -----

  /** The block, if cached, holds the bytes stored at its place. */
  predicate HoldsStored(data: seq<byte>, i: nat, b: Block)
    requires i < BlocksInPiece(|data|)
  {
    b.Cached? ==> b.buf[..BlockLen(|data|, i)] == data[i * BLOCK_SIZE..i * BLOCK_SIZE + BlockLen(|data|, i)]
  }

  /** A cached piece shows exactly the stored bytes when each of its blocks does, and only then. */
  lemma CoherentBlockwise(data: seq<byte>, blocks: seq<Block>)
    requires |blocks| == BlocksInPiece(|data|)
    ensures View(data, blocks) == data <==> forall i :: 0 <= i < |blocks| ==> HoldsStored(data, i, blocks[i])
  {
    if forall i :: 0 <= i < |blocks| ==> HoldsStored(data, i, blocks[i]) {
      forall k | 0 <= k < |data| ensures View(data, blocks)[k] == data[k] {
        var i := k / BLOCK_SIZE;
        assert HoldsStored(data, i, blocks[i]);
        if blocks[i].Cached? {
          assert blocks[i].buf[..BlockLen(|data|, i)][k % BLOCK_SIZE]
            == data[i * BLOCK_SIZE..i * BLOCK_SIZE + BlockLen(|data|, i)][k % BLOCK_SIZE];
        }
      }
    }
    if View(data, blocks) == data {
      forall i | 0 <= i < |blocks| ensures HoldsStored(data, i, blocks[i]) {
        CoherentBlock(data, blocks, i);
      }
    }
  }

  lemma CoherentBlock(data: seq<byte>, blocks: seq<Block>, i: nat)
    requires |blocks| == BlocksInPiece(|data|) && i < |blocks| && View(data, blocks) == data
    ensures HoldsStored(data, i, blocks[i])
  {
    var o, n := i * BLOCK_SIZE, BlockLen(|data|, i);
    if blocks[i].Cached? {
      forall j | 0 <= j < n ensures blocks[i].buf[..n][j] == data[o..o + n][j] {
        InBlock(i, o + j);
        assert View(data, blocks)[o + j] == ByteAt(blocks, o + j);
      }
    }
  }

  lemma PartOfEqual(buf: seq<byte>, data: seq<byte>, l: nat, b: nat, o: nat, n: nat, at: nat)
    requires l <= |buf| && b + l <= |data| && buf[..l] == data[b..b + l]
    requires o + n <= l && at == b + o
    ensures buf[o..o + n] == data[at..at + n]
  {
    var front, back, part, same := buf[..l], data[b..b + l], buf[o..o + n], data[at..at + n];
    forall k | 0 <= k < n ensures part[k] == same[k] {
      assert front[o + k] == back[o + k];
    }
  }

  /** Part of a block that shows the stored bytes is part of the stored bytes. */
  lemma PartOfBlock(data: seq<byte>, blocks: seq<Block>, i: nat, o: nat, n: nat)
    requires |blocks| == BlocksInPiece(|data|) && i < |blocks| && View(data, blocks) == data && blocks[i].Cached?
    requires o + n <= BlockLen(|data|, i)
    ensures blocks[i].buf[o..o + n] == data[i * BLOCK_SIZE + o..i * BLOCK_SIZE + o + n]
  {
    CoherentBlock(data, blocks, i);
    var b := i * BLOCK_SIZE;
    PartOfEqual(blocks[i].buf, data, BlockLen(|data|, i), b, o, n, b + o);
  }

  /** Where block i lies in the bytes read for the blocks start..end. */
  lemma PartOfRead(data: seq<byte>, start: nat, end: nat, i: nat)
    requires start <= i < end <= BlocksInPiece(|data|)
    ensures start * BLOCK_SIZE <= Min(end * BLOCK_SIZE, |data|)
    ensures var bytes, o := data[start * BLOCK_SIZE..Min(end * BLOCK_SIZE, |data|)], (i - start) * BLOCK_SIZE;
      o + BlockLen(|data|, i) == Min(o + BLOCK_SIZE, |bytes|)
      && bytes[o..o + BlockLen(|data|, i)] == data[i * BLOCK_SIZE..i * BLOCK_SIZE + BlockLen(|data|, i)]
  {
    var s, e, o, n := start * BLOCK_SIZE, Min(end * BLOCK_SIZE, |data|), (i - start) * BLOCK_SIZE, BlockLen(|data|, i);
    assert s + o == i * BLOCK_SIZE;
    assert (i + 1) * BLOCK_SIZE <= end * BLOCK_SIZE;
    assert s + o + n <= (i + 1) * BLOCK_SIZE && s + o + n <= |data|;
    Slice(data, s, e, o, n, i * BLOCK_SIZE);
  }

  /** The blocks a request of `size` bytes at `offset` touches, as copy_from_piece counts them. */
  function BlocksToRead(offset: nat, size: nat): nat {
    if offset % BLOCK_SIZE > 0 && size > BLOCK_SIZE - offset % BLOCK_SIZE then 2 else 1
  }

  /** is_cache_hit */
  predicate IsCacheHit(blocks: seq<Block>, offset: nat, size: nat)
    requires offset / BLOCK_SIZE + BlocksToRead(offset, size) <= |blocks|
  {
    var block := offset / BLOCK_SIZE;
    var start := if blocks[block].Cached? && BlocksToRead(offset, size) > 1 then block + 1 else block;
    blocks[start].Cached?
  }

  /** Reading enough bytes from the request's first block on makes it a hit. */
  lemma FetchedIsHit(blocks: seq<Block>, offset: nat, size: nat, end: nat, pieceSize: nat)
    requires 0 < size <= BLOCK_SIZE && offset + size <= pieceSize && |blocks| == BlocksInPiece(pieceSize)
    requires Min(end * BLOCK_SIZE, pieceSize) - offset / BLOCK_SIZE * BLOCK_SIZE >= size + offset % BLOCK_SIZE
    requires forall i :: offset / BLOCK_SIZE <= i < end && i < |blocks| ==> blocks[i].Cached?
    ensures offset / BLOCK_SIZE + BlocksToRead(offset, size) <= |blocks| && IsCacheHit(blocks, offset, size)
  {
  }

  /** A request of at most one block is a hit exactly when every byte it asks for is cached. */
  lemma HitMeansHeld(blocks: seq<Block>, offset: nat, size: nat)
    requires 0 < size <= BLOCK_SIZE && offset / BLOCK_SIZE + BlocksToRead(offset, size) <= |blocks|
    ensures IsCacheHit(blocks, offset, size)
      <==> forall k :: offset <= k < offset + size ==> Held(blocks, 0, |blocks|, k)
  {
    var block := offset / BLOCK_SIZE;
    if BlocksToRead(offset, size) == 1 {
      assert forall k :: offset <= k < offset + size ==> k / BLOCK_SIZE == block;
      if forall k :: offset <= k < offset + size ==> Held(blocks, 0, |blocks|, k) {
        assert Held(blocks, 0, |blocks|, offset);
      }
    } else {
      assert forall k :: offset <= k < offset + size ==> k / BLOCK_SIZE == block || k / BLOCK_SIZE == block + 1;
      if forall k :: offset <= k < offset + size ==> Held(blocks, 0, |blocks|, k) {
        assert Held(blocks, 0, |blocks|, offset) && Held(blocks, 0, |blocks|, offset + size - 1);
      }
    }
  }

  // ----- Adding blocks -----

  /** A block added to the write cache shows up at its place, and nowhere else. */
  lemma AddBlockView(data: seq<byte>, blocks: seq<Block>, i: nat, buf: Buffer)
    requires |blocks| == BlocksInPiece(|data|) && i < |blocks|
    ensures i * BLOCK_SIZE + BlockLen(|data|, i) <= |data|
    ensures View(data, blocks[i := Cached(buf)])
      == Splice(View(data, blocks), i * BLOCK_SIZE, buf[..BlockLen(|data|, i)])
  {
    var now, o := blocks[i := Cached(buf)], i * BLOCK_SIZE;
    var s := Splice(View(data, blocks), o, buf[..BlockLen(|data|, i)]);
    forall k | 0 <= k < |data| ensures View(data, now)[k] == s[k] {
      if o <= k < o + BlockLen(|data|, i) {
        InBlock(i, k);
      }
    }
  }

  /** A block whose neighbours are not cached cannot lengthen the longest run of a piece that has blocks. */
  lemma IsolatedBlock(blocks: seq<Block>, i: nat, buf: Buffer)
    requires i < |blocks| && blocks[i].Empty? && Count(blocks) > 0
    requires i > 0 ==> blocks[i - 1].Empty?
    requires i < |blocks| - 1 ==> blocks[i + 1].Empty?
    ensures LongestRun(blocks[i := Cached(buf)]) == LongestRun(blocks)
  {
    var now := blocks[i := Cached(buf)];
    LongestRunIsLongest(blocks);
    LongestRunIsLongest(now);
    LongestRunPositive(blocks);
    var lo: nat, hi: nat :| IsRun(blocks, lo, hi) && hi - lo == LongestRun(blocks);
    assert IsRun(now, lo, hi);
    var a: nat, b: nat :| IsRun(now, a, b) && b - a == LongestRun(now);
    assert i > 0 ==> now[i - 1].Empty?;
    assert i < |blocks| - 1 ==> now[i + 1].Empty?;
    if b <= i || i < a {
      assert forall x :: a <= x < b ==> now[x] == blocks[x];
      assert IsRun(blocks, a, b);
    }
  }

  /** Replacing a cached block by another leaves the runs as they are. */
  lemma ReplacedBlock(blocks: seq<Block>, i: nat, buf: Buffer)
    requires i < |blocks| && blocks[i].Cached?
    ensures LongestRun(blocks[i := Cached(buf)]) == LongestRun(blocks)
  {
    var now := blocks[i := Cached(buf)];
    LongestRunIsLongest(blocks);
    LongestRunIsLongest(now);
    var lo: nat, hi: nat :| IsRun(blocks, lo, hi) && hi - lo == LongestRun(blocks);
    assert IsRun(now, lo, hi);
    var a: nat, b: nat :| IsRun(now, a, b) && b - a == LongestRun(now);
    forall x | a <= x < b ensures blocks[x].Cached? {
      assert now[x].Cached?;
    }
    assert IsRun(blocks, a, b);
  }

  lemma SingleBlock(blocks: seq<Block>, i: nat, buf: Buffer)
    requires i < |blocks| && Count(blocks) == 0
    ensures LongestRun(blocks[i := Cached(buf)]) == 1
  {
    var now := blocks[i := Cached(buf)];
    CountPositive(blocks, 0, |blocks|);
    LongestRunIsLongest(now);
    assert IsRun(now, i, i + 1);
    var a: nat, b: nat :| IsRun(now, a, b) && b - a == LongestRun(now);
    assert a < b ==> now[a].Cached? && now[b - 1].Cached?;
  }
}
