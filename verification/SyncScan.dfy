/** The scans of bt_peer_connection for a synchronisation pattern in a stream that arrives in pieces. */
module SyncScan {
  import opened Common

  /** The scans give up after this many bytes without the pattern. */
  const SYNC_LIMIT: nat := 512

  /** What a scan has come to; the position counts from the beginning of the stream. */
  datatype Status = Scanning | Locked(position: nat) | Disconnected

  predicate MatchAt(s: seq<byte>, p: nat, pattern: seq<byte>) {
    p + |pattern| <= |s| && s[p..p + |pattern|] == pattern
  }

  /** The first occurrence that starts before the limit. */
  function Find(s: seq<byte>, pattern: seq<byte>, limit: nat): Option<nat> {
    if limit == 0 then None
    else if Find(s, pattern, limit - 1).Some? then Find(s, pattern, limit - 1)
    else if MatchAt(s, limit - 1, pattern) then Some(limit - 1)
    else None
  }

  /** Positions that a scan may lock on: at most 511, and followed by at least one byte after the pattern. */
  function Candidates(s: seq<byte>, pattern: seq<byte>): nat {
    if |s| < |pattern| then 0 else if |s| - |pattern| < SYNC_LIMIT then |s| - |pattern| else SYNC_LIMIT
  }

  /** What a scan must come to after the whole stream, however it was cut. */
  function Verdict(s: seq<byte>, pattern: seq<byte>): Status {
    var first := Find(s, pattern, Candidates(s, pattern));
    if first.Some? then Locked(first.value)
    else if |s| >= SYNC_LIMIT + |pattern| then Disconnected
    else Scanning
  }

  /** Find is the first match. */
  lemma {:induction false} FindFirst(s: seq<byte>, pattern: seq<byte>, limit: nat)
    ensures var f := Find(s, pattern, limit);
      if f.Some? then f.value < limit && MatchAt(s, f.value, pattern)
                      && forall p: nat :: p < f.value ==> !MatchAt(s, p, pattern)
      else forall p: nat :: p < limit ==> !MatchAt(s, p, pattern)
  {
    if limit > 0 {
      FindFirst(s, pattern, limit - 1);
    }
  }

  lemma {:induction false} FindInPrefix(s: seq<byte>, t: seq<byte>, pattern: seq<byte>, limit: nat)
    requires limit == 0 || limit + |pattern| <= |s| + 1
    ensures Find(s + t, pattern, limit) == Find(s, pattern, limit)
  {
    if limit > 0 {
      FindInPrefix(s, t, pattern, limit - 1);
      assert (s + t)[limit - 1..limit - 1 + |pattern|] == s[limit - 1..limit - 1 + |pattern|];
    }
  }

  /** Nothing was found before, so the search may start behind it. */
  lemma {:induction false} FindInWindow(s: seq<byte>, skipped: nat, pattern: seq<byte>, limit: nat)
    requires skipped <= |s| && Find(s, pattern, skipped) == None
    ensures var f := Find(s[skipped..], pattern, limit);
      Find(s, pattern, skipped + limit) == if f.Some? then Some(skipped + f.value) else None
  {
    if limit > 0 {
      FindInWindow(s, skipped, pattern, limit - 1);
      var p := limit - 1;
      if p + |pattern| <= |s| - skipped {
        assert s[skipped..][p..p + |pattern|] == s[skipped + p..skipped + p + |pattern|];
      }
    }
  }

  /** More bytes do not change a verdict that is not Scanning. */
  lemma VerdictStands(s: seq<byte>, t: seq<byte>, pattern: seq<byte>)
    requires Verdict(s, pattern) != Scanning
    ensures Verdict(s + t, pattern) == Verdict(s, pattern)
  {
    var limit := Candidates(s, pattern);
    FindFirst(s, pattern, limit);
    FindInPrefix(s, t, pattern, limit);
    if Find(s, pattern, limit).Some? {
      FindStands(s + t, pattern, limit, Candidates(s + t, pattern));
    }
  }

  lemma {:induction false} FindStands(s: seq<byte>, pattern: seq<byte>, limit: nat, more: nat)
    requires limit <= more && Find(s, pattern, limit).Some?
    ensures Find(s, pattern, more) == Find(s, pattern, limit)
  {
    if limit < more {
      FindStands(s, pattern, limit, more - 1);
    }
  }

  /** What the search of a window says about the whole stream. */
  lemma WindowVerdict(s: seq<byte>, skipped: nat, pattern: seq<byte>, f: Option<nat>)
    requires skipped + |pattern| <= |s| <= SYNC_LIMIT + |pattern| && Find(s, pattern, skipped) == None
    requires f == Find(s[skipped..], pattern, |s| - skipped - |pattern|)
    ensures (Verdict(s, pattern) == if f.Some? then Locked(skipped + f.value)
                                    else if |s| - |pattern| >= SYNC_LIMIT then Disconnected else Scanning)
  {
    FindInWindow(s, skipped, pattern, |s| - skipped - |pattern|);
  }

  /** Nothing that was skipped matches, and more bytes do not change that. */
  lemma SkippedStay(s: seq<byte>, chunk: seq<byte>, pattern: seq<byte>, skipped: nat)
    requires Verdict(s, pattern) == Scanning && skipped == if |s| < |pattern| then 0 else |s| - |pattern|
    ensures Find(s + chunk, pattern, skipped) == None
    ensures |s + chunk| < |pattern| ==> Verdict(s + chunk, pattern) == Scanning
  {
    FindInPrefix(s, chunk, pattern, skipped);
  }

  /** get_syncoffset, which does not look at the last position of the window. */
  method GetSyncOffset(src: seq<byte>, target: seq<byte>) returns (offset: int)
    requires 0 < |src| <= |target|
    ensures offset == -1 || 0 <= offset < |target| - |src|
    ensures Find(target, src, |target| - |src|) == if offset >= 0 then Some(offset) else None
  {
    var traverseLimit := |target| - |src|;
    var i: nat := 0;
    while i < traverseLimit
      invariant i <= traverseLimit && Find(target, src, i) == None
    {
      if src == target[i..i + |src|] {
        FindStands(target, src, i + 1, traverseLimit);
        return i;
      }
      i := i + 1;
    }
    return -1;
  }

  class Scan {
    const pattern: seq<byte>
    /** The receive buffer, m_sync_bytes_read and m_packet_size. */
    var buffer: seq<byte>
    var syncBytesRead: nat
    var packetSize: nat
    var status: Status

    /** Everything that arrived since the scan began. */
    ghost var stream: seq<byte>

    /** The status is the verdict on the stream, and the buffer holds what of the stream is still to be looked at. */
    ghost predicate Valid()
      reads this
    {
      && |pattern| > 0 && status == Verdict(stream, pattern)
      && (status == Scanning ==> Windowed())
      && (status.Locked? ==> status.position + |pattern| <= |stream|
                             && buffer == stream[status.position + |pattern|..])
    }

    ghost predicate Windowed()
      reads this
    {
      && syncBytesRead <= |stream| && buffer == stream[syncBytesRead..]
      && syncBytesRead == (if |stream| < |pattern| then 0 else |stream| - |pattern|)
      && |buffer| < packetSize && |pattern| < packetSize <= SYNC_LIMIT + |pattern| - syncBytesRead
    }

    /** For the hash of 20 bytes the first packet has 122 bytes, for the constant of 8 bytes it has 82. */
    constructor (pattern: seq<byte>, packetSize: nat)
      requires 0 < |pattern| < packetSize <= SYNC_LIMIT + |pattern|
      ensures Valid() && this.pattern == pattern && this.packetSize == packetSize
      ensures stream == [] && status == Scanning
    {
      this.pattern, this.packetSize := pattern, packetSize;
      buffer, syncBytesRead, status, stream := [], 0, Scanning, [];
    }

    /** on_receive, for bytes that fit into the packet while the scan goes on. */
    method OnReceive(chunk: seq<byte>)
      requires Valid() && (status == Scanning ==> 0 < |chunk| <= packetSize - |buffer|)
      modifies this
      ensures Valid() && stream == old(stream) + chunk
    {
      if status == Scanning {
        Look(chunk);
      } else {
        VerdictStands(stream, chunk, pattern);
        stream := stream + chunk;
        buffer := buffer + chunk;
      }
    }

    method Look(chunk: seq<byte>)
      requires Valid() && status == Scanning && 0 < |chunk| <= packetSize - |buffer|
      modifies this
      ensures Valid() && stream == old(stream) + chunk
    {
      SkippedStay(stream, chunk, pattern, syncBytesRead);
      stream := stream + chunk;
      buffer := buffer + chunk;
      assert buffer == stream[syncBytesRead..];
      if |buffer| < |pattern| {
        if |buffer| >= packetSize {
          assert false;
        }
        return;
      }
      Search();
    }

    /** The window holds the pattern or more: look for it, and give up, go on, or lock. */
    method Search()
      requires syncBytesRead + |pattern| <= |stream| <= SYNC_LIMIT + |pattern| && buffer == stream[syncBytesRead..]
      requires status == Scanning && 0 < |pattern| < packetSize && Find(stream, pattern, syncBytesRead) == None
      modifies `buffer, `syncBytesRead, `packetSize, `status
      ensures Valid()
    {
      var syncOffset := GetSyncOffset(pattern, buffer);
      WindowVerdict(stream, syncBytesRead, pattern, if syncOffset >= 0 then Some(syncOffset) else None);
      if syncOffset == -1 {
        var bytesProcessed := |buffer| - |pattern|;
        syncBytesRead := syncBytesRead + bytesProcessed;
        if syncBytesRead >= SYNC_LIMIT {
          status := Disconnected;
          return;
        }
        CutReceiveBuffer(bytesProcessed);
        var left := SYNC_LIMIT + |pattern| - syncBytesRead;
        packetSize := if packetSize < left then packetSize else left;
      } else {
        status := Locked(syncBytesRead + syncOffset);
        CutReceiveBuffer(syncOffset + |pattern|);
      }
    }

    method CutReceiveBuffer(size: nat)
      requires size <= |buffer|
      modifies `buffer
      ensures buffer == old(buffer)[size..]
    {
      buffer := buffer[size..];
    }
  }
}
