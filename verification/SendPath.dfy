/**
  * The sending side of a peer connection: the chained buffer and the payload ranges over it. Whatever the messages are
  * cut into, the bytes leave in the order they were queued, and exactly the payload among them is counted.
  */
module SendPath {
  import opened Common
  import opened ChainedBuffer
  import opened Payloads

  /** session_impl::send_buffer_size */
  const SEND_BUFFER_SIZE: nat := 128

  lemma {:induction false} TruesJoin(a: seq<bool>, b: seq<bool>)
    ensures Trues(a + b) == Trues(a) + Trues(b)
  {
    if b == [] {
      assert a + b == a;
    } else {
      assert (a + b)[..|a + b| - 1] == a + b[..|b| - 1];
      TruesJoin(a, b[..|b| - 1]);
    }
  }

  /** What is left after n more bytes went. */
  lemma Advance<T>(all: seq<T>, sent: nat, n: nat, left: seq<T>, next: seq<T>)
    requires sent + n <= |all| && left == all[sent..] && next == left[n..]
    ensures next == all[sent + n..] && left[..n] == all[sent..sent + n] && all[..sent] + left[..n] == all[..sent + n]
  {
    DropTwice(all, sent, n);
    forall k | 0 <= k < n ensures left[..n][k] == all[sent..sent + n][k] {
      assert left[k] == all[sent + k];
    }
  }

  lemma Extend<T>(all: seq<T>, sent: nat, left: seq<T>, more: seq<T>)
    requires sent <= |all| && left == all[sent..]
    ensures left + more == (all + more)[sent..] && (all + more)[..sent] == all[..sent]
  {
  }

  class Connection {
    /** m_send_buffer, and the payload ranges and statistics of the connection */
    const chain: Chain
    const peer: PeerConnection

    /** Every byte queued so far, whether it is payload, and how many of them were sent. */
    ghost var queued: seq<byte>
    ghost var marks: seq<bool>
    ghost var sent: nat

    ghost predicate Valid()
      reads this, chain, peer
    {
      && chain.Valid() && peer.Valid() && sent <= |queued| == |marks|
      && chain.Contents() == queued[sent..] && peer.tags == marks[sent..]
      && peer.sentPayload == Trues(marks[..sent]) && peer.sentPayload + peer.sentProtocol == sent
    }

    constructor ()
      ensures Valid() && queued == [] && sent == 0 && fresh(chain) && fresh(peer)
    {
      chain := new Chain();
      peer := new PeerConnection();
      queued, marks, sent := [], [], 0;
    }

    /** send_buffer_size(): the ranges and the buffer speak of the same bytes. */
    lemma SizesAgree()
      requires Valid()
      ensures chain.bytes == peer.sendBufferSize == |queued| - sent
    {
    }

    /** The copying of peer_connection::send_buffer: the room left in the last buffer, and then new small buffers. */
    method Copy(buf: seq<byte>)
      requires chain.Valid()
      modifies chain
      ensures chain.Valid() && chain.Contents() == old(chain.Contents()) + buf
    {
      ghost var was := chain.Contents();
      var freeSpace := Min(chain.SpaceInLastBuffer(), |buf|);
      var at := 0;
      if freeSpace > 0 {
        var dst := chain.Append(buf[..freeSpace]);
        at := freeSpace;
      }
      assert buf[..0] == [];
      while at < |buf|
        invariant at <= |buf| && chain.Valid() && chain.Contents() == was + buf[..at]
      {
        var n := Min(SEND_BUFFER_SIZE, |buf| - at);
        var id: nat :| true;
        var rest: seq<byte> := seq(SEND_BUFFER_SIZE - n, _ => 0);
        chain.AppendBuffer(id, buf[at..at + n] + rest, n);
        Copied(was, buf, at, n, rest);
        at := at + n;
      }
      assert buf[..at] == buf;
    }

    lemma Copied(was: seq<byte>, buf: seq<byte>, at: nat, n: nat, rest: seq<byte>)
      requires at + n <= |buf|
      ensures was + buf[..at] + (buf[at..at + n] + rest)[..n] == was + buf[..at + n]
    {
      assert (buf[at..at + n] + rest)[..n] == buf[at..at + n];
      assert buf[..at] + buf[at..at + n] == buf[..at + n];
      Regroup(was, buf[..at], buf[at..at + n]);
    }

    /** A message without payload. */
    method SendBuffer(buf: seq<byte>)
      requires Valid()
      modifies this, chain, peer
      ensures Valid() && queued == old(queued) + buf && marks == old(marks) + Same(false, |buf|) && sent == old(sent)
    {
      Extend(queued, sent, queued[sent..], buf);
      Extend(marks, sent, marks[sent..], Same(false, |buf|));
      Copy(buf);
      peer.SendBuffer(|buf|);
      queued, marks := queued + buf, marks + Same(false, |buf|);
    }

    /** write_piece: the header is copied, and the block is appended as it is. */
    method WritePiece(header: seq<byte>, block: seq<byte>)
      requires Valid() && block != []
      modifies this, chain, peer
      ensures Valid() && queued == old(queued) + (header + block) && sent == old(sent)
      ensures marks == old(marks) + (Same(false, |header|) + Same(true, |block|))
    {
      ghost var bytes, tags := header + block, Same(false, |header|) + Same(true, |block|);
      Extend(queued, sent, queued[sent..], bytes);
      Extend(marks, sent, marks[sent..], tags);
      Regroup(queued[sent..], header, block);
      Regroup(marks[sent..], Same(false, |header|), Same(true, |block|));
      Copy(header);
      var id: nat :| true;
      chain.AppendBuffer(id, block, |block|);
      assert block[..|block|] == block;
      peer.WritePiece(|header|, |block|);
      queued, marks := queued + bytes, marks + tags;
    }

    /** The end of setup_send: what the socket gets to write are the bytes that are next, as far as the quota allows. */
    method SetupSend(quota: nat) returns (amount: nat)
      requires Valid()
      modifies chain
      ensures Valid() && sent + amount <= |queued| && amount == Min(|queued| - sent, quota)
      ensures Flatten(chain.tmpVec) == queued[sent..sent + amount]
    {
      amount := Min(chain.bytes, quota);
      ghost var left := queued[sent..];
      Advance(queued, sent, amount, left, left[amount..]);
      chain.BuildIovec(amount);
      assert left[..|left|] == left;
    }

    /** on_send_data: the bytes leave the buffer, and the payload among them is counted. */
    method OnSendData(n: nat)
      requires Valid() && sent + n <= |queued|
      modifies this, chain, peer
      ensures Valid() && sent == old(sent) + n && queued == old(queued) && marks == old(marks)
      ensures peer.sentPayload - old(peer.sentPayload) == Trues(marks[old(sent)..sent])
    {
      Advance(queued, sent, n, queued[sent..], queued[sent..][n..]);
      Advance(marks, sent, n, marks[sent..], marks[sent..][n..]);
      TruesJoin(marks[..sent], marks[sent..][..n]);
      chain.PopFront(n);
      peer.OnSent(n);
      sent := sent + n;
    }
  }
}
