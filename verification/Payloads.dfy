/** The payload ranges of bt_peer_connection, which slide over the send buffer as it is filled and sent. */
module Payloads {

  datatype Range = Range(start: int, length: int)

  predicate Contains(r: Range, p: int) { r.start <= p < r.start + r.length }

  predicate InAny(ranges: seq<Range>, p: int) {
    ranges != [] && (Contains(ranges[|ranges| - 1], p) || InAny(ranges[..|ranges| - 1], p))
  }

  /** One after the other, without overlap, none of them empty, all of them within the buffer. */
  ghost predicate Ordered(ranges: seq<Range>, size: int) {
    && (forall i :: 0 <= i < |ranges| ==> 0 <= ranges[i].start && 0 < ranges[i].length
                                          && ranges[i].start + ranges[i].length <= size)
    && (forall i :: 0 < i < |ranges| ==> ranges[i - 1].start + ranges[i - 1].length <= ranges[i].start)
  }

  function Trues(tags: seq<bool>): nat {
    if tags == [] then 0 else Trues(tags[..|tags| - 1]) + if tags[|tags| - 1] then 1 else 0
  }

  /** The tags say of every byte in the send buffer whether it is payload, and the ranges say the same. */
  ghost predicate Agree(ranges: seq<Range>, tags: seq<bool>) {
    forall p :: 0 <= p < |tags| ==> (tags[p] <==> InAny(ranges, p))
  }

  /** What on_sent counts of a range. */
  function Sent(r: Range, n: nat): int {
    var start := r.start - n;
    if start >= 0 then 0 else if start + r.length <= 0 then r.length else -start
  }

  /** What on_sent leaves of a range; gone ones keep a negative start. */
  function Slid(r: Range, n: nat): Range {
    var start := r.start - n;
    if start < 0 && start + r.length > 0 then Range(0, r.length + start) else Range(start, r.length)
  }

  function SentOf(ranges: seq<Range>, n: nat): int {
    if ranges == [] then 0 else SentOf(ranges[..|ranges| - 1], n) + Sent(ranges[|ranges| - 1], n)
  }

  /** std::remove_if with range_below_zero, over the ranges that slid. */
  function Left(ranges: seq<Range>, n: nat): seq<Range> {
    if ranges == [] then []
    else
      var r := Slid(ranges[|ranges| - 1], n);
      Left(ranges[..|ranges| - 1], n) + if r.start < 0 then [] else [r]
  }

  lemma OrderedPrefix(ranges: seq<Range>, size: int)
    requires Ordered(ranges, size) && ranges != []
    ensures Ordered(ranges[..|ranges| - 1], ranges[|ranges| - 1].start)
    ensures Ordered(ranges[..|ranges| - 1], size)
  {
    var last := ranges[|ranges| - 1];
    var front := ranges[..|ranges| - 1];
    EndsBelow(ranges, size);
  }

  lemma {:induction false} EndsBelow(ranges: seq<Range>, size: int)
    requires Ordered(ranges, size)
    ensures forall i :: 0 <= i < |ranges| - 1 ==> ranges[i].start + ranges[i].length <= ranges[|ranges| - 1].start
  {
    if |ranges| > 1 {
      var front := ranges[..|ranges| - 1];
      assert Ordered(front, size);
      EndsBelow(front, size);
    }
  }

  lemma {:induction false} NotBeyond(ranges: seq<Range>, size: int, p: int)
    requires Ordered(ranges, size) && (p >= size || p < 0)
    ensures !InAny(ranges, p)
  {
    if ranges != [] {
      OrderedPrefix(ranges, size);
      NotBeyond(ranges[..|ranges| - 1], size, p);
    }
  }

  // ----- Sending -----

  /** The ranges that are left are the old ones, moved to the front by what was sent. */
  lemma {:induction false} LeftSlides(ranges: seq<Range>, size: int, n: nat, p: int)
    requires Ordered(ranges, size) && 0 <= p
    ensures InAny(Left(ranges, n), p) <==> InAny(ranges, p + n)
  {
    if ranges != [] {
      OrderedPrefix(ranges, size);
      LeftSlides(ranges[..|ranges| - 1], size, n, p);
      var front := Left(ranges[..|ranges| - 1], n);
      var r := Slid(ranges[|ranges| - 1], n);
      if r.start >= 0 {
        assert (front + [r])[..|front|] == front;
      } else {
        assert front + [] == front;
      }
    }
  }

  lemma OrderedAppend(front: seq<Range>, r: Range, size: int, limit: int)
    requires Ordered(front, limit) && (front == [] || limit <= r.start)
    requires 0 <= r.start && 0 < r.length && r.start + r.length <= size
    ensures Ordered(front + [r], size)
  {
  }

  /** What is left is in order, even if more was sent than the buffer held. */
  lemma {:induction false} LeftOrdered(ranges: seq<Range>, size: int, n: nat)
    requires Ordered(ranges, size)
    ensures Ordered(Left(ranges, n), size - n)
  {
    if ranges != [] {
      OrderedPrefix(ranges, size);
      var front, last := ranges[..|ranges| - 1], ranges[|ranges| - 1];
      LeftOrdered(front, last.start, n);
      var r := Slid(last, n);
      if r.start >= 0 {
        OrderedAppend(Left(front, n), r, size - n, last.start - n);
      } else {
        assert Left(ranges, n) == Left(front, n);
      }
    }
  }

  /** One more byte sent: it counts exactly if it is payload. */
  lemma {:induction false} SentGrows(ranges: seq<Range>, size: int, n: nat)
    requires Ordered(ranges, size)
    ensures SentOf(ranges, n + 1) == SentOf(ranges, n) + if InAny(ranges, n) then 1 else 0
  {
    if ranges != [] {
      OrderedPrefix(ranges, size);
      var front, last := ranges[..|ranges| - 1], ranges[|ranges| - 1];
      SentGrows(front, size, n);
      if n >= last.start {
        NotBeyond(front, last.start, n);
      }
    }
  }

  lemma {:induction false} NothingSent(ranges: seq<Range>, size: int)
    requires Ordered(ranges, size)
    ensures SentOf(ranges, 0) == 0
  {
    if ranges != [] {
      OrderedPrefix(ranges, size);
      NothingSent(ranges[..|ranges| - 1], size);
    }
  }

  /** What on_sent counts is the number of payload bytes among those that were sent. */
  lemma {:induction false} SentIsTrues(ranges: seq<Range>, tags: seq<bool>, n: nat)
    requires Ordered(ranges, |tags|) && Agree(ranges, tags) && n <= |tags|
    ensures SentOf(ranges, n) == Trues(tags[..n])
    decreases n
  {
    if n == 0 {
      NothingSent(ranges, |tags|);
    } else {
      SentIsTrues(ranges, tags, n - 1);
      SentGrows(ranges, |tags|, n - 1);
      assert tags[..n][..n - 1] == tags[..n - 1];
    }
  }

  lemma LeftAgrees(ranges: seq<Range>, tags: seq<bool>, n: nat)
    requires Ordered(ranges, |tags|) && Agree(ranges, tags) && n <= |tags|
    ensures Agree(Left(ranges, n), tags[n..])
  {
    forall p: nat | p < |tags| - n ensures tags[n..][p] <==> InAny(Left(ranges, n), p) {
      LeftSlides(ranges, |tags|, n, p);
    }
  }

  function Same(b: bool, n: nat): seq<bool> { seq(n, i => b) }

  // ----- Filling -----

  lemma AppendAgrees(ranges: seq<Range>, tags: seq<bool>, n: nat)
    requires Ordered(ranges, |tags|) && Agree(ranges, tags)
    ensures Ordered(ranges, |tags| + n) && Agree(ranges, tags + Same(false, n))
  {
    forall p | |tags| <= p < |tags| + n ensures !InAny(ranges, p) {
      NotBeyond(ranges, |tags|, p);
    }
  }

  lemma PieceAgrees(ranges: seq<Range>, tags: seq<bool>, n: nat)
    requires Ordered(ranges, |tags|) && Agree(ranges, tags) && n > 0
    ensures Ordered(ranges + [Range(|tags|, n)], |tags| + n)
    ensures Agree(ranges + [Range(|tags|, n)], tags + Same(true, n))
  {
    var r := Range(|tags|, n);
    assert (ranges + [r])[..|ranges|] == ranges;
    EndsBelow(ranges, |tags|);
  }

  class PeerConnection {
    /** m_payloads, and the number of bytes in the send buffer */
    var payloads: seq<Range>
    var sendBufferSize: nat
    var sentPayload: nat
    var sentProtocol: nat

    /** Which bytes of the send buffer are payload. */
    ghost var tags: seq<bool>

    ghost predicate Valid()
      reads this
    {
      |tags| == sendBufferSize && Ordered(payloads, sendBufferSize) && Agree(payloads, tags)
    }

    constructor ()
      ensures Valid() && tags == [] && sentPayload == sentProtocol == 0
    {
      payloads, sendBufferSize, sentPayload, sentProtocol, tags := [], 0, 0, 0, [];
    }

    /** Any message without payload. */
    method SendBuffer(n: nat)
      requires Valid()
      modifies `sendBufferSize, `tags
      ensures Valid() && tags == old(tags) + Same(false, n)
    {
      AppendAgrees(payloads, tags, n);
      tags := tags + Same(false, n);
      sendBufferSize := sendBufferSize + n;
    }

    /** write_piece: a header, and then the block as payload. */
    method WritePiece(header: nat, length: nat)
      requires Valid() && length > 0
      modifies `payloads, `sendBufferSize, `tags
      ensures Valid() && tags == old(tags) + Same(false, header) + Same(true, length)
    {
      SendBuffer(header);
      PieceAgrees(payloads, tags, length);
      tags := tags + Same(true, length);
      sendBufferSize := sendBufferSize + length;
      payloads := payloads + [Range(sendBufferSize - length, length)];
    }

    /** on_sent: the bytes leave the front, and those of them that are payload are counted. */
    method OnSent(n: nat)
      requires Valid() && n <= sendBufferSize
      modifies this
      ensures Valid() && tags == old(tags)[n..]
      ensures sentPayload == old(sentPayload) + Trues(old(tags)[..n])
      ensures sentPayload + sentProtocol == old(sentPayload) + old(sentProtocol) + n
    {
      ghost var was := payloads;
      SentIsTrues(was, tags, n);
      LeftAgrees(was, tags, n);
      LeftOrdered(was, |tags|, n);
      TruesBound(tags[..n]);
      var amountPayload := Slide(n);
      RemoveBelowZero(was, n);
      tags := tags[n..];
      sendBufferSize := sendBufferSize - n;
      sentPayload := sentPayload + amountPayload;
      sentProtocol := sentProtocol + (n - amountPayload);
    }

    /** The first loop of on_sent. */
    method Slide(n: nat) returns (amountPayload: int)
      modifies `payloads
      ensures amountPayload == SentOf(old(payloads), n)
      ensures |payloads| == |old(payloads)|
      ensures forall i :: 0 <= i < |payloads| ==> payloads[i] == Slid(old(payloads)[i], n)
    {
      amountPayload := 0;
      ghost var was := payloads;
      for i := 0 to |payloads|
        invariant |payloads| == |was| && amountPayload == SentOf(was[..i], n)
        invariant forall k :: 0 <= k < |was| ==> payloads[k] == if k < i then Slid(was[k], n) else was[k]
      {
        assert was[..i + 1][..i] == was[..i];
        var r := payloads[i];
        r := r.(start := r.start - n);
        if r.start < 0 {
          if r.start + r.length <= 0 {
            amountPayload := amountPayload + r.length;
          } else {
            amountPayload := amountPayload + -r.start;
            r := Range(0, r.length + r.start);
          }
        }
        payloads := payloads[i := r];
      }
      assert was[..|was|] == was;
    }

    /** The erasure behind it. */
    method RemoveBelowZero(ghost was: seq<Range>, ghost n: nat)
      requires |payloads| == |was| && forall i :: 0 <= i < |was| ==> payloads[i] == Slid(was[i], n)
      modifies `payloads
      ensures payloads == Left(was, n)
    {
      var kept := [];
      for i := 0 to |payloads|
        invariant payloads == old(payloads) && kept == Left(was[..i], n)
      {
        assert was[..i + 1][..i] == was[..i];
        if payloads[i].start >= 0 {
          kept := kept + [payloads[i]];
        }
      }
      assert was[..|was|] == was;
      payloads := kept;
    }
  }

  lemma {:induction false} TruesBound(tags: seq<bool>)
    ensures Trues(tags) <= |tags|
  {
    if tags != [] {
      TruesBound(tags[..|tags| - 1]);
    }
  }
}
