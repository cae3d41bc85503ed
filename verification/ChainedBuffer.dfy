/** chained_buffer: a rope of buffers that stands for one sequence of bytes. */
module ChainedBuffer {
  import opened Common

  /** A buffer that was handed in: its memory, and the part of it that is in use. The id stands for its address. */
  datatype Buffer = Buffer(id: nat, memory: seq<byte>, start: nat, used: nat)

  predicate Fits(b: Buffer) { b.start + b.used <= |b.memory| }

  function Bytes(b: Buffer): (s: seq<byte>)
    requires Fits(b)
    ensures |s| == b.used
  {
    b.memory[b.start..b.start + b.used]
  }

  ghost predicate AllFit(vec: seq<Buffer>) {
    forall b <- vec :: Fits(b)
  }

  function Joined(vec: seq<Buffer>): seq<byte>
    requires AllFit(vec)
  {
    if vec == [] then [] else Bytes(vec[0]) + Joined(vec[1..])
  }

  function Ids(vec: seq<Buffer>): seq<nat> {
    seq(|vec|, i requires 0 <= i < |vec| => vec[i].id)
  }

  function Capacity(vec: seq<Buffer>): nat {
    if vec == [] then 0 else |vec[0].memory| + Capacity(vec[1..])
  }

  lemma {:induction false} JoinedAppend(vec: seq<Buffer>, b: Buffer)
    requires AllFit(vec) && Fits(b)
    ensures AllFit(vec + [b]) && Joined(vec + [b]) == Joined(vec) + Bytes(b)
    ensures Capacity(vec + [b]) == Capacity(vec) + |b.memory|
    ensures Ids(vec + [b]) == Ids(vec) + [b.id]
  {
    if vec == [] {
      assert Joined([b]) == Bytes(b) + Joined([]);
    } else {
      assert (vec + [b])[1..] == vec[1..] + [b];
      JoinedAppend(vec[1..], b);
    }
  }

  lemma FlatAppend(parts: seq<seq<byte>>, p: seq<byte>)
    ensures Flatten(parts + [p]) == Flatten(parts) + p
  {
    Snoc(parts, p);
  }

  /** Dropping from the front of a buffer drops from the front of the whole. */
  lemma DropWithin(vec: seq<Buffer>, n: nat, b: Buffer)
    requires AllFit(vec) && vec != [] && n <= vec[0].used
    requires b == vec[0].(start := vec[0].start + n, used := vec[0].used - n)
    ensures AllFit([b] + vec[1..]) && Joined([b] + vec[1..]) == Joined(vec)[n..]
    ensures Capacity([b] + vec[1..]) == Capacity(vec) && Ids([b] + vec[1..]) == Ids(vec)
  {
    assert vec[0] in vec && ([b] + vec[1..])[1..] == vec[1..];
    DropPrefix(Bytes(vec[0]), Joined(vec[1..]), n);
    assert Bytes(b) == Bytes(vec[0])[n..];
  }

  lemma DropPrefix(a: seq<byte>, b: seq<byte>, n: nat)
    requires n <= |a|
    ensures (a + b)[n..] == a[n..] + b
  {
  }

  lemma DropBuffer(vec: seq<Buffer>, n: nat)
    requires AllFit(vec) && vec != [] && vec[0].used <= n <= |Joined(vec)|
    ensures AllFit(vec[1..]) && Joined(vec[1..])[n - vec[0].used..] == Joined(vec)[n..]
    ensures Ids(vec) == [vec[0].id] + Ids(vec[1..])
  {
  }

  function EndOfLast(vec: seq<Buffer>): nat
    requires vec != []
  {
    vec[|vec| - 1].start + vec[|vec| - 1].used
  }

  function Stretched(vec: seq<Buffer>, s: nat): seq<Buffer>
    requires vec != []
  {
    vec[..|vec| - 1] + [vec[|vec| - 1].(used := vec[|vec| - 1].used + s)]
  }

  function Filled(vec: seq<Buffer>, buf: seq<byte>): seq<Buffer>
    requires vec != [] && EndOfLast(vec) + |buf| <= |vec[|vec| - 1].memory|
  {
    var b, at := vec[|vec| - 1], EndOfLast(vec);
    vec[..|vec| - 1] + [b.(used := b.used + |buf|, memory := b.memory[..at] + buf + b.memory[at + |buf|..])]
  }

  /** More of the last buffer in use: the whole is longer, and as before at its front. */
  lemma StretchLast(vec: seq<Buffer>, s: nat)
    requires AllFit(vec) && vec != [] && EndOfLast(vec) + s <= |vec[|vec| - 1].memory|
    ensures AllFit(Stretched(vec, s)) && |Joined(Stretched(vec, s))| == |Joined(vec)| + s
    ensures Capacity(Stretched(vec, s)) == Capacity(vec) && Ids(Stretched(vec, s)) == Ids(vec)
  {
    var front, b := vec[..|vec| - 1], vec[|vec| - 1];
    assert vec == front + [b];
    JoinedAppend(front, b);
    JoinedAppend(front, b.(used := b.used + s));
  }

  lemma FillLast(vec: seq<Buffer>, buf: seq<byte>)
    requires AllFit(vec) && vec != [] && EndOfLast(vec) + |buf| <= |vec[|vec| - 1].memory|
    ensures AllFit(Filled(vec, buf)) && Joined(Filled(vec, buf)) == Joined(vec) + buf
    ensures Capacity(Filled(vec, buf)) == Capacity(vec) && Ids(Filled(vec, buf)) == Ids(vec)
  {
    var front, b, at := vec[..|vec| - 1], vec[|vec| - 1], EndOfLast(vec);
    var c := b.(used := b.used + |buf|, memory := b.memory[..at] + buf + b.memory[at + |buf|..]);
    assert vec == front + [b];
    JoinedAppend(front, b);
    JoinedAppend(front, c);
    assert Bytes(c) == Bytes(b) + buf;
  }

  function UpTo(s: seq<byte>, n: nat): seq<byte> {
    if n < |s| then s[..n] else s
  }

  lemma TakeBuffer(vec: seq<Buffer>, n: nat)
    requires AllFit(vec) && vec != []
    ensures vec[0] in vec && AllFit(vec[1..])
    ensures (UpTo(Joined(vec), n) == if n < vec[0].used then Bytes(vec[0])[..n]
                                     else Bytes(vec[0]) + UpTo(Joined(vec[1..]), n - vec[0].used))
    ensures n == vec[0].used ==> UpTo(Joined(vec), n) == Bytes(vec[0])
  {
    assert vec[0] in vec;
    TakePrefix(Bytes(vec[0]), Joined(vec[1..]), n);
  }

  lemma TakePrefix(a: seq<byte>, b: seq<byte>, n: nat)
    ensures UpTo(a + b, n) == if n < |a| then a[..n] else a + UpTo(b, n - |a|)
    ensures n == |a| ==> UpTo(a + b, n) == a
  {
  }

  class Chain {
    /** m_vec, m_bytes, m_capacity and m_tmp_vec */
    var vec: seq<Buffer>
    var bytes: int
    var capacity: int
    var tmpVec: seq<seq<byte>>

    /** Every buffer handed in so far, and those whose destructor was called, in order. */
    ghost var handed: seq<nat>
    ghost var freed: seq<nat>

    ghost predicate Valid()
      reads this
    {
      && AllFit(vec) && bytes == |Joined(vec)| && capacity == Capacity(vec)
      && handed == freed + Ids(vec)
    }

    ghost function Contents(): seq<byte>
      requires Valid()
      reads this
    {
      Joined(vec)
    }

    constructor ()
      ensures Valid() && Contents() == [] && handed == []
    {
      vec, bytes, capacity, tmpVec := [], 0, 0, [];
      handed, freed := [], [];
    }

    method PopFront(bytesToPop: nat)
      requires Valid() && bytesToPop <= bytes
      modifies this
      ensures Valid() && Contents() == old(Contents())[bytesToPop..] && handed == old(handed)
    {
      var n: nat := bytesToPop;
      ghost var was := Contents();
      while n > 0 && vec != []
        invariant Valid() && handed == old(handed)
        invariant n <= |Joined(vec)| && bytesToPop <= |was| && Joined(vec)[n..] == was[bytesToPop..]
        decreases n, |vec|
      {
        n := PopSome(n);
      }
    }

    /** One iteration: the front buffer loses its first bytes, or goes. */
    method PopSome(n: nat) returns (rest: nat)
      requires Valid() && vec != [] && 0 < n <= bytes
      modifies this
      ensures Valid() && handed == old(handed) && rest <= |Joined(vec)|
      ensures Joined(vec)[rest..] == old(Joined(vec))[n..]
      ensures rest < n || (rest == n && |vec| < |old(vec)|)
    {
      var b := vec[0];
      if b.used > n {
        b := b.(start := b.start + n, used := b.used - n);
        DropWithin(vec, n, b);
        vec := [b] + vec[1..];
        bytes := bytes - n;
        return 0;
      }
      DropBuffer(vec, n);
      freed := freed + [b.id];
      bytes := bytes - b.used;
      capacity := capacity - |b.memory|;
      vec := vec[1..];
      return n - b.used;
    }

    method AppendBuffer(id: nat, memory: seq<byte>, used: nat)
      requires Valid() && used <= |memory|
      modifies this
      ensures Valid() && Contents() == old(Contents()) + memory[..used] && handed == old(handed) + [id]
    {
      var b := Buffer(id, memory, 0, used);
      JoinedAppend(vec, b);
      vec := vec + [b];
      bytes := bytes + used;
      capacity := capacity + |memory|;
      handed := handed + [id];
    }

    function SpaceInLastBuffer(): (r: nat)
      requires AllFit(vec)
      reads this
    {
      if vec == [] then 0
      else assert vec[|vec| - 1] in vec; |vec[|vec| - 1].memory| - vec[|vec| - 1].used - vec[|vec| - 1].start
    }

    /** The offset of the new room in the last buffer, if there is enough. The bytes there are whatever they were. */
    method AllocateAppendix(s: nat) returns (insert: Option<nat>)
      requires Valid()
      modifies `vec, `bytes
      ensures Valid() && (insert.Some? <==> vec != [] && s <= old(SpaceInLastBuffer()))
      ensures vec == if insert.Some? then Stretched(old(vec), s) else old(vec)
      ensures insert.Some? ==> insert.value == EndOfLast(old(vec))
    {
      if vec == [] {
        return None;
      }
      var front, b := vec[..|vec| - 1], vec[|vec| - 1];
      assert vec == front + [b] && b in vec;
      insert := Some(b.start + b.used);
      if b.start + b.used + s > |b.memory| {
        return None;
      }
      StretchLast(vec, s);
      vec := front + [b.(used := b.used + s)];
      bytes := bytes + s;
    }

    /** The offset at which the bytes were copied into the last buffer, if there was enough room. */
    method Append(buf: seq<byte>) returns (insert: Option<nat>)
      requires Valid()
      modifies `vec, `bytes
      ensures Valid() && (insert.Some? <==> old(vec) != [] && |buf| <= old(SpaceInLastBuffer()))
      ensures Contents() == if insert.Some? then old(Contents()) + buf else old(Contents())
    {
      ghost var was := vec;
      insert := AllocateAppendix(|buf|);
      if insert.None? {
        return;
      }
      var b, at := vec[|vec| - 1], insert.value;
      StretchLast(was, |buf|);
      FillLast(was, buf);
      vec := vec[..|vec| - 1] + [b.(memory := b.memory[..at] + buf + b.memory[at + |buf|..])];
      assert vec == Filled(was, buf);
    }

    /** The first bytes of the whole, or all of them, as slices of the buffers. */
    method BuildIovec(toSend: nat)
      requires Valid()
      modifies `tmpVec
      ensures Flatten(tmpVec) == UpTo(Contents(), toSend)
    {
      tmpVec := [];
      var n: nat := toSend;
      var rest := vec;
      while n > 0 && rest != []
        invariant AllFit(rest) && UpTo(Joined(vec), toSend) == Flatten(tmpVec) + UpTo(Joined(rest), n)
        decreases |rest|
      {
        n := Slice(n, rest);
        rest := if n == 0 then [] else rest[1..];
      }
    }

    /** One iteration: a part of a buffer ends the list, a whole one continues it. */
    method Slice(n: nat, rest: seq<Buffer>) returns (left: nat)
      requires rest != [] && AllFit(rest) && n > 0
      modifies `tmpVec
      ensures left == 0 || AllFit(rest[1..])
      ensures (old(Flatten(tmpVec)) + UpTo(Joined(rest), n)
        == Flatten(tmpVec) + if left == 0 then [] else UpTo(Joined(rest[1..]), left))
    {
      var b := rest[0];
      assert b in rest;
      TakeBuffer(rest, n);
      if b.used > n {
        FlatAppend(tmpVec, Bytes(b)[..n]);
        tmpVec := tmpVec + [Bytes(b)[..n]];
        return 0;
      }
      FlatAppend(tmpVec, Bytes(b));
      tmpVec := tmpVec + [Bytes(b)];
      return n - b.used;
    }

    /** The destructor: every buffer that is left is freed, so each buffer handed in was freed once, in its turn. */
    method Destroy()
      requires Valid()
      modifies this
      ensures freed == handed == old(handed)
    {
      for i := 0 to |vec|
        invariant vec == old(vec) && handed == old(handed) && freed == old(freed) + Ids(vec)[..i]
      {
        freed := freed + [vec[i].id];
      }
    }
  }
}
