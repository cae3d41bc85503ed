/**
  * The filters of audiocvt.h that double or halve a buffer in place. Each frame of a few bytes becomes two, from the
  * last to the first, or two become one, from the first to the last.
  */
module AudioFilters {
  import opened Common

  /** RateMUL2 and ConvertStereo duplicate; Convert16LSB and Convert16MSB add a zero to every byte. */
  datatype Widening = Duplicate | ZeroBefore | ZeroAfter

  /** RateDIV2, and Convert8 on big-endian samples, keep the first; Convert8 otherwise the second; ConvertMono mixes. */
  datatype Narrowing = KeepFirst | KeepSecond | Mix(signed: bool, bigEndian: bool)

  predicate Fits(e: Widening, width: nat) { 0 < width && (e != Duplicate ==> width == 1) }

  predicate Mixes(r: Narrowing, width: nat) { 0 < width && (r.Mix? ==> width <= 2) }

  function Wide(e: Widening, f: seq<byte>): (w: seq<byte>)
    ensures e == Duplicate || |f| == 1 ==> |w| == 2 * |f|
  {
    match e
    case Duplicate => f + f
    case ZeroBefore => [0] + f
    case ZeroAfter => f + [0]
  }

  // ----- Mixing -----

  /** A sample of one byte or two. */
  function Sample(f: seq<byte>, signed: bool, bigEndian: bool): int
    requires 1 <= |f| <= 2
  {
    var u := if |f| == 1 then f[0] as int
             else if bigEndian then f[0] as int * 0x100 + f[1] as int else f[1] as int * 0x100 + f[0] as int;
    var range := if |f| == 1 then 0x100 else 0x1_0000;
    if signed && u >= range / 2 then u - range else u
  }

  /** The division of C truncates towards zero. */
  function HalfOf(sum: int): int {
    if sum < 0 then -(-sum / 2) else sum / 2
  }

  /** The low bytes of a sample, as the masks and shifts take them. */
  function SampleBytes(v: int, width: nat, bigEndian: bool): seq<byte>
    requires 1 <= width <= 2
  {
    var low, high := (v % 0x100) as byte, (v / 0x100 % 0x100) as byte;
    if width == 1 then [low] else if bigEndian then [high, low] else [low, high]
  }

  function Merged(r: Narrowing, a: seq<byte>, b: seq<byte>): (m: seq<byte>)
    requires |a| == |b| && Mixes(r, |a|)
    ensures |m| == |a|
  {
    match r
    case KeepFirst => a
    case KeepSecond => b
    case Mix(signed, bigEndian) =>
      SampleBytes(HalfOf(Sample(a, signed, bigEndian) + Sample(b, signed, bigEndian)), |a|, bigEndian)
  }

  lemma BytesOfSample(f: seq<byte>, signed: bool, bigEndian: bool)
    requires 1 <= |f| <= 2
    ensures SampleBytes(Sample(f, signed, bigEndian), |f|, bigEndian) == f
  {
    var u := if |f| == 1 then f[0] as int
             else if bigEndian then f[0] as int * 0x100 + f[1] as int else f[1] as int * 0x100 + f[0] as int;
    var v := Sample(f, signed, bigEndian);
    assert v == u || v == u - 0x100 || v == u - 0x1_0000;
    assert v % 0x100 == u % 0x100;
    assert |f| == 2 ==> v / 0x100 % 0x100 == u / 0x100;
  }

  lemma HalfTwice(v: int)
    ensures HalfOf(v + v) == v
  {
  }

  /** Mixing a sample with itself gives it back. */
  lemma MixSame(f: seq<byte>, signed: bool, bigEndian: bool)
    requires 1 <= |f| <= 2
    ensures Merged(Mix(signed, bigEndian), f, f) == f
  {
    HalfTwice(Sample(f, signed, bigEndian));
    BytesOfSample(f, signed, bigEndian);
  }

  /** A mixed sample lies between the two that were mixed. */
  lemma MixBetween(a: seq<byte>, b: seq<byte>, signed: bool, bigEndian: bool)
    requires 1 <= |a| == |b| <= 2
    ensures var x, y := Sample(a, signed, bigEndian), Sample(b, signed, bigEndian);
      var m := Sample(Merged(Mix(signed, bigEndian), a, b), signed, bigEndian);
      && ((x <= m <= y) || (y <= m <= x))
      && (if x + y >= 0 then 2 * m <= x + y <= 2 * m + 1 else 2 * m - 1 <= x + y <= 2 * m)
  {
    var x, y := Sample(a, signed, bigEndian), Sample(b, signed, bigEndian);
    var h := HalfOf(x + y);
    assert (x <= h <= y) || (y <= h <= x);
    SampleOfBytes(h, |a|, signed, bigEndian);
  }

  lemma SampleOfBytes(v: int, width: nat, signed: bool, bigEndian: bool)
    requires 1 <= width <= 2
    requires var range := if width == 1 then 0x100 else 0x1_0000;
      if signed then -range / 2 <= v < range / 2 else 0 <= v < range
    ensures Sample(SampleBytes(v, width, bigEndian), signed, bigEndian) == v
  {
  }

  // ----- Whole buffers, out of place -----

  function Widened(e: Widening, width: nat, s: seq<byte>): seq<byte>
    requires width > 0
    decreases |s|
  {
    if |s| < width then [] else Wide(e, s[..width]) + Widened(e, width, s[width..])
  }

  function Narrowed(r: Narrowing, width: nat, s: seq<byte>): seq<byte>
    requires Mixes(r, width)
    decreases |s|
  {
    if |s| < 2 * width then []
    else Merged(r, s[..width], s[width..2 * width]) + Narrowed(r, width, s[2 * width..])
  }

  /**
    * Sample i of a buffer of 8-bit samples becomes 0x100 times as large, read in the byte order of the filter: the zero
    * is the low byte.
    */
  lemma {:induction false} WidenedSample(e: Widening, s: seq<byte>, i: nat, signed: bool)
    requires e != Duplicate && i < |s|
    ensures |Widened(e, 1, s)| == 2 * |s|
    ensures (Sample(Widened(e, 1, s)[2 * i..2 * i + 2], signed, e == ZeroAfter)
      == 0x100 * Sample([s[i]], signed, e == ZeroAfter))
    decreases |s|
  {
    var first, rest := Wide(e, s[..1]), Widened(e, 1, s[1..]);
    if |s| == 1 {
      assert Widened(e, 1, s[1..]) == [];
    } else {
      WidenedSample(e, s[1..], if i > 0 then i - 1 else 0, signed);
    }
    var w := Widened(e, 1, s);
    assert w == first + rest;
    if i == 0 {
      assert w[0..2] == first;
    } else {
      assert w[2 * i..2 * i + 2] == rest[2 * (i - 1)..2 * (i - 1) + 2];
    }
  }

  /** The partners of a widening. */
  predicate Undoes(r: Narrowing, e: Widening) {
    match e
    case Duplicate => true
    case ZeroBefore => r == KeepSecond
    case ZeroAfter => r == KeepFirst
  }

  /** The bytes of a number of frames. */
  function Span(frames: nat, width: nat): nat {
    if frames == 0 then 0 else Span(frames - 1, width) + width
  }

  lemma {:induction false} SpanIs(frames: nat, width: nat)
    ensures Span(frames, width) == frames * width
  {
    if frames > 0 {
      SpanIs(frames - 1, width);
      assert (frames - 1) * width + width == frames * width;
    }
  }

  /** The loop counters of the filters. */
  lemma CountFrames(frames: nat, width: nat)
    requires width > 0
    ensures Span(frames, width) / width == frames
  {
    SpanIs(frames, width);
    var q := frames * width / width;
    assert (frames + 1) * width == frames * width + width && (q + 1) * width == q * width + width;
    Cancel(q, frames + 1, width);
    Cancel(frames, q + 1, width);
  }

  lemma Cancel(a: nat, b: nat, width: nat)
    requires a * width < b * width
    ensures a < b
  {
    if b <= a {
      Ordered(b, a, width);
    }
  }

  lemma Ordered(a: nat, b: nat, width: nat)
    requires a <= b
    ensures a * width <= b * width
  {
  }

  /** On whole frames the partner gives back every byte. */
  lemma {:induction false} NarrowedWidened(e: Widening, r: Narrowing, width: nat, s: seq<byte>, frames: nat,
                                           wide: seq<byte>)
    requires Fits(e, width) && Mixes(r, width) && Undoes(r, e) && |s| == Span(frames, width)
    requires wide == Widened(e, width, s)
    ensures Narrowed(r, width, wide) == s
    decreases frames
  {
    if frames > 0 {
      var f, rest := s[..width], s[width..];
      var others := Widened(e, width, rest);
      Cut(s, width);
      NarrowedWidened(e, r, width, rest, frames - 1, others);
      FrameUndone(e, r, f, others, wide);
    }
  }

  /** One frame in front of the rest. */
  lemma FrameUndone(e: Widening, r: Narrowing, f: seq<byte>, w: seq<byte>, t: seq<byte>)
    requires Fits(e, |f|) && Mixes(r, |f|) && Undoes(r, e) && t == Wide(e, f) + w
    ensures Narrowed(r, |f|, t) == f + Narrowed(r, |f|, w)
  {
    assert t[..|f|] + t[|f|..2 * |f|] == Wide(e, f) && t[2 * |f|..] == w;
    HalvesUndone(e, r, f, t[..|f|], t[|f|..2 * |f|]);
  }

  lemma HalvesUndone(e: Widening, r: Narrowing, f: seq<byte>, a: seq<byte>, b: seq<byte>)
    requires Fits(e, |f|) && Mixes(r, |f|) && Undoes(r, e) && |a| == |b| == |f| && a + b == Wide(e, f)
    ensures Merged(r, a, b) == f
  {
    assert a == (a + b)[..|a|] && b == (a + b)[|a|..];
    if e == Duplicate {
      assert (f + f)[..|f|] == f && (f + f)[|f|..] == f;
      if r.Mix? {
        MixSame(f, r.signed, r.bigEndian);
      }
    }
  }

  // ----- The loops -----

  class AudioConvert {
    /** m_buf and m_len_cvt */
    const buf: array<byte>
    var lenCvt: nat

    constructor (buf: array<byte>, len: nat)
      requires len <= buf.Length
      ensures this.buf == buf && lenCvt == len
    {
      this.buf, lenCvt := buf, len;
    }

    /** Byte by byte; source and target are the same place, or apart. */
    method CopyWithin(src: nat, dst: nat, width: nat)
      requires src + width <= buf.Length && dst + width <= buf.Length
      requires src == dst || src + width <= dst || dst + width <= src
      modifies buf
      ensures buf[dst..dst + width] == old(buf[src..src + width])
      ensures forall i :: 0 <= i < buf.Length && !(dst <= i < dst + width) ==> buf[i] == old(buf[i])
    {
      for j := 0 to width
        invariant forall i :: dst <= i < dst + j ==> buf[i] == old(buf[i - dst + src])
        invariant forall i :: 0 <= i < buf.Length && !(dst <= i < dst + j) ==> buf[i] == old(buf[i])
      {
        buf[dst + j] := buf[src + j];
      }
    }

    method CopyTwice(src: nat, dst: nat, width: nat)
      requires dst + 2 * width <= buf.Length && (src == dst || src + width <= dst)
      modifies buf
      ensures buf[dst..dst + 2 * width] == old(buf[src..src + width]) + old(buf[src..src + width])
      ensures forall i :: 0 <= i < buf.Length && !(dst <= i < dst + 2 * width) ==> buf[i] == old(buf[i])
    {
      ghost var f := buf[src..src + width];
      CopyWithin(src, dst, width);
      assert buf[src..src + width] == f;
      CopyWithin(src, dst + width, width);
      assert buf[dst..dst + width] == f;
      assert buf[dst..dst + 2 * width] == buf[dst..dst + width] + buf[dst + width..dst + 2 * width];
    }

    /** Writes the two frames that a frame becomes. */
    method WidenFrame(e: Widening, width: nat, src: nat, dst: nat)
      requires Fits(e, width) && dst + 2 * width <= buf.Length
      requires src == dst || src + width <= dst
      modifies buf
      ensures buf[dst..dst + 2 * width] == Wide(e, old(buf[src..src + width]))
      ensures forall i :: 0 <= i < buf.Length && !(dst <= i < dst + 2 * width) ==> buf[i] == old(buf[i])
    {
      if e == Duplicate {
        CopyTwice(src, dst, width);
      } else if e == ZeroBefore {
        buf[dst + 1] := buf[src];
        buf[dst] := 0;
      } else {
        buf[dst] := buf[src];
        buf[dst + 1] := 0;
      }
    }

    /** One iteration of a widening loop: the next frame, in front of what is done. */
    method WidenNext(e: Widening, width: nat, src: nat, dst: nat, ghost i: nat, ghost was: seq<byte>,
                     ghost done: seq<byte>)
      returns (nextSrc: nat, nextDst: nat, ghost more: seq<byte>)
      requires Fits(e, width) && i > 0 && src == Span(i, width) && dst == 2 * src && src <= |was|
      requires 2 * |was| <= buf.Length && forall k :: 0 <= k < src ==> buf[k] == was[k]
      requires done == buf[dst..2 * |was|] && done == Widened(e, width, was[src..])
      modifies buf
      ensures nextSrc == Span(i - 1, width) && nextDst == 2 * nextSrc && nextSrc <= src
      ensures more == buf[nextDst..2 * |was|] && more == Widened(e, width, was[nextSrc..])
      ensures forall k :: 0 <= k < nextSrc ==> buf[k] == was[k]
      ensures forall k :: 2 * |was| <= k < buf.Length ==> buf[k] == old(buf[k])
    {
      SpanBehind(i - 1, width);
      nextSrc, nextDst := src - width, dst - 2 * width;
      more := WidenAt(e, width, nextSrc, nextDst, was, 2 * |was|, done);
    }

    method WidenAt(e: Widening, width: nat, src: nat, dst: nat, ghost was: seq<byte>, ghost end: nat,
                   ghost done: seq<byte>)
      returns (ghost more: seq<byte>)
      requires Fits(e, width) && dst == 2 * src && src + width <= |was| && 2 * |was| == end <= buf.Length
      requires forall k :: 0 <= k < src + width ==> buf[k] == was[k]
      requires done == buf[dst + 2 * width..end] && done == Widened(e, width, was[src + width..])
      requires src == 0 || width <= src
      modifies buf
      ensures more == buf[dst..end] && more == Widened(e, width, was[src..])
      ensures forall k :: 0 <= k < src ==> buf[k] == was[k]
      ensures forall k :: end <= k < buf.Length ==> buf[k] == old(buf[k])
    {
      assert buf[src..src + width] == was[src..src + width];
      WidenOnto(e, width, src, dst, end, done);
      WidenedCons(e, width, was, src);
      more := buf[dst..end];
    }

    method WidenOnto(e: Widening, width: nat, src: nat, dst: nat, ghost end: nat, ghost done: seq<byte>)
      requires Fits(e, width) && dst + 2 * width <= end <= buf.Length && done == buf[dst + 2 * width..end]
      requires src == dst || src + width <= dst
      modifies buf
      ensures buf[dst..end] == Wide(e, old(buf[src..src + width])) + done
      ensures forall i :: 0 <= i < buf.Length && !(dst <= i < dst + 2 * width) ==> buf[i] == old(buf[i])
    {
      WidenFrame(e, width, src, dst);
      assert buf[dst..end] == buf[dst..dst + 2 * width] + buf[dst + 2 * width..end];
      assert buf[dst + 2 * width..end] == done;
    }

    /** The loop counters. */
    method Count(width: nat, ghost frames: nat) returns (i: nat)
      requires width > 0 && lenCvt == Span(frames, width)
      ensures i == frames
    {
      CountFrames(frames, width);
      i := lenCvt / width;
    }

    method CountPairs(width: nat, ghost frames: nat) returns (i: nat)
      requires width > 0 && lenCvt == 2 * Span(frames, width)
      ensures i == frames
    {
      SpanTwice(frames, width);
      CountFrames(frames, 2 * width);
      i := lenCvt / (2 * width);
    }

    /** RateMUL2 for any number of channels and both sample sizes, ConvertStereo, Convert16LSB and Convert16MSB. */
    method Widen(e: Widening, width: nat, ghost frames: nat)
      requires Fits(e, width) && lenCvt == Span(frames, width) && 2 * lenCvt <= buf.Length
      modifies this, buf
      ensures lenCvt == 2 * old(lenCvt) && buf[..lenCvt] == Widened(e, width, old(buf[..lenCvt]))
      ensures forall i :: lenCvt <= i < buf.Length ==> buf[i] == old(buf[i])
    {
      ghost var was := buf[..lenCvt];
      ghost var done := [];
      var src: nat, dst: nat := lenCvt, 2 * lenCvt;
      var i := Count(width, frames);
      while i > 0
        invariant src == Span(i, width) && dst == 2 * src && src <= |was|
        invariant forall k :: 0 <= k < src ==> buf[k] == was[k]
        invariant done == buf[dst..2 * |was|] && done == Widened(e, width, was[src..])
        invariant forall k :: 2 * |was| <= k < buf.Length ==> buf[k] == old(buf[k])
        modifies buf
      {
        src, dst, done := WidenNext(e, width, src, dst, i, was, done);
        i := i - 1;
      }
      assert was[0..] == was && buf[0..2 * |was|] == buf[..2 * |was|];
      lenCvt := 2 * lenCvt;
    }

    /** Two samples are read before their mean is written. */
    method MixFrame(signed: bool, bigEndian: bool, width: nat, src: nat, dst: nat)
      requires 1 <= width <= 2 && src + 2 * width <= buf.Length && dst + width <= buf.Length
      modifies buf
      ensures buf[dst..dst + width] == Merged(Mix(signed, bigEndian), old(buf[src..src + width]),
                                              old(buf[src + width..src + 2 * width]))
      ensures forall i :: 0 <= i < buf.Length && !(dst <= i < dst + width) ==> buf[i] == old(buf[i])
    {
      var a, b := buf[src..src + width], buf[src + width..src + 2 * width];
      var sample := HalfOf(Sample(a, signed, bigEndian) + Sample(b, signed, bigEndian));
      var low, high := (sample % 0x100) as byte, (sample / 0x100 % 0x100) as byte;
      if width == 1 {
        buf[dst] := low;
      } else if bigEndian {
        buf[dst + 1] := low;
        buf[dst] := high;
      } else {
        buf[dst] := low;
        buf[dst + 1] := high;
      }
    }

    /** One frame from two; it is written where they begin, or before. */
    method NarrowFrame(r: Narrowing, width: nat, src: nat, dst: nat)
      requires Mixes(r, width) && src + 2 * width <= buf.Length && (src == dst || dst + width <= src)
      modifies buf
      ensures buf[dst..dst + width] == Merged(r, old(buf[src..src + width]), old(buf[src + width..src + 2 * width]))
      ensures forall i :: 0 <= i < buf.Length && !(dst <= i < dst + width) ==> buf[i] == old(buf[i])
    {
      match r {
        case KeepFirst => CopyWithin(src, dst, width);
        case KeepSecond => CopyWithin(src + width, dst, width);
        case Mix(signed, bigEndian) => MixFrame(signed, bigEndian, width, src, dst);
      }
    }

    /** One iteration of a narrowing loop: the next frame, behind what is done. */
    method NarrowNext(r: Narrowing, width: nat, src: nat, dst: nat, ghost was: seq<byte>, ghost n: nat,
                      ghost frames: nat, ghost done: seq<byte>)
      returns (nextSrc: nat, nextDst: nat, ghost more: seq<byte>)
      requires Mixes(r, width) && dst == Span(n, width) && src == 2 * dst
      requires n < frames && |was| == 2 * Span(frames, width) <= buf.Length
      requires src <= |was| && done == buf[..dst] && done == Narrowed(r, width, was[..src])
      requires forall k :: src <= k < |was| ==> buf[k] == was[k]
      modifies buf
      ensures nextDst == Span(n + 1, width) && nextSrc == 2 * nextDst <= |was|
      ensures more == buf[..nextDst] && more == Narrowed(r, width, was[..nextSrc])
      ensures forall k :: nextSrc <= k < buf.Length ==> buf[k] == old(buf[k])
    {
      SpanMonotone(n + 1, frames, width);
      nextSrc, nextDst := src + 2 * width, dst + width;
      NarrowedMore(r, width, was, src, n);
      more := NarrowAt(r, width, src, dst, nextSrc, nextDst, was, n, done);
    }

    method NarrowAt(r: Narrowing, width: nat, src: nat, dst: nat, ghost to: nat, ghost end: nat, ghost was: seq<byte>,
                    ghost n: nat, ghost done: seq<byte>)
      returns (ghost more: seq<byte>)
      requires Mixes(r, width) && dst == Span(n, width) && src == 2 * dst
      requires to == src + 2 * width <= |was| <= buf.Length && end == dst + width
      requires forall k :: src <= k < |was| ==> buf[k] == was[k]
      requires done == buf[..dst]
      modifies buf
      ensures more == buf[..end] && more == done + Merged(r, was[src..src + width], was[src + width..to])
      ensures forall k :: to <= k < buf.Length ==> buf[k] == old(buf[k])
    {
      ghost var now := buf[..];
      SameSlice(now, was, src, src + width);
      SameSlice(now, was, src + width, to);
      assert buf[src..src + width] == now[src..src + width] && buf[src + width..to] == now[src + width..to];
      SpanBehind(n, width);
      NarrowOnto(r, width, src, dst, to, done, was[src..src + width], was[src + width..to]);
      more := buf[..end];
    }

    method NarrowOnto(r: Narrowing, width: nat, src: nat, dst: nat, ghost to: nat, ghost done: seq<byte>,
                      ghost a: seq<byte>, ghost b: seq<byte>)
      requires Mixes(r, width) && to == src + 2 * width <= buf.Length && (src == dst || dst + width <= src)
      requires done == buf[..dst] && a == buf[src..src + width] && b == buf[src + width..to]
      modifies buf
      ensures buf[..dst + width] == done + Merged(r, a, b)
      ensures forall i :: 0 <= i < buf.Length && !(dst <= i < dst + width) ==> buf[i] == old(buf[i])
    {
      NarrowFrame(r, width, src, dst);
      assert buf[..dst] == done;
      assert buf[..dst + width] == buf[..dst] + buf[dst..dst + width];
    }

    /** RateDIV2 for any number of channels and both sample sizes, Convert8, and ConvertMono. */
    method Narrow(r: Narrowing, width: nat, ghost frames: nat)
      requires Mixes(r, width) && lenCvt == 2 * Span(frames, width) <= buf.Length
      modifies this, buf
      ensures 2 * lenCvt == old(lenCvt) && buf[..lenCvt] == Narrowed(r, width, old(buf[..lenCvt]))
      ensures forall i :: old(lenCvt) <= i < buf.Length ==> buf[i] == old(buf[i])
    {
      ghost var was := buf[..lenCvt];
      ghost var n: nat, done: seq<byte> := 0, [];
      var src: nat, dst: nat := 0, 0;
      var i := CountPairs(width, frames);
      assert was[..0] == [] && buf[..0] == [];
      while i > 0
        invariant n + i == frames && dst == Span(n, width) && src == 2 * dst && src <= |was|
        invariant done == buf[..dst] && done == Narrowed(r, width, was[..src])
        invariant forall k :: src <= k < buf.Length ==> buf[k] == old(buf[k])
        modifies buf
      {
        src, dst, done := NarrowNext(r, width, src, dst, was, n, frames, done);
        i, n := i - 1, n + 1;
      }
      assert was[..|was|] == was;
      lenCvt := lenCvt / 2;
    }
  }

  lemma SpanBehind(frames: nat, width: nat)
    ensures frames == 0 || width <= Span(frames, width)
  {
  }

  lemma {:induction false} SpanMonotone(a: nat, b: nat, width: nat)
    requires a <= b
    ensures Span(a, width) <= Span(b, width)
  {
    if a < b {
      SpanMonotone(a, b - 1, width);
    }
  }

  lemma {:induction false} SpanTwice(frames: nat, width: nat)
    ensures Span(frames, 2 * width) == 2 * Span(frames, width)
  {
    if frames > 0 {
      SpanTwice(frames - 1, width);
    }
  }

  lemma Inside(s: seq<byte>, a: seq<byte>, b: seq<byte>, i: nat, j: nat)
    requires i <= j <= |s|
    ensures (s + a + b)[i..j] == s[i..j] && (s + a + b)[j..] == s[j..] + a + b
  {
  }

  lemma Pair(a: seq<byte>, b: seq<byte>)
    ensures (a + b)[..|a|] == a && (a + b)[|a|..] == b
  {
  }

  lemma {:induction false} NarrowedSnoc(r: Narrowing, width: nat, s: seq<byte>, a: seq<byte>, b: seq<byte>, frames: nat,
                                        t: seq<byte>)
    requires Mixes(r, width) && |s| == 2 * Span(frames, width) && |a| == |b| == width && t == s + a + b
    ensures Narrowed(r, width, t) == Narrowed(r, width, s) + Merged(r, a, b)
    decreases frames
  {
    if frames == 0 {
      Pair(a, b);
      assert t == a + b;
      NarrowedOne(r, a, b, t);
    } else {
      Inside(s, a, b, 0, width);
      Inside(s, a, b, width, 2 * width);
      NarrowedSnoc(r, width, s[2 * width..], a, b, frames - 1, t[2 * width..]);
      NarrowedHead(r, width, s, s[..width], s[width..2 * width]);
      NarrowedHead(r, width, t, s[..width], s[width..2 * width]);
      Regroup(Merged(r, s[..width], s[width..2 * width]), Narrowed(r, width, s[2 * width..]), Merged(r, a, b));
    }
  }

  lemma NarrowedHead(r: Narrowing, width: nat, s: seq<byte>, a: seq<byte>, b: seq<byte>)
    requires Mixes(r, width) && |s| >= 2 * width && a == s[..width] && b == s[width..2 * width]
    ensures Narrowed(r, width, s) == Merged(r, a, b) + Narrowed(r, width, s[2 * width..])
  {
  }

  lemma NarrowedOne(r: Narrowing, a: seq<byte>, b: seq<byte>, t: seq<byte>)
    requires Mixes(r, |a|) && |a| == |b| && t == a + b
    ensures Narrowed(r, |a|, t) == Merged(r, a, b)
  {
    Pair(a, b);
    assert t[|a|..2 * |a|] == b && t[2 * |a|..] == [];
  }

  lemma NarrowedMore(r: Narrowing, width: nat, s: seq<byte>, at: nat, frames: nat)
    requires Mixes(r, width) && at == 2 * Span(frames, width) && at + 2 * width <= |s|
    ensures (Narrowed(r, width, s[..at + 2 * width])
      == Narrowed(r, width, s[..at]) + Merged(r, s[at..at + width], s[at + width..at + 2 * width]))
  {
    assert s[..at + 2 * width] == s[..at] + s[at..at + width] + s[at + width..at + 2 * width];
    NarrowedSnoc(r, width, s[..at], s[at..at + width], s[at + width..at + 2 * width], frames, s[..at + 2 * width]);
  }

  lemma WidenedCons(e: Widening, width: nat, s: seq<byte>, at: nat)
    requires 0 < width && at + width <= |s|
    ensures Widened(e, width, s[at..]) == Wide(e, s[at..at + width]) + Widened(e, width, s[at + width..])
  {
    assert s[at..][..width] == s[at..at + width] && s[at..][width..] == s[at + width..];
  }
}
