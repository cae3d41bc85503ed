/** The cache simulator of parse_request_log: least recently used pieces are evicted by their timestamps. */
module LruCache {
  import opened Common

  datatype Request = Request(piece: nat, timestamp: nat)

  /** Timestamps never repeat. */
  ghost predicate Increasing(trace: seq<Request>) {
    forall i :: 0 < i < |trace| ==> trace[i - 1].timestamp < trace[i].timestamp
  }

  predicate Seen(trace: seq<Request>, p: nat) {
    trace != [] && (trace[|trace| - 1].piece == p || Seen(trace[..|trace| - 1], p))
  }

  /** The other pieces that were requested since the piece was. */
  function Since(trace: seq<Request>, p: nat): set<nat> {
    if trace == [] || trace[|trace| - 1].piece == p then {}
    else Since(trace[..|trace| - 1], p) + {trace[|trace| - 1].piece}
  }

  /** When each piece was requested last. */
  function Latest(trace: seq<Request>): map<nat, nat> {
    if trace == [] then map[]
    else Latest(trace[..|trace| - 1])[trace[|trace| - 1].piece := trace[|trace| - 1].timestamp]
  }

  // ----- The stack of a trace -----

  function Remove(s: seq<nat>, p: nat): seq<nat> {
    if s == [] then [] else if s[0] == p then s[1..] else [s[0]] + Remove(s[1..], p)
  }

  /** The pieces of a trace, most recently requested first. */
  function Stack(trace: seq<Request>): seq<nat> {
    if trace == [] then []
    else [trace[|trace| - 1].piece] + Remove(Stack(trace[..|trace| - 1]), trace[|trace| - 1].piece)
  }

  function Front(s: seq<nat>, n: nat): seq<nat> {
    if n < |s| then s[..n] else s
  }

  /** What a cache of a size holds. */
  function Content(trace: seq<Request>, size: nat): set<nat> {
    Elements(Front(Stack(trace), size))
  }

  function Elements(s: seq<nat>): set<nat> {
    set p <- s
  }

  ghost predicate Unique(s: seq<nat>) {
    forall i, j :: 0 <= i < j < |s| ==> s[i] != s[j]
  }

  lemma {:induction false} RemoveAbsent(s: seq<nat>, q: nat)
    requires q !in s
    ensures Remove(s, q) == s
  {
    if s != [] {
      RemoveAbsent(s[1..], q);
    }
  }

  lemma {:induction false} RemovePresent(s: seq<nat>, front: seq<nat>, p: nat, rest: seq<nat>)
    requires s == front + [p] + rest && p !in front
    ensures Remove(s, p) == front + rest
  {
    if front == [] {
      assert s[1..] == rest && front + rest == rest;
    } else {
      assert s[0] == front[0] && s[1..] == front[1..] + [p] + rest;
      RemovePresent(s[1..], front[1..], p, rest);
      assert front + rest == [front[0]] + (front[1..] + rest);
    }
  }

  lemma Removed(s: seq<nat>, p: nat, i: nat)
    requires Unique(s)
    ensures p !in s ==> Remove(s, p) == s
    ensures i < |s| && s[i] == p ==> Remove(s, p) == s[..i] + s[i + 1..]
  {
    if p !in s {
      RemoveAbsent(s, p);
    } else if i < |s| && s[i] == p {
      assert s == s[..i] + [p] + s[i + 1..];
      RemovePresent(s, s[..i], p, s[i + 1..]);
    }
  }

  lemma ElementsJoin(a: seq<nat>, b: seq<nat>)
    ensures Elements(a + b) == Elements(a) + Elements(b)
    ensures forall p :: p in a + b <==> p in a || p in b
  {
  }

  lemma ConsUnique(q: nat, r: seq<nat>)
    requires Unique(r) && q !in r
    ensures Unique([q] + r)
  {
    assert forall k :: 0 <= k < |r| ==> r[k] != q;
  }

  lemma WithoutUnique(s: seq<nat>, i: nat, r: seq<nat>)
    requires Unique(s) && i < |s| && r == s[..i] + s[i + 1..]
    ensures Unique(r) && s[i] !in r
    ensures forall p :: p in r <==> p in s && p != s[i]
  {
    forall k | 0 <= k < |r| ensures r[k] == s[if k < i then k else k + 1] {
    }
    forall p | p in s && p != s[i] ensures p in r {
      var k :| 0 <= k < |s| && s[k] == p;
      assert p == r[if k < i then k else k - 1];
    }
  }

  lemma RemoveUnique(s: seq<nat>, q: nat)
    requires Unique(s)
    ensures Unique(Remove(s, q)) && forall p :: p in Remove(s, q) <==> p in s && p != q
  {
    if q in s {
      var i :| 0 <= i < |s| && s[i] == q;
      Removed(s, q, i);
      WithoutUnique(s, i, Remove(s, q));
    } else {
      Removed(s, q, 0);
    }
  }

  lemma {:induction false} StackUnique(trace: seq<Request>)
    ensures Unique(Stack(trace)) && forall p :: p in Stack(trace) <==> Seen(trace, p)
  {
    if trace != [] {
      var before, q := trace[..|trace| - 1], trace[|trace| - 1].piece;
      StackUnique(before);
      RemoveUnique(Stack(before), q);
      ElementsJoin([q], Remove(Stack(before), q));
      ConsUnique(q, Remove(Stack(before), q));
    }
  }

  /** The depth of a piece in the stack is the number of pieces requested since. */
  lemma {:induction false} StackDepth(trace: seq<Request>, p: nat)
    requires Seen(trace, p)
    ensures var d := |Since(trace, p)|;
      d < |Stack(trace)| && Stack(trace)[d] == p && Since(trace, p) == Elements(Stack(trace)[..d])
  {
    var before, q := trace[..|trace| - 1], trace[|trace| - 1].piece;
    if q != p {
      StackDepth(before, p);
      StackUnique(before);
      PushDepth(Stack(before), q, p, |Since(before, p)|);
      var d := |Since(before, p)|;
      if q in Since(before, p) {
        assert Since(before, p) + {q} == Since(before, p);
      } else {
        assert |Since(before, p) + {q}| == d + 1;
      }
    }
  }

  lemma Rotate(q: nat, a: seq<nat>, b: seq<nat>)
    ensures Elements([q] + a + b) == Elements(a + [q] + b)
  {
    ElementsJoin([q] + a, b);
    ElementsJoin([q], a);
    ElementsJoin(a + [q], b);
    ElementsJoin(a, [q]);
  }

  lemma PushFromAbove(s: seq<nat>, i: nat, d: nat, t: seq<nat>)
    requires i < d < |s| && t == [s[i]] + (s[..i] + s[i + 1..])
    ensures t[d] == s[d] && Elements(t[..d]) == Elements(s[..d])
  {
    assert t[..d] == [s[i]] + s[..i] + s[i + 1..d];
    assert s[..d] == s[..i] + [s[i]] + s[i + 1..d];
    Rotate(s[i], s[..i], s[i + 1..d]);
  }

  lemma PushFromBelow(s: seq<nat>, q: nat, d: nat, t: seq<nat>)
    requires d < |s| && |t| > d + 1 && t[..d + 2] == [q] + s[..d + 1]
    ensures t[d + 1] == s[d] && Elements(t[..d + 1]) == Elements(s[..d]) + {q}
  {
    assert t[..d + 2][d + 1] == s[d];
    assert t[..d + 1] == t[..d + 2][..d + 1] == [q] + s[..d];
    ElementsJoin([q], s[..d]);
  }

  /** A request of another piece moves a piece down by one, unless it came from above. */
  lemma PushDepth(s: seq<nat>, q: nat, p: nat, d: nat)
    requires Unique(s) && d < |s| && s[d] == p && p != q
    ensures var t := [q] + Remove(s, q); var e := if q in s[..d] then d else d + 1;
      e < |t| && t[e] == p && Elements(t[..e]) == Elements(s[..d]) + {q}
  {
    var t := [q] + Remove(s, q);
    if q in s[..d] {
      var i :| 0 <= i < d && s[..d][i] == q;
      Removed(s, q, i);
      PushFromAbove(s, i, d, t);
    } else if q in s {
      var i :| 0 <= i < |s| && s[i] == q;
      Removed(s, q, i);
      NotInFront(s, d, i);
      PushFromBelow(s, q, d, t);
    } else {
      Removed(s, q, 0);
      PushFromBelow(s, q, d, t);
    }
  }

  lemma NotInFront(s: seq<nat>, d: nat, i: nat)
    requires d <= |s| && i < |s| && s[i] !in s[..d]
    ensures i >= d
  {
    forall j | 0 <= j < d ensures s[j] != s[i] {
      assert s[..d][j] in s[..d];
    }
  }

  /** The stack property: a piece is cached exactly if fewer than size other pieces came since its last request. */
  lemma CachedIffRecent(trace: seq<Request>, size: nat, p: nat)
    ensures p in Content(trace, size) <==> Seen(trace, p) && |Since(trace, p)| < size
  {
    StackUnique(trace);
    var s := Stack(trace);
    if p in s {
      StackDepth(trace, p);
      var d := |Since(trace, p)|;
      if d < size {
        assert p == Front(s, size)[d];
      }
    }
  }

  /** Inclusion: on any trace a larger cache holds what a smaller one holds. */
  lemma Inclusion(trace: seq<Request>, size: nat, larger: nat)
    requires size <= larger
    ensures Content(trace, size) <= Content(trace, larger)
  {
    forall p | p in Content(trace, size) ensures p in Content(trace, larger) {
      CachedIffRecent(trace, size, p);
      CachedIffRecent(trace, larger, p);
    }
  }

  // ----- The stack by time -----

  ghost predicate Descending(s: seq<nat>, times: map<nat, nat>) {
    && (forall p <- s :: p in times)
    && forall i, j :: 0 <= i < j < |s| ==> times[s[i]] > times[s[j]]
  }

  lemma WithoutDescending(s: seq<nat>, i: nat, times: map<nat, nat>, r: seq<nat>)
    requires Descending(s, times) && i < |s| && r == s[..i] + s[i + 1..]
    ensures Descending(r, times)
  {
  }

  lemma PushDescending(r: seq<nat>, times: map<nat, nat>, q: nat, t: nat)
    requires Descending(r, times) && q !in r && forall p <- r :: times[p] < t
    ensures Descending([q] + r, times[q := t])
  {
  }

  lemma RemoveDescending(s: seq<nat>, q: nat, times: map<nat, nat>)
    requires Unique(s) && Descending(s, times)
    ensures Descending(Remove(s, q), times)
  {
    if q in s {
      var i :| 0 <= i < |s| && s[i] == q;
      Removed(s, q, i);
      WithoutDescending(s, i, times, Remove(s, q));
    } else {
      Removed(s, q, 0);
    }
  }

  lemma {:induction false} LatestBelow(trace: seq<Request>, t: nat)
    requires Increasing(trace) && (trace != [] ==> trace[|trace| - 1].timestamp < t)
    ensures forall p <- Latest(trace) :: Latest(trace)[p] < t
  {
    if trace != [] {
      LatestBelow(trace[..|trace| - 1], trace[|trace| - 1].timestamp);
    }
  }

  /** Further down the stack is longer ago. */
  lemma {:induction false} StackByTime(trace: seq<Request>)
    requires Increasing(trace)
    ensures Descending(Stack(trace), Latest(trace))
  {
    if trace != [] {
      var before, last := trace[..|trace| - 1], trace[|trace| - 1];
      StackByTime(before);
      StackUnique(before);
      RemoveUnique(Stack(before), last.piece);
      RemoveDescending(Stack(before), last.piece, Latest(before));
      LatestBelow(before, last.timestamp);
      PushDescending(Remove(Stack(before), last.piece), Latest(before), last.piece, last.timestamp);
    }
  }

  // ----- What a request does to the content -----

  lemma FrontOfPushed(s: seq<nat>, i: nat, size: nat, f: seq<nat>)
    requires f == Front(s, size) && i < |f|
    ensures Front([s[i]] + (s[..i] + s[i + 1..]), size) == [s[i]] + f[..i] + f[i + 1..]
  {
    var t := [s[i]] + (s[..i] + s[i + 1..]);
    assert |t| == |s| && Front(t, size) == t[..|f|];
  }

  /** A hit only moves the piece to the top. */
  lemma HitKeepsContent(s: seq<nat>, q: nat, size: nat)
    requires Unique(s) && q in Front(s, size)
    ensures Elements(Front([q] + Remove(s, q), size)) == Elements(Front(s, size))
  {
    var f := Front(s, size);
    var i :| 0 <= i < |f| && f[i] == q;
    Removed(s, q, i);
    FrontOfPushed(s, i, size, f);
    assert f == f[..i] + [q] + f[i + 1..];
    Rotate(q, f[..i], f[i + 1..]);
  }

  lemma FrontPushed(r: seq<nat>, q: nat, size: nat)
    requires 0 < size <= |r| + 1
    ensures Front([q] + r, size) == [q] + r[..size - 1]
  {
    var t, f := [q] + r, [q] + r[..size - 1];
    forall k | 0 <= k < size ensures t[..size][k] == f[k] {
      assert t[..size][k] == t[k];
    }
    assert t[..size] == f;
  }

  /** A piece that is not in front of the bottom leaves that part of the stack as it is. */
  lemma RemoveBelow(s: seq<nat>, q: nat, size: nat, r: seq<nat>)
    requires Unique(s) && 0 < size <= |s| && q !in s[..size] && r == Remove(s, q)
    ensures size <= |r| + 1 && r[..size - 1] == s[..size - 1]
  {
    if q in s {
      var i :| 0 <= i < |s| && s[i] == q;
      Removed(s, q, i);
      assert forall k :: 0 <= k < size ==> s[k] == s[..size][k];
      SamePrefix(s, i, size - 1, r);
    } else {
      RemoveAbsent(s, q);
    }
  }

  lemma SamePrefix(s: seq<nat>, i: nat, n: nat, r: seq<nat>)
    requires n <= i < |s| && r == s[..i] + s[i + 1..]
    ensures n <= |r| && r[..n] == s[..n]
  {
    forall k | 0 <= k < n ensures r[..n][k] == s[..n][k] {
      assert r[k] == s[..i][k];
    }
  }

  /** A miss in a full cache puts the piece in the place of the one at the bottom. */
  lemma MissReplacesBottom(s: seq<nat>, q: nat, size: nat)
    requires Unique(s) && 0 < size <= |s| && q !in s[..size]
    ensures Elements(Front([q] + Remove(s, q), size)) == Elements(s[..size]) - {s[size - 1]} + {q}
  {
    RemoveBelow(s, q, size, Remove(s, q));
    FrontPushed(Remove(s, q), q, size);
    TakeMore(s, size - 1);
    BottomReplaced(s[..size - 1], s[size - 1], q);
  }

  lemma BottomReplaced(front: seq<nat>, bottom: nat, q: nat)
    requires bottom !in front && q != bottom
    ensures Elements([q] + front) == Elements(front + [bottom]) - {bottom} + {q}
  {
  }

  lemma MissAdds(s: seq<nat>, q: nat, size: nat)
    requires |s| < size && q !in s
    ensures Elements(Front([q] + Remove(s, q), size)) == Elements(s) + {q}
  {
    RemoveAbsent(s, q);
  }

  class Cache {
    const size: nat
    /** m_cache: piece to timestamp */
    var cache: map<nat, nat>
    ghost var trace: seq<Request>

    /** The cache holds the top of the stack, with the times of the last requests. */
    ghost predicate Valid()
      reads this
    {
      size > 0 && Increasing(trace) && Holds(cache, trace, size)
    }

    constructor (size: nat)
      requires size > 0
      ensures Valid() && this.size == size && trace == []
    {
      this.size := size;
      cache, trace := map[], [];
    }

    /** A hit is a piece that was seen, and then fewer than size others. */
    method IncomingRequest(piece: nat, timestamp: nat) returns (hit: bool)
      requires Valid() && (trace != [] ==> trace[|trace| - 1].timestamp < timestamp)
      modifies this
      ensures Valid() && trace == old(trace) + [Request(piece, timestamp)]
      ensures hit <==> Seen(old(trace), piece) && |Since(old(trace), piece)| < size
    {
      CachedIffRecent(trace, size, piece);
      var r := Request(piece, timestamp);
      ghost var now := trace + [r];
      IncreasingSnoc(trace, r, now);
      hit := piece in cache;
      if hit {
        Touch(r);
      } else {
        Insert(r);
      }
      trace := now;
    }

    /** A hit: the piece gets the new time. */
    method Touch(r: Request)
      requires Valid() && r.piece in cache
      modifies `cache
      ensures Holds(cache, trace + [r], size)
    {
      HitHolds(cache, trace, size, r);
      cache := cache[r.piece := r.timestamp];
    }

    /** A miss: the piece goes in, and if there is no room the least recently used one goes out. */
    method Insert(r: Request)
      requires Valid() && r.piece !in cache
      modifies `cache
      ensures Holds(cache, trace + [r], size)
    {
      if |cache| == size {
        FullIsStack(cache, trace, size);
        var oldest := MinElement();
        MissHolds(cache, trace, size, r, oldest);
        cache := cache - {oldest};
      } else {
        RoomHolds(cache, trace, size, r);
      }
      cache := cache[r.piece := r.timestamp];
    }

    /** std::min_element by timestamp */
    method MinElement() returns (oldest: nat)
      requires cache != map[]
      ensures oldest in cache && forall p <- cache :: cache[oldest] <= cache[p]
    {
      oldest :| oldest in cache;
      var rest := cache.Keys - {oldest};
      while rest != {}
        invariant oldest in cache && rest <= cache.Keys
        invariant forall p <- cache :: p in rest || cache[oldest] <= cache[p]
        decreases rest
      {
        var p :| p in rest;
        if cache[p] < cache[oldest] {
          oldest := p;
        }
        rest := rest - {p};
      }
    }
  }

  ghost predicate Holds(cache: map<nat, nat>, trace: seq<Request>, size: nat) {
    && cache.Keys == Content(trace, size)
    && forall p <- cache :: p in Latest(trace) && cache[p] == Latest(trace)[p]
  }

  lemma Snoc(trace: seq<Request>, r: Request)
    ensures Stack(trace + [r]) == [r.piece] + Remove(Stack(trace), r.piece)
    ensures Latest(trace + [r]) == Latest(trace)[r.piece := r.timestamp]
  {
    assert (trace + [r])[..|trace|] == trace;
  }

  lemma IncreasingSnoc(trace: seq<Request>, r: Request, now: seq<Request>)
    requires Increasing(trace) && now == trace + [r] && (trace != [] ==> trace[|trace| - 1].timestamp < r.timestamp)
    ensures Increasing(now)
  {
  }

  lemma HitHolds(cache: map<nat, nat>, trace: seq<Request>, size: nat, r: Request)
    requires Holds(cache, trace, size) && r.piece in cache
    ensures Holds(cache[r.piece := r.timestamp], trace + [r], size)
  {
    Snoc(trace, r);
    StackUnique(trace);
    HitKeepsContent(Stack(trace), r.piece, size);
  }

  lemma RoomHolds(cache: map<nat, nat>, trace: seq<Request>, size: nat, r: Request)
    requires Holds(cache, trace, size) && r.piece !in cache && |cache| != size
    ensures Holds(cache[r.piece := r.timestamp], trace + [r], size)
  {
    Snoc(trace, r);
    ContentSize(trace, size);
    MissAdds(Stack(trace), r.piece, size);
  }

  lemma ContentSize(trace: seq<Request>, size: nat)
    ensures |Content(trace, size)| == if |Stack(trace)| < size then |Stack(trace)| else size
  {
    StackUnique(trace);
    FrontSize(Front(Stack(trace), size));
  }

  lemma {:induction false} FrontSize(s: seq<nat>)
    requires Unique(s)
    ensures |Elements(s)| == |s|
  {
    if s != [] {
      FrontSize(s[1..]);
      assert s == [s[0]] + s[1..];
      assert Elements(s) == Elements(s[1..]) + {s[0]};
    }
  }

  lemma FullIsStack(cache: map<nat, nat>, trace: seq<Request>, size: nat)
    requires Holds(cache, trace, size) && |cache| == size > 0
    ensures size <= |Stack(trace)| && cache != map[]
  {
    ContentSize(trace, size);
  }

  lemma MissHolds(cache: map<nat, nat>, trace: seq<Request>, size: nat, r: Request, oldest: nat)
    requires Holds(cache, trace, size) && r.piece !in cache && 0 < size <= |Stack(trace)| && Increasing(trace)
    requires oldest in cache && forall p <- cache :: cache[oldest] <= cache[p]
    ensures Holds((cache - {oldest})[r.piece := r.timestamp], trace + [r], size)
  {
    var s := Stack(trace);
    Snoc(trace, r);
    StackUnique(trace);
    StackByTime(trace);
    BottomIsOldest(cache, s, Latest(trace), size, oldest);
    MissReplacesBottom(s, r.piece, size);
    Exchanged(cache, Latest(trace), r, oldest, Latest(trace + [r]));
  }

  lemma Exchanged(cache: map<nat, nat>, times: map<nat, nat>, r: Request, oldest: nat, now: map<nat, nat>)
    requires forall p <- cache :: p in times && cache[p] == times[p]
    requires now == times[r.piece := r.timestamp]
    ensures ((cache - {oldest})[r.piece := r.timestamp]).Keys == cache.Keys - {oldest} + {r.piece}
    ensures var m := (cache - {oldest})[r.piece := r.timestamp]; forall p <- m :: p in now && m[p] == now[p]
  {
  }

  lemma BottomIsOldest(cache: map<nat, nat>, s: seq<nat>, times: map<nat, nat>, size: nat, oldest: nat)
    requires 0 < size <= |s| && cache.Keys == Elements(s[..size]) && Descending(s, times)
    requires forall p <- cache :: p in times && cache[p] == times[p]
    requires oldest in cache && forall p <- cache :: cache[oldest] <= cache[p]
    ensures oldest == s[size - 1]
  {
    var i :| 0 <= i < size && s[..size][i] == oldest;
    assert s[..size][size - 1] in cache;
  }
}
