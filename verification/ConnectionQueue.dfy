/**
  * The half-open connection queue. Each method is one stretch between two unlock points, or one callback made while
  * the lock is free, so a run of method calls in any order is an interleaving of any number of threads.
  */
module ConnectionQueue {
  import opened Common

  datatype Entry = Entry(ticket: nat, priority: nat, timeout: int, connecting: bool, expires: int)

  /** max_time() */
  const MAX_TIME: int := 0x7FFF_FFFF_FFFF_FFFF

  // ----- Counting -----

  function Occurs(q: seq<Entry>, t: nat): nat {
    if q == [] then 0 else Occurs(q[..|q| - 1], t) + if q[|q| - 1].ticket == t then 1 else 0
  }

  /** Entries of a ticket that were not told to connect. */
  function Waiting(q: seq<Entry>, t: nat): nat {
    if q == [] then 0
    else Waiting(q[..|q| - 1], t) + if q[|q| - 1].ticket == t && !q[|q| - 1].connecting then 1 else 0
  }

  function Connecting(q: seq<Entry>): nat {
    if q == [] then 0 else Connecting(q[..|q| - 1]) + if q[|q| - 1].connecting then 1 else 0
  }

  lemma {:induction false} Join(a: seq<Entry>, b: seq<Entry>, t: nat)
    ensures Occurs(a + b, t) == Occurs(a, t) + Occurs(b, t)
    ensures Waiting(a + b, t) == Waiting(a, t) + Waiting(b, t)
    ensures Connecting(a + b) == Connecting(a) + Connecting(b)
  {
    if b == [] {
      assert a + b == a;
    } else {
      assert (a + b)[..|a + b| - 1] == a + b[..|b| - 1];
      Join(a, b[..|b| - 1], t);
    }
  }

  lemma One(e: Entry, t: nat)
    ensures Occurs([e], t) == if e.ticket == t then 1 else 0
    ensures Waiting([e], t) == if e.ticket == t && !e.connecting then 1 else 0
    ensures Connecting([e]) == if e.connecting then 1 else 0
  {
    assert [e][..0] == [];
  }

  lemma Around(a: seq<Entry>, e: Entry, b: seq<Entry>, t: nat)
    ensures Occurs(a + [e] + b, t) == Occurs(a + b, t) + if e.ticket == t then 1 else 0
    ensures Waiting(a + [e] + b, t) == Waiting(a + b, t) + if e.ticket == t && !e.connecting then 1 else 0
    ensures Connecting(a + [e] + b) == Connecting(a + b) + if e.connecting then 1 else 0
  {
    One(e, t);
    Join(a + [e], b, t);
    Join(a, [e], t);
    Join(a, b, t);
  }

  lemma Removed(q: seq<Entry>, i: nat, t: nat)
    requires i < |q|
    ensures Occurs(q, t) == Occurs(Without(q, i), t) + if q[i].ticket == t then 1 else 0
    ensures Waiting(q, t) == Waiting(Without(q, i), t) + if q[i].ticket == t && !q[i].connecting then 1 else 0
    ensures Connecting(q) == Connecting(Without(q, i)) + if q[i].connecting then 1 else 0
  {
    Rejoin(q, i);
    Around(q[..i], q[i], q[i + 1..], t);
  }

  lemma TimesRemoved(s: seq<nat>, i: nat, t: nat)
    requires i < |s|
    ensures Times(s, t) == Times(Without(s, i), t) + if s[i] == t then 1 else 0
  {
    Rejoin(s, i);
    TimesJoin(s[..i] + [s[i]], s[i + 1..], t);
    TimesJoin(s[..i], [s[i]], t);
    TimesJoin(s[..i], s[i + 1..], t);
    assert [s[i]][..0] == [];
  }

  function Started(e: Entry, expires: int): Entry { e.(connecting := true, expires := expires) }

  lemma Replaced(q: seq<Entry>, i: nat, expires: int, t: nat)
    requires i < |q| && !q[i].connecting
    ensures var r := q[i := Started(q[i], expires)];
      && Occurs(r, t) == Occurs(q, t) && Connecting(r) == Connecting(q) + 1
      && Waiting(q, t) == Waiting(r, t) + if q[i].ticket == t then 1 else 0
  {
    var r := q[i := Started(q[i], expires)];
    Removed(q, i, t);
    Removed(r, i, t);
    assert Without(r, i) == Without(q, i);
  }

  lemma {:induction false} SomeWaiting(q: seq<Entry>)
    ensures Connecting(q) <= |q|
    ensures Connecting(q) == |q| <==> forall i :: 0 <= i < |q| ==> q[i].connecting
  {
    if q != [] {
      SomeWaiting(q[..|q| - 1]);
      assert forall i :: 0 <= i < |q| - 1 ==> q[..|q| - 1][i] == q[i];
    }
  }

  // ----- The invariants -----

  /** on_connect of a ticket is still to come from one place only, or was called, once. */
  ghost predicate ConnectOnce(queue: seq<Entry>, closing: seq<Entry>, pending: seq<nat>, called: seq<nat>, next: nat) {
    forall t: nat ::
      Waiting(queue, t) + Waiting(closing, t) + Times(pending, t) + Times(called, t) <= if t < next then 1 else 0
  }

  /** An entry is in one list only, or its on_timeout is still to be called, or was called, once. */
  ghost predicate TimeoutOnce(queue: seq<Entry>, closing: seq<Entry>, pending: seq<nat>, called: seq<nat>, next: nat) {
    forall t: nat ::
      Occurs(queue, t) + Occurs(closing, t) + Times(pending, t) + Times(called, t) <= if t < next then 1 else 0
  }

  ghost predicate Timed(q: seq<Entry>) {
    forall e <- q :: e.connecting ==> e.expires < MAX_TIME
  }

  // ----- What the steps keep -----

  lemma EnqueueKeeps(queue: seq<Entry>, q: seq<Entry>, e: Entry, closing: seq<Entry>, a: seq<nat>, b: seq<nat>,
                     c: seq<nat>, d: seq<nat>, next: nat)
    requires q == queue + [e] || q == [e] + queue
    requires e.ticket == next && !e.connecting
    requires ConnectOnce(queue, closing, a, b, next) && TimeoutOnce(queue, closing, c, d, next)
    ensures ConnectOnce(q, closing, a, b, next + 1) && TimeoutOnce(q, closing, c, d, next + 1)
    ensures Connecting(q) == Connecting(queue)
  {
    forall t: nat
      ensures Occurs(q, t) == Occurs(queue, t) + (if t == next then 1 else 0)
        && Waiting(q, t) == Waiting(queue, t) + (if t == next then 1 else 0) && Connecting(q) == Connecting(queue)
    {
      One(e, t);
      if q == queue + [e] { Join(queue, [e], t); } else { Join([e], queue, t); }
    }
    assert Occurs(q, next) <= 1;
  }

  lemma RemoveKeeps(queue: seq<Entry>, i: nat, closing: seq<Entry>, a: seq<nat>, b: seq<nat>, c: seq<nat>, d: seq<nat>,
                    next: nat)
    requires i < |queue|
    requires ConnectOnce(queue, closing, a, b, next) && TimeoutOnce(queue, closing, c, d, next)
    ensures ConnectOnce(Without(queue, i), closing, a, b, next) && TimeoutOnce(Without(queue, i), closing, c, d, next)
  {
    forall t: nat
      ensures Occurs(Without(queue, i), t) <= Occurs(queue, t) && Waiting(Without(queue, i), t) <= Waiting(queue, t)
    {
      Removed(queue, i, t);
    }
  }

  lemma SwapKeeps(queue: seq<Entry>, closing: seq<Entry>, a: seq<nat>, b: seq<nat>, c: seq<nat>, d: seq<nat>, next: nat)
    requires ConnectOnce(queue, closing, a, b, next) && TimeoutOnce(queue, closing, c, d, next)
    ensures ConnectOnce([], closing + queue, a, b, next) && TimeoutOnce([], closing + queue, c, d, next)
  {
    forall t: nat { Join(closing, queue, t); }
  }

  lemma PutBackKeeps(queue: seq<Entry>, closing: seq<Entry>, k: nat, a: seq<nat>, b: seq<nat>, c: seq<nat>,
                     d: seq<nat>, next: nat)
    requires k < |closing|
    requires ConnectOnce(queue, closing, a, b, next) && TimeoutOnce(queue, closing, c, d, next)
    ensures ConnectOnce(queue + [closing[k]], Without(closing, k), a, b, next)
    ensures TimeoutOnce(queue + [closing[k]], Without(closing, k), c, d, next)
    ensures Connecting(queue + [closing[k]]) == Connecting(queue) + if closing[k].connecting then 1 else 0
  {
    One(closing[k], 0);
    Join(queue, [closing[k]], 0);
    forall t: nat
      ensures Occurs(queue + [closing[k]], t) + Occurs(Without(closing, k), t) == Occurs(queue, t) + Occurs(closing, t)
      ensures (Waiting(queue + [closing[k]], t) + Waiting(Without(closing, k), t)
        == Waiting(queue, t) + Waiting(closing, t))
    {
      Removed(closing, k, t);
      One(closing[k], t);
      Join(queue, [closing[k]], t);
    }
  }

  /** close() calls on_connect of an entry that waited, or on_timeout of one that was connecting. */
  lemma CloseKeeps(queue: seq<Entry>, closing: seq<Entry>, k: nat, a: seq<nat>, b: seq<nat>, c: seq<nat>, d: seq<nat>,
                   next: nat)
    requires k < |closing|
    requires ConnectOnce(queue, closing, a, b, next) && TimeoutOnce(queue, closing, c, d, next)
    ensures var x := closing[k].ticket; var more := if closing[k].connecting then b else b + [x];
      ConnectOnce(queue, Without(closing, k), a, more, next)
    ensures var x := closing[k].ticket; var more := if closing[k].connecting then d + [x] else d;
      TimeoutOnce(queue, Without(closing, k), c, more, next)
  {
    var x := closing[k].ticket;
    forall t: nat
      ensures (Waiting(closing, t)
        == Waiting(Without(closing, k), t) + if closing[k].connecting || x != t then 0 else 1)
      ensures Occurs(Without(closing, k), t) + (if x != t then 0 else 1) == Occurs(closing, t)
      ensures Times(b + [x], t) == Times(b, t) + (if x == t then 1 else 0)
      ensures Times(d + [x], t) == Times(d, t) + (if x == t then 1 else 0)
    {
      Removed(closing, k, t);
      TimesMore(b, x, t);
      TimesMore(d, x, t);
    }
  }

  lemma TimesMore(s: seq<nat>, x: nat, t: nat)
    ensures Times(s + [x], t) == Times(s, t) + if x == t then 1 else 0
  {
    assert (s + [x])[..|s|] == s;
  }

  lemma StartKeeps(queue: seq<Entry>, i: nat, expires: int, closing: seq<Entry>, a: seq<nat>, b: seq<nat>, c: seq<nat>,
                   d: seq<nat>, next: nat)
    requires i < |queue| && !queue[i].connecting
    requires ConnectOnce(queue, closing, a, b, next) && TimeoutOnce(queue, closing, c, d, next)
    ensures var q := queue[i := Started(queue[i], expires)];
      && ConnectOnce(q, closing, a + [queue[i].ticket], b, next) && TimeoutOnce(q, closing, c, d, next)
      && Connecting(q) == Connecting(queue) + 1
  {
    var q, x := queue[i := Started(queue[i], expires)], queue[i].ticket;
    Replaced(queue, i, expires, 0);
    forall t: nat
      ensures Occurs(q, t) == Occurs(queue, t)
      ensures Waiting(q, t) + Times(a + [x], t) == Waiting(queue, t) + Times(a, t)
    {
      Replaced(queue, i, expires, t);
      TimesMore(a, x, t);
    }
  }

  /** A callback that was pending is called. */
  lemma CallMoves(pending: seq<nat>, k: nat, called: seq<nat>, t: nat)
    requires k < |pending|
    ensures Times(Without(pending, k), t) + Times(called + [pending[k]], t) == Times(pending, t) + Times(called, t)
  {
    TimesRemoved(pending, k, t);
    TimesMore(called, pending[k], t);
  }

  lemma ExpireKeeps(queue: seq<Entry>, i: nat, closing: seq<Entry>, a: seq<nat>, b: seq<nat>, c: seq<nat>, d: seq<nat>,
                    next: nat)
    requires i < |queue| && queue[i].connecting
    requires ConnectOnce(queue, closing, a, b, next) && TimeoutOnce(queue, closing, c, d, next)
    ensures ConnectOnce(Without(queue, i), closing, a, b, next)
    ensures TimeoutOnce(Without(queue, i), closing, c + [queue[i].ticket], d, next)
    ensures Connecting(queue) == Connecting(Without(queue, i)) + 1
  {
    var x := queue[i].ticket;
    Removed(queue, i, 0);
    forall t: nat
      ensures Occurs(Without(queue, i), t) + Times(c + [x], t) == Occurs(queue, t) + Times(c, t)
      ensures Waiting(Without(queue, i), t) == Waiting(queue, t)
    {
      Removed(queue, i, t);
      TimesMore(c, x, t);
    }
  }

  lemma WithoutMembers(q: seq<Entry>, i: nat)
    requires i < |q|
    ensures forall e <- Without(q, i) :: e in q
    ensures forall e <- q :: e.ticket != q[i].ticket ==> e in Without(q, i)
  {
    Rejoin(q, i);
  }

  lemma {:induction false} OccursIn(q: seq<Entry>, t: nat)
    ensures Occurs(q, t) > 0 <==> exists e <- q :: e.ticket == t
  {
    if q != [] {
      OccursIn(q[..|q| - 1], t);
      assert q == q[..|q| - 1] + [q[|q| - 1]];
    }
  }

  lemma NoneLeft(q: seq<Entry>, i: nat, t: nat)
    requires i < |q| && q[i].ticket == t && Occurs(q, t) <= 1
    ensures forall e <- Without(q, i) :: e.ticket != t
  {
    Removed(q, i, t);
    OccursIn(Without(q, i), t);
  }

  lemma TimedPutBack(queue: seq<Entry>, closing: seq<Entry>, k: nat)
    requires Timed(queue) && Timed(closing) && k < |closing|
    ensures Timed(queue + [closing[k]]) && Timed(Without(closing, k))
  {
    WithoutMembers(closing, k);
    assert closing[k] in closing;
  }

  /** What try_connect may do to an entry. */
  ghost predicate After(was: Entry, e: Entry, now: int) {
    e == was || (!was.connecting && e == was.(connecting := true, expires := now + was.timeout))
  }

  /** The entries before i connect, and those behind are as they were. */
  ghost predicate Swept(was: seq<Entry>, q: seq<Entry>, i: nat, now: int) {
    && i <= |q| == |was|
    && (forall k :: 0 <= k < i ==> q[k].connecting && After(was[k], q[k], now))
    && (forall k :: i <= k < |q| ==> q[k] == was[k])
  }

  lemma SweptMore(was: seq<Entry>, q: seq<Entry>, i: nat, now: int)
    requires i < |q| == |was| && Swept(was, q[i := was[i]], i, now)
    requires !was[i].connecting && q[i] == Started(was[i], now + was[i].timeout)
    ensures Swept(was, q, i + 1, now)
  {
    forall k | 0 <= k < |q| && k != i ensures q[k] == q[i := was[i]][k] {
    }
  }

  predicate IsOverdue(e: Entry, now: int) { e.connecting && e.expires < now }

  /** What on_timeout leaves, and the tickets of the others. */
  function Fresh(q: seq<Entry>, now: int): seq<Entry> {
    if q == [] then []
    else Fresh(q[..|q| - 1], now) + if IsOverdue(q[|q| - 1], now) then [] else [q[|q| - 1]]
  }

  function Overdue(q: seq<Entry>, now: int): seq<nat> {
    if q == [] then []
    else Overdue(q[..|q| - 1], now) + if IsOverdue(q[|q| - 1], now) then [q[|q| - 1].ticket] else []
  }

  /** The earliest expiry of those that stay. */
  function Earliest(q: seq<Entry>, now: int): int {
    if q == [] then MAX_TIME
    else
      var e, m := q[|q| - 1], Earliest(q[..|q| - 1], now);
      if e.connecting && !IsOverdue(e, now) && e.expires < m then e.expires else m
  }

  lemma {:induction false} EarliestOf(q: seq<Entry>, now: int)
    ensures forall e <- q :: e.connecting && e.expires >= now ==> Earliest(q, now) <= e.expires
    ensures (Earliest(q, now) == MAX_TIME ||
      exists e <- q :: e.connecting && e.expires >= now && e.expires == Earliest(q, now))
  {
    if q != [] {
      EarliestOf(q[..|q| - 1], now);
      assert q == q[..|q| - 1] + [q[|q| - 1]];
      assert q[|q| - 1] in q;
    }
  }

  /** Exactly the entries that do not connect, or have time left, stay. */
  lemma {:induction false} FreshMembers(q: seq<Entry>, now: int)
    ensures forall e :: e in Fresh(q, now) <==> e in q && (e.connecting ==> e.expires >= now)
  {
    if q != [] {
      FreshMembers(q[..|q| - 1], now);
      assert q == q[..|q| - 1] + [q[|q| - 1]];
    }
  }

  /** The tickets are those of the others. */
  lemma {:induction false} OverdueMembers(q: seq<Entry>, now: int)
    ensures forall t :: t in Overdue(q, now) <==> exists e <- q :: e.connecting && e.expires < now && e.ticket == t
  {
    if q != [] {
      OverdueMembers(q[..|q| - 1], now);
      assert q == q[..|q| - 1] + [q[|q| - 1]];
    }
  }

  lemma TimedPrefix(q: seq<Entry>)
    requires Timed(q) && q != []
    ensures Timed(q[..|q| - 1]) && (q[|q| - 1].connecting ==> q[|q| - 1].expires < MAX_TIME)
  {
    assert q[|q| - 1] in q;
    forall e | e in q[..|q| - 1] ensures e in q {
    }
  }

  lemma ConnectingMore(q: seq<Entry>, e: Entry, stays: bool, more: seq<Entry>)
    requires more == q + if stays then [e] else []
    ensures Connecting(more) == Connecting(q) + if stays && e.connecting then 1 else 0
  {
    if stays {
      Snoc(q, e);
    } else {
      assert more == q;
    }
  }

  /** There is a next expiry exactly if some of those that stay connect. */
  lemma {:induction false} TimerNeeded(q: seq<Entry>, now: int)
    requires Timed(q)
    ensures Earliest(q, now) < MAX_TIME <==> Connecting(Fresh(q, now)) > 0
  {
    if q != [] {
      var before, e := q[..|q| - 1], q[|q| - 1];
      TimedPrefix(q);
      TimerNeeded(before, now);
      ConnectingMore(Fresh(before, now), e, !IsOverdue(e, now), Fresh(q, now));
    }
  }

  lemma ExpiredStart(was: seq<Entry>, now: int, gone: seq<nat>)
    ensures was == Fresh(was[..0], now) + was[0..] && |Fresh(was[..0], now)| == 0
    ensures gone == gone + Overdue(was[..0], now) && Earliest(was[..0], now) == MAX_TIME
  {
    assert was[..0] == [] && was[0..] == was;
  }

  lemma ExpiredEnd(was: seq<Entry>, n: nat, now: int, q: seq<Entry>, i: nat)
    requires n <= |was| && i == |Fresh(was[..n], now)| >= |q| && q == Fresh(was[..n], now) + was[n..]
    ensures was[..n] == was && q == Fresh(was, now)
  {
    assert n == |was|;
    assert was[..n] == was && was[n..] == [];
  }

  lemma EarliestStep(was: seq<Entry>, n: nat, now: int)
    requires n < |was|
    ensures var e, m := was[n], Earliest(was[..n], now);
      (Earliest(was[..n + 1], now) == if e.connecting && !IsOverdue(e, now) && e.expires < m then e.expires else m)
  {
    assert was[..n + 1][..n] == was[..n];
  }

  lemma ExpiredStep(was: seq<Entry>, n: nat, now: int, q: seq<Entry>, i: nat, gone: seq<nat>)
    requires n <= |was| && i == |Fresh(was[..n], now)| < |q| && q == Fresh(was[..n], now) + was[n..]
    ensures n < |was| && q[i] == was[n]
    ensures (IsOverdue(was[n], now) ==>
      Without(q, i) == Fresh(was[..n + 1], now) + was[n + 1..] && i == |Fresh(was[..n + 1], now)|
      && gone + Overdue(was[..n + 1], now) == gone + Overdue(was[..n], now) + [was[n].ticket])
    ensures (!IsOverdue(was[n], now) ==>
      q == Fresh(was[..n + 1], now) + was[n + 1..] && i + 1 == |Fresh(was[..n + 1], now)|
      && gone + Overdue(was[..n + 1], now) == gone + Overdue(was[..n], now))
  {
    assert was[..n + 1][..n] == was[..n];
    DropFirst(was, n);
  }

  class Queue {
    /** m_queue, m_next_ticket, m_num_connecting, m_half_open_limit and m_num_timers */
    var queue: seq<Entry>
    var nextTicket: nat
    var numConnecting: int
    var halfOpenLimit: nat
    var numTimers: nat

    /** The local lists of the threads: to_connect, timed_out (as tickets), and the tmp lists of close. */
    var toConnect: seq<nat>
    var toTimeOut: seq<nat>
    var closing: seq<Entry>
    /** Threads inside on_timeout that will set the timer again. */
    var rearming: nat

    /** The callbacks that were made. */
    ghost var connected: seq<nat>
    ghost var timedOut: seq<nat>
    /** close was called. */
    ghost var closed: bool

    ghost predicate Valid()
      reads this
    {
      Counted() && Watched()
    }

    ghost predicate Counted()
      reads this
    {
      && numConnecting == Connecting(queue) && Timed(queue) && Timed(closing)
      && ConnectOnce(queue, closing, toConnect, connected, nextTicket)
      && TimeoutOnce(queue, closing, toTimeOut, timedOut, nextTicket)
    }

    /** Unless it was closed, somebody looks after the connecting entries: a timer, or a thread that sets it again. */
    ghost predicate Watched()
      reads this
    {
      !closed && numConnecting > 0 ==> numTimers + rearming > 0
    }

    constructor ()
      ensures Valid() && queue == [] && connected == [] && !closed
    {
      queue, nextTicket, numConnecting, halfOpenLimit, numTimers := [], 0, 0, 0, 0;
      toConnect, toTimeOut, closing, rearming := [], [], [], 0;
      connected, timedOut, closed := [], [], false;
    }

    /**
      * By how much the entries that connect exceed the limit. Only close, when it puts a connecting entry back, and
      * setting the limit can raise it.
      */
    function Excess(): (r: nat)
      reads `numConnecting, `halfOpenLimit
      ensures r == 0 <==> halfOpenLimit == 0 || numConnecting <= halfOpenLimit
    {
      if 0 < halfOpenLimit < numConnecting then numConnecting - halfOpenLimit else 0
    }

    /** Whether a free slot makes enqueue and done post a call of try_connect. */
    predicate HasFreeSlot()
      reads this
    {
      numConnecting < halfOpenLimit || halfOpenLimit == 0
    }

    method SetLimit(limit: nat)
      requires Valid()
      modifies `halfOpenLimit
      ensures Valid() && halfOpenLimit == limit && (limit >= old(halfOpenLimit) > 0 ==> Excess() <= old(Excess()))
    {
      halfOpenLimit := limit;
    }

    method Enqueue(timeout: int, priority: nat) returns (post: bool)
      requires Valid() && priority < 3
      modifies `queue, `nextTicket
      ensures Valid() && nextTicket == old(nextTicket) + 1 && post == HasFreeSlot()
      ensures var e := Entry(old(nextTicket), priority, timeout, false, MAX_TIME);
        queue == if priority > 0 then [e] + old(queue) else old(queue) + [e]
    {
      var e := Entry(nextTicket, priority, timeout, false, MAX_TIME);
      var q := if priority > 0 then [e] + queue else queue + [e];
      EnqueueKeeps(queue, q, e, closing, toConnect, connected, toTimeOut, timedOut, nextTicket);
      queue := q;
      nextTicket := nextTicket + 1;
      post := numConnecting < halfOpenLimit || halfOpenLimit == 0;
    }

    /** The first entry with the ticket. */
    method FindTicket(ticket: nat) returns (i: nat)
      ensures i <= |queue| && (i < |queue| ==> queue[i].ticket == ticket)
      ensures forall k :: 0 <= k < i ==> queue[k].ticket != ticket
    {
      i := 0;
      while i < |queue| && queue[i].ticket != ticket
        invariant i <= |queue| && forall k :: 0 <= k < i ==> queue[k].ticket != ticket
      {
        i := i + 1;
      }
    }

    method Done(ticket: nat) returns (post: bool)
      requires Valid()
      modifies `queue, `numConnecting
      ensures Valid() && Excess() <= old(Excess()) && forall e <- queue :: e in old(queue) && e.ticket != ticket
      ensures forall e <- old(queue) :: e.ticket != ticket ==> e in queue
      ensures (forall e <- old(queue) :: e.ticket != ticket) ==> !post && queue == old(queue)
      ensures (exists e <- old(queue) :: e.ticket == ticket) ==> post == HasFreeSlot()
      ensures ((exists e <- old(queue) :: e.ticket == ticket) ==>
        (exists i :: 0 <= i < |old(queue)| && old(queue)[i].ticket == ticket && queue == Without(old(queue), i)))
    {
      var i := FindTicket(ticket);
      if i == |queue| {
        return false;
      }
      Removed(queue, i, ticket);
      RemoveKeeps(queue, i, closing, toConnect, connected, toTimeOut, timedOut, nextTicket);
      NoneLeft(queue, i, ticket);
      WithoutMembers(queue, i);
      if queue[i].connecting {
        numConnecting := numConnecting - 1;
      }
      queue := Without(queue, i);
      post := numConnecting < halfOpenLimit || halfOpenLimit == 0;
    }

    /** The locked part of close. */
    method CloseBegin()
      requires Valid()
      modifies `queue, `numConnecting, `closing, `closed
      ensures Valid() && queue == [] && closing == old(closing) + old(queue) && closed && Excess() == 0
    {
      SwapKeeps(queue, closing, toConnect, connected, toTimeOut, timedOut, nextTicket);
      closing := closing + queue;
      queue := [];
      numConnecting := 0;
      closed := true;
    }

    /** close with an entry of its list: put back, or called back. */
    method CloseOne(k: nat)
      requires Valid() && k < |closing|
      modifies `queue, `numConnecting, `closing, `connected, `timedOut, `closed
      ensures Valid() && closing == Without(old(closing), k)
      ensures Excess() <= old(Excess()) + if old(closing[k]).priority > 1 && old(closing[k]).connecting then 1 else 0
      ensures var e := old(closing[k]);
        && queue == (if e.priority > 1 then old(queue) + [e] else old(queue))
        && connected == (if e.priority <= 1 && !e.connecting then old(connected) + [e.ticket] else old(connected))
        && timedOut == if e.priority <= 1 && e.connecting then old(timedOut) + [e.ticket] else old(timedOut)
    {
      if closing[k].priority > 1 {
        PutBack(k);
      } else {
        CallBack(k);
      }
    }

    /** An entry of high priority goes back to the queue. */
    method PutBack(k: nat)
      requires Valid() && k < |closing|
      modifies `queue, `numConnecting, `closing, `closed
      ensures Valid() && closing == Without(old(closing), k) && queue == old(queue) + [old(closing[k])]
      ensures numConnecting == old(numConnecting) + if old(closing[k]).connecting then 1 else 0
    {
      var e := closing[k];
      closed := true;
      TimedPutBack(queue, closing, k);
      PutBackKeeps(queue, closing, k, toConnect, connected, toTimeOut, timedOut, nextTicket);
      if e.connecting {
        numConnecting := numConnecting + 1;
      }
      queue := queue + [e];
      closing := Without(closing, k);
    }

    /** Any other is told that it will not connect, or that it timed out. */
    method CallBack(k: nat)
      requires Valid() && k < |closing|
      modifies `closing, `connected, `timedOut, `closed
      ensures Valid() && closing == Without(old(closing), k)
      ensures var e := old(closing[k]);
        && connected == (if !e.connecting then old(connected) + [e.ticket] else old(connected))
        && timedOut == if e.connecting then old(timedOut) + [e.ticket] else old(timedOut)
    {
      var e := closing[k];
      closed := true;
      TimedPutBack([], closing, k);
      CloseKeeps(queue, closing, k, toConnect, connected, toTimeOut, timedOut, nextTicket);
      if e.connecting {
        timedOut := timedOut + [e.ticket];
      } else {
        connected := connected + [e.ticket];
      }
      closing := Without(closing, k);
    }

    /** A callback of on_connect by a thread that left try_connect. */
    method ConnectOne(k: nat)
      requires Valid() && k < |toConnect|
      modifies `toConnect, `connected
      ensures Valid() && connected == old(connected) + [old(toConnect[k])]
    {
      forall t: nat { CallMoves(toConnect, k, connected, t); }
      connected := connected + [toConnect[k]];
      toConnect := Without(toConnect, k);
    }

    /** A callback of on_timeout by a thread inside on_timeout. */
    method TimeoutOne(k: nat)
      requires Valid() && k < |toTimeOut|
      modifies `toTimeOut, `timedOut
      ensures Valid() && timedOut == old(timedOut) + [old(toTimeOut[k])]
    {
      forall t: nat { CallMoves(toTimeOut, k, timedOut, t); }
      timedOut := timedOut + [toTimeOut[k]];
      toTimeOut := Without(toTimeOut, k);
    }

    // ----- try_connect -----

    method FindWaiting(from: nat) returns (i: nat)
      requires from <= |queue|
      ensures from <= i <= |queue| && (i < |queue| ==> !queue[i].connecting)
      ensures forall k :: from <= k < i ==> queue[k].connecting
    {
      i := from;
      while i < |queue| && queue[i].connecting
        invariant from <= i <= |queue| && forall k :: from <= k < i ==> queue[k].connecting
      {
        i := i + 1;
      }
    }

    /** One iteration of the loop: a waiting entry starts to connect, and the first one sets the timer. */
    method Start(i: nat, now: int)
      requires Valid() && i < |queue| && !queue[i].connecting && now + queue[i].timeout < MAX_TIME
      requires halfOpenLimit == 0 || numConnecting < halfOpenLimit
      modifies `queue, `numConnecting, `numTimers, `toConnect
      ensures Valid() && numConnecting == old(numConnecting) + 1 && Excess() == 0
      ensures queue == old(queue)[i := Started(old(queue[i]), now + old(queue[i]).timeout)]
      ensures toConnect == old(toConnect) + [old(queue[i]).ticket]
    {
      var expire := now + queue[i].timeout;
      StartKeeps(queue, i, expire, closing, toConnect, connected, toTimeOut, timedOut, nextTicket);
      if numConnecting == 0 {
        numTimers := numTimers + 1;
      }
      numConnecting := numConnecting + 1;
      toConnect := toConnect + [queue[i].ticket];
      queue := queue[i := Started(queue[i], expire)];
    }

    /** Nobody waits who could connect. */
    ghost predicate Settled()
      reads this
    {
      (forall e <- queue :: e.connecting) || (halfOpenLimit > 0 && numConnecting >= halfOpenLimit)
    }

    /** One iteration of the loop: the entry starts, and the next one that waits is found unless it is time to stop. */
    method StartNext(i: nat, now: int, ghost was: seq<Entry>) returns (next: nat, stop: bool)
      requires Valid() && i < |queue| && !queue[i].connecting && now + queue[i].timeout < MAX_TIME
      requires (halfOpenLimit == 0 || numConnecting < halfOpenLimit) && Swept(was, queue, i, now)
      modifies `queue, `numConnecting, `numTimers, `toConnect
      ensures Valid() && numConnecting > old(numConnecting) && Excess() == 0 && |queue| == |old(queue)|
      ensures i < next <= |queue| && Swept(was, queue, next, now) && (stop ==> Settled())
      ensures !stop && next < |queue| ==>
        !queue[next].connecting && (halfOpenLimit == 0 || numConnecting < halfOpenLimit)
    {
      Start(i, now);
      SweptMore(was, queue, i, now);
      SomeWaiting(queue);
      next, stop := i + 1, true;
      if numConnecting >= halfOpenLimit && halfOpenLimit > 0 {
        return;
      }
      if numConnecting == |queue| {
        return;
      }
      next := FindWaiting(i);
      stop := false;
    }

    /** The first entries that wait start to connect, as many as there are slots. */
    method TryConnect(now: int)
      requires Valid() && forall e <- queue :: now + e.timeout < MAX_TIME
      modifies `queue, `numConnecting, `numTimers, `toConnect
      ensures Valid() && Settled() && Excess() <= old(Excess())
      ensures |queue| == |old(queue)| && numConnecting >= old(numConnecting)
      ensures forall k :: 0 <= k < |queue| ==> After(old(queue)[k], queue[k], now)
      ensures (forall j, k :: 0 <= j < k < |queue| && queue[k] != old(queue)[k] ==> queue[j].connecting)
    {
      if numConnecting >= halfOpenLimit && halfOpenLimit > 0 {
        return;
      }
      SomeWaiting(queue);
      if queue == [] || |queue| == numConnecting {
        return;
      }
      ghost var was := queue;
      var i := FindWaiting(0);
      var stop := false;
      while !stop && i < |queue|
        invariant Valid() && numConnecting >= old(numConnecting) && Excess() == 0
        invariant Swept(was, queue, i, now) && (stop ==> Settled())
        invariant !stop && i < |queue| ==>
          !queue[i].connecting && (halfOpenLimit == 0 || numConnecting < halfOpenLimit)
        decreases |queue| - i
      {
        assert queue[i] in old(queue);
        i, stop := StartNext(i, now, was);
      }
    }

    // ----- on_timeout -----

    /** The first locked part; the callbacks of the expired entries follow, and then TimeoutEnd. */
    method TimeoutBegin(error: bool, now: int) returns (goesOn: bool, rearm: bool)
      requires Valid() && numTimers > 0
      modifies `queue, `numConnecting, `numTimers, `toTimeOut, `rearming
      ensures Valid() && (goesOn <==> !(error && (old(numConnecting) == 0 || old(numTimers) > 1)))
      ensures !goesOn ==> queue == old(queue) && toTimeOut == old(toTimeOut) && !rearm
      ensures goesOn ==> queue == Fresh(old(queue), now + 100)
      ensures goesOn ==> toTimeOut == old(toTimeOut) + Overdue(old(queue), now + 100)
      ensures Excess() <= old(Excess()) && (goesOn ==> (rearm <==> numConnecting > 0))
      ensures rearming == if rearm then old(rearming) + 1 else old(rearming)
    {
      numTimers := numTimers - 1;
      if error && (numConnecting == 0 || numTimers > 0) {
        return false, false;
      }
      TimerNeeded(queue, now + 100);
      var nextExpire := Expire(now + 100);
      rearm := nextExpire < MAX_TIME;
      if rearm {
        rearming := rearming + 1;
      }
      goesOn := true;
    }

    /** The loop of on_timeout: exactly the expired entries leave, in order; the result is the earliest expiry left. */
    method Expire(now: int) returns (nextExpire: int)
      requires Counted()
      modifies `queue, `numConnecting, `toTimeOut
      ensures Counted() && Excess() <= old(Excess())
      ensures queue == Fresh(old(queue), now) && toTimeOut == old(toTimeOut) + Overdue(old(queue), now)
      ensures nextExpire == Earliest(old(queue), now)
    {
      ghost var was, gone := queue, toTimeOut;
      nextExpire := MAX_TIME;
      var i: nat := 0;
      ghost var n := 0;
      ExpiredStart(was, now, gone);
      while i < |queue|
        invariant Counted() && numConnecting <= old(numConnecting)
        invariant n <= |was| && i == |Fresh(was[..n], now)| && queue == Fresh(was[..n], now) + was[n..]
        invariant toTimeOut == gone + Overdue(was[..n], now)
        invariant nextExpire == Earliest(was[..n], now)
        decreases |queue| - i
      {
        i, nextExpire := ExpireIf(now, i, nextExpire, was, n, gone);
        n := n + 1;
      }
      ExpiredEnd(was, n, now, queue, i);
    }

    /** One entry of the loop: it leaves if it has expired. */
    method ExpireIf(now: int, i: nat, earliest: int, ghost was: seq<Entry>, ghost n: nat, ghost gone: seq<nat>)
      returns (next: nat, nextExpire: int)
      requires Counted() && n <= |was| && i == |Fresh(was[..n], now)| && i < |queue|
      requires queue == Fresh(was[..n], now) + was[n..] && toTimeOut == gone + Overdue(was[..n], now)
      requires earliest == Earliest(was[..n], now)
      modifies `queue, `numConnecting, `toTimeOut
      ensures Counted() && numConnecting <= old(numConnecting)
      ensures n < |was| && next == |Fresh(was[..n + 1], now)| && queue == Fresh(was[..n + 1], now) + was[n + 1..]
      ensures toTimeOut == gone + Overdue(was[..n + 1], now)
      ensures |queue| - next < old(|queue|) - i && nextExpire == Earliest(was[..n + 1], now)
    {
      ExpiredStep(was, n, now, queue, i, gone);
      EarliestStep(was, n, now);
      next, nextExpire := i, earliest;
      if queue[i].connecting && queue[i].expires < now {
        ExpireKeeps(queue, i, closing, toConnect, connected, toTimeOut, timedOut, nextTicket);
        WithoutMembers(queue, i);
        toTimeOut := toTimeOut + [queue[i].ticket];
        queue := Without(queue, i);
        numConnecting := numConnecting - 1;
      } else {
        if queue[i].connecting && queue[i].expires < nextExpire {
          nextExpire := queue[i].expires;
        }
        next := i + 1;
      }
    }

    /** The second locked part. */
    method TimeoutEnd(rearm: bool, now: int)
      requires Valid() && (rearm ==> rearming > 0) && forall e <- queue :: now + e.timeout < MAX_TIME
      modifies `queue, `numConnecting, `numTimers, `toConnect, `rearming
      ensures Valid() && Settled() && Excess() <= old(Excess())
      ensures rearming == if rearm then old(rearming) - 1 else old(rearming)
    {
      if rearm {
        rearming := rearming - 1;
        numTimers := numTimers + 1;
      }
      TryConnect(now);
    }
  }
}
