/** bandwidth_manager: a queue of requests served in rounds from rate-limited channels. */
module Bandwidth {
  import opened Common
  import opened BandwidthShares
  import opened BandwidthRound

  datatype Delivery = Delivery(peer: nat, amount: nat)

  /** The callbacks run over the completed requests from the last to the first. */
  function Deliveries(tm: seq<Request>): (d: seq<Delivery>) {
    if tm == [] then []
    else [Delivery(tm[|tm| - 1].peer, tm[|tm| - 1].given)] + Deliveries(tm[..|tm| - 1])
  }

  /** The channels after the loops over the queue, with how much was done for each of them. */
  function ReturnedTo(m: Channels, chs: seq<nat>, amount: nat): (p: Channels)
    ensures p.Keys == m.Keys
  {
    map c | c in m :: m[c].ReturnQuota(Paid(chs, c, amount))
  }

  function UsedFrom(m: Channels, chs: seq<nat>, amount: nat): (p: Channels)
    ensures p.Keys == m.Keys
  {
    map c | c in m :: m[c].UseQuota(Paid(chs, c, amount))
  }

  function Reset(m: Channels, chs: seq<nat>): (p: Channels)
    ensures p.Keys == m.Keys
  {
    map c | c in m :: if c in chs then m[c].(tmp := 0) else m[c]
  }

  function Weighed(m: Channels, chs: seq<nat>, priority: nat): (p: Channels)
    ensures p.Keys == m.Keys
  {
    map c | c in m :: m[c].(tmp := m[c].tmp + Paid(chs, c, priority))
  }

  lemma PaidMore(chs: seq<nat>, c: nat, amount: nat, ch: nat)
    ensures Paid(chs + [ch], c, amount) == Paid(chs, c, amount) + if ch == c then amount else 0
  {
    Snoc(chs, ch);
  }

  lemma ReturnedMore(m: Channels, chs: seq<nat>, amount: nat, ch: nat)
    requires ch in m
    ensures var p := ReturnedTo(m, chs, amount);
      p[ch := p[ch].ReturnQuota(amount)] == ReturnedTo(m, chs + [ch], amount)
  {
    forall c { PaidMore(chs, c, amount, ch); }
  }

  lemma UsedMore(m: Channels, chs: seq<nat>, amount: nat, ch: nat)
    requires ch in m
    ensures var p := UsedFrom(m, chs, amount); p[ch := p[ch].UseQuota(amount)] == UsedFrom(m, chs + [ch], amount)
  {
    forall c { PaidMore(chs, c, amount, ch); }
  }

  lemma WeighedMore(m: Channels, chs: seq<nat>, priority: nat, ch: nat)
    requires ch in m
    ensures var p := Weighed(m, chs, priority);
      p[ch := p[ch].(tmp := p[ch].tmp + priority)] == Weighed(m, chs + [ch], priority)
  {
    forall c { PaidMore(chs, c, priority, ch); }
  }

  function Throttled(chs: seq<nat>, m: Channels): seq<nat>
    requires Known(chs, m)
  {
    if chs == [] then []
    else Throttled(chs[..|chs| - 1], m) + if m[chs[|chs| - 1]].limit > 0 then [chs[|chs| - 1]] else []
  }

  lemma {:induction false} ThrottledAre(chs: seq<nat>, m: Channels)
    requires Known(chs, m)
    ensures forall c :: c in Throttled(chs, m) <==> c in chs && m[c].limit > 0
    ensures |Throttled(chs, m)| <= |chs|
  {
    if chs != [] {
      ThrottledAre(chs[..|chs| - 1], m);
      assert chs == chs[..|chs| - 1] + [chs[|chs| - 1]];
    }
  }

  // ----- What a round has done for the first requests of the queue -----

  predicate InAny(queue: seq<Request>, c: nat) {
    queue != [] && (c in queue[|queue| - 1].channels || InAny(queue[..|queue| - 1], c))
  }

  lemma {:induction false} InAnyWeighs(queue: seq<Request>, c: nat)
    requires AllLive(queue)
    ensures InAny(queue, c) <==> Weight(queue, c) > 0
  {
    if queue != [] {
      var r := queue[|queue| - 1];
      assert r in queue;
      PaidPositive(r.channels, c, r.priority);
      InAnyWeighs(queue[..|queue| - 1], c);
    }
  }

  function DroppedOne(ch: Channel, back: nat, kept: bool): Channel {
    ch.ReturnQuota(back).(tmp := if kept then 0 else ch.tmp)
  }

  function Dropped(m: Channels, done: seq<Request>, leaving: set<nat>): (p: Channels)
    ensures p.Keys == m.Keys
  {
    map c | c in m :: DroppedOne(m[c], GivenBack(done, leaving, c), InAny(Kept(done, leaving), c))
  }

  function WeighedAll(m: Channels, done: seq<Request>): (p: Channels)
    ensures p.Keys == m.Keys
  {
    map c | c in m :: m[c].(tmp := m[c].tmp + Weight(done, c))
  }

  function Updated(m: Channels, chans: seq<nat>, dt: nat): (p: Channels)
    ensures p.Keys == m.Keys
  {
    map c | c in m :: if c in chans then m[c].UpdateQuota(dt) else m[c]
  }

  lemma KeepOne(done: seq<Request>, leaving: set<nat>, r: Request)
    ensures Kept(done + [r], leaving) == Kept(done, leaving) + if r.peer in leaving then [] else [r]
  {
    Snoc(done, r);
  }

  lemma DropOneFrom(ch: Channel, done: seq<Request>, leaving: set<nat>, r: Request, c: nat)
    ensures GivenBack(done + [r], leaving, c)
      == GivenBack(done, leaving, c) + if r.peer in leaving then Paid(r.channels, c, r.given) else 0
    ensures InAny(Kept(done + [r], leaving), c)
      <==> InAny(Kept(done, leaving), c) || (r.peer !in leaving && c in r.channels)
  {
    Snoc(done, r);
    if r.peer !in leaving {
      Snoc(Kept(done, leaving), r);
    } else {
      assert Kept(done, leaving) + [] == Kept(done, leaving);
    }
  }

  lemma ReturnTwice(ch: Channel, a: nat, b: nat, kept: bool)
    ensures DroppedOne(ch, a + b, kept) == DroppedOne(ch, a, kept).ReturnQuota(b)
  {
  }

  lemma DropLeaving(m: Channels, done: seq<Request>, leaving: set<nat>, r: Request, p: Channels)
    requires r.peer in leaving && p == Dropped(m, done, leaving)
    ensures Dropped(m, done + [r], leaving) == ReturnedTo(p, r.channels, r.given)
  {
    forall c | c in m ensures Dropped(m, done + [r], leaving)[c] == ReturnedTo(p, r.channels, r.given)[c] {
      DropOneFrom(m[c], done, leaving, r, c);
      ReturnTwice(m[c], GivenBack(done, leaving, c), Paid(r.channels, c, r.given), InAny(Kept(done, leaving), c));
    }
  }

  lemma DropStaying(m: Channels, done: seq<Request>, leaving: set<nat>, r: Request, p: Channels)
    requires r.peer !in leaving && p == Dropped(m, done, leaving)
    ensures Dropped(m, done + [r], leaving) == Reset(p, r.channels)
  {
    forall c | c in m ensures Dropped(m, done + [r], leaving)[c] == Reset(p, r.channels)[c] {
      DropOneFrom(m[c], done, leaving, r, c);
    }
  }

  lemma WeighOne(m: Channels, done: seq<Request>, r: Request)
    ensures WeighedAll(m, done + [r]) == Weighed(WeighedAll(m, done), r.channels, r.priority)
  {
    Snoc(done, r);
  }

  lemma ChargeOne(m: Channels, done: seq<Request>, r: Request)
    requires AllKnown(done + [r], m) && AllKnown(done, m)
    ensures Known(r.channels, m) && r.given <= r.size
    ensures ChargedAll(m, done + [r]) == UsedFrom(ChargedAll(m, done), r.channels, Grant(r, m))
    ensures var a := AfterRound(r, m);
      && Remaining(done + [r], m) == Remaining(done, m) + (if Complete(a) then [] else [a])
      && Completed(done + [r], m) == Completed(done, m) + if Complete(a) then [a] else []
  {
    assert r in done + [r];
    Snoc(done, r);
  }

  /** Charging does not change the shares that are still to be granted. */
  ghost predicate SameShares(m: Channels, p: Channels) {
    p.Keys == m.Keys
    && forall c <- m :: p[c].limit == m[c].limit && p[c].tmp == m[c].tmp && p[c].distribute == m[c].distribute
  }

  lemma SameShare(ch: Channel, d: Channel, priority: nat)
    requires ch.distribute == d.distribute && ch.tmp == d.tmp && ch.tmp > 0
    ensures Share(ch, priority) == Share(d, priority)
  {
  }

  lemma {:induction false} SameNarrowed(chs: seq<nat>, m: Channels, p: Channels, priority: nat, quota: nat)
    requires Known(chs, m) && SameShares(m, p)
    ensures Known(chs, p) && Narrowed(chs, p, priority, quota) == Narrowed(chs, m, priority, quota)
  {
    if chs != [] {
      SameNarrowed(chs[..|chs| - 1], m, p, priority, quota);
    }
  }

  lemma ChargedSameShares(m: Channels, done: seq<Request>)
    requires AllKnown(done, m)
    ensures SameShares(m, ChargedAll(m, done))
  {
  }

  /** The list of the channels that compete, each of them once. */
  ghost predicate Lists(chans: seq<nat>, queue: seq<Request>) {
    && (forall i, j :: 0 <= i < j < |chans| ==> chans[i] != chans[j])
    && (forall c :: c in chans <==> InAny(queue, c))
  }

  lemma PreparedInSteps(m: Channels, queue: seq<Request>, leaving: set<nat>, dt: nat, chans: seq<nat>,
                        kept: seq<Request>, p: Channels)
    requires AllLive(queue) && kept == Kept(queue, leaving) && Lists(chans, kept)
    requires p == WeighedAll(Dropped(m, queue, leaving), kept)
    ensures Updated(p, chans, dt) == PreparedAll(m, queue, leaving, dt)
  {
    assert AllLive(kept) by {
      KeptAreQueued(queue, leaving);
    }
    forall c | c in m ensures Updated(p, chans, dt)[c] == PreparedAll(m, queue, leaving, dt)[c] {
      InAnyWeighs(kept, c);
      PreparedOne(m[c], GivenBack(queue, leaving, c), Weight(kept, c), dt, c in chans);
    }
  }

  lemma PreparedOne(ch: Channel, back: nat, weight: nat, dt: nat, listed: bool)
    requires listed <==> weight > 0
    ensures var d := DroppedOne(ch, back, listed); var w := d.(tmp := d.tmp + weight);
      (if listed then w.UpdateQuota(dt) else w) == Prepared(ch, back, weight, dt)
  {
  }

  /** Bytes asked for, and what became of them. */
  datatype Ledger = Ledger(asked: nat, immediate: nat, delivered: nat, dropped: nat, cancelled: nat, returned: nat,
                           closed: nat) {
    function Settled(): nat { immediate + delivered + dropped + cancelled + returned + closed }
  }

  function Amount(d: seq<Delivery>): nat {
    if d == [] then 0 else d[0].amount + Amount(d[1..])
  }

  lemma {:induction false} DeliveredIsHeld(tm: seq<Request>)
    ensures Amount(Deliveries(tm)) == Held(tm) && |Deliveries(tm)| == |tm|
    ensures forall i :: 0 <= i < |tm| ==>
      Deliveries(tm)[i] == Delivery(tm[|tm| - 1 - i].peer, tm[|tm| - 1 - i].given)
  {
    if tm != [] {
      DeliveredIsHeld(tm[..|tm| - 1]);
      assert Deliveries(tm)[1..] == Deliveries(tm[..|tm| - 1]);
    }
  }

  /** A channel has no weight yet exactly if it is not listed yet. */
  lemma ListsZero(queue: seq<Request>, i: nat, m: Channels, chans: seq<nat>)
    requires i < |queue| && AllKnown(queue, m) && AllLive(queue) && Lists(chans, queue[..i])
    requires forall c <- m :: InAny(queue, c) ==> m[c].tmp == 0
    ensures var p := WeighedAll(m, queue[..i]);
      Known(queue[i].channels, p) && forall c <- queue[i].channels :: p[c].tmp == 0 <==> c !in chans
  {
    assert queue[i] in queue;
    assert AllLive(queue[..i]) by {
      assert forall r <- queue[..i] :: r in queue;
    }
    forall c | c in queue[i].channels ensures c in m && m[c].tmp == 0 && (Weight(queue[..i], c) == 0 <==> c !in chans) {
      InAnyAt(queue, i, c);
      InAnyWeighs(queue[..i], c);
    }
  }

  lemma {:induction false} InAnyAt(queue: seq<Request>, i: nat, c: nat)
    requires i < |queue| && c in queue[i].channels
    ensures InAny(queue, c)
  {
    if i < |queue| - 1 {
      InAnyAt(queue[..|queue| - 1], i, c);
    }
  }

  lemma ListsMore(done: seq<Request>, r: Request, chans: seq<nat>, more: seq<nat>)
    requires Lists(chans, done) && forall i, j :: 0 <= i < j < |more| ==> more[i] != more[j]
    requires forall c :: c in more <==> c in chans || c in r.channels
    ensures Lists(more, done + [r])
  {
    Snoc(done, r);
  }

  lemma {:induction false} InAnyKnown(queue: seq<Request>, c: nat, m: Channels)
    requires AllKnown(queue, m) && InAny(queue, c)
    ensures c in m
  {
    var r := queue[|queue| - 1];
    assert r in queue;
    if c !in r.channels {
      InAnyKnown(queue[..|queue| - 1], c, m);
    }
  }

  lemma ListsKnown(chans: seq<nat>, queue: seq<Request>, m: Channels)
    requires Lists(chans, queue) && AllKnown(queue, m)
    ensures Known(chans, m)
  {
    forall c | c in chans ensures c in m {
      InAnyKnown(queue, c, m);
    }
  }

  // ----- The queue during a loop that erases -----

  lemma SumsOfOne(r: Request)
    ensures Size([r]) == r.size && Held([r]) == r.given
  {
    Snoc([], r);
  }

  lemma SumsAround(a: seq<Request>, r: Request, b: seq<Request>)
    ensures Size(a + [r] + b) == Size(a + b) + r.size && Held(a + [r] + b) == Held(a + b) + r.given
  {
    SumsOfOne(r);
    SumsJoin(a + [r], b);
    SumsJoin(a, [r]);
    SumsJoin(a, b);
  }

  lemma WithoutSums(queue: seq<Request>, i: nat)
    requires i < |queue|
    ensures Size(queue) == Size(Without(queue, i)) + queue[i].size
    ensures Held(queue) == Held(Without(queue, i)) + queue[i].given
  {
    Rejoin(queue, i);
    SumsAround(queue[..i], queue[i], queue[i + 1..]);
  }

  lemma Append(queue: seq<Request>, r: Request, m: Channels)
    requires AllKnown(queue, m) && AllLive(queue) && Live(r) && Known(r.channels, m)
    ensures AllKnown(queue + [r], m) && AllLive(queue + [r])
    ensures Size(queue + [r]) == Size(queue) + r.size && Held(queue + [r]) == Held(queue) + r.given
  {
    SumsOfOne(r);
    SumsJoin(queue, [r]);
  }

  lemma SameKnown(queue: seq<Request>, m: Channels, p: Channels)
    requires AllKnown(queue, m) && p.Keys == m.Keys
    ensures AllKnown(queue, p)
  {
  }

  lemma WithoutKnown(queue: seq<Request>, i: nat, m: Channels, p: Channels)
    requires i < |queue| && AllKnown(queue, m) && p.Keys == m.Keys
    ensures AllKnown(Without(queue, i), p)
  {
    assert forall r <- Without(queue, i) :: r in queue;
  }

  /** The first n requests of the old queue are done, those that stay are in front of i, and the others wait. */
  ghost predicate Dropping(was: seq<Request>, n: nat, leaving: set<nat>, queue: seq<Request>, i: nat) {
    n <= |was| && i == |Kept(was[..n], leaving)| && queue == Kept(was[..n], leaving) + was[n..]
  }

  lemma DropStep(was: seq<Request>, n: nat, leaving: set<nat>, queue: seq<Request>, i: nat)
    requires Dropping(was, n, leaving, queue, i) && i < |queue|
    ensures n < |was| && queue[i] == was[n] && was[..n + 1] == was[..n] + [was[n]]
    ensures was[n].peer in leaving ==> Dropping(was, n + 1, leaving, Without(queue, i), i)
    ensures was[n].peer !in leaving ==> Dropping(was, n + 1, leaving, queue, i + 1)
  {
    assert was[..n + 1] == was[..n] + [was[n]];
    KeepOne(was[..n], leaving, was[n]);
    assert was[n..] == [was[n]] + was[n + 1..];
  }

  /** The queue after a request was granted its bytes in place, and erased if that completed it. */
  function Granted(queue: seq<Request>, i: nat, g: Request): seq<Request>
    requires i < |queue|
  {
    if Complete(g) then Without(queue, i) else queue[i := g]
  }

  lemma GrantedFits(queue: seq<Request>, i: nat, g: Request, m: Channels, p: Channels)
    requires i < |queue| && AllKnown(queue, m) && p.Keys == m.Keys
    requires g.channels == queue[i].channels && g.size == queue[i].size && g.given <= g.size
    ensures AllKnown(Granted(queue, i, g), p)
    ensures Size(Granted(queue, i, g)) == Size(queue) - (if Complete(g) then g.size else 0)
    ensures Held(Granted(queue, i, g)) == Held(queue) - queue[i].given + if Complete(g) then 0 else g.given
  {
    WithoutSums(queue, i);
    WithoutKnown(queue, i, m, p);
    if !Complete(g) {
      assert queue[i] in queue;
      var q := queue[i := g];
      assert Without(q, i) == Without(queue, i);
      WithoutSums(q, i);
      forall r | r in q ensures Known(r.channels, p) && r.given <= r.size {
        assert r == g || r in queue;
      }
    }
  }

  ghost predicate Granting(was: seq<Request>, n: nat, m: Channels, queue: seq<Request>, i: nat, tm: seq<Request>)
    requires AllKnown(was, m)
  {
    n <= |was| && AllKnown(was[..n], m)
    && i == |Remaining(was[..n], m)| && queue == Remaining(was[..n], m) + was[n..] && tm == Completed(was[..n], m)
  }

  lemma GrantStart(was: seq<Request>, m: Channels)
    requires AllKnown(was, m)
    ensures Granting(was, 0, m, was, 0, []) && ChargedAll(m, was[..0]) == m
  {
    assert was[..0] == [] && was[0..] == was;
  }

  /** The place of the next request, in a queue whose front is done. */
  lemma GrantedPlace(front: seq<Request>, was: seq<Request>, n: nat, queue: seq<Request>, g: Request)
    requires n <= |was| && queue == front + was[n..] && |front| < |queue|
    ensures n < |was| && queue[|front|] == was[n]
    ensures Granted(queue, |front|, g) == front + (if Complete(g) then [] else [g]) + was[n + 1..]
  {
    assert was[n..] == [was[n]] + was[n + 1..];
  }

  lemma GrantStep(was: seq<Request>, n: nat, m: Channels, queue: seq<Request>, i: nat, tm: seq<Request>)
    requires AllKnown(was, m) && AllLive(was) && Granting(was, n, m, queue, i, tm) && i < |queue|
    ensures n < |was| && queue[i] == was[n] && Live(was[n]) && AllKnown(was[..n + 1], m)
    ensures var g := AfterRound(was[n], m);
      Granting(was, n + 1, m, Granted(queue, i, g), if Complete(g) then i else i + 1,
               tm + if Complete(g) then [g] else [])
    ensures ChargedAll(m, was[..n + 1]) == UsedFrom(ChargedAll(m, was[..n]), was[n].channels, Grant(was[n], m))
  {
    var front := Remaining(was[..n], m);
    GrantedPlace(front, was, n, queue, queue[i]);
    assert was[n] in was;
    GrantedPlace(front, was, n, queue, AfterRound(was[n], m));
    assert was[..n + 1] == was[..n] + [was[n]];
    assert forall r <- was[..n + 1] :: r in was;
    ChargeOne(m, was[..n], was[n]);
  }

  lemma NothingServed(m: Channels, queue: seq<Request>, leaving: set<nat>, dt: nat, kept: seq<Request>, p: Channels,
                      q: Channels)
    requires queue == [] && kept == Kept(queue, leaving) && p == PreparedAll(m, queue, leaving, dt)
    requires AllKnown(kept, p) && q == ChargedAll(p, kept)
    ensures Remaining(kept, p) == queue && Deliveries(Completed(kept, p)) == [] && q == m
  {
  }

  /** After the first loop the channels of the queue have no weight. */
  lemma ClearedKept(m: Channels, queue: seq<Request>, leaving: set<nat>, kept: seq<Request>)
    requires kept == Kept(queue, leaving)
    ensures var d := Dropped(m, queue, leaving); forall c <- d :: InAny(kept, c) ==> d[c].tmp == 0
  {
  }

  ghost predicate AllUp(m: Channels) {
    forall c <- m :: m[c].quotaLeft >= 0
  }

  /** No channel is below zero, or deeper below than it was. */
  ghost predicate NoDeeper(m: Channels, q: Channels) {
    m.Keys == q.Keys && forall c <- m :: q[c].quotaLeft >= 0 || q[c].quotaLeft >= m[c].quotaLeft
  }

  /** A round keeps the requests live and the channels up. */
  lemma RoundKeeps(m: Channels, queue: seq<Request>, leaving: set<nat>, dt: nat, kept: seq<Request>, p: Channels)
    requires AllKnown(queue, m) && AllLive(queue)
    requires kept == Kept(queue, leaving) && p == PreparedAll(m, queue, leaving, dt)
    ensures AllKnown(kept, p) && AllLive(kept) && AllLive(Remaining(kept, p))
    ensures NoDeeper(m, ChargedAll(p, kept)) && (AllUp(m) ==> AllUp(ChargedAll(p, kept)))
    ensures forall r <- Completed(kept, p) :: 0 < r.given <= r.size
  {
    KeptFit(queue, leaving, m, p);
    RoundSplits(kept, p);
    var q := ChargedAll(p, kept);
    forall c | c in m ensures q[c].quotaLeft >= 0 || q[c].quotaLeft >= m[c].quotaLeft {
      QuotaStaysUp(m, queue, leaving, dt, c, kept, p);
    }
  }

  ghost predicate AllPaced(m: Channels, accounts: map<nat, Account>) {
    accounts.Keys == m.Keys && forall c {:trigger Paced(m[c], accounts[c])} :: c in m ==> Paced(m[c], accounts[c])
  }

  ghost predicate AllWithinRate(m: Channels, accounts: map<nat, Account>) {
    && accounts.Keys == m.Keys
    && (forall c {:trigger WithinRate(m[c], accounts[c])} :: c in m && m[c].limit > 0 && m[c].quotaLeft >= 0 ==>
         WithinRate(m[c], accounts[c]))
  }

  /** The quota of a channel balances over the round, and its book says what was charged and returned. */
  ghost predicate BookKept(ch: Channel, q: Channel, back: nat, weight: nat, dt: nat, charge: nat, was: Account,
                           now: Account) {
    Balanced(ch, q, back, weight, dt, charge) && now == Booked(was, back, weight, dt, charge)
  }

  ghost predicate BooksKept(m: Channels, q: Channels, queue: seq<Request>, leaving: set<nat>, dt: nat,
                            kept: seq<Request>, p: Channels, was: map<nat, Account>, now: map<nat, Account>) {
    && m.Keys == q.Keys == was.Keys == now.Keys && AllKnown(kept, p)
    && forall c <- m ::
         BookKept(m[c], q[c], GivenBack(queue, leaving, c), Weight(kept, c), dt, Charged(kept, p, c), was[c], now[c])
  }

  /** A round keeps the rate of every channel. */
  lemma RoundKeepsPace(m: Channels, queue: seq<Request>, leaving: set<nat>, dt: nat, kept: seq<Request>, p: Channels,
                       was: map<nat, Account>) returns (now: map<nat, Account>)
    requires AllKnown(queue, m) && AllLive(queue) && AllPaced(m, was)
    requires kept == Kept(queue, leaving) && p == PreparedAll(m, queue, leaving, dt)
    ensures AllKnown(kept, p) && AllPaced(ChargedAll(p, kept), now) && AllWithinRate(ChargedAll(p, kept), now)
    ensures BooksKept(m, ChargedAll(p, kept), queue, leaving, dt, kept, p, was, now)
  {
    KeptFit(queue, leaving, m, p);
    now := map c | c in m :: Booked(was[c], GivenBack(queue, leaving, c), Weight(kept, c), dt, Charged(kept, p, c));
    var q := ChargedAll(p, kept);
    forall c | c in m
      ensures (BookKept(m[c], q[c], GivenBack(queue, leaving, c), Weight(kept, c), dt, Charged(kept, p, c), was[c],
                        now[c]))
      ensures Paced(q[c], now[c])
    {
      RoundBalances(m, queue, leaving, dt, c, kept, p);
      BalancedKeepsPace(m[c], q[c], GivenBack(queue, leaving, c), Weight(kept, c), dt, Charged(kept, p, c), was[c]);
    }
  }

  /**
    * What a round does to the channels, whose books are kept: none falls below zero, or deeper below than it was, and
    * none passes more than its limit allows.
    */
  ghost predicate RoundFits(m: Channels, queue: seq<Request>, leaving: set<nat>, dt: nat, kept: seq<Request>,
                            p: Channels, q: Channels, was: map<nat, Account>, now: map<nat, Account>) {
    && AllKnown(kept, p) && q == ChargedAll(p, kept) && NoDeeper(m, q) && AllWithinRate(q, now)
    && BooksKept(m, q, queue, leaving, dt, kept, p, was, now)
  }

  lemma WholeRound(m: Channels, queue: seq<Request>, leaving: set<nat>, dt: nat, accounts: map<nat, Account>,
                   kept: seq<Request>, p: Channels) returns (q: Channels, books: map<nat, Account>)
    requires AllKnown(queue, m) && AllLive(queue) && AllPaced(m, accounts)
    requires kept == Kept(queue, leaving) && p == PreparedAll(m, queue, leaving, dt)
    ensures AllKnown(kept, p) && AllLive(kept) && AllLive(Remaining(kept, p)) && q == ChargedAll(p, kept)
    ensures (AllUp(m) ==> AllUp(q)) && AllPaced(q, books)
    ensures RoundFits(m, queue, leaving, dt, kept, p, q, accounts, books)
  {
    RoundKeeps(m, queue, leaving, dt, kept, p);
    books := RoundKeepsPace(m, queue, leaving, dt, kept, p, accounts);
    q := ChargedAll(p, kept);
  }

  lemma PutPaced(m: Channels, accounts: map<nat, Account>, c: nat, ch: Channel, a: Account)
    requires AllPaced(m, accounts) && c in m && Paced(ch, a)
    ensures AllPaced(m[c := ch], accounts[c := a])
  {
    forall x | x in m && x != c ensures Paced(m[x], accounts[x]) {
    }
  }

  lemma StartsPaced(m: Channels, accounts: map<nat, Account>)
    requires forall c <- m :: m[c].quotaLeft == 0
    requires accounts == map c | c in m :: Account([], 0, 0)
    ensures AllPaced(m, accounts)
  {
  }

  class Manager {
    /** m_queue, m_queued_bytes and m_abort; the channels are shared between requests, so they are named by number. */
    var queue: seq<Request>
    var queuedBytes: int
    var abort: bool
    var channels: Channels

    ghost var ledger: Ledger
    /** Overhead was charged to some channel from outside. */
    ghost var outside: bool
    /** What each channel passed since its limit was set. */
    ghost var accounts: map<nat, Account>

    /**
      * Every byte is accounted for, every request is live, no channel is below zero unless by outside charges, and
      * every channel keeps its rate.
      */
    ghost predicate Valid()
      reads this
    {
      && Sound() && AllLive(queue) && AllPaced(channels, accounts)
      && (!outside ==> AllUp(channels))
      && (abort ==> queue == [])
    }

    ghost predicate Sound()
      reads this
    {
      && AllKnown(queue, channels)
      && queuedBytes == Size(queue) - Held(queue)
      && ledger.asked == ledger.Settled() + Size(queue)
    }

    constructor (channels: Channels)
      requires forall c <- channels :: channels[c].quotaLeft == 0
      ensures Valid() && queue == [] && !abort && !outside && this.channels == channels
      ensures accounts == map c | c in channels :: Account([], 0, 0)
    {
      queue, queuedBytes, abort, outside := [], 0, false, false;
      this.channels := channels;
      ghost var books := map c | c in channels :: Account([], 0, 0);
      StartsPaced(channels, books);
      accounts := books;
      ledger := Ledger(0, 0, 0, 0, 0, 0, 0);
    }

    method Close()
      requires Valid()
      modifies this
      ensures Valid() && abort && queue == [] && queuedBytes == 0 && channels == old(channels)
    {
      abort := true;
      ledger := ledger.(closed := ledger.closed + Size(queue));
      queue := [];
      queuedBytes := 0;
    }

    /** bandwidth_channel::throttle */
    method Throttle(c: nat, limit: nat)
      requires Valid() && c in channels
      modifies `channels, `accounts
      ensures Valid() && channels == old(channels)[c := old(channels)[c].(limit := limit)]
      ensures accounts == old(accounts)[c := Account([], 0, channels[c].quotaLeft)]
    {
      PutPaced(channels, accounts, c, channels[c].(limit := limit), Account([], 0, channels[c].quotaLeft));
      accounts := accounts[c := Account([], 0, channels[c].quotaLeft)];
      channels := channels[c := channels[c].(limit := limit)];
    }

    /** Overhead that does not ask the manager. */
    method ChargeOutside(c: nat, amount: nat)
      requires Valid() && c in channels
      modifies `channels, `outside, `accounts
      ensures Valid() && channels == old(channels)[c := old(channels)[c].UseQuota(amount)]
      ensures accounts == old(accounts)[c := old(accounts)[c].(spent := old(accounts)[c].spent + amount)]
    {
      ghost var a := accounts[c].(spent := accounts[c].spent + amount);
      assert Paced(channels[c], accounts[c]);
      PutPaced(channels, accounts, c, channels[c].UseQuota(amount), a);
      accounts := accounts[c := a];
      channels := channels[c := channels[c].UseQuota(amount)];
      outside := true;
    }

    /** request_bandwidth, for the channels that were passed; those without a limit do not count. */
    method RequestBandwidth(peer: nat, blk: nat, priority: nat, chans: seq<nat>) returns (granted: nat)
      requires Valid() && blk > 0 && priority > 0 && |chans| <= 5 && Known(chans, channels)
      modifies `queue, `queuedBytes, `ledger
      ensures Valid()
      ensures granted == if !old(abort) && Throttled(chans, channels) == [] then blk else 0
      ensures (queue == old(queue) + if old(abort) || Throttled(chans, channels) == [] then []
                                     else [Request(peer, priority, 0, blk, 20, Throttled(chans, channels))])
    {
      if abort {
        return 0;
      }
      var slots := CollectSlots(chans);
      ThrottledAre(chans, channels);
      if slots == [] {
        ledger := ledger.(asked := ledger.asked + blk, immediate := ledger.immediate + blk);
        return blk;
      }
      Enqueue(Request(peer, priority, 0, blk, 20, slots));
      return 0;
    }

    method Enqueue(bwr: Request)
      requires Sound() && AllLive(queue) && Live(bwr) && bwr.given == 0 && Known(bwr.channels, channels)
      modifies `queue, `queuedBytes, `ledger
      ensures Sound() && AllLive(queue) && queue == old(queue) + [bwr]
    {
      Append(queue, bwr, channels);
      queuedBytes := queuedBytes + bwr.size;
      queue := queue + [bwr];
      ledger := ledger.(asked := ledger.asked + bwr.size);
    }

    method CollectSlots(chans: seq<nat>) returns (slots: seq<nat>)
      requires Known(chans, channels)
      ensures slots == Throttled(chans, channels)
    {
      slots := [];
      for j := 0 to |chans|
        invariant slots == Throttled(chans[..j], channels)
      {
        assert chans[..j + 1] == chans[..j] + [chans[j]];
        Snoc(chans[..j], chans[j]);
        if channels[chans[j]].limit > 0 {
          slots := slots + [chans[j]];
        }
      }
      assert chans[..|chans|] == chans;
    }

    method ReturnAll(chs: seq<nat>, amount: nat)
      requires Known(chs, channels)
      modifies `channels
      ensures channels == ReturnedTo(old(channels), chs, amount)
    {
      ghost var m := channels;
      assert ReturnedTo(m, [], amount) == m;
      for j := 0 to |chs|
        invariant channels == ReturnedTo(m, chs[..j], amount)
      {
        ReturnedMore(m, chs[..j], amount, chs[j]);
        assert chs[..j + 1] == chs[..j] + [chs[j]];
        channels := channels[chs[j] := channels[chs[j]].ReturnQuota(amount)];
      }
      assert chs[..|chs|] == chs;
    }

    method UseAll(chs: seq<nat>, amount: nat)
      requires Known(chs, channels)
      modifies `channels
      ensures channels == UsedFrom(old(channels), chs, amount)
    {
      ghost var m := channels;
      assert UsedFrom(m, [], amount) == m;
      for j := 0 to |chs|
        invariant channels == UsedFrom(m, chs[..j], amount)
      {
        UsedMore(m, chs[..j], amount, chs[j]);
        assert chs[..j + 1] == chs[..j] + [chs[j]];
        channels := channels[chs[j] := channels[chs[j]].UseQuota(amount)];
      }
      assert chs[..|chs|] == chs;
    }

    method ResetAll(chs: seq<nat>)
      requires Known(chs, channels)
      modifies `channels
      ensures channels == Reset(old(channels), chs)
    {
      ghost var m := channels;
      assert Reset(m, []) == m;
      for j := 0 to |chs|
        invariant channels == Reset(m, chs[..j])
      {
        assert chs[..j + 1] == chs[..j] + [chs[j]];
        channels := channels[chs[j] := channels[chs[j]].(tmp := 0)];
      }
      assert chs[..|chs|] == chs;
    }

    /** Adds a priority to the channels of a request, and lists those that had none before. */
    method WeighAll(chs: seq<nat>, priority: nat, chans: seq<nat>) returns (more: seq<nat>)
      requires Known(chs, channels) && priority > 0
      requires forall i, j :: 0 <= i < j < |chans| ==> chans[i] != chans[j]
      requires forall c <- chs :: channels[c].tmp == 0 <==> c !in chans
      modifies `channels
      ensures channels == Weighed(old(channels), chs, priority)
      ensures forall i, j :: 0 <= i < j < |more| ==> more[i] != more[j]
      ensures forall c :: c in more <==> c in chans || c in chs
    {
      ghost var m := channels;
      assert Weighed(m, [], priority) == m;
      more := chans;
      for j := 0 to |chs|
        invariant channels == Weighed(m, chs[..j], priority)
        invariant forall i, k :: 0 <= i < k < |more| ==> more[i] != more[k]
        invariant forall c :: c in more <==> c in chans || c in chs[..j]
      {
        var c := chs[j];
        WeighedMore(m, chs[..j], priority, c);
        PaidPositive(chs[..j], c, priority);
        assert chs[..j + 1] == chs[..j] + [c];
        if channels[c].tmp == 0 {
          more := more + [c];
        }
        channels := channels[c := channels[c].(tmp := channels[c].tmp + priority)];
      }
      assert chs[..|chs|] == chs;
    }

    /** bw_request::assign_bandwidth, up to the change of the request itself. */
    method AssignBandwidth(r: Request, ghost m: Channels) returns (quota: nat)
      requires Known(r.channels, m) && r.given <= r.size && SameShares(m, channels)
      modifies `channels
      ensures quota == Grant(r, m) && channels == UsedFrom(old(channels), r.channels, quota)
    {
      quota := r.size - r.given;
      var chs := r.channels;
      for j := 0 to |chs|
        modifies {}
        invariant Known(chs[..j], m) && quota == Narrowed(chs[..j], m, r.priority, r.size - r.given)
      {
        assert chs[..j + 1] == chs[..j] + [chs[j]];
        Snoc(chs[..j], chs[j]);
        assert chs[j] in chs;
        var ch := channels[chs[j]];
        if ch.limit != 0 && ch.tmp != 0 {
          SameShare(m[chs[j]], ch, r.priority);
          quota := Min(Share(ch, r.priority), quota);
        }
      }
      assert chs[..|chs|] == chs;
      UseAll(chs, quota);
    }

    method UpdateAll(chans: seq<nat>, dt: nat)
      requires Known(chans, channels) && forall i, j :: 0 <= i < j < |chans| ==> chans[i] != chans[j]
      modifies `channels
      ensures channels == Updated(old(channels), chans, dt)
      ensures forall c <- channels :: c in chans && channels[c].limit > 0 ==>
        exists g :: Gains(old(channels)[c], channels[c], 0, g, dt, 0)
    {
      ghost var m := channels;
      assert Updated(m, [], dt) == m;
      for i := 0 to |chans|
        invariant channels == Updated(m, chans[..i], dt)
      {
        assert chans[i] !in chans[..i];
        assert chans[..i + 1] == chans[..i] + [chans[i]];
        channels := channels[chans[i] := channels[chans[i]].UpdateQuota(dt)];
      }
      assert chans[..|chans|] == chans;
      forall c | c in m && m[c].limit > 0 ensures exists g :: Gains(m[c], m[c].UpdateQuota(dt), 0, g, dt, 0) {
        UpdateGains(m[c], dt);
      }
    }

    // ----- update_quotas -----

    /** One iteration of the first loop: a disconnecting peer's request goes, and its quota returns to its channels. */
    method DropAt(i: nat, leaving: set<nat>) returns (next: nat)
      requires i < |queue| && Sound()
      modifies `queue, `queuedBytes, `channels, `ledger
      ensures Sound() && channels.Keys == old(channels).Keys && ledger.delivered == old(ledger).delivered
      ensures next == if old(queue[i]).peer in leaving then i else i + 1
      ensures queue == if old(queue[i]).peer in leaving then Without(old(queue), i) else old(queue)
      ensures var r := old(queue[i]);
        channels == if r.peer in leaving then ReturnedTo(old(channels), r.channels, r.given)
                    else Reset(old(channels), r.channels)
    {
      var r := queue[i];
      assert r in queue;
      if r.peer in leaving {
        ReturnAll(r.channels, r.given);
        WithoutSums(queue, i);
        WithoutKnown(queue, i, old(channels), channels);
        queuedBytes := queuedBytes - (r.size - r.given);
        ledger := ledger.(cancelled := ledger.cancelled + (r.size - r.given), returned := ledger.returned + r.given);
        queue := Without(queue, i);
        next := i;
      } else {
        ResetAll(r.channels);
        SameKnown(queue, old(channels), channels);
        next := i + 1;
      }
    }

    method DropDisconnecting(leaving: set<nat>)
      requires Sound()
      modifies `queue, `queuedBytes, `channels, `ledger
      ensures Sound() && queue == Kept(old(queue), leaving) && ledger.delivered == old(ledger).delivered
      ensures channels == Dropped(old(channels), old(queue), leaving)
    {
      ghost var was, m := queue, channels;
      ghost var n: nat := 0;
      var i: nat := 0;
      assert Dropped(m, [], leaving) == m && was[..0] == [];
      while i < |queue|
        invariant Sound() && Dropping(was, n, leaving, queue, i)
        invariant channels == Dropped(m, was[..n], leaving) && ledger.delivered == old(ledger).delivered
        decreases |queue| - i
      {
        DropStep(was, n, leaving, queue, i);
        if was[n].peer in leaving {
          DropLeaving(m, was[..n], leaving, was[n], channels);
        } else {
          DropStaying(m, was[..n], leaving, was[n], channels);
        }
        i := DropAt(i, leaving);
        n := n + 1;
      }
      assert was[..n] == was;
    }

    /** The second loop: priorities are added up per channel, and the channels that compete are listed once each. */
    method SumPriorities() returns (chans: seq<nat>)
      requires AllKnown(queue, channels) && AllLive(queue)
      requires forall c <- channels :: InAny(queue, c) ==> channels[c].tmp == 0
      modifies `channels
      ensures channels == WeighedAll(old(channels), queue) && Lists(chans, queue) && Known(chans, channels)
    {
      ghost var m := channels;
      chans := [];
      assert WeighedAll(m, []) == m;
      for i := 0 to |queue|
        invariant channels == WeighedAll(m, queue[..i]) && Lists(chans, queue[..i])
      {
        var r := queue[i];
        assert r in queue;
        ListsZero(queue, i, m, chans);
        WeighOne(m, queue[..i], r);
        ghost var before := chans;
        chans := WeighAll(r.channels, r.priority, chans);
        assert queue[..i + 1] == queue[..i] + [r];
        ListsMore(queue[..i], r, before, chans);
      }
      assert queue[..|queue|] == queue;
      ListsKnown(chans, queue, channels);
    }

    /** One iteration of the last loop: a request is granted its bytes, and leaves the queue if it is complete. */
    method GrantAt(i: nat, ghost m: Channels) returns (next: nat, finished: seq<Request>)
      requires i < |queue| && Sound() && Live(queue[i]) && AllKnown(queue, m) && SameShares(m, channels)
      modifies `queue, `queuedBytes, `channels, `ledger
      ensures Sound() && Known(old(queue[i]).channels, m)
      ensures channels == UsedFrom(old(channels), old(queue[i]).channels, Grant(old(queue[i]), m))
      ensures queue == Granted(old(queue), i, AfterRound(old(queue[i]), m))
      ensures next == (if Complete(AfterRound(old(queue[i]), m)) then i else i + 1)
      ensures finished == if Complete(AfterRound(old(queue[i]), m)) then [AfterRound(old(queue[i]), m)] else []
      ensures ledger.delivered == old(ledger).delivered + Held(finished)
    {
      var r := queue[i];
      assert r in queue;
      var a := AssignBandwidth(r, m);
      AfterRoundBounds(r, m);
      var g := r.(given := r.given + a, ttl := r.ttl - 1);
      GrantedFits(queue, i, g, old(channels), channels);
      next, finished := Settle(i, g, a);
    }

    /** The rest of the iteration, with the request as it is after the grant of a bytes. */
    method Settle(i: nat, g: Request, a: nat) returns (next: nat, finished: seq<Request>)
      requires i < |queue| && g.given <= g.size == queue[i].size && g.given == queue[i].given + a
      requires queuedBytes == Size(queue) - Held(queue) && ledger.asked == ledger.Settled() + Size(queue)
      requires Size(Granted(queue, i, g)) == Size(queue) - (if Complete(g) then g.size else 0)
      requires Held(Granted(queue, i, g)) == Held(queue) - queue[i].given + if Complete(g) then 0 else g.given
      modifies `queue, `queuedBytes, `ledger
      ensures queuedBytes == Size(queue) - Held(queue) && ledger.asked == ledger.Settled() + Size(queue)
      ensures queue == Granted(old(queue), i, g) && next == (if Complete(g) then i else i + 1)
      ensures finished == if Complete(g) then [g] else []
      ensures ledger.delivered == old(ledger).delivered + Held(finished)
    {
      queue := Granted(queue, i, g);
      var left := a;
      if Complete(g) {
        left := a + (g.size - g.given);
        finished := [g];
        next := i;
        SumsOfOne(g);
        ledger := ledger.(delivered := ledger.delivered + g.given, dropped := ledger.dropped + (g.size - g.given));
      } else {
        finished := [];
        next := i + 1;
      }
      queuedBytes := queuedBytes - left;
    }

    method GrantNext(i: nat, tm: seq<Request>, ghost was: seq<Request>, ghost n: nat, ghost m: Channels)
      returns (next: nat, more: seq<Request>)
      requires Sound() && AllKnown(was, m) && AllLive(was) && Granting(was, n, m, queue, i, tm) && i < |queue|
      requires channels == ChargedAll(m, was[..n])
      modifies `queue, `queuedBytes, `channels, `ledger
      ensures Sound() && n < |was| && Granting(was, n + 1, m, queue, next, more)
      ensures channels == ChargedAll(m, was[..n + 1])
      ensures ledger.delivered - Held(more) == old(ledger).delivered - Held(tm)
      ensures |queue| - next < |old(queue)| - i
    {
      GrantStep(was, n, m, queue, i, tm);
      ChargedSameShares(m, was[..n]);
      SameKnown(queue, channels, m);
      var finished;
      next, finished := GrantAt(i, m);
      SumsJoin(tm, finished);
      more := tm + finished;
    }

    method GrantAll() returns (tm: seq<Request>)
      requires Sound() && AllLive(queue)
      modifies `queue, `queuedBytes, `channels, `ledger
      ensures Sound() && queue == Remaining(old(queue), old(channels)) && tm == Completed(old(queue), old(channels))
      ensures channels == ChargedAll(old(channels), old(queue))
      ensures ledger.delivered == old(ledger).delivered + Held(tm)
    {
      ghost var was, m := queue, channels;
      ghost var n: nat := 0;
      var i: nat := 0;
      tm := [];
      GrantStart(was, m);
      while i < |queue|
        invariant Sound() && Granting(was, n, m, queue, i, tm)
        invariant channels == ChargedAll(m, was[..n])
        invariant ledger.delivered == old(ledger).delivered + Held(tm)
        decreases |queue| - i
      {
        i, tm := GrantNext(i, tm, was, n, m);
        n := n + 1;
      }
      assert was[..n] == was;
    }

    /**
      * update_quotas, told which peers are disconnecting: who leaves, what the channels get and lose, what is granted,
      * and who is called with how much. No channel falls below zero, or deeper below than it was, and none passes more
      * than its limit allows.
      */
    method UpdateQuotas(dt: nat, leaving: set<nat>) returns (out: seq<Delivery>)
      requires Valid()
      modifies `queue, `queuedBytes, `channels, `ledger, `accounts
      ensures Valid()
      ensures var kept := Kept(old(queue), leaving);
        var p := PreparedAll(old(channels), old(queue), leaving, Min(dt, 3000));
        && AllKnown(kept, p) && queue == Remaining(kept, p) && out == Deliveries(Completed(kept, p))
        && RoundFits(old(channels), old(queue), leaving, Min(dt, 3000), kept, p, channels, old(accounts), accounts)
      ensures ledger.delivered == old(ledger).delivered + Amount(out)
    {
      ghost var kept, p := Kept(queue, leaving), PreparedAll(channels, queue, leaving, Min(dt, 3000));
      ghost var q, books := WholeRound(channels, queue, leaving, Min(dt, 3000), accounts, kept, p);
      out := KeepBooks(dt, leaving, kept, p, q, books);
    }

    /** The round and its books, whose outcome is told: q are the channels afterwards. */
    method KeepBooks(dt: nat, leaving: set<nat>, ghost kept: seq<Request>, ghost p: Channels, ghost q: Channels,
                     ghost books: map<nat, Account>)
      returns (out: seq<Delivery>)
      requires Valid() && kept == Kept(queue, leaving) && p == PreparedAll(channels, queue, leaving, Min(dt, 3000))
      requires AllKnown(kept, p) && AllLive(kept) && q == ChargedAll(p, kept) && AllLive(Remaining(kept, p))
      requires (AllUp(channels) ==> AllUp(q)) && AllPaced(q, books)
      modifies `queue, `queuedBytes, `channels, `ledger, `accounts
      ensures Valid() && queue == Remaining(kept, p) && out == Deliveries(Completed(kept, p))
      ensures channels == q && accounts == books && ledger.delivered == old(ledger).delivered + Amount(out)
    {
      out := Serve(dt, leaving, kept, p, q);
      accounts := books;
    }

    /** The round itself. */
    method Serve(dt: nat, leaving: set<nat>, ghost kept: seq<Request>, ghost p: Channels, ghost q: Channels)
      returns (out: seq<Delivery>)
      requires Sound() && AllLive(queue) && (abort ==> queue == [])
      requires kept == Kept(queue, leaving) && p == PreparedAll(channels, queue, leaving, Min(dt, 3000))
      requires AllKnown(kept, p) && AllLive(kept) && q == ChargedAll(p, kept)
      modifies `queue, `queuedBytes, `channels, `ledger
      ensures Sound() && queue == Remaining(kept, p) && out == Deliveries(Completed(kept, p)) && channels == q
      ensures ledger.delivered == old(ledger).delivered + Amount(out) && (abort ==> queue == [])
    {
      if abort || queue == [] {
        NothingServed(channels, queue, leaving, Min(dt, 3000), kept, p, q);
        return [];
      }
      out := Round(if dt > 3000 then 3000 else dt, leaving, kept, p);
    }

    method Round(dt: nat, leaving: set<nat>, ghost kept: seq<Request>, ghost p: Channels) returns (out: seq<Delivery>)
      requires Sound() && AllLive(queue)
      requires kept == Kept(queue, leaving) && AllLive(kept) && p == PreparedAll(channels, queue, leaving, dt)
      requires AllKnown(kept, p)
      modifies `queue, `queuedBytes, `channels, `ledger
      ensures Sound() && queue == Remaining(kept, p) && out == Deliveries(Completed(kept, p))
      ensures channels == ChargedAll(p, kept) && ledger.delivered == old(ledger).delivered + Amount(out)
    {
      Prepare(dt, leaving, kept, p);
      var tm := GrantAll();
      DeliveredIsHeld(tm);
      out := CallBack(tm);
    }

    /** The loops before the requests are granted. */
    method Prepare(dt: nat, leaving: set<nat>, ghost kept: seq<Request>, ghost p: Channels)
      requires Sound() && AllLive(queue)
      requires kept == Kept(queue, leaving) && AllLive(kept) && p == PreparedAll(channels, queue, leaving, dt)
      modifies `queue, `queuedBytes, `channels, `ledger
      ensures Sound() && queue == kept && channels == p && ledger.delivered == old(ledger).delivered
    {
      ghost var m, was := channels, queue;
      DropDisconnecting(leaving);
      ClearedKept(m, was, leaving, kept);
      var chans := SumPriorities();
      PreparedInSteps(m, was, leaving, dt, chans, kept, channels);
      UpdateAll(chans, dt);
      SameKnown(queue, m, channels);
    }

    /** The callbacks, popped from the back. */
    method CallBack(tm: seq<Request>) returns (out: seq<Delivery>)
      ensures out == Deliveries(tm)
    {
      out := [];
      var rest := tm;
      while rest != []
        invariant Deliveries(tm) == out + Deliveries(rest)
      {
        out := out + [Delivery(rest[|rest| - 1].peer, rest[|rest| - 1].given)];
        rest := rest[..|rest| - 1];
      }
    }
  }
}
