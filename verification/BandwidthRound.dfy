/** What one round of the bandwidth manager does to a whole queue, as functions of the queue and the channels. */
module BandwidthRound {
  import opened Common
  import opened BandwidthShares

  // ----- Byte sums -----

  function Size(queue: seq<Request>): nat {
    if queue == [] then 0 else Size(queue[..|queue| - 1]) + queue[|queue| - 1].size
  }

  function Held(queue: seq<Request>): nat {
    if queue == [] then 0 else Held(queue[..|queue| - 1]) + queue[|queue| - 1].given
  }

  lemma {:induction false} SumsJoin(a: seq<Request>, b: seq<Request>)
    ensures Size(a + b) == Size(a) + Size(b) && Held(a + b) == Held(a) + Held(b)
  {
    if b == [] {
      assert a + b == a;
    } else {
      SumsJoin(a, b[..|b| - 1]);
      assert (a + b)[..|a + b| - 1] == a + b[..|b| - 1];
    }
  }

  // ----- Disconnecting peers -----

  function Kept(queue: seq<Request>, leaving: set<nat>): (k: seq<Request>) {
    if queue == [] then []
    else
      var r := queue[|queue| - 1];
      Kept(queue[..|queue| - 1], leaving) + if r.peer in leaving then [] else [r]
  }

  /** The quota a channel gets back from the disconnecting peers. */
  function GivenBack(queue: seq<Request>, leaving: set<nat>, c: nat): nat {
    if queue == [] then 0
    else
      var r := queue[|queue| - 1];
      GivenBack(queue[..|queue| - 1], leaving, c) + if r.peer in leaving then Paid(r.channels, c, r.given) else 0
  }

  lemma {:induction false} KeptAreQueued(queue: seq<Request>, leaving: set<nat>)
    ensures forall r <- Kept(queue, leaving) :: r in queue && r.peer !in leaving
    ensures forall r <- queue :: r.peer !in leaving ==> r in Kept(queue, leaving)
  {
    if queue != [] {
      KeptAreQueued(queue[..|queue| - 1], leaving);
      assert queue == queue[..|queue| - 1] + [queue[|queue| - 1]];
    }
  }

  // ----- Granting -----

  function AfterRound(r: Request, m: Channels): Request
    requires Known(r.channels, m) && r.given <= r.size
  {
    r.(given := r.given + Grant(r, m), ttl := r.ttl - 1)
  }

  /** A request leaves the queue when it has everything, or when its time is up and it has something. */
  predicate Complete(r: Request) {
    r.given == r.size || (r.ttl <= 0 && r.given > 0)
  }

  function Remaining(queue: seq<Request>, m: Channels): (k: seq<Request>)
    requires AllKnown(queue, m)
  {
    if queue == [] then []
    else
      var r := AfterRound(queue[|queue| - 1], m);
      Remaining(queue[..|queue| - 1], m) + if Complete(r) then [] else [r]
  }

  function Completed(queue: seq<Request>, m: Channels): (k: seq<Request>)
    requires AllKnown(queue, m)
  {
    if queue == [] then []
    else
      var r := AfterRound(queue[|queue| - 1], m);
      Completed(queue[..|queue| - 1], m) + if Complete(r) then [r] else []
  }

  lemma AfterRoundBounds(r: Request, m: Channels)
    requires Known(r.channels, m) && Live(r)
    ensures var a := AfterRound(r, m);
      && r.given <= a.given <= a.size && (if Complete(a) then a.given > 0 else Live(a))
      && a == r.(given := a.given, ttl := r.ttl - 1)
  {
    GrantWithinQuota(r.channels, m, r.priority, r.size - r.given);
  }

  ghost predicate AllLive(queue: seq<Request>) {
    forall r <- queue :: Live(r)
  }

  /** No byte is lost, every remaining request is live, and nobody is called with nothing. */
  lemma {:induction false} RoundSplits(queue: seq<Request>, m: Channels)
    requires AllKnown(queue, m) && AllLive(queue)
    ensures Size(Remaining(queue, m)) + Size(Completed(queue, m)) == Size(queue)
    ensures AllLive(Remaining(queue, m)) && AllKnown(Remaining(queue, m), m)
    ensures forall r <- Completed(queue, m) :: 0 < r.given <= r.size
  {
    if queue != [] {
      var before, r := queue[..|queue| - 1], queue[|queue| - 1];
      assert queue == before + [r];
      RoundSplits(before, m);
      AfterRoundBounds(r, m);
      var a := AfterRound(r, m);
      SumsJoin(Remaining(before, m), if Complete(a) then [] else [a]);
      SumsJoin(Completed(before, m), if Complete(a) then [a] else []);
      assert Size([a]) == a.size && Size([]) == 0;
    }
  }

  // ----- The channels of a round -----

  /** A channel before the requests are granted: returned quota, competing priorities, and new quota if any compete. */
  function Prepared(ch: Channel, back: nat, weight: nat, dt: nat): Channel {
    if weight == 0 then ch.ReturnQuota(back) else ch.ReturnQuota(back).(tmp := weight).UpdateQuota(dt)
  }

  function PreparedAll(m: Channels, queue: seq<Request>, leaving: set<nat>, dt: nat): (p: Channels)
    ensures p.Keys == m.Keys
  {
    map c | c in m :: Prepared(m[c], GivenBack(queue, leaving, c), Weight(Kept(queue, leaving), c), dt)
  }

  function ChargedAll(m: Channels, queue: seq<Request>): (p: Channels)
    requires AllKnown(queue, m)
    ensures p.Keys == m.Keys
  {
    map c | c in m :: m[c].UseQuota(Charged(queue, m, c))
  }

  lemma {:induction false} NoWeightNoCharge(queue: seq<Request>, m: Channels, c: nat)
    requires AllKnown(queue, m) && AllLive(queue) && Weight(queue, c) == 0
    ensures Charged(queue, m, c) == 0
  {
    if queue != [] {
      var r := queue[|queue| - 1];
      assert r in queue;
      NoWeightNoCharge(queue[..|queue| - 1], m, c);
      PaidPositive(r.channels, c, r.priority);
      PaidPositive(r.channels, c, Grant(r, m));
    }
  }

  lemma UpdateStays(ch: Channel, dt: nat)
    ensures var u := ch.UpdateQuota(dt);
      u.limit == ch.limit && u.tmp == ch.tmp && (u.quotaLeft >= 0 || u.quotaLeft >= ch.quotaLeft)
      && (u.limit > 0 ==> u.distribute == if u.quotaLeft < 0 then 0 else u.quotaLeft)
  {
    if ch.limit > 0 {
      MulMono(ch.limit, 0, dt);
    }
  }

  lemma PreparedStays(ch: Channel, back: nat, weight: nat, dt: nat, charge: nat)
    requires weight == 0 ==> charge == 0
    requires weight > 0 && ch.limit > 0 ==> charge <= Prepared(ch, back, weight, dt).distribute
    ensures var q := Prepared(ch, back, weight, dt).UseQuota(charge).quotaLeft; q >= 0 || q >= ch.quotaLeft
  {
    UpdateStays(ch.ReturnQuota(back).(tmp := weight), dt);
  }

  lemma KeptFit(queue: seq<Request>, leaving: set<nat>, m: Channels, p: Channels)
    requires AllKnown(queue, m) && AllLive(queue) && p.Keys == m.Keys
    ensures AllKnown(Kept(queue, leaving), p) && AllLive(Kept(queue, leaving))
  {
    KeptAreQueued(queue, leaving);
  }

  /** A round never leaves a channel below zero, or deeper below than it was. */
  lemma QuotaStaysUp(m: Channels, queue: seq<Request>, leaving: set<nat>, dt: nat, c: nat, kept: seq<Request>,
                     p: Channels)
    requires c in m && AllKnown(queue, m) && AllLive(queue)
    requires kept == Kept(queue, leaving) && p == PreparedAll(m, queue, leaving, dt)
    ensures AllKnown(kept, p)
    ensures var q := ChargedAll(p, kept)[c].quotaLeft; q >= 0 || q >= m[c].quotaLeft
  {
    KeptFit(queue, leaving, m, p);
    if Weight(kept, c) == 0 {
      NoWeightNoCharge(kept, p, c);
    } else if p[c].limit > 0 {
      PreparedIs(m[c], GivenBack(queue, leaving, c), Weight(kept, c), dt);
      NeverOverCommitted(kept, p, c);
    }
    PreparedStays(m[c], GivenBack(queue, leaving, c), Weight(kept, c), dt, Charged(kept, p, c));
  }

  lemma PreparedIs(ch: Channel, back: nat, weight: nat, dt: nat)
    ensures Prepared(ch, back, weight, dt).limit == ch.limit
    ensures weight > 0 ==> Prepared(ch, back, weight, dt).tmp == weight
  {
  }
  // ----- The rate of a channel -----

  /** g bytes are what the limit allows in dt milliseconds, to the nearest byte; they add up to three seconds' worth. */
  ghost predicate Gains(was: Channel, now: Channel, back: nat, g: nat, dt: nat, charge: nat) {
    && 1000 * g <= was.limit * dt + 500 < 1000 * (g + 1)
    && now.quotaLeft == Min(was.quotaLeft + back + g, was.limit * 3) - charge
  }

  /**
    * What a round does to a channel that gets `back` from those who leave and is charged `charge`: if any requests
    * compete for it, it gains what its limit allows in dt milliseconds, up to a quota of three seconds.
    */
  ghost predicate Balanced(was: Channel, now: Channel, back: nat, weight: nat, dt: nat, charge: nat) {
    && now.limit == was.limit
    && (was.limit == 0 ==> now.quotaLeft == was.quotaLeft)
    && (was.limit > 0 && weight == 0 ==> now.quotaLeft == was.quotaLeft + back && charge == 0)
    && (was.limit > 0 && weight > 0 ==> exists g :: Gains(was, now, back, g, dt, charge))
  }

  /** A throttled channel gains what its limit allows, unless that would leave it more than three seconds of quota. */
  lemma UpdateGains(ch: Channel, dt: nat)
    requires ch.limit > 0
    ensures exists g :: Gains(ch, ch.UpdateQuota(dt), 0, g, dt, 0)
  {
    var n := ch.limit * dt + 500;
    MulMono(ch.limit, 0, dt);
    assert Gains(ch, ch.UpdateQuota(dt), 0, n / 1000, dt, 0);
  }

  lemma BalancedOne(ch: Channel, back: nat, weight: nat, dt: nat, charge: nat)
    requires weight == 0 ==> charge == 0
    ensures Balanced(ch, Prepared(ch, back, weight, dt).UseQuota(charge), back, weight, dt, charge)
  {
    if ch.limit > 0 && weight > 0 {
      var w := ch.ReturnQuota(back).(tmp := weight);
      UpdateGains(w, dt);
      var g: nat :| Gains(w, w.UpdateQuota(dt), 0, g, dt, 0);
      assert Gains(ch, w.UpdateQuota(dt).UseQuota(charge), back, g, dt, charge);
    }
  }

  /** The quota of every channel balances over a round. */
  lemma RoundBalances(m: Channels, queue: seq<Request>, leaving: set<nat>, dt: nat, c: nat, kept: seq<Request>,
                      p: Channels)
    requires c in m && AllKnown(queue, m) && AllLive(queue)
    requires kept == Kept(queue, leaving) && p == PreparedAll(m, queue, leaving, dt)
    ensures AllKnown(kept, p)
    ensures (Balanced(m[c], ChargedAll(p, kept)[c], GivenBack(queue, leaving, c), Weight(kept, c), dt,
                      Charged(kept, p, c)))
  {
    KeptFit(queue, leaving, m, p);
    if Weight(kept, c) == 0 {
      NoWeightNoCharge(kept, p, c);
    }
    BalancedOne(m[c], GivenBack(queue, leaving, c), Weight(kept, c), dt, Charged(kept, p, c));
  }

  /**
    * The book of a channel since its limit was set: the milliseconds of each round in which requests competed for it,
    * the bytes charged less those returned, and the quota it started with.
    */
  datatype Account = Account(times: seq<nat>, spent: int, start: int)

  function Elapsed(times: seq<nat>): nat {
    if times == [] then 0 else Elapsed(times[..|times| - 1]) + times[|times| - 1]
  }

  /**
    * The rate: what was spent and what is left come to no more than the quota at the start, the limit times the time
    * that passed, and half a byte a round.
    */
  ghost predicate Paced(ch: Channel, a: Account) {
    ch.limit > 0 ==>
      1000 * (a.spent + ch.quotaLeft) <= 1000 * a.start + ch.limit * Elapsed(a.times) + 500 * |a.times|
  }

  /** What a channel passed is within its limit. */
  ghost predicate WithinRate(ch: Channel, a: Account) {
    1000 * a.spent <= 1000 * a.start + ch.limit * Elapsed(a.times) + 500 * |a.times|
  }

  function Booked(a: Account, back: nat, weight: nat, dt: nat, charge: nat): Account {
    Account(if weight == 0 then a.times else a.times + [dt], a.spent + charge - back, a.start)
  }

  /** A round keeps the rate. */
  lemma BalancedKeepsPace(was: Channel, now: Channel, back: nat, weight: nat, dt: nat, charge: nat, a: Account)
    requires Balanced(was, now, back, weight, dt, charge) && Paced(was, a)
    ensures Paced(now, Booked(a, back, weight, dt, charge))
  {
    if was.limit > 0 && weight > 0 {
      Snoc(a.times, dt);
      Distribute(was.limit, Elapsed(a.times), dt);
    }
  }

  lemma Distribute(k: nat, a: nat, b: nat)
    ensures k * (a + b) == k * a + k * b
  {
  }
}
