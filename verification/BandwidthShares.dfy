/** The arithmetic of the bandwidth scheduler: channels, requests, and how a round divides the quota. */
module BandwidthShares {
  import opened Common

  // ----- bandwidth_channel -----

  /** quotaLeft may be negative: overhead outside the scheduler is charged without asking. Limit 0 means infinite. */
  datatype Channel = Channel(tmp: nat, distribute: nat, quotaLeft: int, limit: nat) {
    function UpdateQuota(dt: nat): Channel {
      if limit == 0 then this
      else
        var more := quotaLeft + (limit * dt + 500) / 1000;
        var left := if more > limit * 3 then limit * 3 else more;
        this.(quotaLeft := left, distribute := if left > 0 then left else 0)
    }

    function ReturnQuota(amount: nat): Channel {
      if limit == 0 then this else this.(quotaLeft := quotaLeft + amount)
    }

    function UseQuota(amount: nat): Channel {
      if limit == 0 then this else this.(quotaLeft := quotaLeft - amount)
    }
  }

  type Channels = map<nat, Channel>

  // ----- bw_request -----

  /** The channels of a request are at most five, in the order of its slots; a channel may take two of them. */
  datatype Request = Request(peer: nat, priority: nat, given: nat, size: nat, ttl: int, channels: seq<nat>)

  ghost predicate Known(chs: seq<nat>, m: Channels) {
    forall c <- chs :: c in m
  }

  predicate Live(r: Request) {
    r.priority > 0 && r.given < r.size && (r.ttl > 0 || r.given == 0)
  }

  function Share(ch: Channel, priority: nat): nat
    requires ch.tmp > 0
  {
    ch.distribute * priority / ch.tmp
  }

  /** The most restrictive channel decides; channels without limit, or without weight, do not count. */
  function Narrowed(chs: seq<nat>, m: Channels, priority: nat, quota: nat): nat
    requires Known(chs, m)
  {
    if chs == [] then quota
    else
      var q := Narrowed(chs[..|chs| - 1], m, priority, quota);
      var ch := m[chs[|chs| - 1]];
      if ch.limit == 0 || ch.tmp == 0 then q else Min(Share(ch, priority), q)
  }

  function Grant(r: Request, m: Channels): nat
    requires Known(r.channels, m) && r.given <= r.size
  {
    Narrowed(r.channels, m, r.priority, r.size - r.given)
  }

  // ----- Sums over requests -----

  /** What a channel gets when every slot of a request is paid the same amount. */
  function Paid(chs: seq<nat>, c: nat, amount: nat): nat {
    if chs == [] then 0 else Paid(chs[..|chs| - 1], c, amount) + if chs[|chs| - 1] == c then amount else 0
  }

  lemma {:induction false} PaidPositive(chs: seq<nat>, c: nat, amount: nat)
    ensures Paid(chs, c, amount) > 0 <==> c in chs && amount > 0
  {
    if chs != [] {
      PaidPositive(chs[..|chs| - 1], c, amount);
      assert chs == chs[..|chs| - 1] + [chs[|chs| - 1]];
    }
  }

  /** A request pays a channel once for each slot it takes. */
  lemma {:induction false} PaidBySlot(chs: seq<nat>, c: nat, amount: nat)
    ensures Paid(chs, c, amount) == Times(chs, c) * amount
  {
    if chs != [] {
      PaidBySlot(chs[..|chs| - 1], c, amount);
    }
  }

  /** The priorities competing for a channel. */
  function Weight(queue: seq<Request>, c: nat): nat {
    if queue == [] then 0
    else
      var r := queue[|queue| - 1];
      Weight(queue[..|queue| - 1], c) + Paid(r.channels, c, r.priority)
  }

  ghost predicate AllKnown(queue: seq<Request>, m: Channels) {
    forall r <- queue :: Known(r.channels, m) && r.given <= r.size
  }

  /** What a round charges to a channel. */
  function Charged(queue: seq<Request>, m: Channels, c: nat): nat
    requires AllKnown(queue, m)
  {
    if queue == [] then 0
    else
      var r := queue[|queue| - 1];
      Charged(queue[..|queue| - 1], m, c) + Paid(r.channels, c, Grant(r, m))
  }

  // ----- No channel is over-committed -----

  lemma {:induction false} GrantWithinShare(chs: seq<nat>, m: Channels, priority: nat, quota: nat, c: nat)
    requires Known(chs, m) && c in chs && m[c].limit > 0 && m[c].tmp > 0
    ensures Narrowed(chs, m, priority, quota) <= Share(m[c], priority)
  {
    if chs[|chs| - 1] != c {
      assert chs == chs[..|chs| - 1] + [chs[|chs| - 1]];
      GrantWithinShare(chs[..|chs| - 1], m, priority, quota, c);
    }
  }

  lemma {:induction false} GrantWithinQuota(chs: seq<nat>, m: Channels, priority: nat, quota: nat)
    requires Known(chs, m)
    ensures Narrowed(chs, m, priority, quota) <= quota
  {
    if chs != [] {
      GrantWithinQuota(chs[..|chs| - 1], m, priority, quota);
    }
  }

  /** g is the share of the channel in the competing priorities, rounded down. */
  ghost predicate IsShare(ch: Channel, priority: nat, g: nat) {
    ch.tmp * g <= ch.distribute * priority < ch.tmp * (g + 1)
  }

  /** A request gets all it lacks, or exactly the share of one of its throttled channels. */
  lemma {:induction false} GrantIsShare(chs: seq<nat>, m: Channels, priority: nat, quota: nat, g: nat)
    requires Known(chs, m) && g == Narrowed(chs, m, priority, quota)
    ensures g == quota || exists c <- chs :: m[c].limit > 0 && m[c].tmp > 0 && IsShare(m[c], priority, g)
  {
    if chs != [] {
      var before, last := chs[..|chs| - 1], m[chs[|chs| - 1]];
      assert chs == before + [chs[|chs| - 1]];
      GrantIsShare(before, m, priority, quota, Narrowed(before, m, priority, quota));
      if last.limit > 0 && last.tmp > 0 {
        ShareIs(last, priority, Share(last, priority));
      }
    }
  }

  lemma ShareIs(ch: Channel, priority: nat, g: nat)
    requires ch.tmp > 0 && g == Share(ch, priority)
    ensures IsShare(ch, priority, g)
  {
    var n := ch.distribute * priority;
    assert n == ch.tmp * (n / ch.tmp) + n % ch.tmp;
  }

  lemma ShareBound(d: nat, p: nat, t: nat, g: nat)
    requires t > 0 && g <= d * p / t
    ensures t * g <= d * p
  {
    MulMono(t, g, d * p / t);
  }

  lemma MulMono(k: nat, a: int, b: int)
    requires a <= b
    ensures k * a <= k * b
  {
  }

  lemma AddBounds(t: nat, x: nat, y: nat, d: nat, v: nat, w: nat)
    requires t * x <= d * v && t * y <= d * w
    ensures t * (x + y) <= d * (v + w)
  {
  }

  lemma Cancel(t: nat, x: nat, d: nat)
    requires t > 0 && t * x <= d * t
    ensures x <= d
  {
    if x > d {
      MulMono(t, d + 1, x);
    }
  }

  lemma {:induction false} PaidBounds(chs: seq<nat>, c: nat, t: nat, g: nat, d: nat, p: nat)
    requires c in chs ==> t * g <= d * p
    ensures t * Paid(chs, c, g) <= d * Paid(chs, c, p)
  {
    if chs != [] {
      var before, last := chs[..|chs| - 1], chs[|chs| - 1];
      assert chs == before + [last];
      PaidBounds(before, c, t, g, d, p);
      if last == c {
        AddBounds(t, Paid(before, c, g), g, d, Paid(before, c, p), p);
      }
    }
  }

  /** What the requests of a queue take from a channel, against their part of its weight. */
  lemma {:induction false} ChargedByWeight(queue: seq<Request>, m: Channels, c: nat)
    requires AllKnown(queue, m) && c in m && m[c].limit > 0 && m[c].tmp > 0
    ensures m[c].tmp * Charged(queue, m, c) <= m[c].distribute * Weight(queue, c)
  {
    if queue != [] {
      var before, r := queue[..|queue| - 1], queue[|queue| - 1];
      var t, d := m[c].tmp, m[c].distribute;
      ChargedByWeight(before, m, c);
      if c in r.channels {
        GrantWithinShare(r.channels, m, r.priority, r.size - r.given, c);
        ShareBound(d, r.priority, t, Grant(r, m));
      }
      PaidBounds(r.channels, c, t, Grant(r, m), d, r.priority);
      AddBounds(t, Charged(before, m, c), Paid(r.channels, c, Grant(r, m)), d, Weight(before, c),
                Paid(r.channels, c, r.priority));
    }
  }

  /** The sum of the rounded-down shares is at most the quota that was to be distributed. */
  lemma NeverOverCommitted(queue: seq<Request>, m: Channels, c: nat)
    requires AllKnown(queue, m) && c in m && m[c].limit > 0 && m[c].tmp > 0 && m[c].tmp == Weight(queue, c)
    ensures Charged(queue, m, c) <= m[c].distribute
  {
    ChargedByWeight(queue, m, c);
    Cancel(m[c].tmp, Charged(queue, m, c), m[c].distribute);
  }
}
