/**
  * The elevator of disk_io_thread::thread_fun: deferred read jobs are kept sorted by their offset on disk, and a
  * position sweeps over them, up and down.
  */
module Elevator {
  import opened Common

  /** A read job of a torrent's storage, deferred at a physical offset. */
  datatype Read = Read(offset: int, storage: nat, id: nat)

  datatype Direction = Up | Down

  /** A job taken from the list, and the direction in which the elevator reached it. */
  datatype Take = Take(read: Read, direction: Direction)

  // ----- The sorted list of std::multimap -----

  ghost predicate Sorted(s: seq<Read>) {
    forall i, j :: 0 <= i < j < |s| ==> s[i].offset <= s[j].offset
  }

  /** std::multimap::lower_bound */
  function LowerBound(s: seq<Read>, offset: int): (r: nat)
    ensures r <= |s|
  {
    if s == [] || s[0].offset >= offset then 0 else 1 + LowerBound(s[1..], offset)
  }

  /** The place where std::multimap::insert puts a new element: after its equals. */
  function UpperBound(s: seq<Read>, offset: int): (r: nat)
    ensures r <= |s|
  {
    if s == [] || s[0].offset > offset then 0 else 1 + UpperBound(s[1..], offset)
  }

  lemma {:induction false} LowerBoundSplits(s: seq<Read>, offset: int)
    ensures var r := LowerBound(s, offset);
      (forall i :: 0 <= i < r ==> s[i].offset < offset) && (r < |s| ==> s[r].offset >= offset)
  {
    if s != [] && s[0].offset < offset {
      LowerBoundSplits(s[1..], offset);
    }
  }

  lemma {:induction false} UpperBoundSplits(s: seq<Read>, offset: int)
    ensures var r := UpperBound(s, offset);
      (forall i :: 0 <= i < r ==> s[i].offset <= offset) && (r < |s| ==> s[r].offset > offset)
  {
    if s != [] && s[0].offset <= offset {
      UpperBoundSplits(s[1..], offset);
    }
  }

  function Insert(s: seq<Read>, at: nat, r: Read): seq<Read>
    requires at <= |s|
  {
    s[..at] + [r] + s[at..]
  }

  lemma InsertAt(s: seq<Read>, at: nat, r: Read, i: nat)
    requires at <= |s| && i <= |s|
    ensures Insert(s, at, r)[i] == if i < at then s[i] else if i == at then r else s[i - 1]
  {
  }

  lemma InsertSorted(s: seq<Read>, r: Read)
    requires Sorted(s)
    ensures Sorted(Insert(s, UpperBound(s, r.offset), r))
  {
    var at := UpperBound(s, r.offset);
    var t := Insert(s, at, r);
    UpperBoundSplits(s, r.offset);
    forall i, j | 0 <= i < j < |t| ensures t[i].offset <= t[j].offset {
      InsertAt(s, at, r, i);
      InsertAt(s, at, r, j);
    }
  }

  lemma RemoveSorted(s: seq<Read>, at: nat)
    requires Sorted(s) && at < |s|
    ensures Sorted(Without(s, at))
  {
  }

  // ----- The sweep -----

  /** The list and the elevator; `pos` is elevator_job_pos as an index, and |jobs| is the end iterator. */
  datatype Sweep = Sweep(jobs: seq<Read>, pos: nat, direction: Direction, last: int, needUpdate: bool)

  /** A job is deferred: the position stays on its element. */
  function Deferred(w: Sweep, r: Read): Sweep {
    var at := UpperBound(w.jobs, r.offset);
    Sweep(Insert(w.jobs, at, r), if at <= w.pos then w.pos + 1 else w.pos, w.direction, w.last,
          w.needUpdate || w.jobs == [])
  }

  function DeferAll(w: Sweep, rs: seq<Read>): Sweep
    decreases |rs|
  {
    if rs == [] then w else DeferAll(Deferred(w, rs[0]), rs[1..])
  }

  /** Where the elevator starts to look for the next job: after the list was empty the place is looked up anew. */
  function Start(w: Sweep): (p: nat)
    ensures w.pos <= |w.jobs| ==> p <= |w.jobs|
  {
    if w.needUpdate then LowerBound(w.jobs, w.last) else w.pos
  }

  /** The job taken next: at the end of the list the elevator turns. */
  function Next(w: Sweep): Take
    requires w.jobs != [] && w.pos <= |w.jobs|
  {
    if Start(w) == |w.jobs| then Take(w.jobs[|w.jobs| - 1], Down) else Take(w.jobs[Start(w)], w.direction)
  }

  /** After the job at the position was taken; in front of the first job the elevator turns. */
  function AfterTake(jobs: seq<Read>, at: nat, direction: Direction): Sweep
    requires at < |jobs|
  {
    var d := if at == 0 then Up else direction;
    Sweep(Without(jobs, at), if d == Up then at else at - 1, d, jobs[at].offset, false)
  }

  function Picked(w: Sweep): Sweep
    requires w.jobs != [] && w.pos <= |w.jobs|
  {
    AfterTake(w.jobs, if Start(w) == |w.jobs| then |w.jobs| - 1 else Start(w), Next(w).direction)
  }

  /** After the jobs of a storage are gone. */
  function Aborted(w: Sweep, storage: nat): Sweep
    requires w.pos <= |w.jobs|
  {
    w.(jobs := Others(w.jobs, storage), pos := |Others(w.jobs[..w.pos], storage)|)
  }

  // ----- The order of the taken jobs -----

  predicate Follows(a: Take, b: Take) {
    a.direction == b.direction ==>
      if b.direction == Up then a.read.offset <= b.read.offset else a.read.offset >= b.read.offset
  }

  /** Between two changes of direction the offsets never go back. */
  ghost predicate Monotone(taken: seq<Take>) {
    forall i :: 0 < i < |taken| ==> Follows(taken[i - 1], taken[i])
  }

  /** How often the elevator went back. */
  ghost function Breaks(taken: seq<Take>): nat {
    if |taken| < 2 then 0
    else Breaks(taken[..|taken| - 1]) + if Follows(taken[|taken| - 2], taken[|taken| - 1]) then 0 else 1
  }

  lemma {:induction false} BreaksNone(taken: seq<Take>)
    ensures Breaks(taken) == 0 <==> Monotone(taken)
  {
    if |taken| >= 2 {
      var front := taken[..|taken| - 1];
      BreaksNone(front);
      assert Monotone(taken) <==> Monotone(front) && Follows(taken[|taken| - 2], taken[|taken| - 1]);
    }
  }

  lemma BreaksAppend(taken: seq<Take>, t: Take)
    ensures (Breaks(taken + [t])
      == Breaks(taken) + if taken == [] || Follows(taken[|taken| - 1], t) then 0 else 1)
  {
    assert (taken + [t])[..|taken|] == taken;
  }

  /** What holds at any time after `last` was taken. */
  ghost predicate Known(w: Sweep, last: Take) {
    && Sorted(w.jobs) && w.pos <= |w.jobs| && w.last == last.read.offset
    && (w.direction == Down ==> last.direction == Down)
    && (w.direction == Up && !w.needUpdate ==> forall i :: w.pos <= i < |w.jobs| ==> w.jobs[i].offset >= w.last)
  }

  /** What holds as long as no abort disturbs the sweep: what comes next is still ahead of the elevator. */
  predicate Ahead(w: Sweep, last: Take) {
    if w.jobs == [] || w.needUpdate then w.direction == Up
    else if w.direction == Up then last.direction == Up || w.pos < |w.jobs|
    else w.pos < |w.jobs| && w.jobs[w.pos].offset <= w.last
  }

  /** The position stays on its element, or at the end. */
  lemma DeferredStays(w: Sweep, r: Read, v: Sweep)
    requires w.pos <= |w.jobs| && v == Deferred(w, r)
    ensures if w.pos < |w.jobs| then v.pos < |v.jobs| && v.jobs[v.pos] == w.jobs[w.pos] else v.pos == |v.jobs|
  {
    if w.pos < |w.jobs| {
      InsertAt(w.jobs, UpperBound(w.jobs, r.offset), r, v.pos);
    }
  }

  lemma DeferKeepsKnown(w: Sweep, last: Take, r: Read)
    requires Known(w, last)
    ensures Known(Deferred(w, r), last)
  {
    var v, at := Deferred(w, r), UpperBound(w.jobs, r.offset);
    InsertSorted(w.jobs, r);
    UpperBoundSplits(w.jobs, r.offset);
    if w.direction == Up && !v.needUpdate {
      assert w.pos < at ==> w.jobs[w.pos].offset <= r.offset;
      forall i | v.pos <= i < |v.jobs| ensures v.jobs[i].offset >= w.last {
        InsertAt(w.jobs, at, r, i);
      }
    }
  }

  /** A new job goes behind the position or in front of it; it cannot make the sweep go back. */
  lemma DeferKeepsAhead(w: Sweep, last: Take, r: Read)
    requires Known(w, last) && Ahead(w, last)
    ensures Ahead(Deferred(w, r), last)
  {
    var at := UpperBound(w.jobs, r.offset);
    UpperBoundSplits(w.jobs, r.offset);
    if w.direction == Down && !w.needUpdate {
      InsertAt(w.jobs, at, r, Deferred(w, r).pos);
    }
  }

  /** The next job follows the last one, whichever way the elevator came to stand there. */
  lemma NextFollows(w: Sweep, last: Take)
    requires Known(w, last) && Ahead(w, last) && w.jobs != []
    ensures Follows(last, Next(w))
  {
    LowerBoundSplits(w.jobs, w.last);
  }

  /** Taking a job leaves the rest ahead, whatever was before. */
  lemma TakeLeavesAhead(jobs: seq<Read>, at: nat, direction: Direction)
    requires Sorted(jobs) && at < |jobs|
    ensures Known(AfterTake(jobs, at, direction), Take(jobs[at], direction))
    ensures Ahead(AfterTake(jobs, at, direction), Take(jobs[at], direction))
  {
    RemoveSorted(jobs, at);
  }

  // ----- No job is lost or taken twice -----

  ghost function TimesTaken(taken: seq<Take>, x: Read): nat {
    if taken == [] then 0
    else TimesTaken(taken[..|taken| - 1], x) + if taken[|taken| - 1].read == x then 1 else 0
  }

  /** Every deferred job waits, was taken or was aborted: exactly one of these, and exactly once. */
  ghost predicate Conserved(deferred: seq<Read>, sorted: seq<Read>, taken: seq<Take>, aborted: seq<Read>) {
    forall x :: Times(deferred, x) == Times(sorted, x) + TimesTaken(taken, x) + Times(aborted, x)
  }

  lemma DeferConserves(deferred: seq<Read>, s: seq<Read>, taken: seq<Take>, aborted: seq<Read>, at: nat, r: Read)
    requires at <= |s| && Conserved(deferred, s, taken, aborted)
    ensures Conserved(deferred + [r], Insert(s, at, r), taken, aborted)
  {
    forall x ensures Times(deferred + [r], x) - Times(deferred, x) == Times(Insert(s, at, r), x) - Times(s, x) {
      TimesJoin(s[..at] + [r], s[at..], x);
      TimesJoin(s[..at], [r], x);
      TimesJoin(s[..at], s[at..], x);
      assert s == s[..at] + s[at..];
      TimesJoin(deferred, [r], x);
    }
  }

  lemma PickConserves(deferred: seq<Read>, s: seq<Read>, taken: seq<Take>, aborted: seq<Read>, at: nat, d: Direction)
    requires at < |s| && Conserved(deferred, s, taken, aborted)
    ensures Conserved(deferred, Without(s, at), taken + [Take(s[at], d)], aborted)
  {
    forall x
      ensures TimesTaken(taken + [Take(s[at], d)], x) - TimesTaken(taken, x) == Times(s, x) - Times(Without(s, at), x)
    {
      TimesJoin(s[..at] + [s[at]], s[at + 1..], x);
      TimesJoin(s[..at], [s[at]], x);
      TimesJoin(s[..at], s[at + 1..], x);
      assert s == s[..at] + [s[at]] + s[at + 1..];
      assert (taken + [Take(s[at], d)])[..|taken|] == taken;
    }
  }

  lemma AbortConserves(deferred: seq<Read>, s: seq<Read>, taken: seq<Take>, aborted: seq<Read>, at: nat)
    requires at < |s| && Conserved(deferred, s, taken, aborted)
    ensures Conserved(deferred, Without(s, at), taken, aborted + [s[at]])
  {
    forall x ensures Times(aborted + [s[at]], x) - Times(aborted, x) == Times(s, x) - Times(Without(s, at), x) {
      TimesJoin(s[..at] + [s[at]], s[at + 1..], x);
      TimesJoin(s[..at], [s[at]], x);
      TimesJoin(s[..at], s[at + 1..], x);
      assert s == s[..at] + [s[at]] + s[at + 1..];
      TimesJoin(aborted, [s[at]], x);
    }
  }

  /** The jobs of other storages. */
  function Others(s: seq<Read>, storage: nat): (r: seq<Read>)
    ensures |r| <= |s|
  {
    if s == [] then [] else Others(s[..|s| - 1], storage) + OtherOf(s[|s| - 1], storage)
  }

  function OtherOf(r: Read, storage: nat): seq<Read> {
    if r.storage == storage then [] else [r]
  }

  lemma OthersExtend(s: seq<Read>, n: nat, storage: nat)
    requires n < |s|
    ensures Others(s[..n + 1], storage) == Others(s[..n], storage) + OtherOf(s[n], storage)
  {
    assert s[..n + 1][..n] == s[..n];
  }

  /** Exactly the jobs of the other storages stay. */
  lemma {:induction false} OthersMembers(s: seq<Read>, storage: nat)
    ensures forall r <- Others(s, storage) :: r in s && r.storage != storage
    ensures forall r <- s :: r.storage != storage ==> r in Others(s, storage)
  {
    if s != [] {
      OthersMembers(s[..|s| - 1], storage);
      assert s == s[..|s| - 1] + [s[|s| - 1]];
    }
  }

  lemma SortedAppend(s: seq<Read>, r: Read)
    requires Sorted(s) && forall x <- s :: x.offset <= r.offset
    ensures Sorted(s + [r])
  {
  }

  /** They stay in order. */
  lemma {:induction false} OthersSorted(s: seq<Read>, storage: nat)
    requires Sorted(s)
    ensures Sorted(Others(s, storage))
  {
    if s != [] {
      var front, last := s[..|s| - 1], s[|s| - 1];
      OthersSorted(front, storage);
      OthersMembers(front, storage);
      if last.storage != storage {
        SortedAppend(Others(front, storage), last);
      } else {
        assert Others(front, storage) + [] == Others(front, storage);
      }
    }
  }

  lemma {:induction false} OthersJoin(a: seq<Read>, b: seq<Read>, storage: nat)
    ensures Others(a + b, storage) == Others(a, storage) + Others(b, storage)
  {
    if b == [] {
      assert a + b == a;
    } else {
      assert (a + b)[..|a + b| - 1] == a + b[..|b| - 1];
      OthersJoin(a, b[..|b| - 1], storage);
    }
  }

  /** Where the position goes in an abort, in the jobs that stay. */
  lemma AbortedPlace(s: seq<Read>, pos: nat, storage: nat, front: seq<Read>, rest: seq<Read>)
    requires Sorted(s) && pos <= |s| && front == Others(s[..pos], storage) && rest == Others(s[pos..], storage)
    ensures Others(s, storage) == front + rest && Sorted(front + rest)
    ensures (forall r <- front :: r in s[..pos]) && (forall r <- rest :: r in s[pos..])
  {
    assert s == s[..pos] + s[pos..];
    OthersJoin(s[..pos], s[pos..], storage);
    OthersSorted(s, storage);
    OthersMembers(s[..pos], storage);
    OthersMembers(s[pos..], storage);
  }

  lemma AbortKeepsKnown(w: Sweep, last: Take, storage: nat)
    requires Known(w, last)
    ensures Known(Aborted(w, storage), last)
  {
    var front, rest := Others(w.jobs[..w.pos], storage), Others(w.jobs[w.pos..], storage);
    AbortedPlace(w.jobs, w.pos, storage, front, rest);
    if w.direction == Up && !w.needUpdate {
      forall i | |front| <= i < |front + rest| ensures (front + rest)[i].offset >= w.last {
        assert (front + rest)[i] in rest;
      }
    }
  }

  /**
    * The aborts that keep the sweep in order. Going up after going up, every abort does. Going up after turning,
    * some job at the position or behind it must stay, or none at all; going down, the first that stays there must
    * not lie above the last one.
    */
  predicate Spared(w: Sweep, last: Take, storage: nat)
    requires w.pos <= |w.jobs|
  {
    var rest := Others(w.jobs[w.pos..], storage);
    || w.needUpdate
    || (w.direction == Up && (last.direction == Up || rest != [] || Others(w.jobs, storage) == []))
    || (w.direction == Down && rest != [] && rest[0].offset <= w.last)
  }

  /** These and no others. */
  lemma AbortKeepsAhead(w: Sweep, last: Take, storage: nat)
    requires Known(w, last) && Ahead(w, last)
    ensures Ahead(Aborted(w, storage), last) <==> Spared(w, last, storage)
  {
    AbortedPlace(w.jobs, w.pos, storage, Others(w.jobs[..w.pos], storage), Others(w.jobs[w.pos..], storage));
  }

  lemma {:induction false} DeferAllKeepsAhead(w: Sweep, last: Take, rs: seq<Read>)
    requires Known(w, last) && Ahead(w, last)
    ensures Known(DeferAll(w, rs), last) && Ahead(DeferAll(w, rs), last)
    decreases |rs|
  {
    if rs != [] {
      DeferKeepsKnown(w, last, rs[0]);
      DeferKeepsAhead(w, last, rs[0]);
      DeferAllKeepsAhead(Deferred(w, rs[0]), last, rs[1..]);
    }
  }

  /** Whatever is deferred from now on, the next job that is taken follows the last one. */
  ghost predicate StaysInOrder(w: Sweep, last: Take) {
    forall rs: seq<Read> ::
      var v := DeferAll(w, rs); v.jobs != [] && v.pos <= |v.jobs| ==> Follows(last, Next(v))
  }

  /** Otherwise one job above the last one is enough to make the elevator go back. */
  lemma NotAheadGoesBack(w: Sweep, last: Take)
    requires Known(w, last) && !w.needUpdate && !Ahead(w, last)
    ensures !StaysInOrder(w, last)
  {
    if w.pos < |w.jobs| {
      assert DeferAll(w, []) == w && !Follows(last, Next(w));
    } else {
      var top := if w.jobs == [] then w.last else w.jobs[|w.jobs| - 1].offset;
      var r := Read(1 + if top < w.last then w.last else top, 0, 0);
      var v, at := Deferred(w, r), UpperBound(w.jobs, r.offset);
      assert DeferAll(w, [r]) == v by {
        assert [r][1..] == [] && DeferAll(v, []) == v;
      }
      DeferKeepsKnown(w, last, r);
      UpperBoundSplits(w.jobs, r.offset);
      LowerBoundSplits(v.jobs, w.last);
      assert at == |w.jobs| && v.jobs == w.jobs + [r];
      assert Next(v) == Take(r, Down) && !Follows(last, Next(v));
    }
  }

  /** An abort of an elevator in order leaves it in order, whatever is deferred afterwards, exactly if it is spared. */
  lemma AbortExactly(w: Sweep, last: Take, storage: nat)
    requires Known(w, last) && Ahead(w, last)
    ensures StaysInOrder(Aborted(w, storage), last) <==> Spared(w, last, storage)
  {
    var v := Aborted(w, storage);
    AbortKeepsKnown(w, last, storage);
    AbortKeepsAhead(w, last, storage);
    if Ahead(v, last) {
      forall rs: seq<Read> | var u := DeferAll(v, rs); u.jobs != [] && u.pos <= |u.jobs|
        ensures Follows(last, Next(DeferAll(v, rs)))
      {
        DeferAllKeepsAhead(v, last, rs);
        NextFollows(DeferAll(v, rs), last);
      }
    } else {
      NotAheadGoesBack(v, last);
    }
  }

  /** When the next job follows the last one, in general. */
  lemma NextFrom(w: Sweep, last: Take)
    requires Known(w, last) && !w.needUpdate && w.jobs != []
    ensures (Follows(last, Next(w)) <==>
      || last.direction == Up
      || (if w.pos == |w.jobs| then w.jobs[|w.jobs| - 1].offset <= w.last
          else w.direction == Up || w.jobs[w.pos].offset <= w.last))
  {
  }

  /** Below the position everything is at or below its job. */
  lemma FrontBelow(w: Sweep, storage: nat, front: seq<Read>)
    requires Sorted(w.jobs) && w.pos < |w.jobs| && w.jobs[w.pos].offset <= w.last
    requires front == Others(w.jobs[..w.pos], storage) && front != []
    ensures front[|front| - 1].offset <= w.last
  {
    OthersMembers(w.jobs[..w.pos], storage);
    assert front[|front| - 1] in w.jobs[..w.pos];
  }

  /**
    * If nothing is deferred in between, the job taken right after an abort follows the last one unless that one was
    * taken going down and the elevator is moved to a job above it: up to the next that stays or, at the end of the
    * list, back to the last that stays.
    */
  lemma NextAfterAbort(w: Sweep, last: Take, storage: nat, v: Sweep, rest: seq<Read>)
    requires Known(w, last) && Ahead(w, last) && v == Aborted(w, storage) && v.jobs != []
    requires rest == Others(w.jobs[w.pos..], storage)
    ensures v.pos <= |v.jobs|
    ensures (Follows(last, Next(v)) <==>
      || w.needUpdate || last.direction == Up
      || (w.direction == Down && (rest != [] ==> rest[0].offset <= w.last))
      || (w.direction == Up && (rest == [] ==> v.jobs[|v.jobs| - 1].offset <= w.last)))
  {
    var front := Others(w.jobs[..w.pos], storage);
    AbortedPlace(w.jobs, w.pos, storage, front, rest);
    AbortKeepsKnown(w, last, storage);
    if w.needUpdate {
      NextFollows(v, last);
    } else {
      NextFrom(v, last);
      if w.direction == Down && rest == [] {
        FrontBelow(w, storage, front);
      }
    }
  }

  // ----- No job is passed by -----

  /**
    * Between the job just taken and the one at the position no job waits: going up the position is at the next job
    * above, or at the end if there is none, and going down at the next one below.
    */
  ghost predicate Nearest(jobs: seq<Read>, pos: nat, direction: Direction, taken: Read) {
    if direction == Up then
      && pos <= |jobs| && (pos < |jobs| ==> jobs[pos].offset >= taken.offset)
      && (forall x <- jobs :: x.offset <= taken.offset || (pos < |jobs| && x.offset >= jobs[pos].offset))
    else
      && pos < |jobs| && jobs[pos].offset <= taken.offset
      && (forall x <- jobs :: x.offset >= taken.offset || x.offset <= jobs[pos].offset)
  }

  /**
    * The elevator turns at the ends only: down when every job that waits is at or below the one it takes, and up when
    * every one is at or above it.
    */
  ghost predicate TurnsAtEnds(before: Direction, taken: Take, after: Direction, jobs: seq<Read>) {
    && (taken.direction != before ==> taken.direction == Down && forall x <- jobs :: x.offset <= taken.read.offset)
    && (after != taken.direction ==> after == Up && forall x <- jobs :: x.offset >= taken.read.offset)
  }

  /** The job that is taken: the one at the position, or looked up from the last offset, or the last one. */
  ghost predicate Chosen(w: Sweep, taken: Take)
    requires w.pos <= |w.jobs|
  {
    && taken.read in w.jobs
    && (!w.needUpdate && w.pos < |w.jobs| ==> taken == Take(w.jobs[w.pos], w.direction))
    && (!w.needUpdate && w.pos == |w.jobs| ==> forall x <- w.jobs :: x.offset <= taken.read.offset)
    && (w.needUpdate && taken.read.offset < w.last ==> forall x <- w.jobs :: x.offset <= taken.read.offset)
    && (w.needUpdate && taken.read.offset >= w.last ==>
          taken.direction == w.direction && forall x <- w.jobs :: x.offset < w.last || x.offset >= taken.read.offset)
  }

  lemma RestSplits(jobs: seq<Read>, at: nat, rest: seq<Read>)
    requires Sorted(jobs) && at < |jobs| && rest == Without(jobs, at)
    ensures forall i :: 0 <= i < at ==> rest[i] == jobs[i] && rest[i].offset <= jobs[at].offset
    ensures forall i :: at <= i < |rest| ==> rest[i] == jobs[i + 1] && rest[i].offset >= jobs[at].offset
  {
  }

  lemma RestNearest(jobs: seq<Read>, at: nat, direction: Direction)
    requires Sorted(jobs) && at < |jobs|
    ensures var v := AfterTake(jobs, at, direction); Nearest(v.jobs, v.pos, v.direction, jobs[at])
  {
    var v := AfterTake(jobs, at, direction);
    RestSplits(jobs, at, v.jobs);
    forall x | x in v.jobs
      ensures (v.direction == Up ==>
        x.offset <= jobs[at].offset || (v.pos < |v.jobs| && x.offset >= v.jobs[v.pos].offset))
      ensures v.direction == Down ==> x.offset >= jobs[at].offset || x.offset <= v.jobs[v.pos].offset
    {
      var i :| 0 <= i < |v.jobs| && v.jobs[i] == x;
      RestPlaced(jobs, at, direction, v, i);
    }
  }

  lemma RestPlaced(jobs: seq<Read>, at: nat, direction: Direction, v: Sweep, i: nat)
    requires Sorted(jobs) && at < |jobs| && v == AfterTake(jobs, at, direction) && i < |v.jobs|
    ensures (v.direction == Up ==>
      v.jobs[i].offset <= jobs[at].offset || (v.pos < |v.jobs| && v.jobs[i].offset >= v.jobs[v.pos].offset))
    ensures v.direction == Down ==> v.jobs[i].offset >= jobs[at].offset || v.jobs[i].offset <= v.jobs[v.pos].offset
  {
    RestSplits(jobs, at, v.jobs);
    RemoveSorted(jobs, at);
  }

  /** The elevator takes the right job, passes none by on its way to the next one, and turns at the ends only. */
  ghost predicate PassesNone(w: Sweep, next: Take, v: Sweep)
    requires w.pos <= |w.jobs|
  {
    && Chosen(w, next) && Nearest(v.jobs, v.pos, v.direction, next.read)
    && TurnsAtEnds(w.direction, next, v.direction, v.jobs)
  }

  lemma PickPassesNone(w: Sweep, next: Take, v: Sweep)
    requires Sorted(w.jobs) && w.pos <= |w.jobs| && w.jobs != [] && next == Next(w) && v == Picked(w)
    ensures PassesNone(w, next, v)
  {
    var at := if Start(w) == |w.jobs| then |w.jobs| - 1 else Start(w);
    LowerBoundSplits(w.jobs, w.last);
    RestNearest(w.jobs, at, next.direction);
    RestSplits(w.jobs, at, v.jobs);
    RemoveSorted(w.jobs, at);
    PickedIsChosen(w, next);
  }

  lemma PickedIsChosen(w: Sweep, next: Take)
    requires Sorted(w.jobs) && w.pos <= |w.jobs| && w.jobs != [] && next == Next(w)
    ensures Chosen(w, next)
  {
    LowerBoundSplits(w.jobs, w.last);
  }

  // ----- Whole runs -----

  /** Before the first job is taken the place of the elevator does not matter. */
  ghost predicate Begun(w: Sweep, taken: seq<Take>) {
    if taken == [] then Sorted(w.jobs) && w.pos <= |w.jobs| && (w.needUpdate || w.jobs == []) && w.direction == Up
    else Known(w, taken[|taken| - 1])
  }

  predicate InOrder(w: Sweep, taken: seq<Take>) {
    taken == [] || Ahead(w, taken[|taken| - 1])
  }

  /** The elevator went back at most once for each abort that disturbed it; one of them may be still to come. */
  ghost predicate Ordered(w: Sweep, taken: seq<Take>, disturbed: nat) {
    Begun(w, taken) && Breaks(taken) + (if InOrder(w, taken) then 0 else 1) <= disturbed
  }

  /** How many of the disturbing aborts this one is: it was in order, and is not spared. */
  function Disturbs(w: Sweep, taken: seq<Take>, storage: nat): nat
    requires w.pos <= |w.jobs|
  {
    if taken != [] && Ahead(w, taken[|taken| - 1]) && !Spared(w, taken[|taken| - 1], storage) then 1 else 0
  }

  lemma DeferKeepsOrdered(w: Sweep, taken: seq<Take>, disturbed: nat, r: Read)
    requires Ordered(w, taken, disturbed)
    ensures Ordered(Deferred(w, r), taken, disturbed)
  {
    if taken == [] {
      InsertSorted(w.jobs, r);
    } else {
      DeferKeepsKnown(w, taken[|taken| - 1], r);
      if InOrder(w, taken) {
        DeferKeepsAhead(w, taken[|taken| - 1], r);
      }
    }
  }

  lemma TakeKeepsOrdered(w: Sweep, taken: seq<Take>, disturbed: nat, next: Take, v: Sweep, now: seq<Take>)
    requires Ordered(w, taken, disturbed) && w.jobs != [] && next == Next(w) && v == Picked(w)
    requires now == taken + [next]
    ensures Ordered(v, now, disturbed) && InOrder(v, now)
    ensures InOrder(w, taken) ==> Breaks(now) == Breaks(taken)
  {
    BreaksAppend(taken, next);
    TakeLeavesAhead(w.jobs, if Start(w) == |w.jobs| then |w.jobs| - 1 else Start(w), next.direction);
    if taken != [] && InOrder(w, taken) {
      NextFollows(w, taken[|taken| - 1]);
    }
  }

  lemma AbortKeepsOrdered(w: Sweep, taken: seq<Take>, disturbed: nat, storage: nat)
    requires Ordered(w, taken, disturbed)
    ensures Ordered(Aborted(w, storage), taken, disturbed + Disturbs(w, taken, storage))
  {
    if taken == [] {
      OthersSorted(w.jobs, storage);
      OthersPrefix(w.jobs, w.pos, storage);
    } else {
      AbortKeepsKnown(w, taken[|taken| - 1], storage);
      if InOrder(w, taken) {
        AbortKeepsAhead(w, taken[|taken| - 1], storage);
      }
    }
  }

  /** The list while the first n jobs are done: those of other storages are in front, the rest is untouched. */
  function SweptList(was: seq<Read>, n: nat, storage: nat): seq<Read>
    requires n <= |was|
  {
    Others(was[..n], storage) + was[n..]
  }

  function SweptPos(was: seq<Read>, at: nat, n: nat, storage: nat): nat
    requires at <= |was| && n <= |was|
  {
    if at < n then |Others(was[..at], storage)| else |Others(was[..n], storage)| + (at - n)
  }

  ghost predicate Swept(was: seq<Read>, at: nat, n: nat, storage: nat, s: seq<Read>, pos: nat, i: nat) {
    && at <= |was| && n <= |was| && i == |Others(was[..n], storage)|
    && s == SweptList(was, n, storage) && pos == SweptPos(was, at, n, storage)
  }

  lemma SweepStep(was: seq<Read>, at: nat, n: nat, storage: nat, s: seq<Read>, pos: nat, i: nat)
    requires Swept(was, at, n, storage, s, pos, i) && i < |s|
    ensures n < |was| && s[i] == was[n]
    ensures s[i].storage != storage ==> Swept(was, at, n + 1, storage, s, pos, i + 1)
    ensures (s[i].storage == storage ==>
      Swept(was, at, n + 1, storage, Without(s, i), if i < pos then pos - 1 else pos, i))
  {
    OthersExtend(was, n, storage);
    SweepList(Others(was[..n], storage), was, n, s);
    if at < n {
      OthersPrefix(was[..n], at, storage);
      assert was[..n][..at] == was[..at];
    }
  }

  lemma SweepList(front: seq<Read>, was: seq<Read>, n: nat, s: seq<Read>)
    requires n < |was| && s == front + was[n..]
    ensures s[|front|] == was[n] && s == (front + [was[n]]) + was[n + 1..]
    ensures Without(s, |front|) == front + was[n + 1..] == (front + []) + was[n + 1..]
  {
    DropFirst(was, n);
  }

  lemma SweepStart(was: seq<Read>, at: nat, storage: nat)
    requires at <= |was|
    ensures Swept(was, at, 0, storage, was, at, 0)
  {
    assert Others([], storage) + was == was;
  }

  lemma SweptAll(was: seq<Read>, at: nat, n: nat, storage: nat, s: seq<Read>, pos: nat, i: nat)
    requires Sorted(was) && Swept(was, at, n, storage, s, pos, i) && i >= |s|
    ensures s == Others(was, storage) && Sorted(s)
    ensures pos == |Others(was[..at], storage)| && pos <= |s|
  {
    assert was[..n] == was;
    OthersPrefix(was, at, storage);
    OthersSorted(was, storage);
  }

  lemma {:induction false} OthersPrefix(s: seq<Read>, at: nat, storage: nat)
    requires at <= |s|
    ensures |Others(s[..at], storage)| <= |Others(s, storage)|
  {
    if at < |s| {
      OthersPrefix(s[..|s| - 1], at, storage);
      assert s[..|s| - 1][..at] == s[..at];
    } else {
      assert s[..at] == s;
    }
  }

  class ReadQueue {
    /** m_sorted_read_jobs */
    var sorted: seq<Read>
    /** elevator_job_pos, as an index: |sorted| is the end iterator. */
    var pos: nat
    var direction: Direction
    /** last_elevator_pos */
    var last: int
    var needUpdate: bool

    /** What happened so far. */
    ghost var deferred: seq<Read>
    ghost var taken: seq<Take>
    ghost var aborted: seq<Read>
    /** How many aborts disturbed the sweep. */
    ghost var disturbed: nat

    function State(): Sweep
      reads this
    {
      Sweep(sorted, pos, direction, last, needUpdate)
    }

    /**
      * The position denotes an element or the end, every deferred read waits, was taken, or was aborted: once; and the
      * elevator went back at most once for each abort that disturbed it.
      */
    ghost predicate Valid()
      reads this
    {
      && pos <= |sorted| && Conserved(deferred, sorted, taken, aborted)
      && Ordered(State(), taken, disturbed)
    }

    constructor ()
      ensures Valid() && State() == Sweep([], 0, Up, 0, false)
      ensures taken == [] && deferred == aborted == [] && disturbed == 0
    {
      sorted, pos, direction, last, needUpdate := [], 0, Up, 0, false;
      deferred, taken, aborted, disturbed := [], [], [], 0;
    }

    /** The sorting branch of thread_fun. */
    method Defer(r: Read)
      requires Valid()
      modifies this
      ensures Valid() && State() == Deferred(old(State()), r)
      ensures deferred == old(deferred) + [r] && taken == old(taken)
      ensures aborted == old(aborted) && disturbed == old(disturbed)
      ensures if old(pos) < |old(sorted)| then pos < |sorted| && sorted[pos] == old(sorted[pos]) else pos == |sorted|
    {
      var at := UpperBound(sorted, r.offset);
      DeferConserves(deferred, sorted, taken, aborted, at, r);
      ghost var v := Deferred(State(), r);
      DeferKeepsOrdered(State(), taken, disturbed, r);
      DeferredStays(State(), r, v);
      needUpdate := needUpdate || sorted == [];
      sorted := Insert(sorted, at, r);
      if at <= pos {
        pos := pos + 1;
      }
      deferred := deferred + [r];
      assert State() == v;
    }

    /** The picking branch of thread_fun. */
    method Pick() returns (r: Read)
      requires Valid() && sorted != []
      modifies this
      ensures Valid() && State() == Picked(old(State()))
      ensures taken == old(taken) + [Next(old(State()))]
      ensures PassesNone(old(State()), taken[|taken| - 1], State()) && r == taken[|taken| - 1].read
      ensures InOrder(State(), taken) && (old(InOrder(State(), taken)) ==> Breaks(taken) == old(Breaks(taken)))
      ensures aborted == old(aborted) && disturbed == old(disturbed) && deferred == old(deferred)
    {
      ghost var w := State();
      ghost var next, v, now := Next(w), Picked(w), taken + [Next(w)];
      TakeKeepsOrdered(w, taken, disturbed, next, v, now);
      PickPassesNone(w, next, v);
      Arrive();
      r := TakeJob();
      assert State() == v && taken == now;
    }

    /** First half of picking: after the list was empty the position is looked up anew, and at the end it turns. */
    method Arrive()
      requires Valid() && sorted != []
      modifies `pos, `direction, `needUpdate
      ensures pos < |sorted| && !needUpdate && Take(sorted[pos], direction) == Next(old(State()))
      ensures pos == if Start(old(State())) == |sorted| then |sorted| - 1 else Start(old(State()))
    {
      if needUpdate {
        pos := LowerBound(sorted, last);
        needUpdate := false;
      }
      if pos == |sorted| {
        direction := Down;
        pos := pos - 1;
      }
    }

    /** Second half: the position moves on before its element goes, and everything behind that moves up by one. */
    method TakeJob() returns (r: Read)
      requires pos < |sorted| && !needUpdate && Conserved(deferred, sorted, taken, aborted)
      modifies `pos, `direction, `last, `sorted, `taken
      ensures State() == AfterTake(old(sorted), old(pos), old(direction))
      ensures r == old(sorted[pos]) && taken == old(taken) + [Take(r, old(direction))]
      ensures Conserved(deferred, sorted, taken, aborted)
    {
      PickConserves(deferred, sorted, taken, aborted, pos, direction);
      r := sorted[pos];
      taken := taken + [Take(r, direction)];
      var toErase := pos;
      if pos == 0 {
        direction := Up;
      }
      pos := if direction == Up then pos + 1 else pos - 1;
      last := r.offset;
      sorted := Without(sorted, toErase);
      if pos > toErase {
        pos := pos - 1;
      }
    }

    /**
      * The list part of abort_torrent: exactly the jobs of the other storages stay, in order, and the position stays
      * on its job, or moves to the next one that stays, or to the end.
      */
    method Abort(storage: nat)
      requires Valid()
      modifies `sorted, `pos, `aborted, `disturbed
      ensures Valid() && State() == Aborted(old(State()), storage)
      ensures disturbed == old(disturbed) + Disturbs(old(State()), taken, storage)
    {
      ghost var w := State();
      AbortKeepsOrdered(w, taken, disturbed, storage);
      disturbed := disturbed + Disturbs(w, taken, storage);
      AbortAll(storage, Others(sorted, storage), |Others(sorted[..pos], storage)|);
    }

    method AbortAll(storage: nat, ghost others: seq<Read>, ghost place: nat)
      requires Sorted(sorted) && pos <= |sorted| && Conserved(deferred, sorted, taken, aborted)
      requires others == Others(sorted, storage) && place == |Others(sorted[..pos], storage)|
      modifies `sorted, `pos, `aborted
      ensures sorted == others && pos == place && Conserved(deferred, sorted, taken, aborted)
    {
      ghost var was, at := sorted, pos;
      SweepStart(sorted, pos, storage);
      ghost var n, end := AbortLoop(storage);
      SweptAll(was, at, n, storage, sorted, pos, end);
    }

    method AbortLoop(storage: nat) returns (ghost n: nat, ghost end: nat)
      requires Conserved(deferred, sorted, taken, aborted)
      requires Swept(sorted, pos, 0, storage, sorted, pos, 0)
      modifies `sorted, `pos, `aborted
      ensures Swept(old(sorted), old(pos), n, storage, sorted, pos, end) && end >= |sorted|
      ensures Conserved(deferred, sorted, taken, aborted)
    {
      ghost var was, at := sorted, pos;
      n := 0;
      var i: nat := 0;
      while i < |sorted|
        invariant Swept(was, at, n, storage, sorted, pos, i)
        invariant Conserved(deferred, sorted, taken, aborted)
        decreases |sorted| - i
      {
        i := AbortIfOf(storage, i, was, at, n);
        n := n + 1;
      }
      end := i;
    }

    /** One job is cancelled if it is of the storage; the position leaves it before it goes. */
    method AbortIfOf(storage: nat, i: nat, ghost was: seq<Read>, ghost at: nat, ghost n: nat) returns (next: nat)
      requires i < |sorted| && Swept(was, at, n, storage, sorted, pos, i)
      requires Conserved(deferred, sorted, taken, aborted)
      modifies `sorted, `pos, `aborted
      ensures Conserved(deferred, sorted, taken, aborted)
      ensures n < |was| && Swept(was, at, n + 1, storage, sorted, pos, next)
      ensures |sorted| - next < old(|sorted|) - i
    {
      SweepStep(was, at, n, storage, sorted, pos, i);
      if sorted[i].storage != storage {
        return i + 1;
      }
      AbortConserves(deferred, sorted, taken, aborted, i);
      if pos == i {
        pos := pos + 1;
      }
      aborted := aborted + [sorted[i]];
      sorted := Without(sorted, i);
      if pos > i {
        pos := pos - 1;
      }
      next := i;
    }
  }

  // ----- A run in which the elevator goes back -----

  lemma DeferredAt(w: Sweep, r: Read, at: nat)
    requires at <= |w.jobs| && (forall i :: 0 <= i < at ==> w.jobs[i].offset <= r.offset)
    requires at < |w.jobs| ==> w.jobs[at].offset > r.offset
    ensures (Deferred(w, r) ==
      Sweep(w.jobs[..at] + [r] + w.jobs[at..], if at <= w.pos then w.pos + 1 else w.pos, w.direction, w.last,
            w.needUpdate || w.jobs == []))
  {
    UpperBoundSplits(w.jobs, r.offset);
  }

  lemma PickedAt(w: Sweep, start: nat)
    requires w.needUpdate && w.jobs != [] && start <= |w.jobs| && w.pos <= |w.jobs|
    requires forall i :: 0 <= i < start ==> w.jobs[i].offset < w.last
    requires start < |w.jobs| ==> w.jobs[start].offset >= w.last
    ensures start < |w.jobs| ==> Next(w) == Take(w.jobs[start], w.direction)
    ensures start < |w.jobs| ==> Picked(w) == AfterTake(w.jobs, start, w.direction)
    ensures start == |w.jobs| ==> Next(w) == Take(w.jobs[start - 1], Down)
    ensures start == |w.jobs| ==> Picked(w) == AfterTake(w.jobs, start - 1, Down)
  {
    LowerBoundSplits(w.jobs, w.last);
  }

  lemma OthersOfTwo(c: Read, d: Read, storage: nat)
    requires c.storage == storage != d.storage
    ensures Others([c, d], storage) == [d] && Others([c, d][..0], storage) == []
  {
    OthersExtend([c, d], 0, storage);
    OthersExtend([c, d], 1, storage);
    assert [c, d][..2] == [c, d];
  }

  lemma UpToFirst(w: Sweep, a: Read) returns (v: Sweep)
    requires w == Sweep([], 0, Up, 0, false) && a.offset == 8
    ensures v == Deferred(w, a) && v.jobs != [] && v.pos <= |v.jobs|
    ensures Next(v) == Take(a, Up) && Picked(v) == Sweep([], 0, Up, 8, false)
  {
    DeferredAt(w, a, 0);
    v := Sweep([a], 1, Up, 0, true);
    PickedAt(v, 0);
  }

  lemma DownFromSecond(w: Sweep, b: Read, c: Read) returns (x: Sweep, v: Sweep)
    requires w == Sweep([], 0, Up, 8, false) && b.offset == 7 && c.offset == 5
    ensures x == Deferred(w, b) && v == Deferred(x, c) && v.jobs != [] && v.pos <= |v.jobs|
    ensures Next(v) == Take(b, Down) && Picked(v) == Sweep([c], 0, Down, 7, false)
  {
    DeferredAt(w, b, 0);
    x := Sweep([b], 1, Up, 8, true);
    DeferredAt(x, c, 0);
    v := Sweep([c, b], 2, Up, 8, true);
    PickedAt(v, 2);
  }

  lemma UpFromThird(w: Sweep, c: Read, d: Read) returns (x: Sweep, v: Sweep)
    requires w == Sweep([c], 0, Down, 7, false) && c.offset == 5 && d.offset == 9 && c.storage != d.storage
    ensures x == Deferred(w, d) && x.pos <= |x.jobs|
    ensures v == Aborted(x, c.storage) && v == Sweep([d], 0, Down, 7, false) && Next(v) == Take(d, Down)
  {
    DeferredAt(w, d, 1);
    x := Sweep([c, d], 0, Down, 7, false);
    OthersOfTwo(c, d, c.storage);
    v := Sweep([d], 0, Down, 7, false);
  }

  method GoUp(q: ReadQueue, a: Read)
    requires q.Valid() && q.State() == Sweep([], 0, Up, 0, false) && q.taken == [] && a.offset == 8
    modifies q
    ensures q.Valid() && q.State() == Sweep([], 0, Up, 8, false) && q.taken == [Take(a, Up)]
  {
    ghost var v := UpToFirst(q.State(), a);
    q.Defer(a);
    var first := q.Pick();
  }

  method TurnDown(q: ReadQueue, b: Read, c: Read) returns (r: Read)
    requires q.Valid() && q.State() == Sweep([], 0, Up, 8, false) && b.offset == 7 && c.offset == 5
    modifies q
    ensures q.Valid() && q.State() == Sweep([c], 0, Down, 7, false) && q.taken == old(q.taken) + [Take(b, Down)]
    ensures r == b
  {
    ghost var x, v := DownFromSecond(q.State(), b, c);
    q.Defer(b);
    q.Defer(c);
    r := q.Pick();
  }

  method LoseJob(q: ReadQueue, c: Read, d: Read) returns (direction: Direction, r: Read)
    requires q.Valid() && q.State() == Sweep([c], 0, Down, 7, false) && c.offset == 5 && d.offset == 9
    requires c.storage != d.storage
    modifies q
    ensures q.Valid() && q.taken == old(q.taken) + [Take(r, direction)] && r == d && direction == Down
  {
    ghost var x, v := UpFromThird(q.State(), c, d);
    q.Defer(d);
    q.Abort(c.storage);
    assert q.State() == v;
    direction := q.direction;
    r := q.Pick();
  }

  /**
    * From the start: the elevator takes 8, turns, takes 7, loses the job 5 at which it stands, and takes 9 on its way
    * down.
    */
  method AbortMayTurnBack(a: Read, b: Read, c: Read, d: Read)
    returns (last: Read, direction: Direction, next: Read, ghost taken: seq<Take>)
    requires a.offset == 8 && b.offset == 7 && c.offset == 5 && d.offset == 9
    requires a.storage == b.storage == d.storage != c.storage
    ensures direction == Down && last == b && next == d
    ensures taken == [Take(a, Up), Take(last, Down), Take(next, direction)] && Breaks(taken) == 1
  {
    var q := new ReadQueue();
    GoUp(q, a);
    last := TurnDown(q, b, c);
    direction, next := LoseJob(q, c, d);
    taken := q.taken;
    BreaksAppend([Take(a, Up)], Take(b, Down));
    BreaksAppend([Take(a, Up), Take(b, Down)], Take(d, Down));
  }
}
