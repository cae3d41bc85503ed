/** Whole runs of the disk thread: whatever the cache does in between, its jobs behave as if there were no cache. */
module DiskRun {
  import opened Common
  import opened DiskBlocks
  import opened DiskCache

  datatype Op = WriteOp(job: Job, buf: Buffer) | HashOp(key: Key) | ReadOp(job: Job)

  /** What a read job gave: the bytes, or nothing when the storage could not be read. */
  datatype Answer = Bytes(bytes: seq<byte>) | Failed

  /** The pieces written since they were last hashed, and the pieces that have been read. */
  datatype History = History(unhashed: set<Key>, read: set<Key>)

  // ----- The jobs without any cache -----

  /** Blocks are written whole, and only to pieces not yet read; a piece is read only once it has been hashed. */
  ghost predicate Allowed(op: Op, view: Disk, h: History) {
    match op
    case WriteOp(j, _) =>
      && j.Valid(view) && j.offset % BLOCK_SIZE == 0 && j.bufferSize == BlockLen(|view[j.key]|, j.Block())
      && j.key !in h.read
    case HashOp(k) => k in view
    case ReadOp(j) => j.Valid(view) && j.key !in h.unhashed
  }

  function Next(h: History, op: Op): History {
    match op
    case WriteOp(j, _) => h.(unhashed := h.unhashed + {j.key})
    case HashOp(k) => h.(unhashed := h.unhashed - {k})
    case ReadOp(j) => h.(read := h.read + {j.key})
  }

  /** The contents after one job. */
  function After(view: Disk, op: Op): Disk {
    if op.WriteOp? && op.job.Valid(view)
    then view[op.job.key := Splice(view[op.job.key], op.job.offset, op.buf[..op.job.bufferSize])]
    else view
  }

  /** The answer of one job: the bytes asked for, if it is a read. */
  function Reply(view: Disk, op: Op): seq<seq<byte>> {
    if op.ReadOp? && op.job.Valid(view)
    then [view[op.job.key][op.job.offset..op.job.offset + op.job.bufferSize]]
    else []
  }

  ghost predicate Legal(ops: seq<Op>, view: Disk, h: History) {
    ops == [] || (Allowed(ops[0], view, h) && Legal(ops[1..], After(view, ops[0]), Next(h, ops[0])))
  }

  function Replies(view: Disk, ops: seq<Op>): seq<seq<byte>> {
    if ops == [] then [] else Reply(view, ops[0]) + Replies(After(view, ops[0]), ops[1..])
  }

  ghost predicate Agree(answers: seq<Answer>, expected: seq<seq<byte>>) {
    |answers| == |expected| &&
    forall i :: 0 <= i < |answers| && answers[i].Bytes? ==> answers[i].bytes == expected[i]
  }

  /** How many reads were not answered. */
  ghost function Failures(answers: seq<Answer>): nat {
    if answers == [] then 0 else Failures(answers[..|answers| - 1]) + if answers[|answers| - 1].Failed? then 1 else 0
  }

  // ----- The jobs through the cache -----

  /** The thread fits the history: what is cached for writing is unhashed, what is cached for reading was read. */
  ghost predicate Fits(d: DiskIoThread, h: History)
    reads d, d.storage
  {
    d.Valid() && d.settings.readCacheLineSize > 0 && d.pieces.Keys <= h.unhashed && d.readPieces.Keys <= h.read
  }

  method Perform(d: DiskIoThread, op: Op, now: int, ghost h: History) returns (answers: seq<Answer>)
    requires Fits(d, h) && Allowed(op, d.View(), h)
    modifies d`pieces, d`readPieces, d`cacheSize, d`readCacheSize, d`inUse, d.storage
    ensures Fits(d, Next(h, op)) && d.View() == After(old(d.View()), op)
    ensures Agree(answers, Reply(old(d.View()), op))
    ensures d.storage.failedReads == old(d.storage.failedReads) + Failures(answers)
  {
    answers := [];
    ContentsSizes(d.pieces, d.storage.data);
    match op {
      case WriteOp(j, buf) =>
        d.inUse := d.inUse + 1;
        d.WriteJob(j, buf, now);
      case HashOp(k) =>
        d.HashJob(k);
      case ReadOp(j) =>
        var buffer := new byte[j.bufferSize];
        var ret := d.ReadJob(j, buffer, now);
        answers := [if ret >= 0 then Bytes(buffer[..j.bufferSize]) else Failed];
    }
  }

  /** One turn of the disk thread: expired pieces go, and the job is done. */
  method Turn(d: DiskIoThread, op: Op, cacheExpiry: nat, ghost h: History) returns (answers: seq<Answer>)
    requires Fits(d, h) && Allowed(op, d.View(), h)
    modifies d`pieces, d`readPieces, d`cacheSize, d`readCacheSize, d`inUse, d.storage
    ensures Fits(d, Next(h, op)) && d.View() == After(old(d.View()), op)
    ensures Agree(answers, Reply(old(d.View()), op))
    ensures d.storage.failedReads == old(d.storage.failedReads) + Failures(answers)
  {
    var now: int :| true;
    d.FlushExpiredPieces(now, cacheExpiry);
    d.DropExpiredReadPieces(now, cacheExpiry);
    answers := Perform(d, op, now, h);
  }

  /**
    * A whole run: every read answered with bytes gets the bytes last written there, and each read that is not answered
    * stands for one read call of the storage that failed.
    */
  method Run(d: DiskIoThread, ops: seq<Op>, cacheExpiry: nat) returns (answers: seq<Answer>)
    requires d.Valid() && d.settings.readCacheLineSize > 0
    requires Legal(ops, d.View(), History(d.pieces.Keys, d.readPieces.Keys))
    modifies d`pieces, d`readPieces, d`cacheSize, d`readCacheSize, d`inUse, d.storage
    ensures d.Valid() && Agree(answers, Replies(old(d.View()), ops))
    ensures d.storage.failedReads == old(d.storage.failedReads) + Failures(answers)
  {
    answers := [];
    ghost var h := History(d.pieces.Keys, d.readPieces.Keys);
    ghost var view, done: seq<seq<byte>> := d.View(), [];
    ghost var replies := Replies(view, ops);
    var rest := ops;
    while rest != []
      invariant Fits(d, h) && d.View() == view && Legal(rest, view, h)
      invariant Agree(answers, done) && done + Replies(view, rest) == replies
      invariant d.storage.failedReads == old(d.storage.failedReads) + Failures(answers)
      decreases |rest|
    {
      var op := rest[0];
      ghost var reply := Reply(view, op);
      Unroll(rest, view, h, done);
      var more := Turn(d, op, cacheExpiry, h);
      AgreeJoin(answers, done, more, reply);
      FailuresJoin(answers, more);
      answers, done := answers + more, done + reply;
      view, h, rest := After(view, op), Next(h, op), rest[1..];
    }
  }

  lemma Unroll(ops: seq<Op>, view: Disk, h: History, done: seq<seq<byte>>)
    requires ops != [] && Legal(ops, view, h)
    ensures Allowed(ops[0], view, h) && Legal(ops[1..], After(view, ops[0]), Next(h, ops[0]))
    ensures done + Replies(view, ops) == done + Reply(view, ops[0]) + Replies(After(view, ops[0]), ops[1..])
  {
  }

  lemma {:induction false} FailuresJoin(a: seq<Answer>, b: seq<Answer>)
    ensures Failures(a + b) == Failures(a) + Failures(b)
  {
    if b == [] {
      assert a + b == a;
    } else {
      assert (a + b)[..|a + b| - 1] == a + b[..|b| - 1];
      FailuresJoin(a, b[..|b| - 1]);
    }
  }

  lemma AgreeJoin(a: seq<Answer>, x: seq<seq<byte>>, b: seq<Answer>, y: seq<seq<byte>>)
    requires Agree(a, x) && Agree(b, y)
    ensures Agree(a + b, x + y)
  {
  }
}
