/** What the converters promise together: round trips, commuting conversions, and conversion in pieces. */
module ConvertLaws {
  import opened Common
  import opened Unicode
  import opened ConvertUTF

  // ----- Ample targets -----

  function Whole(steps: seq<Step>, illegal: bool): Outcome {
    if steps == [] then Outcome(if illegal then SourceIllegal else Ok, 0, [])
    else if steps[0].Stop? then Outcome(steps[0].why, 0, [])
    else After(steps[0].units, steps[0].out, Whole(steps[1..], illegal || steps[0].illegal))
  }

  /** A call whose target never runs out. */
  function Ample(c: Converter, flags: Flags, src: seq<nat>): Outcome {
    Whole(Steps(c, flags, src), false)
  }

  ghost predicate Modest(steps: seq<Step>) {
    forall s <- steps :: s.spare <= 1 && (s.Stop? ==> s.why == SourceIllegal || s.why == SourceExhausted)
  }

  lemma {:induction false} StepsModest(c: Converter, flags: Flags, src: seq<nat>)
    ensures Modest(Steps(c, flags, src))
    decreases |src|
  {
    if src != [] {
      var s := NextStep(c, flags, src);
      if s.Emit? {
        StepsModest(c, flags, src[s.units..]);
      }
    }
  }

  lemma {:induction false} FillWhole(steps: seq<Step>, room: nat, illegal: bool)
    requires Modest(steps) && room > |Whole(steps, illegal).out|
    ensures Fill(steps, room, illegal) == Whole(steps, illegal)
  {
    if steps != [] && steps[0].Emit? {
      FillWhole(steps[1..], room - |steps[0].out|, illegal || steps[0].illegal);
    }
  }

  /** One unit more than the output is ample. */
  lemma AmpleRoom(c: Converter, flags: Flags, src: seq<nat>, room: nat)
    requires room > |Ample(c, flags, src).out|
    ensures Convert(c, flags, src, room) == Ample(c, flags, src)
  {
    StepsModest(c, flags, src);
    FillWhole(Steps(c, flags, src), room, false);
  }

  /** An illegal source is not forgotten. */
  lemma {:induction false} StaysIllegal(steps: seq<Step>)
    requires Modest(steps)
    ensures Whole(steps, true).result != Ok
    ensures var o := Whole(steps, false);
      Whole(steps, true) == if o.result == Ok then o.(result := SourceIllegal) else o
  {
    if steps != [] && steps[0].Emit? {
      StaysIllegal(steps[1..]);
    }
  }

  // ----- Conversion in pieces -----

  predicate FromUtf32(c: Converter) { c == Utf32To16 || c == Utf32To8 }

  /** A character of UTF-32 for which a call does not end with conversionOK. */
  predicate Faulty(c: Converter, flags: Flags, u: nat) {
    FromUtf32(c) && if flags == Strict then !IsScalar(u) else c == Utf32To8 && u > MAX_LEGAL
  }

  ghost predicate Faultless(c: Converter, flags: Flags, src: seq<nat>) {
    forall u <- src :: !Faulty(c, flags, u)
  }

  /** What a step remembers is that it met a faulty character and went on. */
  lemma StepRemembers(c: Converter, flags: Flags, src: seq<nat>, s: Step)
    requires src != [] && s == NextStep(c, flags, src) && s.Emit?
    ensures s.illegal <==> !Faultless(c, flags, src[..s.units])
  {
    if FromUtf32(c) {
      assert s.units == 1 && s.illegal == Faulty(c, flags, src[0]);
      assert src[..1] == [src[0]];
    } else {
      assert Faultless(c, flags, src[..s.units]);
      if c == Utf8To32 {
        LegalIsScalar(src);
      }
    }
  }

  lemma FaultlessJoin(c: Converter, flags: Flags, src: seq<nat>, m: nat, n: nat, front: seq<nat>, part: seq<nat>)
    requires m <= n <= |src| && front == src[..n] && part == src[m..][..n - m]
    ensures Faultless(c, flags, front) <==> Faultless(c, flags, src[..m]) && Faultless(c, flags, part)
  {
    assert front == src[..m] + part;
  }

  /** One step of a call, with the illegal characters met before. */
  lemma FillHead(c: Converter, flags: Flags, src: seq<nat>, room: nat, illegal: bool, s: Step)
    requires src != [] && s == NextStep(c, flags, src)
    ensures room < Need(s) ==> Fill(Steps(c, flags, src), room, illegal) == Outcome(TargetExhausted, 0, [])
    ensures room >= Need(s) && s.Stop? ==> Fill(Steps(c, flags, src), room, illegal) == Outcome(s.why, 0, [])
    ensures (room >= Need(s) && s.Emit? ==>
      Fill(Steps(c, flags, src), room, illegal) ==
      After(s.units, s.out, Fill(Steps(c, flags, src[s.units..]), room - |s.out|, illegal || s.illegal)))
  {
  }

  /** What is left to do after a step of a call that runs out of room later. */
  lemma FillNext(c: Converter, flags: Flags, src: seq<nat>, room: nat, illegal: bool, o: Outcome)
    returns (s: Step, next: seq<nat>, seen: bool, left: nat, p: Outcome)
    requires o == Fill(Steps(c, flags, src), room, illegal) && o.result == TargetExhausted
    requires src != [] && room >= Need(NextStep(c, flags, src))
    ensures s == NextStep(c, flags, src) && s.Emit? && next == src[s.units..] && seen == (illegal || s.illegal)
    ensures left == room - |s.out| && p == Fill(Steps(c, flags, next), left, seen) && o == After(s.units, s.out, p)
  {
    s := NextStep(c, flags, src);
    FillHead(c, flags, src, room, illegal, s);
    next, seen, left := src[s.units..], illegal || s.illegal, room - |s.out|;
    p := Fill(Steps(c, flags, next), left, seen);
  }

  lemma WholeHead(c: Converter, flags: Flags, src: seq<nat>, illegal: bool, s: Step)
    requires src != [] && s == NextStep(c, flags, src) && s.Emit?
    ensures (Whole(Steps(c, flags, src), illegal) ==
      After(s.units, s.out, Whole(Steps(c, flags, src[s.units..]), illegal || s.illegal)))
  {
  }

  /**
    * A call that runs out of room stopped at a character boundary, with less room left than the next character needs,
    * and an ample call does the same and goes on from there, remembering what was met.
    */
  lemma {:induction false} ExhaustedFill(c: Converter, flags: Flags, src: seq<nat>, room: nat, illegal: bool,
                                         o: Outcome)
    returns (rest: seq<nat>, met: bool)
    requires o == Fill(Steps(c, flags, src), room, illegal) && o.result == TargetExhausted
    ensures o.read < |src| && rest == src[o.read..] && met == (illegal || !Faultless(c, flags, src[..o.read]))
    ensures Need(NextStep(c, flags, rest)) > room - |o.out|
    ensures Whole(Steps(c, flags, src), illegal) == After(o.read, o.out, Whole(Steps(c, flags, rest), met))
    decreases |src|, 1
  {
    if room < Need(NextStep(c, flags, src)) {
      rest, met := ExhaustedHere(c, flags, src, room, illegal, o);
    } else {
      rest, met := ExhaustedLater(c, flags, src, room, illegal, o);
    }
  }

  lemma ExhaustedHere(c: Converter, flags: Flags, src: seq<nat>, room: nat, illegal: bool, o: Outcome)
    returns (rest: seq<nat>, met: bool)
    requires o == Fill(Steps(c, flags, src), room, illegal) && o.result == TargetExhausted
    requires room < Need(NextStep(c, flags, src))
    ensures o.read < |src| && rest == src[o.read..] && met == (illegal || !Faultless(c, flags, src[..o.read]))
    ensures Need(NextStep(c, flags, rest)) > room - |o.out|
    ensures Whole(Steps(c, flags, src), illegal) == After(o.read, o.out, Whole(Steps(c, flags, rest), met))
  {
    FillHead(c, flags, src, room, illegal, NextStep(c, flags, src));
    rest, met := src, illegal;
    assert src[0..] == src && src[..0] == [];
  }

  lemma {:induction false} ExhaustedLater(c: Converter, flags: Flags, src: seq<nat>, room: nat, illegal: bool,
                                          o: Outcome)
    returns (rest: seq<nat>, met: bool)
    requires o == Fill(Steps(c, flags, src), room, illegal) && o.result == TargetExhausted
    requires room >= Need(NextStep(c, flags, src))
    ensures o.read < |src| && rest == src[o.read..] && met == (illegal || !Faultless(c, flags, src[..o.read]))
    ensures Need(NextStep(c, flags, rest)) > room - |o.out|
    ensures Whole(Steps(c, flags, src), illegal) == After(o.read, o.out, Whole(Steps(c, flags, rest), met))
    decreases |src|, 0
  {
    var s, next, seen, left, p := FillNext(c, flags, src, room, illegal, o);
    rest, met := ExhaustedFill(c, flags, next, left, seen, p);
    ExhaustedStep(c, flags, src, illegal, s, next, seen, p, rest, met, o);
  }

  lemma ExhaustedStep(c: Converter, flags: Flags, src: seq<nat>, illegal: bool, s: Step, next: seq<nat>, seen: bool,
                      p: Outcome, rest: seq<nat>, met: bool, o: Outcome)
    requires src != [] && s == NextStep(c, flags, src) && s.Emit?
    requires next == src[s.units..] && seen == (illegal || s.illegal) && o == After(s.units, s.out, p)
    requires p.read < |next| && rest == next[p.read..] && met == (seen || !Faultless(c, flags, next[..p.read]))
    requires Whole(Steps(c, flags, next), seen) == After(p.read, p.out, Whole(Steps(c, flags, rest), met))
    ensures o.read < |src| && rest == src[o.read..] && met == (illegal || !Faultless(c, flags, src[..o.read]))
    ensures Whole(Steps(c, flags, src), illegal) == After(o.read, o.out, Whole(Steps(c, flags, rest), met))
  {
    WholeHead(c, flags, src, illegal, s);
    DropTwice(src, s.units, p.read);
    StepRemembers(c, flags, src, s);
    FaultlessJoin(c, flags, src, s.units, o.read, src[..o.read], next[..p.read]);
    AfterTwice(s.units, s.out, p.read, p.out, Whole(Steps(c, flags, rest), met));
  }

  /** Without running out, a call did all that an ample target would have let it do. */
  lemma {:induction false} OtherwiseWhole(steps: seq<Step>, room: nat, illegal: bool)
    requires Fill(steps, room, illegal).result != TargetExhausted
    ensures Fill(steps, room, illegal) == Whole(steps, illegal)
  {
    if steps != [] && steps[0].Emit? {
      OtherwiseWhole(steps[1..], room - |steps[0].out|, illegal || steps[0].illegal);
    }
  }

  lemma OtherwiseAmple(c: Converter, flags: Flags, src: seq<nat>, room: nat)
    requires Convert(c, flags, src, room).result != TargetExhausted
    ensures Convert(c, flags, src, room) == Ample(c, flags, src)
  {
    OtherwiseWhole(Steps(c, flags, src), room, false);
  }

  /** The first step of an ample call, and the rest; a faulty character that was passed shows in the result. */
  lemma AmpleHead(c: Converter, flags: Flags, src: seq<nat>, s: Step)
    requires src != [] && s == NextStep(c, flags, src)
    ensures s.Stop? ==> Ample(c, flags, src) == Outcome(s.why, 0, [])
    ensures (s.Emit? && !s.illegal ==>
      Ample(c, flags, src) == After(s.units, s.out, Ample(c, flags, src[s.units..])))
    ensures (s.Emit? && s.illegal ==>
      Ample(c, flags, src) == After(s.units, s.out, Told(Ample(c, flags, src[s.units..]), true)))
  {
    if s.Emit? && s.illegal {
      WholeHead(c, flags, src, false, s);
      StepsModest(c, flags, src[s.units..]);
      StaysIllegal(Steps(c, flags, src[s.units..]));
    }
  }

  /** The outcome of a call that met an illegal character before. */
  function Told(o: Outcome, illegal: bool): Outcome {
    if illegal && o.result == Ok then o.(result := SourceIllegal) else o
  }

  lemma AmpleNext(c: Converter, flags: Flags, src: seq<nat>, s: Step, o: Outcome, rest: Outcome)
    requires src != [] && s == NextStep(c, flags, src) && s.Emit?
    requires o == Ample(c, flags, src) && rest == Ample(c, flags, src[s.units..])
    ensures o.read == s.units + rest.read && o.out == s.out + rest.out && o.result == Told(rest, s.illegal).result
  {
    AmpleHead(c, flags, src, s);
  }

  /** From UTF-32 a call ends with conversionOK exactly if no character is faulty, although it goes on behind some. */
  lemma {:induction false} OkExactly(c: Converter, flags: Flags, src: seq<nat>)
    requires FromUtf32(c)
    ensures Ample(c, flags, src).result == Ok <==> Faultless(c, flags, src)
    decreases |src|
  {
    if src != [] {
      assert src == [src[0]] + src[1..];
      var s := NextStep(c, flags, src);
      AmpleHead(c, flags, src, s);
      if s.Emit? {
        StepRemembers(c, flags, src, s);
        assert src[..1] == [src[0]];
        OkExactly(c, flags, src[1..]);
      } else {
        assert Faulty(c, flags, src[0]);
      }
    }
  }

  /**
    * A call that ran out of room stopped at a character boundary, with less room left than the next character needs.
    * Going on from there with another target completes the conversion; but what was met before is forgotten, and
    * shows exactly if there was a faulty character, and none is left.
    */
  lemma Resumable(c: Converter, flags: Flags, src: seq<nat>, room: nat, o: Outcome)
    requires o == Convert(c, flags, src, room) && o.result == TargetExhausted
    ensures o.read < |src| && Need(NextStep(c, flags, src[o.read..])) > room - |o.out|
    ensures (Ample(c, flags, src) ==
      Told(After(o.read, o.out, Ample(c, flags, src[o.read..])), !Faultless(c, flags, src[..o.read])))
    ensures (Ample(c, flags, src) == After(o.read, o.out, Ample(c, flags, src[o.read..])) <==>
      Faultless(c, flags, src[..o.read]) || !Faultless(c, flags, src[o.read..]))
  {
    var rest, met := ExhaustedFill(c, flags, src, room, false, o);
    StepsModest(c, flags, rest);
    StaysIllegal(Steps(c, flags, rest));
    if FromUtf32(c) {
      OkExactly(c, flags, rest);
    }
  }

  /** Calls with successive targets, each going on where the last one stopped. */
  function Feed(c: Converter, flags: Flags, src: seq<nat>, rooms: seq<nat>): Outcome {
    if rooms == [] then Outcome(TargetExhausted, 0, [])
    else
      var o := Convert(c, flags, src, rooms[0]);
      if o.result != TargetExhausted || o.read > |src| then o
      else After(o.read, o.out, Feed(c, flags, src[o.read..], rooms[1..]))
  }

  lemma AtMostFour(c: Converter, flags: Flags, src: seq<nat>)
    requires src != []
    ensures Need(NextStep(c, flags, src)) <= 4
  {
  }

  lemma {:induction false} Progress(c: Converter, flags: Flags, src: seq<nat>, room: nat)
    requires room >= 4 && Convert(c, flags, src, room).result == TargetExhausted
    ensures Convert(c, flags, src, room).read > 0
  {
    AtMostFour(c, flags, src);
    assert Steps(c, flags, src)[0] == NextStep(c, flags, src);
  }

  /** Where the last of these calls starts. */
  function LastCall(c: Converter, flags: Flags, src: seq<nat>, rooms: seq<nat>): nat {
    if rooms == [] then 0
    else
      var o := Convert(c, flags, src, rooms[0]);
      if o.result != TargetExhausted || o.read > |src| then 0
      else o.read + LastCall(c, flags, src[o.read..], rooms[1..])
  }

  /**
    * Targets that hold at least one character each yield together what one ample target yields; only the last call
    * does not know of the faulty characters before it. The outcome is the same exactly if there are none, or if some
    * are left for the last call.
    */
  lemma PiecesMakeTheWhole(c: Converter, flags: Flags, src: seq<nat>, rooms: seq<nat>)
    requires |rooms| > |src| && forall r <- rooms :: r >= 4
    ensures LastCall(c, flags, src, rooms) <= |src|
    ensures var f, last := Feed(c, flags, src, rooms), LastCall(c, flags, src, rooms);
      && Ample(c, flags, src) == Told(f, !Faultless(c, flags, src[..last]))
      && (f == Ample(c, flags, src) <==> Faultless(c, flags, src[..last]) || !Faultless(c, flags, src[last..]))
  {
    var rest, met := Pieces(c, flags, src, rooms, Feed(c, flags, src, rooms), LastCall(c, flags, src, rooms));
    if FromUtf32(c) {
      OkExactly(c, flags, rest);
    }
  }

  /** What the last call does not know, and how it ends. */
  lemma {:induction false} Pieces(c: Converter, flags: Flags, src: seq<nat>, rooms: seq<nat>, f: Outcome, last: nat)
    returns (rest: seq<nat>, met: bool)
    requires |rooms| > |src| && forall r <- rooms :: r >= 4
    requires f == Feed(c, flags, src, rooms) && last == LastCall(c, flags, src, rooms)
    ensures last <= |src| && rest == src[last..] && met == !Faultless(c, flags, src[..last])
    ensures f.result == Ample(c, flags, rest).result && Ample(c, flags, src) == Told(f, met)
    decreases |src|
  {
    var o := Convert(c, flags, src, rooms[0]);
    assert rooms[0] in rooms;
    if o.result == TargetExhausted {
      Resumable(c, flags, src, rooms[0], o);
      Progress(c, flags, src, rooms[0]);
      rest, met := LaterPieces(c, flags, src, rooms, o, src[o.read..], rooms[1..], f, last);
    } else {
      OtherwiseAmple(c, flags, src, rooms[0]);
      rest, met := src, false;
      assert src[0..] == src && src[..0] == [];
    }
  }

  lemma {:induction false} LaterPieces(c: Converter, flags: Flags, src: seq<nat>, rooms: seq<nat>, o: Outcome,
                                       next: seq<nat>, others: seq<nat>, f: Outcome, last: nat)
    returns (rest: seq<nat>, met: bool)
    requires |rooms| > |src| && (forall r <- rooms :: r >= 4) && others == rooms[1..]
    requires o == Convert(c, flags, src, rooms[0]) && o.result == TargetExhausted
    requires 0 < o.read < |src| && next == src[o.read..]
    requires (Ample(c, flags, src) ==
      Told(After(o.read, o.out, Ample(c, flags, next)), !Faultless(c, flags, src[..o.read])))
    requires f == Feed(c, flags, src, rooms) && last == LastCall(c, flags, src, rooms)
    ensures last <= |src| && rest == src[last..] && met == !Faultless(c, flags, src[..last])
    ensures f.result == Ample(c, flags, rest).result && Ample(c, flags, src) == Told(f, met)
    decreases |src|, 0
  {
    assert forall r <- others :: r in rooms;
    var g, n := Feed(c, flags, next, others), LastCall(c, flags, next, others);
    FeedHead(c, flags, src, rooms, o, next);
    var later: bool;
    rest, later := Pieces(c, flags, next, others, g, n);
    var before := !Faultless(c, flags, src[..o.read]);
    met := later || before;
    PiecesJoin(c, flags, src, o.read, next, n, rest, later, met);
    ToldTwice(o.read, o.out, g, f, Ample(c, flags, next), later, before, met);
  }

  lemma ToldTwice(read: nat, out: seq<nat>, g: Outcome, f: Outcome, next: Outcome, later: bool, before: bool, met: bool)
    requires f == After(read, out, g) && next == Told(g, later) && met == (later || before)
    ensures Told(After(read, out, next), before) == Told(f, met)
  {
  }

  lemma FeedHead(c: Converter, flags: Flags, src: seq<nat>, rooms: seq<nat>, o: Outcome, next: seq<nat>)
    requires rooms != [] && o == Convert(c, flags, src, rooms[0])
    requires o.result == TargetExhausted && o.read <= |src| && next == src[o.read..]
    ensures Feed(c, flags, src, rooms) == After(o.read, o.out, Feed(c, flags, next, rooms[1..]))
    ensures LastCall(c, flags, src, rooms) == o.read + LastCall(c, flags, next, rooms[1..])
  {
  }

  lemma PiecesJoin(c: Converter, flags: Flags, src: seq<nat>, read: nat, next: seq<nat>, n: nat, rest: seq<nat>,
                   later: bool, met: bool)
    requires read <= |src| && next == src[read..] && n <= |next| && rest == next[n..]
    requires later == !Faultless(c, flags, next[..n]) && met == (later || !Faultless(c, flags, src[..read]))
    ensures rest == src[read + n..] && met == !Faultless(c, flags, src[..read + n])
  {
    DropTwice(src, read, n);
    FaultlessJoin(c, flags, src, read, read + n, src[..read + n], next[..n]);
  }

  /** It does happen: the first call writes a replacement character, the second one ends with conversionOK. */
  lemma ResumingForgets(src: seq<nat>, rooms: seq<nat>)
    requires src == [0x110000, 0x10000] && rooms == [4, 4, 4]
    ensures Feed(Utf32To8, Strict, src, rooms).result == Ok && Ample(Utf32To8, Strict, src).result == SourceIllegal
  {
    var next, s, e := [0x10000], NextStep(Utf32To8, Strict, src), NextStep(Utf32To8, Strict, [0x10000]);
    assert src[1..] == next && next[1..] == [] && rooms[1..] == [4, 4];
    assert s == Emit(1, Utf8Bytes(REPLACEMENT_CHAR), 0, true) && e == Emit(1, Utf8Bytes(0x10000), 0, false);
    FillHead(Utf32To8, Strict, src, 4, false, s);
    FillHead(Utf32To8, Strict, next, 1, true, e);
    FillHead(Utf32To8, Strict, next, 4, false, e);
    AmpleHead(Utf32To8, Strict, src, s);
    AmpleHead(Utf32To8, Strict, next, e);
  }

  // ----- Well-formed text -----

  predicate WellFormed16(s: seq<nat>) {
    || s == []
    || (!IsSurrogate(s[0]) && WellFormed16(s[1..]))
    || (|s| >= 2 && IsHigh(s[0]) && IsLow(s[1]) && WellFormed16(s[2..]))
  }

  predicate WellFormed8(b: seq<nat>) {
    || b == []
    || (WellFormedChar(b[..1]) && WellFormed8(b[1..]))
    || (|b| >= 2 && WellFormedChar(b[..2]) && WellFormed8(b[2..]))
    || (|b| >= 3 && WellFormedChar(b[..3]) && WellFormed8(b[3..]))
    || (|b| >= 4 && WellFormedChar(b[..4]) && WellFormed8(b[4..]))
  }

  lemma PrependChar(b: seq<nat>, rest: seq<nat>)
    requires WellFormedChar(b) && WellFormed8(rest)
    ensures WellFormed8(b + rest)
  {
    assert (b + rest)[..|b|] == b && (b + rest)[|b|..] == rest;
  }

  /** A text that begins with one more character. */
  lemma AmpleCons(c: Converter, flags: Flags, text: seq<nat>, head: seq<nat>, rest: seq<nat>, out: seq<nat>, o: Outcome,
                  whole: Outcome)
    requires text == head + rest && head != []
    requires NextStep(c, flags, text) == Emit(|head|, out, 0, false) && o == Ample(c, flags, rest)
    requires whole.result == o.result && whole.read == |head| + o.read && whole.out == out + o.out
    ensures Ample(c, flags, text) == whole
  {
    AmpleHead(c, flags, text, Emit(|head|, out, 0, false));
    assert text[|head|..] == rest;
  }

  // ----- UTF-16 to UTF-8 and back -----

  /** One character: how it is read, and how it is read back. */
  lemma CharThereAndBack(src: seq<nat>, flags: Flags, d: Decoded, rest: seq<nat>)
    requires src != [] && Below(src, 0x10000) && d == DecodeUtf16(Strict, src) && d.Char?
    ensures d.ch <= MAX_LEGAL && WellFormedChar(Utf8Bytes(d.ch))
    ensures NextStep(Utf16To8, Strict, src) == Emit(d.units, Utf8Bytes(d.ch), 0, false)
    ensures (NextStep(Utf8To16, flags, Utf8Bytes(d.ch) + rest) ==
      Emit(|Utf8Bytes(d.ch)|, src[..d.units], 0, false))
  {
    Utf16WritesBack(Strict, src);
    Utf8WellFormed(d.ch);
    Utf8ReadsBack(d.ch, rest);
  }

  /** Strictly converted text is well formed, section 4 of RFC 3629. */
  lemma {:induction false} StrictOutputWellFormed(src: seq<nat>)
    requires Below(src, 0x10000)
    ensures WellFormed8(Ample(Utf16To8, Strict, src).out)
    decreases |src|
  {
    if src != [] {
      var d := DecodeUtf16(Strict, src);
      AmpleHead(Utf16To8, Strict, src, NextStep(Utf16To8, Strict, src));
      if d.Char? {
        CharThereAndBack(src, Strict, d, []);
        StrictOutputWellFormed(src[d.units..]);
        PrependChar(Utf8Bytes(d.ch), Ample(Utf16To8, Strict, src[d.units..]).out);
      }
    }
  }

  /** What was converted strictly to UTF-8 converts back, in either mode, to where it came from. */
  lemma {:induction false} Utf16ThereAndBack(src: seq<nat>, flags: Flags, bytes: seq<nat>)
    requires Below(src, 0x10000) && Ample(Utf16To8, Strict, src).result == Ok
    requires bytes == Ample(Utf16To8, Strict, src).out
    ensures Ample(Utf8To16, flags, bytes) == Outcome(Ok, |bytes|, src)
    decreases |src|
  {
    if src != [] {
      var d := DecodeUtf16(Strict, src);
      AmpleHead(Utf16To8, Strict, src, NextStep(Utf16To8, Strict, src));
      var rest := Ample(Utf16To8, Strict, src[d.units..]).out;
      CharThereAndBack(src, flags, d, rest);
      Utf16ThereAndBack(src[d.units..], flags, rest);
      AmpleCons(Utf8To16, flags, bytes, Utf8Bytes(d.ch), rest, src[..d.units], Outcome(Ok, |rest|, src[d.units..]),
                Outcome(Ok, |bytes|, src));
    }
  }

  /** Strict reading succeeds exactly on well-formed UTF-16, section 2 of RFC 2781. */
  lemma {:induction false} StrictIffWellFormed16(c: Converter, src: seq<nat>)
    requires (c == Utf16To8 || c == Utf16To32) && Below(src, 0x10000)
    ensures Ample(c, Strict, src).result == Ok <==> WellFormed16(src)
    decreases |src|
  {
    if src != [] {
      var s := NextStep(c, Strict, src);
      AmpleHead(c, Strict, src, s);
      if s.Emit? {
        Utf16WritesBack(Strict, src);
        StrictIffWellFormed16(c, src[s.units..]);
      }
    }
  }

  // ----- UTF-8 to UTF-16 and back -----

  /** The length of the first character of well-formed text is told by its first byte. */
  lemma FirstChar(b: seq<nat>)
    requires b != [] && WellFormed8(b)
    ensures var n := TrailingBytes(b[0]) + 1; n <= |b| && WellFormedChar(b[..n]) && WellFormed8(b[n..])
  {
  }

  /** Every well-formed text is accepted, to its end, in either mode. */
  lemma {:induction false} WellFormed8Accepted(c: Converter, flags: Flags, b: seq<nat>)
    requires (c == Utf8To16 || c == Utf8To32) && WellFormed8(b)
    ensures Ample(c, flags, b).result == Ok && Ample(c, flags, b).read == |b|
    decreases |b|
  {
    if b != [] {
      FirstChar(b);
      LegalExactly(b);
      LegalIsScalar(b);
      var s := NextStep(c, flags, b);
      AmpleHead(c, flags, b, s);
      WellFormed8Accepted(c, flags, b[s.units..]);
    }
  }

  lemma Char8(b: seq<nat>, flags: Flags, d: Decoded)
    requires b != [] && d == DecodeUtf8(b) && d.Char?
    ensures IsScalar(d.ch) && NextStep(Utf8To16, flags, b) == Emit(d.units, Utf16Units(d.ch), 0, false)
    ensures NextStep(Utf8To32, flags, b) == Emit(d.units, [d.ch], 0, false)
    ensures |Utf8Bytes(d.ch)| == d.units && (Utf8Bytes(d.ch) == b[..d.units] <==> WellFormedChar(b[..d.units]))
  {
    LegalIsScalar(b);
    Utf8WritesBack(b);
  }

  lemma Char16(ch: nat, flags: Flags, rest: seq<nat>)
    requires IsScalar(ch)
    ensures NextStep(Utf16To8, flags, Utf16Units(ch) + rest) == Emit(|Utf16Units(ch)|, Utf8Bytes(ch), 0, false)
    ensures NextStep(Utf16To32, flags, Utf16Units(ch) + rest) == Emit(|Utf16Units(ch)|, [ch], 0, false)
  {
    Utf16ReadsBack(flags, ch, rest);
  }

  lemma Split<T>(b: seq<T>, n: nat, head: seq<T>, rest: seq<T>)
    requires n == |head| <= |b|
    ensures head + rest == b <==> head == b[..n] && rest == b[n..]
  {
    assert b == b[..n] + b[n..];
    if head + rest == b {
      assert (head + rest)[..n] == head && (head + rest)[n..] == rest;
    }
  }

  lemma WellFormed8Cons(b: seq<nat>, n: nat)
    requires 1 <= n <= |b| && n == TrailingBytes(b[0]) + 1
    ensures WellFormed8(b) <==> WellFormedChar(b[..n]) && WellFormed8(b[n..])
  {
    if WellFormed8(b) {
      FirstChar(b);
    }
  }

  /** What was converted from UTF-8 comes back with its length, and as the same text exactly if it was well formed. */
  lemma {:induction false} Utf8ThereAndBack(b: seq<nat>, flags: Flags, f: Flags, units: seq<nat>)
    returns (back: seq<nat>)
    requires Ample(Utf8To16, flags, b).result == Ok && units == Ample(Utf8To16, flags, b).out
    ensures Ample(Utf16To8, f, units) == Outcome(Ok, |units|, back)
    ensures |back| == |b| && (back == b <==> WellFormed8(b))
    decreases |b|
  {
    if b == [] {
      back := [];
    } else {
      var d := DecodeUtf8(b);
      AmpleHead(Utf8To16, flags, b, NextStep(Utf8To16, flags, b));
      Char8(b, flags, d);
      var rest := Ample(Utf8To16, flags, b[d.units..]).out;
      var r := Utf8ThereAndBack(b[d.units..], flags, f, rest);
      back := Utf8Bytes(d.ch) + r;
      Char16(d.ch, f, rest);
      AmpleCons(Utf16To8, f, units, Utf16Units(d.ch), rest, Utf8Bytes(d.ch), Outcome(Ok, |rest|, r),
                Outcome(Ok, |units|, back));
      Split(b, d.units, Utf8Bytes(d.ch), r);
      WellFormed8Cons(b, d.units);
    }
  }

  // ----- Two ways to the same text -----

  /** From UTF-8 to UTF-32, directly or through UTF-16: the same characters, and the same place to stop. */
  lemma {:induction false} Through16(b: seq<nat>, flags: Flags, f: Flags, units: seq<nat>, chars: seq<nat>)
    requires units == Ample(Utf8To16, flags, b).out && chars == Ample(Utf8To32, flags, b).out
    ensures Ample(Utf8To16, flags, b).result == Ample(Utf8To32, flags, b).result
    ensures Ample(Utf8To16, flags, b).read == Ample(Utf8To32, flags, b).read
    ensures Ample(Utf16To32, f, units) == Outcome(Ok, |units|, chars)
    decreases |b|
  {
    if b != [] {
      var d := DecodeUtf8(b);
      AmpleHead(Utf8To16, flags, b, NextStep(Utf8To16, flags, b));
      AmpleHead(Utf8To32, flags, b, NextStep(Utf8To32, flags, b));
      if d.Char? {
        Char8(b, flags, d);
        var rest, others := Ample(Utf8To16, flags, b[d.units..]).out, Ample(Utf8To32, flags, b[d.units..]).out;
        Through16(b[d.units..], flags, f, rest, others);
        Char16(d.ch, f, rest);
        AmpleCons(Utf16To32, f, units, Utf16Units(d.ch), rest, [d.ch], Outcome(Ok, |rest|, others),
                  Outcome(Ok, |units|, chars));
      }
    }
  }

  lemma Char32(src: seq<nat>, flags: Flags, d: Decoded, rest: seq<nat>)
    requires src != [] && Below(src, 0x10000) && d == DecodeUtf16(flags, src) && d.Char?
    ensures d.ch <= MAX_LEGAL && NextStep(Utf16To8, flags, src) == Emit(d.units, Utf8Bytes(d.ch), 0, false)
    ensures NextStep(Utf16To32, flags, src) == Emit(d.units, [d.ch], 0, false)
    ensures NextStep(Utf32To8, flags, [d.ch] + rest) == Emit(1, Utf8Bytes(d.ch), 0, false)
  {
    Utf16WritesBack(flags, src);
  }

  /** From UTF-16 to UTF-8, directly or through UTF-32, on every input: the same bytes, and the same place to stop. */
  lemma {:induction false} Through32(src: seq<nat>, flags: Flags, chars: seq<nat>, bytes: seq<nat>)
    requires Below(src, 0x10000)
    requires chars == Ample(Utf16To32, flags, src).out && bytes == Ample(Utf16To8, flags, src).out
    ensures Ample(Utf16To32, flags, src).result == Ample(Utf16To8, flags, src).result
    ensures Ample(Utf16To32, flags, src).read == Ample(Utf16To8, flags, src).read
    ensures Ample(Utf32To8, flags, chars) == Outcome(Ok, |chars|, bytes)
    decreases |src|
  {
    if src != [] {
      var d := DecodeUtf16(flags, src);
      AmpleHead(Utf16To32, flags, src, NextStep(Utf16To32, flags, src));
      AmpleHead(Utf16To8, flags, src, NextStep(Utf16To8, flags, src));
      if d.Char? {
        var rest, others := Ample(Utf16To32, flags, src[d.units..]).out, Ample(Utf16To8, flags, src[d.units..]).out;
        Char32(src, flags, d, rest);
        Through32(src[d.units..], flags, rest, others);
        AmpleCons(Utf32To8, flags, chars, [d.ch], rest, Utf8Bytes(d.ch), Outcome(Ok, |rest|, others),
                  Outcome(Ok, |chars|, bytes));
      }
    }
  }

  // ----- From UTF-32 -----

  ghost predicate AllScalar(chars: seq<nat>) {
    forall ch <- chars :: IsScalar(ch)
  }

  /** Strict conversion from UTF-32 succeeds exactly on Unicode scalar values. */
  lemma StrictIffScalar(c: Converter, chars: seq<nat>)
    requires FromUtf32(c)
    ensures Ample(c, Strict, chars).result == Ok <==> AllScalar(chars)
  {
    OkExactly(c, Strict, chars);
    assert forall ch <- chars :: Faulty(c, Strict, ch) <==> !IsScalar(ch);
  }

  /** The scalar value that is written to UTF-16 for one character at which the call does not stop, if any. */
  function Shown(flags: Flags, ch: nat): seq<nat> {
    if IsScalar(ch) then [ch] else if flags == Strict then [] else [REPLACEMENT_CHAR]
  }

  function UnitsOf(shown: seq<nat>): seq<nat>
    requires shown == [] || shown[0] <= MAX_LEGAL
  {
    if shown == [] then [] else Utf16Units(shown[0])
  }

  function BytesOf(shown: seq<nat>): seq<nat>
    requires shown == [] || shown[0] <= MAX_LEGAL
  {
    if shown == [] then [] else Utf8Bytes(shown[0])
  }

  lemma WritesShown(chars: seq<nat>, flags: Flags, s: Step, shown: seq<nat>)
    requires chars != [] && s == NextStep(Utf32To16, flags, chars) && s.Emit? && shown == Shown(flags, chars[0])
    ensures |shown| <= 1 && (shown == [] || IsScalar(shown[0])) && s.units == 1 && s.out == UnitsOf(shown)
    ensures shown == [chars[0]] <==> IsScalar(chars[0])
  {
  }

  /** How it is read, before more text. */
  lemma ReadsShown(shown: seq<nat>, f: Flags, units: seq<nat>, rest: seq<nat>, back: seq<nat>)
    requires |shown| <= 1 && (shown == [] || IsScalar(shown[0])) && units == UnitsOf(shown) + rest
    requires Ample(Utf16To32, f, rest) == Outcome(Ok, |rest|, back)
    ensures Ample(Utf16To32, f, units) == Outcome(Ok, |units|, shown + back)
  {
    if shown == [] {
      assert units == rest && shown + back == back;
    } else {
      Char16(shown[0], f, rest);
      assert shown == [shown[0]];
      AmpleCons(Utf16To32, f, units, UnitsOf(shown), rest, shown, Outcome(Ok, |rest|, back),
                Outcome(Ok, |units|, shown + back));
    }
  }

  lemma ReadsShown8(shown: seq<nat>, f: Flags, units: seq<nat>, rest: seq<nat>, bytes: seq<nat>)
    requires |shown| <= 1 && (shown == [] || IsScalar(shown[0])) && units == UnitsOf(shown) + rest
    requires Ample(Utf16To8, f, rest) == Outcome(Ok, |rest|, bytes)
    ensures Ample(Utf16To8, f, units) == Outcome(Ok, |units|, BytesOf(shown) + bytes)
  {
    if shown == [] {
      assert units == rest && [] + bytes == bytes;
    } else {
      Char16(shown[0], f, rest);
      AmpleCons(Utf16To8, f, units, UnitsOf(shown), rest, BytesOf(shown), Outcome(Ok, |rest|, bytes),
                Outcome(Ok, |units|, BytesOf(shown) + bytes));
    }
  }

  lemma JoinEqual(a: seq<nat>, b: seq<nat>, c: seq<nat>, d: seq<nat>)
    requires |a| <= |c| && |b| <= |d|
    ensures a + b == c + d <==> a == c && b == d
  {
    if a + b == c + d {
      assert (a + b)[..|a|] == a && (a + b)[|a|..] == b;
      assert (c + d)[..|c|] == c && (c + d)[|c|..] == d;
    }
  }

  /**
    * To UTF-16 and back, from any characters and in any modes: what comes back is never longer, and it is the same text
    * exactly if all characters are scalar values.
    */
  lemma {:induction false} Utf32ThereAndBack(chars: seq<nat>, flags: Flags, f: Flags, units: seq<nat>)
    returns (back: seq<nat>)
    requires units == Ample(Utf32To16, flags, chars).out
    ensures Ample(Utf16To32, f, units) == Outcome(Ok, |units|, back)
    ensures |back| <= |chars| && (back == chars <==> AllScalar(chars))
    decreases |chars|
  {
    back := [];
    if chars != [] {
      var s := NextStep(Utf32To16, flags, chars);
      AmpleHead(Utf32To16, flags, chars, s);
      assert chars == [chars[0]] + chars[1..];
      if s.Emit? {
        var shown, rest := Shown(flags, chars[0]), Ample(Utf32To16, flags, chars[1..]).out;
        WritesShown(chars, flags, s, shown);
        var tail := Utf32ThereAndBack(chars[1..], flags, f, rest);
        ReadsShown(shown, f, units, rest, tail);
        back := shown + tail;
        JoinEqual(shown, tail, [chars[0]], chars[1..]);
        assert AllScalar(chars) <==> IsScalar(chars[0]) && AllScalar(chars[1..]);
      } else {
        assert !IsScalar(chars[0]);
      }
    }
  }

  /** The characters for which both routes to UTF-8 write the same bytes. */
  predicate SameRoute(flags: Flags, ch: nat) {
    if flags == Strict then ch <= MAX_LEGAL else !IsSurrogate(ch)
  }

  ghost predicate SameRoutes(flags: Flags, chars: seq<nat>) {
    forall ch <- chars :: SameRoute(flags, ch)
  }

  lemma RouteOfOne(chars: seq<nat>, flags: Flags, s: Step, e: Step, shown: seq<nat>)
    requires chars != [] && s == NextStep(Utf32To16, flags, chars) && e == NextStep(Utf32To8, flags, chars)
    requires shown == Shown(flags, chars[0])
    ensures s.Stop? <==> e.Stop?
    ensures s.Stop? ==> s.why == e.why == SourceIllegal
    ensures s.Emit? ==> e.units == 1 && s.illegal ==> e.illegal
    ensures s.Emit? && flags == Strict ==> s.illegal == e.illegal
    ensures s.Emit? ==> |BytesOf(shown)| <= |e.out| && (BytesOf(shown) == e.out <==> SameRoute(flags, chars[0]))
  {
    if s.Emit? && !IsScalar(chars[0]) && IsSurrogate(chars[0]) {
      assert e.out[0] == 0xED && Utf8Bytes(REPLACEMENT_CHAR)[0] == 0xEF;
    }
  }

  lemma SameRoutesHead(flags: Flags, chars: seq<nat>, n: nat, front: seq<nat>)
    requires n < |chars| && front == chars[..n + 1]
    ensures SameRoutes(flags, front) <==> SameRoute(flags, chars[0]) && SameRoutes(flags, chars[1..][..n])
  {
    assert front == [chars[0]] + chars[1..][..n];
  }

  /**
    * From UTF-32 to UTF-8, directly or through UTF-16, on every input: the same place to stop, strictly also the same
    * result, and the same bytes exactly if no character on the way is out of range (strictly) or a surrogate
    * (leniently).
    */
  lemma {:induction false} Through16From32(chars: seq<nat>, flags: Flags, f: Flags, a: Outcome, b: Outcome)
    returns (others: seq<nat>)
    requires a == Ample(Utf32To16, flags, chars) && b == Ample(Utf32To8, flags, chars)
    ensures a.read == b.read <= |chars| && (flags == Strict ==> a.result == b.result)
    ensures Ample(Utf16To8, f, a.out) == Outcome(Ok, |a.out|, others) && |others| <= |b.out|
    ensures others == b.out <==> SameRoutes(flags, chars[..b.read])
    decreases |chars|
  {
    others := [];
    if chars != [] {
      var s, e := NextStep(Utf32To16, flags, chars), NextStep(Utf32To8, flags, chars);
      var shown := Shown(flags, chars[0]);
      RouteOfOne(chars, flags, s, e, shown);
      if s.Emit? {
        WritesShown(chars, flags, s, shown);
        var x, y := Ample(Utf32To16, flags, chars[1..]), Ample(Utf32To8, flags, chars[1..]);
        AmpleNext(Utf32To16, flags, chars, s, a, x);
        AmpleNext(Utf32To8, flags, chars, e, b, y);
        var tail := Through16From32(chars[1..], flags, f, x, y);
        ReadsShown8(shown, f, a.out, x.out, tail);
        others := BytesOf(shown) + tail;
        JoinEqual(BytesOf(shown), tail, e.out, y.out);
        SameRoutesHead(flags, chars, y.read, chars[..b.read]);
      } else {
        AmpleHead(Utf32To16, flags, chars, s);
        AmpleHead(Utf32To8, flags, chars, e);
      }
    }
  }

}
