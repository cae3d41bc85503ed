/** The six converters of ConvertUTF.cpp: loops over a source and a bounded target, and what they compute. */
module ConvertUTF {
  import opened Unicode

  datatype Converter = Utf32To16 | Utf16To32 | Utf16To8 | Utf8To16 | Utf32To8 | Utf8To32

  /**
    * What a converter does at a source position: write out, and possibly remember that the source was illegal; or stop.
    * Before either it may ask for spare room in the target.
    */
  datatype Step = Emit(units: nat, out: seq<nat>, spare: nat, illegal: bool) | Stop(why: Result, spare: nat)

  function Need(s: Step): nat {
    if s.Emit? then |s.out| + s.spare else s.spare
  }

  /** How far a call got: units read, and units written. */
  datatype Outcome = Outcome(result: Result, read: nat, out: seq<nat>)

  function ToUtf8(ch: nat, units: nat): Step {
    Emit(units, Utf8Bytes(if ch <= MAX_LEGAL then ch else REPLACEMENT_CHAR), 0, false)
  }

  function ToUtf16(flags: Flags, ch: nat, units: nat): Step {
    if ch > MAX_LEGAL || IsSurrogate(ch) then
      if flags == Strict then Stop(SourceIllegal, 1) else Emit(units, [REPLACEMENT_CHAR], 0, false)
    else Emit(units, Utf16Units(ch), 0, false)
  }

  function ToUtf32(flags: Flags, ch: nat, units: nat): Step {
    if ch > MAX_LEGAL then Emit(units, [REPLACEMENT_CHAR], 0, true)
    else if IsSurrogate(ch) then
      if flags == Strict then Stop(SourceIllegal, 1) else Emit(units, [REPLACEMENT_CHAR], 0, false)
    else Emit(units, [ch], 0, false)
  }

  function NextStep(c: Converter, flags: Flags, src: seq<nat>): (s: Step)
    requires src != []
    ensures s.Emit? ==> 1 <= s.units <= |src| && 1 <= Need(s)
    ensures s.Stop? ==> s.why == SourceIllegal || s.why == SourceExhausted
    ensures s.spare <= 1
  {
    match c
    case Utf32To16 =>
      if src[0] > MAX_LEGAL && flags == Strict then Emit(1, [], 1, true) else ToUtf16(flags, src[0], 1)
    case Utf32To8 =>
      if flags == Strict && IsSurrogate(src[0]) then Stop(SourceIllegal, 0)
      else if src[0] > MAX_LEGAL then Emit(1, Utf8Bytes(REPLACEMENT_CHAR), 0, true)
      else ToUtf8(src[0], 1)
    case Utf16To32 =>
      (match DecodeUtf16(flags, src)
       case Fail(why) => Stop(why, 0)
       case Char(ch, units) => Emit(units, [ch], 0, false))
    case Utf16To8 =>
      (match DecodeUtf16(flags, src)
       case Fail(why) => Stop(why, 0)
       case Char(ch, units) => ToUtf8(ch, units))
    case Utf8To16 =>
      (match DecodeUtf8(src)
       case Fail(why) => Stop(why, 0)
       case Char(ch, units) => ToUtf16(flags, ch, units))
    case Utf8To32 =>
      (match DecodeUtf8(src)
       case Fail(why) => Stop(why, 0)
       case Char(ch, units) => ToUtf32(flags, ch, units))
  }

  /** The steps of a whole source, as if the target had no end. */
  function Steps(c: Converter, flags: Flags, src: seq<nat>): seq<Step>
    decreases |src|
  {
    if src == [] then []
    else
      var s := NextStep(c, flags, src);
      if s.Stop? then [s] else [s] + Steps(c, flags, src[s.units..])
  }

  /** Steps taken while the target has room; an illegal source is remembered to the end. */
  function Fill(steps: seq<Step>, room: nat, illegal: bool): (o: Outcome)
    ensures |o.out| <= room
  {
    if steps == [] then Outcome(if illegal then SourceIllegal else Ok, 0, [])
    else if room < Need(steps[0]) then Outcome(TargetExhausted, 0, [])
    else if steps[0].Stop? then Outcome(steps[0].why, 0, [])
    else After(steps[0].units, steps[0].out, Fill(steps[1..], room - |steps[0].out|, illegal || steps[0].illegal))
  }

  function After(units: nat, out: seq<nat>, o: Outcome): Outcome {
    Outcome(o.result, units + o.read, out + o.out)
  }

  /** The whole call. */
  function Convert(c: Converter, flags: Flags, src: seq<nat>, room: nat): Outcome {
    Fill(Steps(c, flags, src), room, false)
  }

  // ----- What a loop has done so far -----

  lemma AfterTwice(n: nat, a: seq<nat>, m: nat, b: seq<nat>, o: Outcome)
    ensures After(n, a, After(m, b, o)) == After(n + m, a + b, o)
  {
    assert a + (b + o.out) == a + b + o.out;
  }

  lemma FirstStep(c: Converter, flags: Flags, src: seq<nat>, read: nat, steps: seq<Step>)
    requires read < |src| && steps == Steps(c, flags, src[read..])
    ensures steps != [] && steps[0] == NextStep(c, flags, src[read..])
    ensures steps[0].Emit? ==> 0 < steps[0].units && read + steps[0].units <= |src|
  {
  }

  lemma OtherSteps(c: Converter, flags: Flags, src: seq<nat>, read: nat, steps: seq<Step>, to: nat)
    requires read < |src| && steps == Steps(c, flags, src[read..])
    requires steps != [] && steps[0].Emit? && to == read + steps[0].units <= |src|
    ensures steps[1..] == Steps(c, flags, src[to..])
  {
    assert src[read..][steps[0].units..] == src[to..];
  }

  /** How the call ends if it goes on with these steps. */
  function GoOn(steps: seq<Step>, room: nat, read: nat, out: seq<nat>, illegal: bool): Outcome
    requires |out| <= room
  {
    After(read, out, Fill(steps, room - |out|, illegal))
  }

  /** What one iteration did: one step was written, or the loop ends. */
  ghost predicate Took(s: Step, room: nat, before: seq<nat>, after: seq<nat>, more: bool, result: Result, units: nat) {
    if more then
      s.Emit? && Need(s) <= room && units == s.units && after == before + s.out
      && result == if s.illegal then SourceIllegal else Ok
    else
      units == 0 && after == before
      && (if Need(s) > room then result == TargetExhausted else s.Stop? && result == s.why)
  }

  /** The end of the call: by the remaining steps, or here and now. */
  function Follow(more: bool, steps: seq<Step>, room: nat, read: nat, out: seq<nat>, illegal: bool, result: Result):
      Outcome
    requires |out| <= room
  {
    if more then GoOn(steps, room, read, out, illegal) else Outcome(result, read, out)
  }

  lemma GoesOn(steps: seq<Step>, room: nat, read: nat, out: seq<nat>, illegal: bool,
               after: seq<nat>, more: bool, result: Result, units: nat, to: nat, seen: bool, rest: seq<Step>)
    requires steps != [] && |out| <= room && Took(steps[0], room - |out|, out, after, more, result, units)
    requires to == read + units && seen == (illegal || result == SourceIllegal) && rest == steps[1..]
    ensures |after| <= room
    ensures GoOn(steps, room, read, out, illegal) == Follow(more, rest, room, to, after, seen, result)
  {
    if more {
      AfterTwice(read, out, units, steps[0].out, Fill(rest, room - |after|, seen));
    }
  }

  // ----- The loops -----

  /** Reads the bytes of a character, first to last; Note A of the source. */
  method ReadUtf8(source: seq<nat>, at: nat, extra: nat) returns (ch: nat)
    requires at + extra < |source| && extra <= 5
    ensures ch == Utf8Value(source[at..], extra)
  {
    ch := source[at] % WRAP;
    var i: nat := 0;
    while i < extra
      invariant i <= extra && ch == Accumulated(source[at..], i)
    {
      i := i + 1;
      ch := (ch * 64 + source[at + i]) % WRAP;
    }
    ch := (ch - Offset(extra)) % WRAP;
  }

  method IsLegal(source: seq<nat>, at: nat, length: nat) returns (legal: bool)
    requires 1 <= length && at + length <= |source|
    ensures legal == IsLegalUtf8(source[at..], length)
  {
    var a: nat := 0;
    if length > 4 {
      return false;
    }
    if length == 4 {
      a := source[at + 3];
      if a < 0x80 || a > 0xBF {
        return false;
      }
    }
    if length >= 3 {
      a := source[at + 2];
      if a < 0x80 || a > 0xBF {
        return false;
      }
    }
    if length >= 2 {
      a := source[at + 1];
      if a > 0xBF {
        return false;
      }
      match source[at] {
        case 0xE0 => if a < 0xA0 { return false; }
        case 0xED => if a > 0x9F { return false; }
        case 0xF0 => if a < 0x90 { return false; }
        case 0xF4 => if a > 0x8F { return false; }
        case _ => if a < 0x80 { return false; }
      }
    }
    if source[at] >= 0x80 && source[at] < 0xC2 {
      return false;
    }
    return source[at] <= 0xF4;
  }

  /** Reads a unit, or a pair of surrogates; the beginning of both loops over UTF-16. */
  method ReadUtf16(source: seq<nat>, at: nat, flags: Flags) returns (d: Decoded)
    requires at < |source|
    ensures d == DecodeUtf16(flags, source[at..])
  {
    var ch := source[at];
    if ch >= 0xD800 && ch <= 0xDBFF {
      if at + 1 < |source| {
        var ch2 := source[at + 1];
        if ch2 >= 0xDC00 && ch2 <= 0xDFFF {
          return Char((ch - 0xD800) * 0x400 + (ch2 - 0xDC00) + HALF_BASE, 2);
        } else if flags == Strict {
          return Fail(SourceIllegal);
        }
      } else {
        return Fail(SourceExhausted);
      }
    } else if flags == Strict {
      if ch >= 0xDC00 && ch <= 0xDFFF {
        return Fail(SourceIllegal);
      }
    }
    return Char(ch, 1);
  }

  /** The writing end of both loops into UTF-8: the bytes of a character, last to first, or none if they do not fit. */
  method PutUtf8(target: array<nat>, written: nat, c: nat) returns (bytes: nat)
    requires c <= MAX_LEGAL && written <= target.Length
    modifies target
    ensures bytes == if written + |Utf8Bytes(c)| <= target.Length then |Utf8Bytes(c)| else 0
    ensures bytes == 0 ==> target[..] == old(target[..])
    ensures bytes > 0 ==> target[..written + bytes] == old(target[..written]) + Utf8Bytes(c)
    ensures forall i :: written + bytes <= i < target.Length ==> target[i] == old(target[i])
  {
    var ch := c;
    bytes := if ch < 0x80 then 1 else if ch < 0x800 then 2 else if ch < 0x10000 then 3 else 4;
    if written + bytes > target.Length {
      return 0;
    }
    if bytes == 4 {
      target[written + 3], ch := 0x80 + ch % 64, ch / 64;
    }
    if bytes >= 3 {
      target[written + 2], ch := 0x80 + ch % 64, ch / 64;
    }
    if bytes >= 2 {
      target[written + 1], ch := 0x80 + ch % 64, ch / 64;
    }
    target[written] := FirstByteMark(bytes) + ch;
  }

  /** The writing end of both loops into UTF-16, for a legal character: one unit or two, or none if they do not fit. */
  method PutUtf16(target: array<nat>, written: nat, c: nat) returns (units: nat)
    requires c <= MAX_LEGAL && written <= target.Length
    modifies target
    ensures units == if written + |Utf16Units(c)| <= target.Length then |Utf16Units(c)| else 0
    ensures units == 0 ==> target[..] == old(target[..])
    ensures units > 0 ==> target[..written + units] == old(target[..written]) + Utf16Units(c)
    ensures forall i :: written + units <= i < target.Length ==> target[i] == old(target[i])
  {
    if written >= target.Length {
      return 0;
    }
    if c <= MAX_BMP {
      target[written] := c;
      return 1;
    }
    if written + 1 >= target.Length {
      return 0;
    }
    var ch := c - HALF_BASE;
    target[written] := ch / 0x400 + 0xD800;
    target[written + 1] := ch % 0x400 + 0xDC00;
    return 2;
  }

  /** One iteration of ConvertUTF16toUTF8. */
  method Next16To8(source: seq<nat>, target: array<nat>, flags: Flags, read: nat, written: nat)
    returns (more: bool, result: Result, units: nat, bytes: nat)
    requires read < |source| && written <= target.Length
    modifies target
    ensures written + bytes <= target.Length
    ensures Took(NextStep(Utf16To8, flags, source[read..]), target.Length - written,
                 old(target[..written]), target[..written + bytes], more, result, units)
    ensures forall i :: written + bytes <= i < target.Length ==> target[i] == old(target[i])
  {
    var d := ReadUtf16(source, read, flags);
    if d.Fail? {
      return false, d.why, 0, 0;
    }
    var ch := if d.ch < 0x110000 then d.ch else REPLACEMENT_CHAR;
    bytes := PutUtf8(target, written, ch);
    if bytes == 0 {
      return false, TargetExhausted, 0, 0;
    }
    return true, Ok, d.units, bytes;
  }

  /** One iteration of ConvertUTF16toUTF32. */
  method Next16To32(source: seq<nat>, target: array<nat>, flags: Flags, read: nat, written: nat)
    returns (more: bool, result: Result, units: nat, bytes: nat)
    requires read < |source| && written <= target.Length
    modifies target
    ensures written + bytes <= target.Length
    ensures Took(NextStep(Utf16To32, flags, source[read..]), target.Length - written,
                 old(target[..written]), target[..written + bytes], more, result, units)
    ensures forall i :: written + bytes <= i < target.Length ==> target[i] == old(target[i])
  {
    var d := ReadUtf16(source, read, flags);
    if d.Fail? {
      return false, d.why, 0, 0;
    }
    if written >= target.Length {
      return false, TargetExhausted, 0, 0;
    }
    target[written] := d.ch;
    return true, Ok, d.units, 1;
  }

  /** One iteration of ConvertUTF32toUTF8. */
  method Next32To8(source: seq<nat>, target: array<nat>, flags: Flags, read: nat, written: nat)
    returns (more: bool, result: Result, units: nat, bytes: nat)
    requires read < |source| && written <= target.Length
    modifies target
    ensures written + bytes <= target.Length
    ensures Took(NextStep(Utf32To8, flags, source[read..]), target.Length - written,
                 old(target[..written]), target[..written + bytes], more, result, units)
    ensures forall i :: written + bytes <= i < target.Length ==> target[i] == old(target[i])
  {
    var ch := source[read];
    result := Ok;
    if flags == Strict {
      if ch >= 0xD800 && ch <= 0xDFFF {
        return false, SourceIllegal, 0, 0;
      }
    }
    if ch > MAX_LEGAL {
      ch := REPLACEMENT_CHAR;
      result := SourceIllegal;
    }
    bytes := PutUtf8(target, written, ch);
    if bytes == 0 {
      return false, TargetExhausted, 0, 0;
    }
    return true, result, 1, bytes;
  }

  /** One iteration of ConvertUTF32toUTF16. */
  method Next32To16(source: seq<nat>, target: array<nat>, flags: Flags, read: nat, written: nat)
    returns (more: bool, result: Result, units: nat, bytes: nat)
    requires read < |source| && written <= target.Length
    modifies target
    ensures written + bytes <= target.Length
    ensures Took(NextStep(Utf32To16, flags, source[read..]), target.Length - written,
                 old(target[..written]), target[..written + bytes], more, result, units)
    ensures forall i :: written + bytes <= i < target.Length ==> target[i] == old(target[i])
  {
    if written >= target.Length {
      return false, TargetExhausted, 0, 0;
    }
    var ch := source[read];
    if ch > MAX_LEGAL && flags == Strict {
      return true, SourceIllegal, 1, 0;
    }
    more, result, bytes := Put16(target, flags, written, ch);
    units := if more then 1 else 0;
  }

  /** The end of both iterations into UTF-16: a surrogate or an illegal character is replaced, or stops the loop. */
  method Put16(target: array<nat>, flags: Flags, written: nat, ch: nat)
    returns (more: bool, result: Result, bytes: nat)
    requires written < target.Length
    modifies target
    ensures written + bytes <= target.Length
    ensures Took(ToUtf16(flags, ch, 1), target.Length - written,
                 old(target[..written]), target[..written + bytes], more, result, if more then 1 else 0)
    ensures forall i :: written + bytes <= i < target.Length ==> target[i] == old(target[i])
  {
    if ch > MAX_LEGAL || 0xD800 <= ch <= 0xDFFF {
      if flags == Strict {
        return false, SourceIllegal, 0;
      }
      target[written] := REPLACEMENT_CHAR;
      return true, Ok, 1;
    }
    bytes := PutUtf16(target, written, ch);
    if bytes == 0 {
      return false, TargetExhausted, 0;
    }
    return true, Ok, bytes;
  }

  /** Reads and checks a character of UTF-8; the beginning of both loops. */
  method ReadLegal(source: seq<nat>, at: nat) returns (d: Decoded)
    requires at < |source|
    ensures d == DecodeUtf8(source[at..])
  {
    var extraBytesToRead := TrailingBytes(source[at]);
    if at + extraBytesToRead >= |source| {
      return Fail(SourceExhausted);
    }
    var legal := IsLegal(source, at, extraBytesToRead + 1);
    if !legal {
      return Fail(SourceIllegal);
    }
    var ch := ReadUtf8(source, at, extraBytesToRead);
    return Char(ch, extraBytesToRead + 1);
  }

  /** One iteration of ConvertUTF8toUTF16. */
  method Next8To16(source: seq<nat>, target: array<nat>, flags: Flags, read: nat, written: nat)
    returns (more: bool, result: Result, units: nat, bytes: nat)
    requires read < |source| && written <= target.Length
    modifies target
    ensures written + bytes <= target.Length
    ensures Took(NextStep(Utf8To16, flags, source[read..]), target.Length - written,
                 old(target[..written]), target[..written + bytes], more, result, units)
    ensures forall i :: written + bytes <= i < target.Length ==> target[i] == old(target[i])
  {
    var d := ReadLegal(source, read);
    if d.Fail? {
      return false, d.why, 0, 0;
    }
    if written >= target.Length {
      return false, TargetExhausted, 0, 0;
    }
    more, result, bytes := Put16(target, flags, written, d.ch);
    units := if more then d.units else 0;
  }

  /** One iteration of ConvertUTF8toUTF32. */
  method Next8To32(source: seq<nat>, target: array<nat>, flags: Flags, read: nat, written: nat)
    returns (more: bool, result: Result, units: nat, bytes: nat)
    requires read < |source| && written <= target.Length
    modifies target
    ensures written + bytes <= target.Length
    ensures Took(NextStep(Utf8To32, flags, source[read..]), target.Length - written,
                 old(target[..written]), target[..written + bytes], more, result, units)
    ensures forall i :: written + bytes <= i < target.Length ==> target[i] == old(target[i])
  {
    var d := ReadLegal(source, read);
    if d.Fail? {
      return false, d.why, 0, 0;
    }
    if written >= target.Length {
      return false, TargetExhausted, 0, 0;
    }
    result := Ok;
    if d.ch <= MAX_LEGAL {
      if d.ch >= 0xD800 && d.ch <= 0xDFFF {
        if flags == Strict {
          return false, SourceIllegal, 0, 0;
        }
        target[written] := REPLACEMENT_CHAR;
      } else {
        target[written] := d.ch;
      }
    } else {
      result := SourceIllegal;
      target[written] := REPLACEMENT_CHAR;
    }
    return true, result, d.units, 1;
  }

  method Iterate(c: Converter, source: seq<nat>, target: array<nat>, flags: Flags, read: nat, written: nat,
                 ghost s: Step)
    returns (more: bool, result: Result, units: nat, n: nat)
    requires read < |source| && written <= target.Length && s == NextStep(c, flags, source[read..])
    modifies target
    ensures written + n <= target.Length
    ensures Took(s, target.Length - written,
                 old(target[..written]), target[..written + n], more, result, units)
    ensures forall i :: written + n <= i < target.Length ==> target[i] == old(target[i])
  {
    match c {
      case Utf32To16 => more, result, units, n := Next32To16(source, target, flags, read, written);
      case Utf16To32 => more, result, units, n := Next16To32(source, target, flags, read, written);
      case Utf16To8 => more, result, units, n := Next16To8(source, target, flags, read, written);
      case Utf8To16 => more, result, units, n := Next8To16(source, target, flags, read, written);
      case Utf32To8 => more, result, units, n := Next32To8(source, target, flags, read, written);
      case Utf8To32 => more, result, units, n := Next8To32(source, target, flags, read, written);
    }
  }

  /** One iteration of the converter, and how the call goes on behind it. */
  method Next(c: Converter, source: seq<nat>, target: array<nat>, flags: Flags, read: nat, written: nat,
              illegal: bool, ghost steps: seq<Step>)
    returns (more: bool, result: Result, to: nat, end: nat, seen: bool, ghost rest: seq<Step>)
    requires read < |source| && written <= target.Length && steps == Steps(c, flags, source[read..])
    modifies target
    ensures written <= end <= target.Length
    ensures more ==> read < to <= |source| && rest == Steps(c, flags, source[to..])
    ensures (GoOn(steps, target.Length, read, old(target[..written]), illegal)
      == Follow(more, rest, target.Length, to, target[..end], seen, result))
    ensures forall i :: end <= i < target.Length ==> target[i] == old(target[i])
  {
    ghost var out := target[..written];
    FirstStep(c, flags, source, read, steps);
    var units, n;
    more, result, units, n := Iterate(c, source, target, flags, read, written, steps[0]);
    to, end, seen, rest := read + units, written + n, illegal || result == SourceIllegal, steps[1..];
    if more {
      OtherSteps(c, flags, source, read, steps, to);
    }
    GoesOn(steps, target.Length, read, out, illegal, target[..end], more, result, units, to, seen, rest);
  }

  /**
    * The loop all six functions share: it fills the target from the front, touches nothing behind what it wrote, and
    * leaves the pointers where the specification says.
    */
  method Run(c: Converter, source: seq<nat>, target: array<nat>, flags: Flags)
    returns (result: Result, read: nat, written: nat)
    modifies target
    ensures written <= target.Length
    ensures Outcome(result, read, target[..written]) == Convert(c, flags, source, target.Length)
    ensures forall i :: written <= i < target.Length ==> target[i] == old(target[i])
  {
    result, read, written := Ok, 0, 0;
    ghost var steps := Steps(c, flags, source);
    ghost var goal := Fill(steps, target.Length, false);
    assert source[0..] == source && target[..0] == [];
    var illegal := false;
    while read < |source|
      invariant read <= |source| && written <= target.Length && steps == Steps(c, flags, source[read..])
      invariant goal == GoOn(steps, target.Length, read, target[..written], illegal)
      invariant forall i :: written <= i < target.Length ==> target[i] == old(target[i])
    {
      var more;
      more, result, read, written, illegal, steps := Next(c, source, target, flags, read, written, illegal, steps);
      if !more {
        return;
      }
    }
    result := if illegal then SourceIllegal else Ok;
  }
}
