/** One character at a time: the readers and writers of the three Unicode encoding forms. */
module Unicode {

  const REPLACEMENT_CHAR: nat := 0xFFFD
  const MAX_BMP: nat := 0xFFFF
  const MAX_LEGAL: nat := 0x10FFFF
  const HALF_BASE: nat := 0x10000
  const WRAP: nat := 0x1_0000_0000

  datatype Flags = Strict | Lenient

  datatype Result = Ok | SourceExhausted | TargetExhausted | SourceIllegal

  /** A character read from the source with the number of units it took, or why it could not be read. */
  datatype Decoded = Char(ch: nat, units: nat) | Fail(why: Result)

  predicate IsHigh(u: nat) { 0xD800 <= u <= 0xDBFF }

  predicate IsLow(u: nat) { 0xDC00 <= u <= 0xDFFF }

  predicate IsSurrogate(u: nat) { 0xD800 <= u <= 0xDFFF }

  /** Unicode scalar values, section 3.9 of the Unicode Standard. */
  predicate IsScalar(ch: nat) { ch <= MAX_LEGAL && !IsSurrogate(ch) }

  ghost predicate Below(s: seq<nat>, bound: nat) {
    forall i :: 0 <= i < |s| ==> s[i] < bound
  }

  // ----- UTF-16 -----

  function PairValue(high: nat, low: nat): nat
    requires IsHigh(high) && IsLow(low)
  {
    (high - 0xD800) * 0x400 + (low - 0xDC00) + HALF_BASE
  }

  function Utf16Units(ch: nat): (r: seq<nat>)
    requires ch <= MAX_LEGAL
    ensures 1 <= |r| <= 2
  {
    if ch <= MAX_BMP then [ch]
    else [(ch - HALF_BASE) / 0x400 + 0xD800, (ch - HALF_BASE) % 0x400 + 0xDC00]
  }

  /** What both readers of UTF-16 do with the next unit or pair. */
  function DecodeUtf16(flags: Flags, src: seq<nat>): (d: Decoded)
    requires src != []
    ensures d.Char? ==> 1 <= d.units <= |src|
    ensures d.Fail? ==> d.why == SourceIllegal || d.why == SourceExhausted
  {
    if IsHigh(src[0]) then
      if |src| == 1 then Fail(SourceExhausted)
      else if IsLow(src[1]) then Char(PairValue(src[0], src[1]), 2)
      else if flags == Strict then Fail(SourceIllegal)
      else Char(src[0], 1)
    else if flags == Strict && IsLow(src[0]) then Fail(SourceIllegal)
    else Char(src[0], 1)
  }

  lemma Utf16ReadsBack(flags: Flags, ch: nat, rest: seq<nat>)
    requires IsScalar(ch)
    ensures DecodeUtf16(flags, Utf16Units(ch) + rest) == Char(ch, |Utf16Units(ch)|)
  {
    if ch > MAX_BMP {
      var c := ch - HALF_BASE;
      assert c / 0x400 < 0x400 && c == c / 0x400 * 0x400 + c % 0x400;
    }
  }

  lemma Utf16WritesBack(flags: Flags, src: seq<nat>)
    requires src != [] && Below(src, 0x10000) && DecodeUtf16(flags, src).Char?
    ensures var d := DecodeUtf16(flags, src); d.ch <= MAX_LEGAL && Utf16Units(d.ch) == src[..d.units]
    ensures flags == Strict ==> IsScalar(DecodeUtf16(flags, src).ch)
  {
    if IsHigh(src[0]) && |src| > 1 && IsLow(src[1]) {
      var h, l := src[0] - 0xD800, src[1] - 0xDC00;
      assert (h * 0x400 + l) / 0x400 == h && (h * 0x400 + l) % 0x400 == l;
    }
  }

  // ----- UTF-8 -----

  /** trailingBytesForUTF8 */
  function TrailingBytes(lead: nat): (n: nat)
    ensures n <= 5
  {
    if lead < 0xC0 then 0
    else if lead < 0xE0 then 1
    else if lead < 0xF0 then 2
    else if lead < 0xF8 then 3
    else if lead < 0xFC then 4
    else 5
  }

  /** offsetsFromUTF8 */
  function Offset(extra: nat): nat
    requires extra <= 5
  {
    [0, 0x3080, 0xE2080, 0x3C82080, 0xFA082080, 0x82082080][extra]
  }

  /** firstByteMark */
  function FirstByteMark(bytes: nat): nat
    requires bytes <= 6
  {
    [0, 0, 0xC0, 0xE0, 0xF0, 0xF8, 0xFC][bytes]
  }

  /** isLegalUTF8 */
  predicate IsLegalUtf8(src: seq<nat>, length: nat)
    requires 1 <= length <= |src|
  {
    && length <= 4
    && (length >= 4 ==> 0x80 <= src[3] <= 0xBF)
    && (length >= 3 ==> 0x80 <= src[2] <= 0xBF)
    && (length >= 2 ==> src[1] <= 0xBF &&
                        (if src[0] == 0xE0 then src[1] >= 0xA0
                         else if src[0] == 0xED then src[1] <= 0x9F
                         else if src[0] == 0xF0 then src[1] >= 0x90
                         else if src[0] == 0xF4 then src[1] <= 0x8F
                         else src[1] >= 0x80))
    && !(0x80 <= src[0] < 0xC2)
    && src[0] <= 0xF4
  }

  /** The byte sum of the fall-through switch, in 32-bit arithmetic. */
  function Accumulated(src: seq<nat>, extra: nat): nat
    requires extra < |src|
  {
    if extra == 0 then src[0] % WRAP else (Accumulated(src, extra - 1) * 64 + src[extra]) % WRAP
  }

  function Utf8Value(src: seq<nat>, extra: nat): nat
    requires extra < |src| && extra <= 5
  {
    (Accumulated(src, extra) - Offset(extra)) % WRAP
  }

  /** What both readers of UTF-8 do with the next bytes, in either mode. */
  function DecodeUtf8(src: seq<nat>): (d: Decoded)
    requires src != []
    ensures d.Char? ==> 1 <= d.units <= |src| && d.units <= 4
    ensures d.Fail? ==> d.why == SourceIllegal || d.why == SourceExhausted
  {
    var extra := TrailingBytes(src[0]);
    if extra >= |src| then Fail(SourceExhausted)
    else if !IsLegalUtf8(src, extra + 1) then Fail(SourceIllegal)
    else Char(Utf8Value(src, extra), extra + 1)
  }

  /** Section 3 of RFC 3629: the shifts by six and the masks of the writers, as quotients and remainders. */
  function Utf8Bytes(ch: nat): (r: seq<nat>)
    requires ch <= MAX_LEGAL
    ensures 1 <= |r| <= 4
  {
    if ch < 0x80 then [ch]
    else if ch < 0x800 then [0xC0 + ch / 64, 0x80 + ch % 64]
    else if ch < 0x10000 then [0xE0 + ch / 64 / 64, 0x80 + ch / 64 % 64, 0x80 + ch % 64]
    else [0xF0 + ch / 64 / 64 / 64, 0x80 + ch / 64 / 64 % 64, 0x80 + ch / 64 % 64, 0x80 + ch % 64]
  }

  predicate IsTail(b: nat) { 0x80 <= b <= 0xBF }

  /** The grammar of one character, section 4 of RFC 3629; Table 3-7 of the Unicode Standard. */
  predicate WellFormedChar(b: seq<nat>) {
    || (|b| == 1 && b[0] <= 0x7F)
    || (|b| == 2 && 0xC2 <= b[0] <= 0xDF && IsTail(b[1]))
    || (|b| == 3 && b[0] == 0xE0 && 0xA0 <= b[1] <= 0xBF && IsTail(b[2]))
    || (|b| == 3 && (0xE1 <= b[0] <= 0xEC || 0xEE <= b[0] <= 0xEF) && IsTail(b[1]) && IsTail(b[2]))
    || (|b| == 3 && b[0] == 0xED && 0x80 <= b[1] <= 0x9F && IsTail(b[2]))
    || (|b| == 4 && b[0] == 0xF0 && 0x90 <= b[1] <= 0xBF && IsTail(b[2]) && IsTail(b[3]))
    || (|b| == 4 && 0xF1 <= b[0] <= 0xF3 && IsTail(b[1]) && IsTail(b[2]) && IsTail(b[3]))
    || (|b| == 4 && b[0] == 0xF4 && 0x80 <= b[1] <= 0x8F && IsTail(b[2]) && IsTail(b[3]))
  }

  /** What isLegalUTF8 accepts beyond the grammar: after 0xED and 0xF4 the second byte has no lower bound. */
  predicate Overlooked(b: seq<nat>) {
    || (|b| == 3 && b[0] == 0xED && b[1] < 0x80 && IsTail(b[2]))
    || (|b| == 4 && b[0] == 0xF4 && b[1] < 0x80 && IsTail(b[2]) && IsTail(b[3]))
  }

  /** isLegalUTF8, with the length its callers pass, accepts exactly the grammar and the overlooked sequences. */
  lemma LegalExactly(src: seq<nat>)
    requires src != [] && TrailingBytes(src[0]) < |src|
    ensures var n := TrailingBytes(src[0]) + 1;
      IsLegalUtf8(src, n) <==> WellFormedChar(src[..n]) || Overlooked(src[..n])
  {
  }

  lemma AccumulatedIs(src: seq<nat>)
    ensures |src| > 0 && src[0] < 0x100 ==> Accumulated(src, 0) == src[0]
    ensures |src| > 1 && src[0] < 0x100 && src[1] < 0x100 ==> Accumulated(src, 1) == src[0] * 64 + src[1]
    ensures (|src| > 2 && src[0] < 0x100 && src[1] < 0x100 && src[2] < 0x100 ==>
      Accumulated(src, 2) == src[0] * 4096 + src[1] * 64 + src[2])
    ensures (|src| > 3 && src[0] < 0x100 && src[1] < 0x100 && src[2] < 0x100 && src[3] < 0x100 ==>
      Accumulated(src, 3) == src[0] * 262144 + src[1] * 4096 + src[2] * 64 + src[3])
  {
  }

  lemma Utf8WellFormed(ch: nat)
    requires IsScalar(ch)
    ensures WellFormedChar(Utf8Bytes(ch))
  {
  }

  /** The bytes of a scalar value, summed up and less the offset. */
  lemma BytesSum(ch: nat, b: seq<nat>)
    requires IsScalar(ch) && b == Utf8Bytes(ch)
    ensures TrailingBytes(b[0]) == |b| - 1 && forall i :: 0 <= i < |b| ==> b[i] < 0x100
    ensures |b| == 1 ==> b[0] == ch
    ensures |b| == 2 ==> b[0] * 64 + b[1] == ch + 0x3080
    ensures |b| == 3 ==> b[0] * 4096 + b[1] * 64 + b[2] == ch + 0xE2080
    ensures |b| == 4 ==> b[0] * 262144 + b[1] * 4096 + b[2] * 64 + b[3] == ch + 0x3C82080
  {
  }

  lemma AccumulatedBytes(ch: nat, b: seq<nat>, src: seq<nat>)
    requires IsScalar(ch) && b == Utf8Bytes(ch) && |b| <= |src| && forall i :: 0 <= i < |b| ==> src[i] == b[i]
    ensures TrailingBytes(src[0]) == |b| - 1 && Accumulated(src, |b| - 1) == ch + Offset(|b| - 1)
  {
    BytesSum(ch, b);
    AccumulatedIs(src);
  }

  lemma ValueReadsBack(ch: nat, b: seq<nat>, src: seq<nat>)
    requires IsScalar(ch) && b == Utf8Bytes(ch) && |b| <= |src| && src[..|b|] == b
    ensures TrailingBytes(src[0]) == |b| - 1 && Utf8Value(src, |b| - 1) == ch
  {
    forall i | 0 <= i < |b| ensures src[i] == b[i] {
      assert src[..|b|][i] == src[i];
    }
    AccumulatedBytes(ch, b, src);
  }

  lemma Utf8ReadsBack(ch: nat, rest: seq<nat>)
    requires IsScalar(ch)
    ensures DecodeUtf8(Utf8Bytes(ch) + rest) == Char(ch, |Utf8Bytes(ch)|)
  {
    var b := Utf8Bytes(ch);
    assert (b + rest)[..|b|] == b;
    ValueReadsBack(ch, b, b + rest);
    Utf8WellFormed(ch);
    LegalExactly(b + rest);
  }

  /** The character a legal sequence stands for, as a sum of its bytes. */
  function Sum(b: seq<nat>): int
    requires 1 <= |b| <= 4
  {
    if |b| == 1 then b[0] as int
    else if |b| == 2 then (b[0] as int - 0xC0) * 64 + (b[1] as int - 0x80)
    else if |b| == 3 then (b[0] as int - 0xE0) * 4096 + (b[1] as int - 0x80) * 64 + (b[2] as int - 0x80)
    else (b[0] as int - 0xF0) * 262144 + (b[1] as int - 0x80) * 4096 + (b[2] as int - 0x80) * 64 + (b[3] as int - 0x80)
  }

  lemma DecodedSum(src: seq<nat>)
    requires src != [] && DecodeUtf8(src).Char?
    ensures var d := DecodeUtf8(src); d.ch == Sum(src[..d.units])
    ensures var d := DecodeUtf8(src); WellFormedChar(src[..d.units]) || Overlooked(src[..d.units])
  {
    LegalExactly(src);
    AccumulatedIs(src);
  }

  lemma WellFormedSum(b: seq<nat>)
    requires WellFormedChar(b)
    ensures 0 <= Sum(b) <= MAX_LEGAL && Utf8Bytes(Sum(b)) == b
  {
    if |b| == 3 {
      WellFormedSum3(b);
    } else if |b| == 4 {
      WellFormedSum4(b);
    }
  }

  lemma WellFormedSum3(b: seq<nat>)
    requires WellFormedChar(b) && |b| == 3
    ensures 0 <= Sum(b) <= MAX_LEGAL && Utf8Bytes(Sum(b)) == b
  {
    assert Sum(b) / 64 == (b[0] - 0xE0) * 64 + (b[1] - 0x80);
  }

  lemma WellFormedSum4(b: seq<nat>)
    requires WellFormedChar(b) && |b| == 4
    ensures 0 <= Sum(b) <= MAX_LEGAL && Utf8Bytes(Sum(b)) == b
  {
    assert Sum(b) / 64 == (b[0] - 0xF0) * 4096 + (b[1] - 0x80) * 64 + (b[2] - 0x80);
    assert Sum(b) / 64 / 64 == (b[0] - 0xF0) * 64 + (b[1] - 0x80);
  }

  lemma OverlookedSum(b: seq<nat>)
    requires Overlooked(b)
    ensures 0 <= Sum(b) <= MAX_LEGAL && |Utf8Bytes(Sum(b))| == |b|
  {
  }

  /** Legal bytes always decode to a scalar value, so the readers' checks behind isLegalUTF8 never fire. */
  lemma LegalIsScalar(src: seq<nat>)
    requires src != [] && DecodeUtf8(src).Char?
    ensures IsScalar(DecodeUtf8(src).ch)
  {
    DecodedSum(src);
  }

  /** Writing the character that was read gives its bytes back exactly if they were well formed. */
  lemma Utf8WritesBack(src: seq<nat>)
    requires src != [] && DecodeUtf8(src).Char?
    ensures var d := DecodeUtf8(src); d.ch <= MAX_LEGAL && |Utf8Bytes(d.ch)| == d.units
    ensures (var d := DecodeUtf8(src);
      d.ch <= MAX_LEGAL && (Utf8Bytes(d.ch) == src[..d.units] <==> WellFormedChar(src[..d.units])))
  {
    var b := src[..DecodeUtf8(src).units];
    DecodedSum(src);
    LegalIsScalar(src);
    if WellFormedChar(b) {
      WellFormedSum(b);
    } else {
      OverlookedSum(b);
      Utf8WellFormed(Sum(b));
    }
  }

  /** An ill-formed sequence that is converted nevertheless. */
  lemma OverlookedExample()
    ensures !WellFormedChar([0xED, 0x41, 0x80]) && DecodeUtf8([0xED, 0x41, 0x80]) == Char(0xC040, 3)
  {
    DecodedSum([0xED, 0x41, 0x80]);
  }
}
