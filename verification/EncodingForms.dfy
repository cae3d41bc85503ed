/**
  * What the converters read and write, told without their readers and writers: by the bit layouts and grammars of
  * RFC 3629 and RFC 2781, and by the places where a conversion stops.
  */
module EncodingForms {
  import opened Common
  import opened Unicode
  import opened ConvertUTF
  import opened ConvertLaws

  // ----- Bit layouts -----

  /** The last bits of a number, the most significant one first. */
  function Bits(n: nat, width: nat): (b: seq<bool>)
    ensures |b| == width
  {
    if width == 0 then [] else Bits(n / 2, width - 1) + [n % 2 == 1]
  }

  function Two(k: nat): (r: nat)
    ensures r > 0
  {
    if k == 0 then 1 else 2 * Two(k - 1)
  }

  lemma Halve(a: nat, t: nat, b: nat)
    ensures (a * (2 * t) + b) / 2 == a * t + b / 2 && (a * (2 * t) + b) % 2 == b % 2
  {
    assert a * (2 * t) == 2 * (a * t);
  }

  /** Digits of base two can be split anywhere. */
  lemma {:induction false} BitsJoin(a: nat, b: nat, w: nat, k: nat)
    requires b < Two(k)
    ensures Bits(a * Two(k) + b, w + k) == Bits(a, w) + Bits(b, k)
  {
    if k == 0 {
      assert Bits(a, w) + [] == Bits(a, w);
    } else {
      Halve(a, Two(k - 1), b);
      BitsJoin(a, b / 2, w, k - 1);
    }
  }

  lemma Ten()
    ensures Two(6) == 0x40 && Two(10) == 0x400
  {
    assert Two(2) == 4 && Two(4) == 16 && Two(8) == 256;
  }

  const T: bool := true
  const F: bool := false

  /** Marks in front of the bits of a number. */
  lemma Marked(mark: nat, m: nat, b: nat, k: nat, n: nat)
    requires b < Two(k) && n == mark * Two(k) + b
    ensures Bits(n, m + k) == Bits(mark, m) + Bits(b, k)
  {
    BitsJoin(mark, b, m, k);
  }

  lemma Marks()
    ensures Bits(2, 2) == [T, F] && Bits(6, 3) == [T, T, F] && Bits(14, 4) == [T, T, T, F]
    ensures Bits(30, 5) == [T, T, T, T, F]
    ensures Bits(54, 6) == [T, T, F, T, T, F] && Bits(55, 6) == [T, T, F, T, T, T]
  {
    assert Bits(1, 1) == [T] && Bits(3, 2) == [T, T] && Bits(7, 3) == [T, T, T] && Bits(15, 4) == [T, T, T, T];
    assert Bits(13, 4) == [T, T, F, T] && Bits(27, 5) == [T, T, F, T, T];
  }

  lemma Digits(n: nat, base: nat, limit: nat)
    requires base > 0 && n < base * limit
    ensures n == n / base * base + n % base && n % base < base && n / base < limit
  {
    if n / base >= limit {
      MulMono(base, limit, n / base);
    }
  }

  lemma MulMono(k: nat, a: nat, b: nat)
    requires a <= b
    ensures k * a <= k * b
  {
  }

  /** Section 2.1 of RFC 2781: 20 bits in two units, the upper ten behind 110110 and the lower ten behind 110111. */
  lemma Utf16Layout(ch: nat) returns (upper: seq<bool>, lower: seq<bool>)
    requires MAX_BMP < ch <= MAX_LEGAL
    ensures |upper| == |lower| == 10 && upper + lower == Bits(ch - 0x10000, 20) && |Utf16Units(ch)| == 2
    ensures Bits(Utf16Units(ch)[0], 16) == [T, T, F, T, T, F] + upper
    ensures Bits(Utf16Units(ch)[1], 16) == [T, T, F, T, T, T] + lower
  {
    var u := ch - 0x10000;
    Ten();
    Marks();
    Digits(u, 0x400, 0x400);
    upper, lower := Bits(u / 0x400, 10), Bits(u % 0x400, 10);
    Marked(u / 0x400, 10, u % 0x400, 10, u);
    Marked(54, 6, u / 0x400, 10, 0xD800 + u / 0x400);
    Marked(55, 6, u % 0x400, 10, 0xDC00 + u % 0x400);
  }

  /** The bytes of UTF-8, marks and bits. */
  lemma Tail(x: nat)
    requires x < 0x40
    ensures Bits(0x80 + x, 8) == [T, F] + Bits(x, 6)
  {
    Ten();
    Marks();
    Marked(2, 2, x, 6, 0x80 + x);
  }

  lemma Lead2(x: nat)
    requires x < 0x20
    ensures Bits(0xC0 + x, 8) == [T, T, F] + Bits(x, 5)
  {
    assert Two(5) == 0x20;
    Marks();
    Marked(6, 3, x, 5, 0xC0 + x);
  }

  lemma Lead3(x: nat)
    requires x < 0x10
    ensures Bits(0xE0 + x, 8) == [T, T, T, F] + Bits(x, 4)
  {
    assert Two(4) == 0x10;
    Marks();
    Marked(14, 4, x, 4, 0xE0 + x);
  }

  lemma Lead4(x: nat)
    requires x < 8
    ensures Bits(0xF0 + x, 8) == [T, T, T, T, F] + Bits(x, 3)
  {
    assert Two(3) == 8;
    Marks();
    Marked(30, 5, x, 3, 0xF0 + x);
  }

  lemma LastSix(n: nat, w: nat)
    ensures Bits(n, w + 6) == Bits(n / 0x40, w) + Bits(n % 0x40, 6)
  {
    Ten();
    assert n == n / 0x40 * 0x40 + n % 0x40;
    Marked(n / 0x40, w, n % 0x40, 6, n);
  }

  lemma LastTwelve(n: nat, a: nat, w: nat)
    requires a == n / 0x40
    ensures Bits(n, w + 12) == Bits(a / 0x40, w) + Bits(a % 0x40, 6) + Bits(n % 0x40, 6)
  {
    LastSix(n, w + 6);
    LastSix(a, w);
  }

  lemma LastEighteen(n: nat, a: nat, b: nat, w: nat)
    requires a == n / 0x40 && b == a / 0x40
    ensures Bits(n, w + 18) == Bits(b / 0x40, w) + Bits(b % 0x40, 6) + Bits(a % 0x40, 6) + Bits(n % 0x40, 6)
  {
    LastSix(n, w + 12);
    LastTwelve(a, b, w);
  }

  /** Section 3 of RFC 3629, one to four bytes: the bits of the character in order behind the marks of the bytes. */
  lemma Utf8Layout1(ch: nat)
    requires ch < 0x80
    ensures |Utf8Bytes(ch)| == 1 && Bits(Utf8Bytes(ch)[0], 8) == [F] + Bits(ch, 7)
  {
    assert Two(7) == 0x80 by {
      Ten();
    }
    assert Bits(0, 1) == [F];
    Marked(0, 1, ch, 7, ch);
  }

  lemma Utf8Layout2(ch: nat) returns (x: seq<bool>, y: seq<bool>)
    requires 0x80 <= ch < 0x800
    ensures |Utf8Bytes(ch)| == 2 && x + y == Bits(ch, 11) && |x| == 5 && |y| == 6
    ensures Bits(Utf8Bytes(ch)[0], 8) == [T, T, F] + x && Bits(Utf8Bytes(ch)[1], 8) == [T, F] + y
  {
    x, y := Bits(ch / 0x40, 5), Bits(ch % 0x40, 6);
    LastSix(ch, 5);
    Lead2(ch / 0x40);
    Tail(ch % 0x40);
  }

  lemma Utf8Layout3(ch: nat) returns (x: seq<bool>, y: seq<bool>, z: seq<bool>)
    requires 0x800 <= ch < 0x10000
    ensures |Utf8Bytes(ch)| == 3 && x + y + z == Bits(ch, 16) && |x| == 4 && |y| == |z| == 6
    ensures Bits(Utf8Bytes(ch)[0], 8) == [T, T, T, F] + x
    ensures Bits(Utf8Bytes(ch)[1], 8) == [T, F] + y && Bits(Utf8Bytes(ch)[2], 8) == [T, F] + z
  {
    var a := ch / 0x40;
    x, y, z := Bits(a / 0x40, 4), Bits(a % 0x40, 6), Bits(ch % 0x40, 6);
    LastTwelve(ch, a, 4);
    Lead3(a / 0x40);
    Tail(a % 0x40);
    Tail(ch % 0x40);
  }

  lemma Utf8Layout4(ch: nat) returns (x: seq<bool>, y: seq<bool>, z: seq<bool>, w: seq<bool>)
    requires 0x10000 <= ch <= MAX_LEGAL
    ensures |Utf8Bytes(ch)| == 4 && x + y + z + w == Bits(ch, 21) && |x| == 3 && |y| == |z| == |w| == 6
    ensures Bits(Utf8Bytes(ch)[0], 8) == [T, T, T, T, F] + x && Bits(Utf8Bytes(ch)[1], 8) == [T, F] + y
    ensures Bits(Utf8Bytes(ch)[2], 8) == [T, F] + z && Bits(Utf8Bytes(ch)[3], 8) == [T, F] + w
  {
    var a, b := ch / 0x40, ch / 0x40 / 0x40;
    x, y, z, w := Bits(b / 0x40, 3), Bits(b % 0x40, 6), Bits(a % 0x40, 6), Bits(ch % 0x40, 6);
    LastEighteen(ch, a, b, 3);
    Lead4(b / 0x40);
    Tail(b % 0x40);
    Tail(a % 0x40);
    Tail(ch % 0x40);
  }

  // ----- Whole texts -----

  ghost predicate Legal(chars: seq<nat>) {
    forall i :: 0 <= i < |chars| ==> chars[i] <= MAX_LEGAL
  }

  /** The characters one after the other, a surrogate by itself. */
  function Encoded16(chars: seq<nat>): seq<nat>
    requires Legal(chars)
  {
    if chars == [] then [] else Utf16Units(chars[0]) + Encoded16(chars[1..])
  }

  function Encoded8(chars: seq<nat>): seq<nat>
    requires Legal(chars)
  {
    if chars == [] then [] else Utf8Bytes(chars[0]) + Encoded8(chars[1..])
  }

  /** No pair is left apart. */
  ghost predicate Joined(chars: seq<nat>) {
    forall i :: 0 < i < |chars| ==> !(IsHigh(chars[i - 1]) && IsLow(chars[i]))
  }

  ghost predicate EndsHigh(s: seq<nat>) {
    s != [] && IsHigh(s[|s| - 1])
  }

  // ----- Lenient UTF-16 -----

  lemma ConsText(ch: nat, chars: seq<nat>, units: seq<nat>, all: seq<nat>)
    requires ch <= MAX_LEGAL && Legal(chars) && units == Utf16Units(ch) && all == [ch] + chars
    ensures Legal(all) && Encoded16(all) == units + Encoded16(chars) && Encoded8(all) == Utf8Bytes(ch) + Encoded8(chars)
  {
    assert all[1..] == chars;
  }

  lemma ConsJoined(ch: nat, chars: seq<nat>, all: seq<nat>)
    requires Joined(chars) && all == [ch] + chars && (chars == [] || !(IsHigh(ch) && IsLow(chars[0])))
    ensures Joined(all)
  {
    forall i | 0 < i < |all| ensures !(IsHigh(all[i - 1]) && IsLow(all[i])) {
      assert all[i] == chars[i - 1] && (i > 1 ==> all[i - 1] == chars[i - 2]);
    }
  }

  /** The first unit of a text is the first unit of its first character. */
  lemma FirstUnit(chars: seq<nat>, src: seq<nat>)
    requires Legal(chars) && chars != [] && Encoded16(chars) <= src
    ensures src != [] && src[0] == Utf16Units(chars[0])[0] && (IsLow(chars[0]) ==> src[0] == chars[0])
  {
    assert Encoded16(chars)[0] == Utf16Units(chars[0])[0];
  }

  lemma EndsLater(src: seq<nat>, n: nat)
    requires n < |src|
    ensures EndsHigh(src[n..]) == EndsHigh(src)
  {
  }

  /**
    * Read leniently, UTF-16 is never illegal. All of it is read but a high surrogate at its end, and what comes out is
    * the text with each pair joined and every other unit by itself.
    */
  lemma {:induction false} LenientReads(src: seq<nat>, o: Outcome)
    requires Below(src, 0x10000) && o == Ample(Utf16To32, Lenient, src)
    ensures o.result == if EndsHigh(src) then SourceExhausted else Ok
    ensures o.read == |src| - (if EndsHigh(src) then 1 else 0)
    ensures Legal(o.out) && Joined(o.out) && Encoded16(o.out) == src[..o.read]
    decreases |src|
  {
    if src != [] {
      var s := NextStep(Utf16To32, Lenient, src);
      AmpleHead(Utf16To32, Lenient, src, s);
      if s.Emit? {
        LenientLater(src, s, o, src[s.units..], Ample(Utf16To32, Lenient, src[s.units..]));
      } else {
        assert src[..0] == [];
      }
    }
  }

  lemma {:induction false} LenientLater(src: seq<nat>, s: Step, o: Outcome, rest: seq<nat>, p: Outcome)
    requires src != [] && Below(src, 0x10000) && s == NextStep(Utf16To32, Lenient, src) && s.Emit?
    requires rest == src[s.units..] && p == Ample(Utf16To32, Lenient, rest) && o == After(s.units, s.out, p)
    ensures o.result == if EndsHigh(src) then SourceExhausted else Ok
    ensures o.read == |src| - (if EndsHigh(src) then 1 else 0)
    ensures Legal(o.out) && Joined(o.out) && Encoded16(o.out) == src[..o.read]
    decreases |src|, 0
  {
    LenientReads(rest, p);
    LenientStep(src, s);
    var ch := s.out[0];
    ConsText(ch, p.out, src[..s.units], o.out);
    if rest != [] {
      EndsLater(src, s.units);
    }
    if p.out != [] {
      FirstUnit(p.out, rest);
    }
    ConsJoined(ch, p.out, o.out);
    TakeSum(src, s.units, p.read, rest);
  }

  lemma TakeSum<A>(s: seq<A>, m: nat, n: nat, rest: seq<A>)
    requires m <= |s| && rest == s[m..] && n <= |rest|
    ensures s[..m] + rest[..n] == s[..m + n]
  {
  }

  /** What one lenient step takes: a pair, or any unit that does not begin one; a high surrogate is not the last. */
  lemma LenientStep(src: seq<nat>, s: Step)
    requires src != [] && Below(src, 0x10000) && s == NextStep(Utf16To32, Lenient, src) && s.Emit?
    ensures |s.out| == 1 && s.out[0] <= MAX_LEGAL && Utf16Units(s.out[0]) == src[..s.units] && !s.illegal
    ensures s.units == |src| ==> !IsHigh(src[|src| - 1])
    ensures IsHigh(s.out[0]) ==> s.units == 1 && |src| > 1 && !IsLow(src[1])
  {
    Utf16WritesBack(Lenient, src);
  }

  /** There is no other way to join it. */
  lemma {:induction false} JoinedOnce(a: seq<nat>, b: seq<nat>)
    requires Legal(a) && Legal(b) && Joined(a) && Joined(b) && Encoded16(a) == Encoded16(b)
    ensures a == b
  {
    if a != [] && b != [] {
      FirstUnit(a, Encoded16(a));
      FirstUnit(b, Encoded16(b));
      FirstJoined(a, Encoded16(a));
      FirstJoined(b, Encoded16(b));
      assert Encoded16(a[1..]) == Encoded16(a)[|Utf16Units(a[0])|..];
      assert Encoded16(b[1..]) == Encoded16(b)[|Utf16Units(b[0])|..];
      JoinedOnce(a[1..], b[1..]);
      assert a == [a[0]] + a[1..] && b == [b[0]] + b[1..];
    }
  }

  /** The first character is told by the first units. */
  lemma FirstJoined(a: seq<nat>, e: seq<nat>)
    requires Legal(a) && Joined(a) && a != [] && e == Encoded16(a)
    ensures e != []
    ensures (a[0] == if |e| > 1 && IsHigh(e[0]) && IsLow(e[1]) then 0x10000 + (e[0] - 0xD800) * 0x400 + (e[1] - 0xDC00)
                     else e[0])
  {
    var units, rest := Utf16Units(a[0]), Encoded16(a[1..]);
    PairUnits(a[0]);
    assert e == units + rest;
    if a[0] <= MAX_BMP && a[1..] != [] {
      FirstUnit(a[1..], rest);
      PairUnits(a[1]);
      assert e[1] == rest[0] && !(IsHigh(a[0]) && IsLow(a[1]));
    }
  }

  lemma PairUnits(ch: nat)
    requires ch <= MAX_LEGAL
    ensures ch > MAX_BMP ==> |Utf16Units(ch)| == 2 && IsHigh(Utf16Units(ch)[0]) && IsLow(Utf16Units(ch)[1])
    ensures ch > MAX_BMP ==> ch == 0x10000 + (Utf16Units(ch)[0] - 0xD800) * 0x400 + (Utf16Units(ch)[1] - 0xDC00)
    ensures ch <= MAX_BMP ==> Utf16Units(ch) == [ch]
  {
    if ch > MAX_BMP {
      Digits(ch - 0x10000, 0x400, 0x400);
    }
  }

  // ----- UTF-32 -----

  /** In UTF-8 a character out of range is replaced. */
  function Text8(chars: seq<nat>): (r: seq<nat>)
    ensures Legal(r)
  {
    if chars == [] then [] else [if chars[0] <= MAX_LEGAL then chars[0] else 0xFFFD] + Text8(chars[1..])
  }

  /** In UTF-16 what is no scalar value is left out strictly, and replaced leniently. */
  function Text16(flags: Flags, chars: seq<nat>): (r: seq<nat>)
    ensures Legal(r)
  {
    if chars == [] then []
    else
      var ch := chars[0];
      (if IsScalar(ch) then [ch] else if flags == Strict then [] else [0xFFFD]) + Text16(flags, chars[1..])
  }

  /** Strictly the first surrogate ends the conversion from UTF-32; leniently nothing does. */
  ghost predicate StopsAt(flags: Flags, chars: seq<nat>, n: nat) {
    && n <= |chars|
    && (flags == Lenient ==> n == |chars|)
    && (flags == Strict ==> forall i :: 0 <= i < n ==> !IsSurrogate(chars[i]))
    && (flags == Strict && n < |chars| ==> IsSurrogate(chars[n]))
  }

  lemma StopsLater(flags: Flags, chars: seq<nat>, n: nat)
    requires chars != [] && StopsAt(flags, chars[1..], n) && (flags == Strict ==> !IsSurrogate(chars[0]))
    ensures StopsAt(flags, chars, n + 1) && chars[..n + 1] == [chars[0]] + chars[1..][..n]
  {
  }

  lemma {:induction false} Writes8From32(chars: seq<nat>, flags: Flags, o: Outcome)
    requires o == Ample(Utf32To8, flags, chars)
    ensures StopsAt(flags, chars, o.read) && o.out == Encoded8(Text8(chars[..o.read]))
    decreases |chars|
  {
    if chars != [] {
      var s := NextStep(Utf32To8, flags, chars);
      if s.Emit? {
        var p := Ample(Utf32To8, flags, chars[1..]);
        AmpleNext(Utf32To8, flags, chars, s, o, p);
        Writes8From32(chars[1..], flags, p);
        StopsLater(flags, chars, p.read);
        HeadText(chars[0], chars[1..][..p.read], chars[..o.read], flags);
      } else {
        AmpleHead(Utf32To8, flags, chars, s);
      }
    }
  }

  lemma HeadText(ch: nat, rest: seq<nat>, all: seq<nat>, flags: Flags)
    requires all == [ch] + rest
    ensures Encoded8(Text8(all)) == Utf8Bytes(if ch <= MAX_LEGAL then ch else 0xFFFD) + Encoded8(Text8(rest))
    ensures IsScalar(ch) ==> Encoded16(Text16(flags, all)) == Utf16Units(ch) + Encoded16(Text16(flags, rest))
    ensures !IsScalar(ch) && flags == Strict ==> Encoded16(Text16(flags, all)) == Encoded16(Text16(flags, rest))
    ensures (!IsScalar(ch) && flags == Lenient ==>
      Encoded16(Text16(flags, all)) == [0xFFFD] + Encoded16(Text16(flags, rest)))
  {
    var x := if ch <= MAX_LEGAL then ch else 0xFFFD;
    assert all[1..] == rest;
    assert ([x] + Text8(rest))[1..] == Text8(rest);
    if IsScalar(ch) {
      assert ([ch] + Text16(flags, rest))[1..] == Text16(flags, rest);
    } else if flags == Strict {
      assert [] + Text16(flags, rest) == Text16(flags, rest);
    } else {
      assert ([0xFFFD] + Text16(flags, rest))[1..] == Text16(flags, rest);
      assert Utf16Units(0xFFFD) == [0xFFFD];
    }
  }

  lemma {:induction false} Writes16From32(chars: seq<nat>, flags: Flags, o: Outcome)
    requires o == Ample(Utf32To16, flags, chars)
    ensures StopsAt(flags, chars, o.read) && o.out == Encoded16(Text16(flags, chars[..o.read]))
    decreases |chars|
  {
    if chars != [] {
      var s := NextStep(Utf32To16, flags, chars);
      if s.Emit? {
        var p := Ample(Utf32To16, flags, chars[1..]);
        AmpleNext(Utf32To16, flags, chars, s, o, p);
        Writes16From32(chars[1..], flags, p);
        StopsLater(flags, chars, p.read);
        HeadText(chars[0], chars[1..][..p.read], chars[..o.read], flags);
      } else {
        AmpleHead(Utf32To16, flags, chars, s);
      }
    }
  }

  lemma {:induction false} LegalText(chars: seq<nat>)
    requires Legal(chars)
    ensures Text8(chars) == chars
  {
    if chars != [] {
      LegalText(chars[1..]);
      assert chars == [chars[0]] + chars[1..];
    }
  }

  /** From lenient UTF-16 to UTF-8: the same reading, every character in its own bytes, surrogates too. */
  lemma LenientWrites8(src: seq<nat>, chars: seq<nat>)
    requires Below(src, 0x10000) && chars == Ample(Utf16To32, Lenient, src).out
    ensures Legal(chars) && Joined(chars)
    ensures (Ample(Utf16To8, Lenient, src) ==
      Outcome(if EndsHigh(src) then SourceExhausted else Ok, |src| - (if EndsHigh(src) then 1 else 0), Encoded8(chars)))
  {
    var bytes := Ample(Utf16To8, Lenient, src).out;
    LenientReads(src, Ample(Utf16To32, Lenient, src));
    Through32(src, Lenient, chars, bytes);
    Writes8From32(chars, Lenient, Ample(Utf32To8, Lenient, chars));
    assert chars[..|chars|] == chars;
    LegalText(chars);
  }

  // ----- Where strict UTF-16 stops -----

  /** A high surrogate that is the last unit may be half of a pair; any other single surrogate is illegal. */
  ghost predicate Unpaired(s: seq<nat>) {
    s != [] && (IsLow(s[0]) || (|s| > 1 && IsHigh(s[0]) && !IsLow(s[1])))
  }

  lemma {:induction false} StrictStops(c: Converter, src: seq<nat>, o: Outcome)
    requires (c == Utf16To8 || c == Utf16To32) && Below(src, 0x10000) && o == Ample(c, Strict, src)
    ensures o.read <= |src| && WellFormed16(src[..o.read])
    ensures o.result == Ok <==> src[o.read..] == []
    ensures o.result == SourceExhausted <==> |src[o.read..]| == 1 && IsHigh(src[o.read])
    ensures o.result == SourceIllegal <==> Unpaired(src[o.read..])
    decreases |src|, 1
  {
    if src == [] {
      assert src[..0] == [];
    } else {
      var s := NextStep(c, Strict, src);
      AmpleHead(c, Strict, src, s);
      StrictStep(c, src, s);
      if s.Emit? {
        StrictLater(c, src, s.units, o, src[s.units..], Ample(c, Strict, src[s.units..]));
      } else {
        assert src[0..] == src && src[..0] == [];
      }
    }
  }

  /** The first character of well-formed text, with its length. */
  ghost predicate PairOrUnit(src: seq<nat>, n: nat)
    requires n <= |src|
  {
    (n == 1 && !IsSurrogate(src[0])) || (n == 2 && IsHigh(src[0]) && IsLow(src[1]))
  }

  lemma StrictStep(c: Converter, src: seq<nat>, s: Step)
    requires (c == Utf16To8 || c == Utf16To32) && src != [] && Below(src, 0x10000) && s == NextStep(c, Strict, src)
    ensures s.Emit? ==> !s.illegal && s.units <= |src| && PairOrUnit(src, s.units)
    ensures s.Stop? ==> s.why == SourceExhausted || s.why == SourceIllegal
    ensures s.Stop? ==> if s.why == SourceExhausted then |src| == 1 && IsHigh(src[0]) else Unpaired(src)
  {
  }

  lemma {:induction false} StrictLater(c: Converter, src: seq<nat>, n: nat, o: Outcome, rest: seq<nat>, p: Outcome)
    requires (c == Utf16To8 || c == Utf16To32) && Below(src, 0x10000) && 0 < n <= |src| && rest == src[n..]
    requires PairOrUnit(src, n)
    requires p == Ample(c, Strict, rest) && o.result == p.result && o.read == n + p.read
    ensures o.read <= |src| && WellFormed16(src[..o.read])
    ensures o.result == Ok <==> src[o.read..] == []
    ensures o.result == SourceExhausted <==> |src[o.read..]| == 1 && IsHigh(src[o.read])
    ensures o.result == SourceIllegal <==> Unpaired(src[o.read..])
    decreases |src|, 0
  {
    StrictStops(c, rest, p);
    DropTwice(src, n, p.read);
    TakeSum(src, n, p.read, rest);
    WellFormedCons(src, n, rest[..p.read], src[..o.read]);
  }

  lemma WellFormedCons(src: seq<nat>, n: nat, rest: seq<nat>, all: seq<nat>)
    requires n <= |src| && all == src[..n] + rest && WellFormed16(rest)
    requires PairOrUnit(src, n)
    ensures WellFormed16(all)
  {
    assert all[n..] == rest;
  }

  // ----- Where UTF-8 stops -----

  /** How long a character is, by the range of its first byte. */
  function Announced(lead: nat): nat {
    if lead < 0xC0 then 1 else if lead < 0xE0 then 2 else if lead < 0xF0 then 3 else if lead < 0xF8 then 4
    else if lead < 0xFC then 5 else 6
  }

  /** What is taken for a character: the grammar, and what isLegalUTF8 overlooks. */
  predicate Accepted(b: seq<nat>) { WellFormedChar(b) || Overlooked(b) }

  ghost predicate AcceptedText(b: seq<nat>)
    decreases |b|
  {
    b == [] || (Announced(b[0]) <= |b| && Accepted(b[..Announced(b[0])]) && AcceptedText(b[Announced(b[0])..]))
  }

  /** In either mode: truncated text is told from illegal text by the number of bytes that are left. */
  lemma {:induction false} Utf8Stops(c: Converter, flags: Flags, b: seq<nat>, o: Outcome)
    requires (c == Utf8To16 || c == Utf8To32) && o == Ample(c, flags, b)
    ensures o.read <= |b| && AcceptedText(b[..o.read])
    ensures o.result == Ok <==> b[o.read..] == []
    ensures o.result == SourceExhausted <==> b[o.read..] != [] && Announced(b[o.read]) > |b[o.read..]|
    ensures o.result == SourceIllegal <==> (b[o.read..] != [] && Announced(b[o.read]) <= |b[o.read..]|
      && !Accepted(b[o.read..][..Announced(b[o.read])]))
    decreases |b|, 1
  {
    if b == [] {
      assert b[..0] == [];
    } else {
      var s := NextStep(c, flags, b);
      AmpleHead(c, flags, b, s);
      Utf8Step(c, flags, b, s);
      if s.Emit? {
        Utf8Later(c, flags, b, s.units, o, b[s.units..], Ample(c, flags, b[s.units..]));
      } else {
        assert b[0..] == b && b[..0] == [];
      }
    }
  }

  lemma {:induction false} Utf8Later(c: Converter, flags: Flags, b: seq<nat>, n: nat, o: Outcome, rest: seq<nat>,
                                     p: Outcome)
    requires (c == Utf8To16 || c == Utf8To32) && b != [] && n == Announced(b[0]) <= |b| && rest == b[n..]
    requires Accepted(b[..n]) && p == Ample(c, flags, rest) && o.result == p.result && o.read == n + p.read
    ensures o.read <= |b| && AcceptedText(b[..o.read])
    ensures o.result == Ok <==> b[o.read..] == []
    ensures o.result == SourceExhausted <==> b[o.read..] != [] && Announced(b[o.read]) > |b[o.read..]|
    ensures o.result == SourceIllegal <==> (b[o.read..] != [] && Announced(b[o.read]) <= |b[o.read..]|
      && !Accepted(b[o.read..][..Announced(b[o.read])]))
    decreases |b|, 0
  {
    Utf8Stops(c, flags, rest, p);
    DropTwice(b, n, p.read);
    TakeSum(b, n, p.read, rest);
    AcceptedCons(b[..n], rest[..p.read], b[..o.read]);
  }

  lemma Utf8Step(c: Converter, flags: Flags, b: seq<nat>, s: Step)
    requires (c == Utf8To16 || c == Utf8To32) && b != [] && s == NextStep(c, flags, b)
    ensures s.Emit? ==> s.units == Announced(b[0]) <= |b| && Accepted(b[..s.units]) && !s.illegal
    ensures s.Stop? ==> s.why == if Announced(b[0]) > |b| then SourceExhausted else SourceIllegal
    ensures s.Stop? && Announced(b[0]) <= |b| ==> !Accepted(b[..Announced(b[0])])
  {
    assert Announced(b[0]) == TrailingBytes(b[0]) + 1;
    if Announced(b[0]) <= |b| {
      LegalExactly(b);
      if DecodeUtf8(b).Char? {
        LegalIsScalar(b);
      }
    }
  }

  lemma AcceptedCons(first: seq<nat>, rest: seq<nat>, all: seq<nat>)
    requires first != [] && |first| == Announced(first[0]) && Accepted(first) && AcceptedText(rest)
    requires all == first + rest
    ensures AcceptedText(all)
  {
    assert all[..|first|] == first && all[|first|..] == rest && all[0] == first[0];
  }

  /** The mode does not matter for text in UTF-8: nothing that is accepted is a surrogate or out of range. */
  lemma {:induction false} ModeIrrelevant(c: Converter, b: seq<nat>)
    requires c == Utf8To16 || c == Utf8To32
    ensures Ample(c, Strict, b) == Ample(c, Lenient, b)
    decreases |b|
  {
    if b != [] {
      var s, e := NextStep(c, Strict, b), NextStep(c, Lenient, b);
      AmpleHead(c, Strict, b, s);
      AmpleHead(c, Lenient, b, e);
      Utf8Step(c, Strict, b, s);
      if DecodeUtf8(b).Char? {
        LegalIsScalar(b);
        ModeIrrelevant(c, b[s.units..]);
      }
    }
  }
}
