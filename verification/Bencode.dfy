/** The bencoder of dht_flood.py (BEP 3): a list of parts that is extended in place, and what the joined parts mean. */
module Bencode {
  import opened Common

  /** IntType and LongType are one type here, and so are ListType and TupleType. Entries are in order of insertion. */
  datatype Value = Int(n: int) | Str(s: string) | List(items: seq<Value>) | Dict(entries: seq<Entry>)

  datatype Entry = Entry(key: string, value: Value)

  // ----- Decimals -----

  function Digit(d: nat): char
    requires d < 10
  {
    "0123456789"[d]
  }

  predicate IsDigit(c: char) { c in "0123456789" }

  function Natural(n: nat): (s: string)
    ensures s != []
  {
    if n < 10 then [Digit(n)] else Natural(n / 10) + [Digit(n % 10)]
  }

  /** str(x) */
  function Decimal(n: int): string {
    if n < 0 then "-" + Natural(-n) else Natural(n)
  }

  ghost predicate AllDigits(s: string) {
    forall c <- s :: IsDigit(c)
  }

  lemma {:induction false} NaturalDigits(n: nat)
    ensures AllDigits(Natural(n))
  {
    if n >= 10 {
      NaturalDigits(n / 10);
    }
  }

  lemma {:induction false} NaturalInjective(a: nat, b: nat)
    requires Natural(a) == Natural(b)
    ensures a == b
  {
    var s, t := Natural(a), Natural(b);
    assert s[|s| - 1] == Digit(a % 10) && t[|t| - 1] == Digit(b % 10);
    if a >= 10 && b >= 10 {
      assert s[..|s| - 1] == Natural(a / 10) && t[..|t| - 1] == Natural(b / 10);
      NaturalInjective(a / 10, b / 10);
    }
  }

  /** How many digits a text begins with. */
  function DigitRun(s: string): nat {
    if s == [] || !IsDigit(s[0]) then 0 else 1 + DigitRun(s[1..])
  }

  lemma {:induction false} RunEnds(s: string, c: char, x: string)
    requires AllDigits(s) && !IsDigit(c)
    ensures DigitRun(s + ([c] + x)) == |s|
  {
    if s == [] {
      assert s + ([c] + x) == [c] + x;
    } else {
      assert s[0] in s;
      assert (s + ([c] + x))[1..] == s[1..] + ([c] + x);
      RunEnds(s[1..], c, x);
    }
  }

  lemma SplitAt<T>(a: seq<T>, b: seq<T>, x: seq<T>, y: seq<T>)
    requires a + x == b + y && |a| == |b|
    ensures a == b && x == y
  {
    assert (a + x)[..|a|] == a && (b + y)[..|b|] == b && (a + x)[|a|..] == x && (b + y)[|b|..] == y;
  }

  /** Digits that are followed by something else can be told from what follows. */
  lemma DigitsEnd(s: string, t: string, c: char, x: string, y: string)
    requires AllDigits(s) && AllDigits(t) && !IsDigit(c) && s + ([c] + x) == t + ([c] + y)
    ensures s == t && x == y
  {
    RunEnds(s, c, x);
    RunEnds(t, c, y);
    SplitAt(s, t, [c] + x, [c] + y);
    SplitAt([c], [c], x, y);
  }

  // ----- The encoding of entries in a given order -----

  function Framed(s: string): string {
    Natural(|s|) + ":" + s
  }

  function Raw(v: Value): string {
    match v
    case Int(n) => "i" + Decimal(n) + "e"
    case Str(s) => Framed(s)
    case List(items) => "l" + RawItems(items) + "e"
    case Dict(entries) => "d" + RawEntries(entries) + "e"
  }

  function RawItems(items: seq<Value>): string {
    if items == [] then "" else Raw(items[0]) + RawItems(items[1..])
  }

  function RawEntries(entries: seq<Entry>): string {
    if entries == [] then "" else Framed(entries[0].key) + Raw(entries[0].value) + RawEntries(entries[1..])
  }

  lemma FirstChar(v: Value)
    ensures Raw(v) != "" && (var c := Raw(v)[0];
      match v case Int(_) => c == 'i' case Str(_) => IsDigit(c) case List(_) => c == 'l' case Dict(_) => c == 'd')
  {
    if v.Str? {
      NaturalDigits(|v.s|);
      assert Raw(v)[0] == Natural(|v.s|)[0] && Natural(|v.s|)[0] in Natural(|v.s|);
    }
  }

  lemma DecimalHead(n: int, x: string)
    ensures Decimal(n) != "" && (Decimal(n) + x)[0] == Decimal(n)[0] && (Decimal(n)[0] == '-' <==> n < 0)
  {
    if n >= 0 {
      NaturalDigits(n);
      assert Natural(n)[0] in Natural(n);
    }
  }

  lemma SameSign(a: int, b: int, x: string, y: string, s: string)
    requires s == Decimal(a) + x == Decimal(b) + y
    ensures a < 0 <==> b < 0
  {
    DecimalHead(a, x);
    DecimalHead(b, y);
  }

  lemma DecimalUnique(a: int, b: int, x: string, y: string)
    requires Decimal(a) + ("e" + x) == Decimal(b) + ("e" + y)
    ensures a == b && x == y
  {
    SameSign(a, b, "e" + x, "e" + y, Decimal(a) + ("e" + x));
    if a < 0 {
      BothNegative(a, b, x, y);
    } else {
      BothNatural(a, b, x, y);
    }
  }

  lemma BothNegative(a: int, b: int, x: string, y: string)
    requires a < 0 && b < 0 && Decimal(a) + ("e" + x) == Decimal(b) + ("e" + y)
    ensures a == b && x == y
  {
    NegativeUnique(-a, -b, x, y);
  }

  lemma BothNatural(a: int, b: int, x: string, y: string)
    requires a >= 0 && b >= 0 && Decimal(a) + ("e" + x) == Decimal(b) + ("e" + y)
    ensures a == b && x == y
  {
    NaturalUnique(a, b, x, y);
  }

  lemma NegativeUnique(a: nat, b: nat, x: string, y: string)
    requires "-" + Natural(a) + ("e" + x) == "-" + Natural(b) + ("e" + y)
    ensures a == b && x == y
  {
    assert "-" + Natural(a) + ("e" + x) == "-" + (Natural(a) + ("e" + x));
    assert "-" + Natural(b) + ("e" + y) == "-" + (Natural(b) + ("e" + y));
    SplitAt("-", "-", Natural(a) + ("e" + x), Natural(b) + ("e" + y));
    NaturalUnique(a, b, x, y);
  }

  lemma NaturalUnique(a: nat, b: nat, x: string, y: string)
    requires Natural(a) + ("e" + x) == Natural(b) + ("e" + y)
    ensures a == b && x == y
  {
    NaturalDigits(a);
    NaturalDigits(b);
    DigitsEnd(Natural(a), Natural(b), 'e', x, y);
    NaturalInjective(a, b);
  }

  lemma FramedUnique(a: string, b: string, x: string, y: string)
    requires Framed(a) + x == Framed(b) + y
    ensures a == b && x == y
  {
    NaturalDigits(|a|);
    NaturalDigits(|b|);
    assert Framed(a) + x == Natural(|a|) + ([':'] + (a + x));
    assert Framed(b) + y == Natural(|b|) + ([':'] + (b + y));
    DigitsEnd(Natural(|a|), Natural(|b|), ':', a + x, b + y);
    NaturalInjective(|a|, |b|);
    SplitAt(a, b, x, y);
  }

  /** What stands between the first character and the final e. */
  lemma Inside(c: char, s: string, t: string, x: string, y: string)
    requires [c] + s + "e" + x == [c] + t + "e" + y
    ensures s + ("e" + x) == t + ("e" + y)
  {
    assert [c] + s + "e" + x == [c] + (s + ("e" + x));
    assert [c] + t + "e" + y == [c] + (t + ("e" + y));
    SplitAt([c], [c], s + ("e" + x), t + ("e" + y));
  }

  lemma RegroupText(a: string, b: string, c: string)
    ensures a + b + c == a + (b + c)
    ensures a != "" ==> (a + (b + c))[0] == a[0]
  {
  }

  lemma RegroupTwice(a: string, b: string, c: string, d: string)
    ensures a + b + c + d == a + (b + (c + d))
    ensures a != "" ==> (a + (b + (c + d)))[0] == a[0]
  {
    RegroupText(a + b, c, d);
    RegroupText(a, b, c + d);
  }

  lemma ItemsHead(a: seq<Value>, x: string, s: string)
    requires s == RawItems(a) + ("e" + x)
    ensures (s[0] == 'e' <==> a == []) && (a == [] ==> s == "e" + x)
    ensures a != [] ==> s == Raw(a[0]) + (RawItems(a[1..]) + ("e" + x))
  {
    if a != [] {
      FirstChar(a[0]);
      RegroupText(Raw(a[0]), RawItems(a[1..]), "e" + x);
    }
  }

  lemma EntriesHead(a: seq<Entry>, x: string, s: string)
    requires s == RawEntries(a) + ("e" + x)
    ensures (s[0] == 'e' <==> a == []) && (a == [] ==> s == "e" + x)
    ensures a != [] ==> s == Framed(a[0].key) + (Raw(a[0].value) + (RawEntries(a[1..]) + ("e" + x)))
  {
    if a != [] {
      FirstChar(Str(a[0].key));
      RegroupTwice(Framed(a[0].key), Raw(a[0].value), RawEntries(a[1..]), "e" + x);
    }
  }

  lemma SameKind(v: Value, w: Value, x: string, y: string)
    requires Raw(v) + x == Raw(w) + y
    ensures (v.Int? <==> w.Int?) && (v.Str? <==> w.Str?) && (v.List? <==> w.List?) && (v.Dict? <==> w.Dict?)
  {
    FirstChar(v);
    FirstChar(w);
    assert Raw(v)[0] == (Raw(v) + x)[0] == (Raw(w) + y)[0] == Raw(w)[0];
  }

  /** What follows a value does not matter: the value can be told from the front of the text. */
  lemma {:induction false} RawUnique(v: Value, w: Value, x: string, y: string)
    requires Raw(v) + x == Raw(w) + y
    ensures v == w && x == y
    decreases v
  {
    SameKind(v, w, x, y);
    match v {
      case Int(a) =>
        Inside('i', Decimal(a), Decimal(w.n), x, y);
        DecimalUnique(a, w.n, x, y);
      case Str(a) =>
        FramedUnique(a, w.s, x, y);
      case List(a) =>
        Inside('l', RawItems(a), RawItems(w.items), x, y);
        ItemsUnique(a, w.items, x, y);
      case Dict(a) =>
        Inside('d', RawEntries(a), RawEntries(w.entries), x, y);
        EntriesUnique(a, w.entries, x, y);
    }
  }

  lemma {:induction false} ItemsUnique(a: seq<Value>, b: seq<Value>, x: string, y: string)
    requires RawItems(a) + ("e" + x) == RawItems(b) + ("e" + y)
    ensures a == b && x == y
    decreases a
  {
    ItemsHead(a, x, RawItems(a) + ("e" + x));
    ItemsHead(b, y, RawItems(b) + ("e" + y));
    if a == [] {
      SplitAt("e", "e", x, y);
    } else {
      RawUnique(a[0], b[0], RawItems(a[1..]) + ("e" + x), RawItems(b[1..]) + ("e" + y));
      ItemsUnique(a[1..], b[1..], x, y);
      assert a == [a[0]] + a[1..] && b == [b[0]] + b[1..];
    }
  }

  lemma {:induction false} EntriesUnique(a: seq<Entry>, b: seq<Entry>, x: string, y: string)
    requires RawEntries(a) + ("e" + x) == RawEntries(b) + ("e" + y)
    ensures a == b && x == y
    decreases a
  {
    EntriesHead(a, x, RawEntries(a) + ("e" + x));
    EntriesHead(b, y, RawEntries(b) + ("e" + y));
    if a == [] {
      SplitAt("e", "e", x, y);
    } else {
      var p, q := RawEntries(a[1..]) + ("e" + x), RawEntries(b[1..]) + ("e" + y);
      FramedUnique(a[0].key, b[0].key, Raw(a[0].value) + p, Raw(b[0].value) + q);
      RawUnique(a[0].value, b[0].value, p, q);
      EntriesUnique(a[1..], b[1..], x, y);
      assert a == [a[0]] + a[1..] && b == [b[0]] + b[1..];
    }
  }

  // ----- Sorted dictionaries -----

  /** The order of byte strings. */
  predicate Less(a: string, b: string) {
    b != [] && (a == [] || a[0] < b[0] || (a[0] == b[0] && Less(a[1..], b[1..])))
  }

  lemma {:induction false} LessTotal(a: string, b: string)
    ensures Less(a, b) || a == b || Less(b, a)
    ensures !(Less(a, b) && Less(b, a)) && !Less(a, a)
  {
    if a != [] {
      LessTotal(a[1..], a[1..]);
    }
    if a != [] && b != [] {
      LessTotal(a[1..], b[1..]);
      assert a == [a[0]] + a[1..] && b == [b[0]] + b[1..];
    }
  }

  lemma {:induction false} LessTransitive(a: string, b: string, c: string)
    requires Less(a, b) && Less(b, c)
    ensures Less(a, c)
  {
    if a != [] && a[0] == b[0] == c[0] {
      LessTransitive(a[1..], b[1..], c[1..]);
    }
  }

  function Insert(e: Entry, sorted: seq<Entry>): seq<Entry> {
    if sorted == [] || Less(e.key, sorted[0].key) then [e] + sorted else [sorted[0]] + Insert(e, sorted[1..])
  }

  /** ilist.sort(): the keys of a dictionary are distinct, so only they decide. */
  function Sort(entries: seq<Entry>): seq<Entry> {
    if entries == [] then [] else Insert(entries[0], Sort(entries[1..]))
  }

  /** The value with every dictionary in it sorted. */
  function Canon(v: Value): Value {
    match v
    case Int(_) => v
    case Str(_) => v
    case List(items) => List(CanonItems(items))
    case Dict(entries) => Dict(Sort(CanonEntries(entries)))
  }

  function CanonItems(items: seq<Value>): seq<Value> {
    if items == [] then [] else [Canon(items[0])] + CanonItems(items[1..])
  }

  function CanonEntries(entries: seq<Entry>): seq<Entry> {
    if entries == [] then []
    else [Entry(entries[0].key, Canon(entries[0].value))] + CanonEntries(entries[1..])
  }

  /** What bencode returns. */
  function Bencoded(v: Value): string {
    Raw(Canon(v))
  }

  ghost predicate Ascending(s: seq<Entry>) {
    forall i, j :: 0 <= i < j < |s| ==> Less(s[i].key, s[j].key)
  }

  ghost predicate DistinctKeys(s: seq<Entry>) {
    forall i, j :: 0 <= i < j < |s| ==> s[i].key != s[j].key
  }

  lemma {:induction false} InsertMembers(e: Entry, s: seq<Entry>)
    ensures forall f :: f in Insert(e, s) <==> f == e || f in s
  {
    if s != [] && !Less(e.key, s[0].key) {
      InsertMembers(e, s[1..]);
      assert s == [s[0]] + s[1..];
    }
  }

  lemma {:induction false} InsertAscending(e: Entry, s: seq<Entry>)
    requires Ascending(s) && forall f <- s :: f.key != e.key
    ensures Ascending(Insert(e, s))
  {
    InsertMembers(e, s);
    if s == [] {
    } else if Less(e.key, s[0].key) {
      forall f | f in s ensures Less(e.key, f.key) {
        if f != s[0] { LessTransitive(e.key, s[0].key, f.key); }
      }
      ConsAscending(e, s);
    } else {
      LessTotal(e.key, s[0].key);
      assert s[0] in s;
      InsertAscending(e, s[1..]);
      InsertMembers(e, s[1..]);
      forall f | f in Insert(e, s[1..]) ensures Less(s[0].key, f.key) {
      }
      ConsAscending(s[0], Insert(e, s[1..]));
    }
  }

  lemma ConsAscending(e: Entry, s: seq<Entry>)
    requires Ascending(s) && forall f <- s :: Less(e.key, f.key)
    ensures Ascending([e] + s)
  {
    forall j | 0 < j <= |s| ensures Less(e.key, ([e] + s)[j].key) {
      assert ([e] + s)[j] in s;
    }
  }

  lemma {:induction false} Sorted(entries: seq<Entry>)
    ensures forall e :: e in Sort(entries) <==> e in entries
    ensures DistinctKeys(entries) ==> Ascending(Sort(entries))
  {
    if entries != [] {
      var e, rest := entries[0], entries[1..];
      assert entries == [e] + rest;
      Sorted(rest);
      InsertMembers(e, Sort(rest));
      if DistinctKeys(entries) {
        assert DistinctKeys(rest);
        forall f | f in rest ensures f.key != e.key {
          var i :| 0 <= i < |rest| && rest[i] == f;
          assert entries[i + 1] == f;
        }
        InsertAscending(e, Sort(rest));
      }
    }
  }

  /** There is only one way to put the same entries in order. */
  lemma {:induction false} AscendingUnique(a: seq<Entry>, b: seq<Entry>)
    requires Ascending(a) && Ascending(b) && forall e :: e in a <==> e in b
    ensures a == b
  {
    assert (a != [] ==> a[0] in a) && (b != [] ==> b[0] in b);
    if a != [] {
      FirstIsLeast(a, b[0]);
      FirstIsLeast(b, a[0]);
      LessTotal(a[0].key, b[0].key);
      TailMembers(a);
      TailMembers(b);
      AscendingUnique(a[1..], b[1..]);
      assert a == [a[0]] + a[1..] && b == [b[0]] + b[1..];
    }
  }

  lemma FirstIsLeast(a: seq<Entry>, e: Entry)
    requires Ascending(a) && e in a
    ensures e == a[0] || Less(a[0].key, e.key)
  {
  }

  lemma TailMembers(a: seq<Entry>)
    requires Ascending(a) && a != []
    ensures forall e :: e in a[1..] <==> e in a && e != a[0]
  {
    LessTotal(a[0].key, a[0].key);
    assert a == [a[0]] + a[1..];
    forall i | 0 < i < |a| ensures a[i] != a[0] {
      LessTotal(a[i].key, a[i].key);
    }
  }

  // ----- The laws -----

  /** No encoding is a prefix of another, unless the values differ only in the order of their dictionaries. */
  lemma PrefixFree(v: Value, w: Value)
    requires Bencoded(v) <= Bencoded(w)
    ensures Canon(v) == Canon(w) && Bencoded(v) == Bencoded(w)
  {
    var rest := Bencoded(w)[|Bencoded(v)|..];
    assert Bencoded(v) + rest == Bencoded(w) + "";
    RawUnique(Canon(v), Canon(w), rest, "");
  }

  /** Equal encodings, equal values, up to the order of dictionaries. */
  lemma Injective(v: Value, w: Value)
    ensures Bencoded(v) == Bencoded(w) <==> Canon(v) == Canon(w)
  {
    if Bencoded(v) == Bencoded(w) {
      PrefixFree(v, w);
    }
  }

  lemma {:induction false} InsertCanon(e: Entry, s: seq<Entry>)
    ensures CanonEntries(Insert(e, s)) == Insert(Entry(e.key, Canon(e.value)), CanonEntries(s))
  {
    if s != [] {
      InsertCanon(e, s[1..]);
      assert ([e] + s)[1..] == s;
      assert ([s[0]] + Insert(e, s[1..]))[1..] == Insert(e, s[1..]);
      assert CanonEntries(s)[1..] == CanonEntries(s[1..]);
    } else {
      assert [e][1..] == [];
    }
  }

  lemma {:induction false} SortCanon(entries: seq<Entry>)
    ensures Sort(CanonEntries(entries)) == CanonEntries(Sort(entries))
  {
    if entries != [] {
      SortCanon(entries[1..]);
      InsertCanon(entries[0], Sort(entries[1..]));
      assert CanonEntries(entries)[1..] == CanonEntries(entries[1..]);
    }
  }

  /** The encoding of a dictionary does not depend on the order in which its entries were inserted. */
  lemma OrderIrrelevant(a: seq<Entry>, b: seq<Entry>)
    requires DistinctKeys(a) && DistinctKeys(b) && forall e :: e in a <==> e in b
    ensures Bencoded(Dict(a)) == Bencoded(Dict(b))
  {
    Sorted(a);
    Sorted(b);
    AscendingUnique(Sort(a), Sort(b));
    SortCanon(a);
    SortCanon(b);
  }

  // ----- What it means for two values to be the same -----

  /** In every dictionary, at any depth, each key occurs once, as in Python. */
  ghost predicate Proper(v: Value) {
    match v
    case Int(_) => true
    case Str(_) => true
    case List(items) => forall i :: 0 <= i < |items| ==> Proper(items[i])
    case Dict(entries) => DistinctKeys(entries) && forall i :: 0 <= i < |entries| ==> Proper(entries[i].value)
  }

  ghost predicate HasKey(entries: seq<Entry>, key: string) {
    exists i :: 0 <= i < |entries| && entries[i].key == key
  }

  /** Dictionaries are the same if they have the same keys, and the same value under each, at any depth. */
  ghost predicate Same(v: Value, w: Value) {
    match v
    case Int(n) => w == Int(n)
    case Str(s) => w == Str(s)
    case List(items) =>
      w.List? && |items| == |w.items| && forall i :: 0 <= i < |items| ==> Same(items[i], w.items[i])
    case Dict(entries) =>
      && w.Dict? && (forall key :: HasKey(entries, key) <==> HasKey(w.entries, key))
      && (forall i, j :: 0 <= i < |entries| && 0 <= j < |w.entries| && entries[i].key == w.entries[j].key ==>
            Same(entries[i].value, w.entries[j].value))
  }

  lemma {:induction false} CanonItemsAt(items: seq<Value>)
    ensures |CanonItems(items)| == |items|
    ensures forall i :: 0 <= i < |items| ==> CanonItems(items)[i] == Canon(items[i])
  {
    if items != [] {
      CanonItemsAt(items[1..]);
    }
  }

  lemma {:induction false} CanonEntriesAt(entries: seq<Entry>)
    ensures |CanonEntries(entries)| == |entries|
    ensures forall i :: 0 <= i < |entries| ==>
      CanonEntries(entries)[i] == Entry(entries[i].key, Canon(entries[i].value))
  {
    if entries != [] {
      CanonEntriesAt(entries[1..]);
    }
  }

  /** Sorting makes two dictionaries equal exactly if they have the same entries. */
  lemma SortedEqual(a: seq<Entry>, b: seq<Entry>)
    requires DistinctKeys(a) && DistinctKeys(b)
    ensures Sort(a) == Sort(b) <==> forall e :: e in a <==> e in b
  {
    Sorted(a);
    Sorted(b);
    if forall e :: e in a <==> e in b {
      AscendingUnique(Sort(a), Sort(b));
    }
  }

  /** Two dictionaries whose values were compared already. */
  lemma SameEntries(a: seq<Entry>, b: seq<Entry>, x: seq<Entry>, y: seq<Entry>)
    requires DistinctKeys(a) && DistinctKeys(b) && |x| == |a| && |y| == |b|
    requires forall i :: 0 <= i < |a| ==> x[i] == Entry(a[i].key, Canon(a[i].value))
    requires forall j :: 0 <= j < |b| ==> y[j] == Entry(b[j].key, Canon(b[j].value))
    requires forall i, j :: 0 <= i < |a| && 0 <= j < |b| ==>
      (Canon(a[i].value) == Canon(b[j].value) <==> Same(a[i].value, b[j].value))
    ensures (forall e :: e in x <==> e in y) <==> Same(Dict(a), Dict(b))
  {
    if forall e :: e in x <==> e in y {
      MembersSame(a, b, x, y);
    }
    if Same(Dict(a), Dict(b)) {
      SameMembers(a, b, x, y);
      SameMembersBack(a, b, x, y);
    }
  }

  lemma MembersSame(a: seq<Entry>, b: seq<Entry>, x: seq<Entry>, y: seq<Entry>)
    requires DistinctKeys(a) && DistinctKeys(b) && |x| == |a| && |y| == |b|
    requires forall i :: 0 <= i < |a| ==> x[i] == Entry(a[i].key, Canon(a[i].value))
    requires forall j :: 0 <= j < |b| ==> y[j] == Entry(b[j].key, Canon(b[j].value))
    requires forall i, j :: 0 <= i < |a| && 0 <= j < |b| ==>
      (Canon(a[i].value) == Canon(b[j].value) <==> Same(a[i].value, b[j].value))
    requires forall e :: e in x <==> e in y
    ensures Same(Dict(a), Dict(b))
  {
    forall i | 0 <= i < |a| ensures HasKey(b, a[i].key) {
      assert x[i] in y;
      var j :| 0 <= j < |y| && y[j] == x[i];
      assert b[j].key == a[i].key;
    }
    forall j | 0 <= j < |b| ensures HasKey(a, b[j].key) {
      assert y[j] in x;
      var i :| 0 <= i < |x| && x[i] == y[j];
      assert a[i].key == b[j].key;
    }
    forall i, j | 0 <= i < |a| && 0 <= j < |b| && a[i].key == b[j].key ensures Same(a[i].value, b[j].value) {
      assert x[i] in y;
      var k :| 0 <= k < |y| && y[k] == x[i];
      assert b[k].key == b[j].key;
      assert k == j;
    }
  }

  lemma SameMembers(a: seq<Entry>, b: seq<Entry>, x: seq<Entry>, y: seq<Entry>)
    requires |x| == |a| && |y| == |b| && Same(Dict(a), Dict(b))
    requires forall i :: 0 <= i < |a| ==> x[i] == Entry(a[i].key, Canon(a[i].value))
    requires forall j :: 0 <= j < |b| ==> y[j] == Entry(b[j].key, Canon(b[j].value))
    requires forall i, j :: 0 <= i < |a| && 0 <= j < |b| ==>
      (Canon(a[i].value) == Canon(b[j].value) <==> Same(a[i].value, b[j].value))
    ensures forall e :: e in x ==> e in y
  {
    forall i | 0 <= i < |x| ensures x[i] in y {
      assert HasKey(a, a[i].key);
      assert HasKey(b, a[i].key);
      var j :| 0 <= j < |b| && b[j].key == a[i].key;
      assert x[i] == y[j];
    }
  }

  lemma SameMembersBack(a: seq<Entry>, b: seq<Entry>, x: seq<Entry>, y: seq<Entry>)
    requires |x| == |a| && |y| == |b| && Same(Dict(a), Dict(b))
    requires forall i :: 0 <= i < |a| ==> x[i] == Entry(a[i].key, Canon(a[i].value))
    requires forall j :: 0 <= j < |b| ==> y[j] == Entry(b[j].key, Canon(b[j].value))
    requires forall i, j :: 0 <= i < |a| && 0 <= j < |b| ==>
      (Canon(a[i].value) == Canon(b[j].value) <==> Same(a[i].value, b[j].value))
    ensures forall e :: e in y ==> e in x
  {
    forall j | 0 <= j < |y| ensures y[j] in x {
      assert HasKey(b, b[j].key);
      assert HasKey(a, b[j].key);
      var i :| 0 <= i < |a| && a[i].key == b[j].key;
      assert x[i] == y[j];
    }
  }

  /** The canonical values are equal exactly if the values are the same. */
  lemma {:induction false} CanonSame(v: Value, w: Value)
    requires Proper(v) && Proper(w)
    ensures Canon(v) == Canon(w) <==> Same(v, w)
    decreases v
  {
    if v.List? && w.List? {
      CanonItemsAt(v.items);
      CanonItemsAt(w.items);
      if |v.items| == |w.items| {
        forall i | 0 <= i < |v.items| ensures Canon(v.items[i]) == Canon(w.items[i]) <==> Same(v.items[i], w.items[i]) {
          CanonSame(v.items[i], w.items[i]);
        }
        ListsSame(v.items, w.items, CanonItems(v.items), CanonItems(w.items));
      }
    } else if v.Dict? && w.Dict? {
      var a, b := v.entries, w.entries;
      var x, y := CanonEntries(a), CanonEntries(b);
      CanonEntriesAt(a);
      CanonEntriesAt(b);
      forall i, j | 0 <= i < |a| && 0 <= j < |b|
        ensures Canon(a[i].value) == Canon(b[j].value) <==> Same(a[i].value, b[j].value)
      {
        CanonSame(a[i].value, b[j].value);
      }
      SortedEqual(x, y);
      SameEntries(a, b, x, y);
    }
  }

  lemma ListsSame(a: seq<Value>, b: seq<Value>, x: seq<Value>, y: seq<Value>)
    requires |a| == |b| == |x| == |y|
    requires forall i :: 0 <= i < |a| ==> x[i] == Canon(a[i]) && y[i] == Canon(b[i])
    requires forall i :: 0 <= i < |a| ==> (Canon(a[i]) == Canon(b[i]) <==> Same(a[i], b[i]))
    ensures x == y <==> forall i :: 0 <= i < |a| ==> Same(a[i], b[i])
  {
    if x == y {
      forall i | 0 <= i < |a| ensures Same(a[i], b[i]) {
        assert x[i] == y[i];
      }
    }
  }

  /** Two values have the same encoding exactly if they are the same, whatever the order their entries came in. */
  lemma EncodesTheSame(v: Value, w: Value)
    requires Proper(v) && Proper(w)
    ensures Bencoded(v) == Bencoded(w) <==> Same(v, w)
    ensures Bencoded(v) <= Bencoded(w) <==> Same(v, w)
  {
    CanonSame(v, w);
    Injective(v, w);
    if Bencoded(v) <= Bencoded(w) {
      PrefixFree(v, w);
    }
  }

  // ----- Reading back -----

  /** The number a text of digits denotes. */
  function Denoted(s: string): int {
    if s == "" then 0 else 10 * Denoted(s[..|s| - 1]) + (s[|s| - 1] as int - '0' as int)
  }

  /** A decimal without sign and without leading zero. */
  ghost predicate IsNumeral(s: string, n: nat) {
    && s != "" && (forall c <- s :: '0' <= c <= '9') && Denoted(s) == n && (|s| > 1 ==> s[0] != '0')
  }

  /** The decimal of an integer, as BEP 3 asks for it. */
  ghost predicate IsDecimal(s: string, n: int) {
    if n < 0 then s != "" && s[0] == '-' && IsNumeral(s[1..], -n) else IsNumeral(s, n)
  }

  lemma DigitDenotes(d: nat)
    requires d < 10
    ensures '0' <= Digit(d) <= '9' && Digit(d) as int - '0' as int == d
  {
  }

  lemma {:induction false} NaturalDenotes(n: nat)
    ensures IsNumeral(Natural(n), n) && (n > 0 ==> Natural(n)[0] != '0')
  {
    DigitDenotes(n % 10);
    if n < 10 {
      assert Denoted([Digit(n)]) == 10 * Denoted("") + n;
    } else {
      NaturalDenotes(n / 10);
      var s := Natural(n);
      assert s[..|s| - 1] == Natural(n / 10);
    }
  }

  lemma NegativeDenotes(m: nat, s: string)
    requires s == "-" + Natural(m)
    ensures s[0] == '-' && IsNumeral(s[1..], m)
  {
    NaturalDenotes(m);
    assert s[1..] == Natural(m);
  }

  lemma DecimalDenotes(n: int)
    ensures IsDecimal(Decimal(n), n)
  {
    if n < 0 {
      NegativeDenotes(-n, Decimal(n));
    } else {
      NaturalDenotes(n);
    }
  }

  /** What a reader of BEP 3 finds at the front of a text, and what follows. */
  datatype Read = Read(value: Value, rest: string) | Bad

  /** How many characters of a text are in front of the first `c`, or its length. */
  function Until(s: string, c: char): (n: nat)
    ensures n <= |s| && (n < |s| ==> s[n] == c)
  {
    if s == "" || s[0] == c then 0 else 1 + Until(s[1..], c)
  }

  function ReadInt(s: string): (r: Read)
    ensures r.Read? ==> |r.rest| < |s|
  {
    var n := Until(s, 'e');
    if n == |s| || n == 0 then Bad
    else if s[0] == '-' then Read(Int(-Denoted(s[1..n])), s[n + 1..])
    else Read(Int(Denoted(s[..n])), s[n + 1..])
  }

  function ReadStr(s: string): (r: Read)
    ensures r.Read? ==> r.value.Str? && |r.rest| < |s|
  {
    var n := Until(s, ':');
    if n == |s| || n == 0 then Bad
    else
      var size, after := Denoted(s[..n]), s[n + 1..];
      if 0 <= size <= |after| then Read(Str(after[..size]), after[size..]) else Bad
  }

  /** Any value: an integer, a list or a dictionary by its first letter, or else a string. */
  function ReadValue(s: string): (r: Read)
    ensures r.Read? ==> |r.rest| < |s|
    decreases |s|, 1
  {
    if s == "" then Bad
    else if s[0] == 'i' then ReadInt(s[1..])
    else if s[0] == 'l' then ReadItems(s[1..], [])
    else if s[0] == 'd' then ReadEntries(s[1..], [])
    else ReadStr(s)
  }

  function ReadItems(s: string, items: seq<Value>): (r: Read)
    ensures r.Read? ==> |r.rest| < |s|
    decreases |s|, 2
  {
    if s == "" then Bad
    else if s[0] == 'e' then Read(List(items), s[1..])
    else
      var v := ReadValue(s);
      if v.Bad? then Bad else ReadItems(v.rest, items + [v.value])
  }

  function ReadEntries(s: string, entries: seq<Entry>): (r: Read)
    ensures r.Read? ==> |r.rest| < |s|
    decreases |s|, 2
  {
    if s == "" then Bad
    else if s[0] == 'e' then Read(Dict(entries), s[1..])
    else
      var k := ReadStr(s);
      if k.Bad? then Bad
      else
        var v := ReadValue(k.rest);
        if v.Bad? then Bad else ReadEntries(v.rest, entries + [Entry(k.value.s, v.value)])
  }

  lemma {:induction false} UntilFirst(s: string, c: char, x: string)
    requires c !in s
    ensures Until(s + ([c] + x), c) == |s|
  {
    if s == "" {
      assert s + ([c] + x) == [c] + x;
    } else {
      assert s[0] in s;
      assert (s + ([c] + x))[0] == s[0] && (s + ([c] + x))[1..] == s[1..] + ([c] + x);
      UntilFirst(s[1..], c, x);
    }
  }

  lemma AfterMark(s: string, c: char, x: string)
    ensures (s + ([c] + x))[..|s|] == s && (s + ([c] + x))[|s| + 1..] == x
  {
  }

  lemma IntReadsBack(n: int, x: string)
    ensures ReadInt(Decimal(n) + ("e" + x)) == Read(Int(n), x)
  {
    var d := Decimal(n);
    DecimalDenotes(n);
    assert 'e' !in d by {
      if n < 0 {
        assert d == "-" + d[1..];
      }
    }
    UntilFirst(d, 'e', x);
    AfterMark(d, 'e', x);
    var s := d + ("e" + x);
    assert s[0] == d[0] && d[0] in d && s[1..|d|] == d[1..];
    assert n >= 0 ==> d[0] != '-';
  }

  lemma StrReadsBack(s: string, x: string)
    ensures ReadStr(Framed(s) + x) == Read(Str(s), x)
    ensures (Framed(s) + x)[0] != 'i' && (Framed(s) + x)[0] != 'l' && (Framed(s) + x)[0] != 'd'
    ensures (Framed(s) + x)[0] != 'e'
  {
    var d := Natural(|s|);
    NaturalDenotes(|s|);
    assert Framed(s) + x == d + (":" + (s + x));
    assert d[0] in d;
    UntilFirst(d, ':', s + x);
    AfterMark(d, ':', s + x);
    assert (s + x)[..|s|] == s && (s + x)[|s|..] == x;
  }
  lemma ItemsStep(s: string, done: seq<Value>, v: Value, after: string)
    requires s != "" && s[0] != 'e' && ReadValue(s) == Read(v, after)
    ensures ReadItems(s, done) == ReadItems(after, done + [v])
  {
  }

  lemma EntriesStep(s: string, done: seq<Entry>, k: string, after: string, e: Entry, rest: string)
    requires s != "" && s[0] != 'e' && e.key == k
    requires ReadStr(s) == Read(Str(k), after) && ReadValue(after) == Read(e.value, rest)
    ensures ReadEntries(s, done) == ReadEntries(rest, done + [e])
  {
  }

  /** Reading what was written gives the value, whatever follows. */
  lemma {:induction false} RawReadsBack(v: Value, x: string)
    ensures ReadValue(Raw(v) + x) == Read(v, x)
    decreases v, 1
  {
    match v {
      case Int(n) =>
        HeadOf('i', Decimal(n), x);
        IntReadsBack(n, x);
      case Str(s) =>
        StrReadsBack(s, x);
      case List(items) =>
        HeadOf('l', RawItems(items), x);
        ItemsReadBack(items, [], x, RawItems(items) + ("e" + x));
        assert [] + items == items;
      case Dict(entries) =>
        HeadOf('d', RawEntries(entries), x);
        EntriesReadBack(entries, [], x, RawEntries(entries) + ("e" + x));
        assert [] + entries == entries;
    }
  }

  lemma HeadOf(c: char, s: string, x: string)
    ensures [c] + s + "e" + x != "" && ([c] + s + "e" + x)[0] == c && ([c] + s + "e" + x)[1..] == s + ("e" + x)
  {
    assert [c] + s + "e" + x == [c] + (s + ("e" + x));
  }

  lemma ItemsText(items: seq<Value>, x: string, s: string) returns (after: string)
    requires items != [] && s == RawItems(items) + ("e" + x)
    ensures s == Raw(items[0]) + after && after == RawItems(items[1..]) + ("e" + x) && s != "" && s[0] != 'e'
  {
    after := RawItems(items[1..]) + ("e" + x);
    RegroupText(Raw(items[0]), RawItems(items[1..]), "e" + x);
    FirstChar(items[0]);
  }

  lemma MoveFirst<T>(done: seq<T>, s: seq<T>)
    requires s != []
    ensures done + [s[0]] + s[1..] == done + s
  {
  }

  lemma {:induction false} ItemsReadBack(items: seq<Value>, done: seq<Value>, x: string, s: string)
    requires s == RawItems(items) + ("e" + x)
    ensures ReadItems(s, done) == Read(List(done + items), x)
    decreases items, 0
  {
    if items == [] {
      assert s == "e" + x && s[1..] == x && done + items == done;
    } else {
      var after := ItemsText(items, x, s);
      RawReadsBack(items[0], after);
      ItemsStep(s, done, items[0], after);
      ItemsReadBack(items[1..], done + [items[0]], x, after);
      MoveFirst(done, items);
    }
  }

  lemma EntriesText(entries: seq<Entry>, x: string, s: string) returns (mid: string, after: string)
    requires entries != [] && s == RawEntries(entries) + ("e" + x)
    ensures s == Framed(entries[0].key) + mid && mid == Raw(entries[0].value) + after && s != ""
    ensures after == RawEntries(entries[1..]) + ("e" + x)
  {
    after := RawEntries(entries[1..]) + ("e" + x);
    mid := Raw(entries[0].value) + after;
    EntryFirst(Framed(entries[0].key), Raw(entries[0].value), RawEntries(entries[1..]), "e" + x);
  }

  lemma {:induction false} EntriesReadBack(entries: seq<Entry>, done: seq<Entry>, x: string, s: string)
    requires s == RawEntries(entries) + ("e" + x)
    ensures ReadEntries(s, done) == Read(Dict(done + entries), x)
    decreases entries, 0
  {
    if entries == [] {
      assert s == "e" + x && s[1..] == x && done + entries == done;
    } else {
      var e := entries[0];
      var mid, after := EntriesText(entries, x, s);
      StrReadsBack(e.key, mid);
      RawReadsBack(e.value, after);
      EntriesStep(s, done, e.key, mid, e, after);
      EntriesReadBack(entries[1..], done + [e], x, after);
      MoveFirst(done, entries);
    }
  }

  lemma EntryFirst(k: string, v: string, rest: string, x: string)
    ensures k + v + rest + x == k + (v + (rest + x))
  {
  }

  /** What bencode writes reads back as the value, with its dictionaries in ascending order. */
  lemma ReadsBack(v: Value, x: string)
    ensures ReadValue(Bencoded(v) + x) == Read(Canon(v), x)
  {
    RawReadsBack(Canon(v), x);
  }

  /** At their first difference a has the smaller character. */
  ghost predicate Differs(a: string, b: string) {
    exists i :: 0 <= i < |a| && i < |b| && a[..i] == b[..i] && a[i] < b[i]
  }

  /** The order of keys: a proper prefix comes first, and otherwise the first difference decides. */
  lemma {:induction false} LessMeans(a: string, b: string)
    ensures Less(a, b) <==> a < b || Differs(a, b)
  {
    if a != "" && b != "" && a[0] == b[0] {
      LessMeans(a[1..], b[1..]);
      LessTail(a, b);
    } else if a != "" && b != "" {
      assert a[..0] == b[..0];
    }
  }

  lemma LessTail(a: string, b: string)
    requires a != "" && b != "" && a[0] == b[0]
    ensures a[1..] < b[1..] <==> a < b
    ensures Differs(a[1..], b[1..]) <==> Differs(a, b)
  {
    forall i | 0 < i < |a| && i < |b| ensures a[..i] == b[..i] <==> a[1..][..i - 1] == b[1..][..i - 1] {
      assert a[..i] == [a[0]] + a[1..][..i - 1] && b[..i] == [b[0]] + b[1..][..i - 1];
    }
    if i :| 0 <= i < |a| && i < |b| && a[..i] == b[..i] && a[i] < b[i] {
      assert a[1..][i - 1] < b[1..][i - 1];
    }
    if i :| 0 <= i < |a[1..]| && i < |b[1..]| && a[1..][..i] == b[1..][..i] && a[1..][i] < b[1..][i] {
      assert a[..i + 1] == b[..i + 1] && a[i + 1] < b[i + 1];
    }
  }

  // ----- The encoder -----

  function Joined(r: seq<string>): string {
    if r == [] then "" else Joined(r[..|r| - 1]) + r[|r| - 1]
  }

  lemma JoinedMore(r: seq<string>, s: string)
    ensures Joined(r + [s]) == Joined(r) + s
  {
    assert (r + [s])[..|r|] == r;
  }

  lemma JoinedThree(r: seq<string>, a: string, b: string, c: string)
    ensures Joined(r + [a, b, c]) == Joined(r) + (a + b + c)
  {
    JoinedMore(r, a);
    JoinedMore(r + [a], b);
    JoinedMore(r + [a] + [b], c);
    assert r + [a, b, c] == r + [a] + [b] + [c];
  }

  lemma {:induction false} ItemsMore(items: seq<Value>, v: Value)
    ensures RawItems(CanonItems(items + [v])) == RawItems(CanonItems(items)) + Bencoded(v)
  {
    ItemsCons(items + [v]);
    if items == [] {
      assert (items + [v])[1..] == [];
    } else {
      assert (items + [v])[1..] == items[1..] + [v];
      ItemsMore(items[1..], v);
      ItemsCons(items);
      RegroupText(Bencoded(items[0]), RawItems(CanonItems(items[1..])), Bencoded(v));
    }
  }

  lemma ItemsCons(items: seq<Value>)
    requires items != []
    ensures RawItems(CanonItems(items)) == Bencoded(items[0]) + RawItems(CanonItems(items[1..]))
  {
    assert CanonItems(items)[1..] == CanonItems(items[1..]);
  }

  lemma {:induction false} EntriesMore(entries: seq<Entry>, e: Entry)
    ensures (RawEntries(CanonEntries(entries + [e]))
      == RawEntries(CanonEntries(entries)) + (Framed(e.key) + Bencoded(e.value)))
  {
    EntriesCons(entries + [e]);
    if entries == [] {
      assert (entries + [e])[1..] == [];
    } else {
      assert (entries + [e])[1..] == entries[1..] + [e];
      EntriesMore(entries[1..], e);
      EntriesCons(entries);
      RegroupText(Framed(entries[0].key) + Bencoded(entries[0].value), RawEntries(CanonEntries(entries[1..])),
              Framed(e.key) + Bencoded(e.value));
    }
  }

  lemma EntriesCons(entries: seq<Entry>)
    requires entries != []
    ensures (RawEntries(CanonEntries(entries))
      == Framed(entries[0].key) + Bencoded(entries[0].value) + RawEntries(CanonEntries(entries[1..])))
  {
    assert CanonEntries(entries)[1..] == CanonEntries(entries[1..]);
  }

  lemma Bracketed(start: string, a: string, text: string, b: string)
    ensures start + a + text + b == start + (a + text + b)
  {
  }

  lemma RegroupPair(start: string, text: string, a: string, b: string)
    ensures start + text + a + b == start + (text + (a + b))
  {
  }

  class Encoder {
    var r: seq<string>

    constructor ()
      ensures r == []
    {
      r := [];
    }

    method EncodeInt(x: int)
      modifies this
      ensures Joined(r) == old(Joined(r)) + Bencoded(Int(x))
      ensures exists d :: IsDecimal(d, x) && Bencoded(Int(x)) == "i" + d + "e"
    {
      DecimalDenotes(x);
      JoinedThree(r, "i", Decimal(x), "e");
      r := r + ["i", Decimal(x), "e"];
    }

    method EncodeString(x: string)
      modifies this
      ensures Joined(r) == old(Joined(r)) + Framed(x)
      ensures exists d :: IsNumeral(d, |x|) && Framed(x) == d + ":" + x
    {
      NaturalDenotes(|x|);
      JoinedThree(r, Natural(|x|), ":", x);
      r := r + [Natural(|x|), ":", x];
    }

    method Append(s: string)
      modifies this
      ensures Joined(r) == old(Joined(r)) + s
    {
      JoinedMore(r, s);
      r := r + [s];
    }

    method EncodeList(items: seq<Value>)
      modifies this
      ensures Joined(r) == old(Joined(r)) + Bencoded(List(items))
      decreases items, 0
    {
      ghost var start := Joined(r);
      Append("l");
      ghost var text := "";
      for i := 0 to |items|
        invariant text == RawItems(CanonItems(items[..i])) && Joined(r) == start + "l" + text
      {
        Encode(items[i]);
        ItemsMore(items[..i], items[i]);
        TakeMore(items, i);
        RegroupText(start + "l", text, Bencoded(items[i]));
        text := text + Bencoded(items[i]);
      }
      assert items[..|items|] == items;
      Append("e");
      Bracketed(start, "l", text, "e");
    }

    method EncodeDict(entries: seq<Entry>)
      modifies this
      ensures Joined(r) == old(Joined(r)) + Bencoded(Dict(entries))
      decreases entries, 0
    {
      ghost var start := Joined(r);
      Append("d");
      ghost var text := "";
      var ilist := Sort(entries);
      Sorted(entries);
      for i := 0 to |ilist|
        invariant text == RawEntries(CanonEntries(ilist[..i])) && Joined(r) == start + "d" + text
      {
        assert ilist[i] in entries;
        EncodeString(ilist[i].key);
        Encode(ilist[i].value);
        EntriesMore(ilist[..i], ilist[i]);
        TakeMore(ilist, i);
        RegroupPair(start + "d", text, Framed(ilist[i].key), Bencoded(ilist[i].value));
        text := text + (Framed(ilist[i].key) + Bencoded(ilist[i].value));
      }
      assert ilist[..|ilist|] == ilist;
      Append("e");
      SortCanon(entries);
      Bracketed(start, "d", text, "e");
    }

    /** The dispatch through encode_func. */
    method Encode(v: Value)
      modifies this
      ensures Joined(r) == old(Joined(r)) + Bencoded(v)
      decreases v, 1
    {
      match v {
        case Int(n) => EncodeInt(n);
        case Str(s) => EncodeString(s);
        case List(items) => EncodeList(items);
        case Dict(entries) => EncodeDict(entries);
      }
    }
  }

  method BencodeValue(v: Value) returns (s: string)
    ensures s == Bencoded(v) && ReadValue(s) == Read(Canon(v), "")
  {
    var e := new Encoder();
    e.Encode(v);
    s := Joined(e.r);
    ReadsBack(v, "");
    assert s + "" == s;
  }
}
