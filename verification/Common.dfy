/** What several of the models share: bytes, and facts about sequences. */
module Common {

  newtype byte = b: int | 0 <= b < 256

  datatype Option<T> = None | Some(value: T)

  function Min(a: int, b: int): int { if a < b then a else b }

  function Max(a: int, b: int): int { if a > b then a else b }

  function Without<T>(s: seq<T>, i: nat): seq<T>
    requires i < |s|
  {
    s[..i] + s[i + 1..]
  }

  /** The bytes that parts stand for, one after the other. */
  function Flatten(parts: seq<seq<byte>>): seq<byte> {
    if parts == [] then [] else Flatten(parts[..|parts| - 1]) + parts[|parts| - 1]
  }

  /** How often an element is in a sequence. */
  function Times<T(==)>(s: seq<T>, x: T): nat {
    if s == [] then 0 else Times(s[..|s| - 1], x) + if s[|s| - 1] == x then 1 else 0
  }

  lemma {:induction false} TimesJoin<T>(a: seq<T>, b: seq<T>, x: T)
    ensures Times(a + b, x) == Times(a, x) + Times(b, x)
  {
    if b == [] {
      assert a + b == a;
    } else {
      assert (a + b)[..|a + b| - 1] == a + b[..|b| - 1];
      TimesJoin(a, b[..|b| - 1], x);
    }
  }

  lemma Snoc<T>(s: seq<T>, x: T)
    ensures (s + [x])[..|s + [x]| - 1] == s && (s + [x])[|s + [x]| - 1] == x
  {
  }

  lemma Regroup<T>(a: seq<T>, b: seq<T>, c: seq<T>)
    ensures a + b + c == a + (b + c)
  {
  }

  lemma DropTwice<T>(s: seq<T>, m: nat, n: nat)
    requires m + n <= |s|
    ensures s[m..][n..] == s[m + n..]
  {
    var all, part, same := s[m..], s[m..][n..], s[m + n..];
    forall k | 0 <= k < |part| ensures part[k] == same[k] {
      assert part[k] == all[n + k];
    }
  }

  lemma DropFirst<T>(s: seq<T>, n: nat)
    requires n < |s|
    ensures s[n..] == [s[n]] + s[n + 1..]
  {
    var all, part := s[n..], s[n + 1..];
    forall k | 0 < k < |all| ensures all[k] == part[k - 1] {
      assert all[k] == s[n + k];
    }
  }

  lemma TakeMore<T>(s: seq<T>, n: nat)
    requires n < |s|
    ensures s[..n + 1] == s[..n] + [s[n]]
  {
  }

  /** Sequences that agree from lo to hi have the same part there. */
  lemma SameSlice<T>(s: seq<T>, t: seq<T>, lo: nat, hi: nat)
    requires lo <= hi <= |s| && hi <= |t| && forall k :: lo <= k < hi ==> s[k] == t[k]
    ensures s[lo..hi] == t[lo..hi]
  {
    var x, y := s[lo..hi], t[lo..hi];
    forall k | 0 <= k < |x| ensures x[k] == y[k] {
      assert x[k] == s[lo + k] && y[k] == t[lo + k];
    }
  }

  lemma Cut<T>(s: seq<T>, n: nat)
    requires n <= |s|
    ensures s[..n] + s[n..] == s
  {
  }

  lemma Rejoin<T>(s: seq<T>, i: nat)
    requires i < |s|
    ensures s[..i] + [s[i]] + s[i + 1..] == s
  {
  }

  lemma Slice<T>(s: seq<T>, lo: nat, hi: nat, o: nat, n: nat, at: nat)
    requires lo <= hi <= |s| && lo + o + n <= hi && at == lo + o
    ensures s[lo..hi][o..o + n] == s[at..at + n]
  {
    var all, part, same := s[lo..hi], s[lo..hi][o..o + n], s[at..at + n];
    forall k | 0 <= k < n ensures part[k] == same[k] {
      assert part[k] == all[o + k];
    }
  }
}
