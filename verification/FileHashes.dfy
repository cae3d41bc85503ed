/** set_piece_hashes: the files of a torrent are hashed while its pieces are read, whatever way they are cut. */
module FileHashes {
  import opened Common

  datatype File = File(content: seq<byte>, padFile: bool)

  /** A call of set_file_hash; the hash is that of these bytes. */
  datatype Call = Call(index: nat, hashed: seq<byte>)

  function Stream(files: seq<File>): seq<byte> {
    if files == [] then [] else Stream(files[..|files| - 1]) + files[|files| - 1].content
  }

  /** Every file but pads, in order, each of them over its own bytes. */
  function CallsOf(files: seq<File>): seq<Call> {
    if files == [] then []
    else
      var last := |files| - 1;
      CallsOf(files[..last]) + if files[last].padFile then [] else [Call(last, files[last].content)]
  }

  /** Empty files behind the last byte are never reached. */
  function Reached(files: seq<File>): (r: nat)
    ensures r <= |files|
  {
    if files == [] then 0
    else if files[|files| - 1].content != [] then |files|
    else Reached(files[..|files| - 1])
  }

  lemma {:induction false} ReachedBounds(files: seq<File>)
    ensures forall i :: Reached(files) <= i < |files| ==> files[i].content == []
    ensures Reached(files) > 0 ==> files[Reached(files) - 1].content != []
  {
    if files != [] && files[|files| - 1].content == [] {
      ReachedBounds(files[..|files| - 1]);
    }
  }

  /** Each file at most once, over its own bytes, and none but pads left out. */
  lemma {:induction false} CallsExact(files: seq<File>, index: nat)
    ensures (forall c <- CallsOf(files) :: c.index < |files| && c.hashed == files[c.index].content)
    ensures forall i, j :: 0 <= i < j < |CallsOf(files)| ==> CallsOf(files)[i].index < CallsOf(files)[j].index
    ensures index < |files| ==> (files[index].padFile <==> Call(index, files[index].content) !in CallsOf(files))
  {
    if files != [] {
      CallsExact(files[..|files| - 1], index);
    }
  }

  /** In the calls that are made, a file with bytes that is no pad has exactly one, over exactly its own bytes. */
  lemma EveryFileOnce(files: seq<File>, index: nat)
    requires index < |files| && files[index].content != [] && !files[index].padFile
    ensures Call(index, files[index].content) in CallsOf(files[..Reached(files)])
    ensures (forall c <- CallsOf(files[..Reached(files)]) :: c.index == index ==> c.hashed == files[index].content)
    ensures (var calls := CallsOf(files[..Reached(files)]);
      forall i, j :: 0 <= i < j < |calls| ==> calls[i].index < calls[j].index)
  {
    ReachedBounds(files);
    CallsExact(files[..Reached(files)], index);
  }

  /** An empty file that is no pad is hashed exactly if a file with bytes comes after it. */
  lemma EmptyFileHashed(files: seq<File>, index: nat)
    requires index < |files| && files[index] == File([], false)
    ensures (Call(index, []) in CallsOf(files[..Reached(files)])
      <==> exists k :: index < k < |files| && files[k].content != [])
  {
    ReachedBounds(files);
    CallsExact(files[..Reached(files)], index);
    if index < Reached(files) {
      assert files[Reached(files) - 1].content != [];
    }
  }

  /** The place of a file in the stream. */
  lemma {:induction false} FileAt(files: seq<File>, k: nat, m: nat, t: nat)
    requires k < |files| && m + t <= |files[k].content|
    ensures var start := |Stream(files[..k])|;
      && start + |files[k].content| <= |Stream(files)| && |Stream(files[..k + 1])| == start + |files[k].content|
      && Stream(files)[start + m..start + m + t] == files[k].content[m..m + t]
  {
    assert files[..k + 1][..k] == files[..k];
    if k + 1 < |files| {
      var front := files[..|files| - 1];
      assert front[..k] == files[..k] && front[k] == files[k] && front[..k + 1] == files[..k + 1];
      FileAt(front, k, m, t);
      var start := |Stream(files[..k])|;
      assert Stream(files)[start + m..start + m + t] == Stream(front)[start + m..start + m + t];
    } else {
      assert files[..k + 1] == files;
    }
  }

  // ----- How far the scan is -----

  /** n bytes of the stream are behind; of the next file, k, hash holds the bytes so far and left are missing. */
  ghost predicate Scan(files: seq<File>, n: nat, k: nat, hash: seq<byte>, left: int, calls: seq<Call>) {
    && k <= |files| && n <= |Stream(files)| && calls == CallsOf(files[..k])
    && n == |Stream(files[..k])| + |hash|
    && (k < |files| ==> 0 <= left && |hash| + left == |files[k].content| && hash == files[k].content[..|hash|])
    && (k == |files| ==> hash == []) && (hash != [] ==> left > 0)
    && (n == |Stream(files)| ==> k == 0 || files[k - 1].content != [])
  }

  lemma ScanStarts(files: seq<File>)
    requires files != []
    ensures Scan(files, 0, 0, [], |files[0].content|, [])
  {
    assert files[..0] == [];
  }

  lemma TakeMore(s: seq<byte>, m: nat, t: nat)
    requires m + t <= |s|
    ensures s[..m + t] == s[..m] + s[m..m + t]
  {
  }

  /** Bytes of the current file are read. */
  lemma ScanHashes(files: seq<File>, n: nat, k: nat, hash: seq<byte>, left: int, calls: seq<Call>, t: nat,
                   more: seq<byte>)
    requires Scan(files, n, k, hash, left, calls) && k < |files| && n < |Stream(files)|
    requires t <= left && n + t <= |Stream(files)| && more == hash + Stream(files)[n..n + t]
    ensures n + t == |Stream(files[..k])| + |more| && |more| + (left - t) == |files[k].content|
    ensures more == files[k].content[..|more|]
  {
    FileAt(files, k, |hash|, t);
    TakeMore(files[k].content, |hash|, t);
  }

  lemma CallsNext(files: seq<File>, k: nat)
    requires k < |files|
    ensures (CallsOf(files[..k + 1])
      == CallsOf(files[..k]) + if files[k].padFile then [] else [Call(k, files[k].content)])
  {
    assert files[..k + 1][..k] == files[..k];
  }

  /** The current file is complete, and the next one is taken up. */
  lemma ScanAdvances(files: seq<File>, n: nat, k: nat, calls: seq<Call>, more: seq<Call>)
    requires k < |files| && n <= |Stream(files)| && n == |Stream(files[..k])| + |files[k].content|
    requires calls == CallsOf(files[..k])
    requires more == calls + if files[k].padFile then [] else [Call(k, files[k].content)]
    ensures n == |Stream(files[..k + 1])| && more == CallsOf(files[..k + 1])
    ensures n < |Stream(files)| ==> k + 1 < |files|
  {
    FileAt(files, k, 0, 0);
    CallsNext(files, k);
    if k + 1 == |files| {
      assert files[..k + 1] == files;
    }
  }

  /** At the end exactly the files that can be reached were done. */
  lemma ScanEnds(files: seq<File>, k: nat, hash: seq<byte>, left: int, calls: seq<Call>)
    requires Scan(files, |Stream(files)|, k, hash, left, calls)
    ensures calls == CallsOf(files[..Reached(files)])
  {
    if k < |files| {
      FileAt(files, k, 0, 0);
    } else {
      assert files[..k] == files;
    }
    RestEmpty(files, k);
    ReachedIs(files, k);
  }

  lemma {:induction false} RestEmpty(files: seq<File>, k: nat)
    requires k <= |files| && |Stream(files[..k])| >= |Stream(files)|
    ensures forall i :: k <= i < |files| ==> files[i].content == []
  {
    forall i | k <= i < |files| ensures files[i].content == [] {
      FileAt(files, i, 0, 0);
      StreamGrows(files, k, i);
    }
  }

  lemma {:induction false} StreamGrows(files: seq<File>, k: nat, i: nat)
    requires k <= i <= |files|
    ensures |Stream(files[..k])| <= |Stream(files[..i])|
  {
    if k < i {
      StreamGrows(files, k, i - 1);
      assert files[..i][..i - 1] == files[..i - 1];
    }
  }

  lemma {:induction false} ReachedIs(files: seq<File>, k: nat)
    requires k <= |files| && (forall i :: k <= i < |files| ==> files[i].content == [])
    requires k == 0 || files[k - 1].content != []
    ensures Reached(files) == k
  {
    if k < |files| {
      ReachedIs(files[..|files| - 1], k);
    }
  }

  // ----- The loops -----

  /** One iteration of the inner loop: as much as the piece and the file have in common. */
  method HashSome(files: seq<File>, buf: seq<byte>, leftInPiece: nat, fileIdx: nat, filehash: seq<byte>,
                  leftInFile: int, calls: seq<Call>, ghost n: nat)
    returns (taken: nat, idx: nat, hash: seq<byte>, left: int, more: seq<Call>)
    requires 0 < leftInPiece <= |buf| && n + leftInPiece <= |Stream(files)|
    requires buf[|buf| - leftInPiece..] == Stream(files)[n..n + leftInPiece]
    requires Scan(files, n, fileIdx, filehash, leftInFile, calls) && fileIdx < |files|
    ensures taken <= leftInPiece && Scan(files, n + taken, idx, hash, left, more)
    ensures taken > 0 || idx > fileIdx
    ensures n + taken < |Stream(files)| ==> idx < |files|
  {
    var toHash := if leftInPiece < leftInFile then leftInPiece else leftInFile;
    var offset := |buf| - leftInPiece;
    assert buf[offset..][..toHash] == buf[offset..offset + toHash];
    assert Stream(files)[n..n + leftInPiece][..toHash] == Stream(files)[n..n + toHash];
    hash, idx, more := filehash, fileIdx, calls;
    if toHash > 0 {
      hash := hash + buf[offset..offset + toHash];
    }
    ScanHashes(files, n, fileIdx, filehash, leftInFile, calls, toHash, hash);
    left := leftInFile - toHash;
    taken := toHash;
    if left == 0 {
      assert hash == files[idx].content;
      if !files[idx].padFile {
        more := more + [Call(idx, hash)];
      }
      ScanAdvances(files, n + taken, fileIdx, calls, more);
      hash := [];
      idx := idx + 1;
      if idx < |files| {
        left := |files[idx].content|;
      }
    } else {
      FileAt(files, fileIdx, 0, 0);
    }
  }

  /** The inner loop over a piece, from stream position at. */
  method HashPiece(files: seq<File>, buf: seq<byte>, fileIdx: nat, filehash: seq<byte>, leftInFile: int,
                   calls: seq<Call>, ghost at: nat)
    returns (idx: nat, hash: seq<byte>, left: int, more: seq<Call>)
    requires at + |buf| <= |Stream(files)| && buf == Stream(files)[at..at + |buf|]
    requires Scan(files, at, fileIdx, filehash, leftInFile, calls) && (buf != [] ==> fileIdx < |files|)
    ensures Scan(files, at + |buf|, idx, hash, left, more)
    ensures at + |buf| < |Stream(files)| && fileIdx < |files| ==> idx < |files|
  {
    idx, hash, left, more := fileIdx, filehash, leftInFile, calls;
    var leftInPiece: nat := |buf|;
    while leftInPiece > 0
      invariant leftInPiece <= |buf| && Scan(files, at + (|buf| - leftInPiece), idx, hash, left, more)
      invariant leftInPiece > 0 || at + |buf| < |Stream(files)| ==> fileIdx < |files| ==> idx < |files|
      decreases leftInPiece, |files| - idx
    {
      ghost var n := at + (|buf| - leftInPiece);
      PieceRest(Stream(files), at, buf, |buf| - leftInPiece);
      var taken;
      taken, idx, hash, left, more := HashSome(files, buf, leftInPiece, idx, hash, left, more, n);
      leftInPiece := leftInPiece - taken;
      if idx >= |files| {
        break;
      }
    }
  }

  lemma PieceRest(s: seq<byte>, at: nat, buf: seq<byte>, i: nat)
    requires at + |buf| <= |s| && buf == s[at..at + |buf|] && i <= |buf|
    ensures buf[i..] == s[at + i..at + |buf|]
  {
  }

  /** The bytes of a piece in the stream. */
  lemma {:induction false} PieceAt(pieces: seq<seq<byte>>, i: nat)
    requires i < |pieces|
    ensures var at := |Flatten(pieces[..i])|;
      && |Flatten(pieces[..i + 1])| == at + |pieces[i]| <= |Flatten(pieces)|
      && Flatten(pieces)[at..at + |pieces[i]|] == pieces[i]
  {
    assert pieces[..i + 1][..i] == pieces[..i];
    if i + 1 < |pieces| {
      var front := pieces[..|pieces| - 1];
      assert front[..i] == pieces[..i] && front[i] == pieces[i] && front[..i + 1] == pieces[..i + 1];
      PieceAt(front, i);
      var at := |Flatten(pieces[..i])|;
      assert Flatten(pieces)[at..at + |pieces[i]|] == Flatten(front)[at..at + |pieces[i]|];
    } else {
      assert pieces[..i + 1] == pieces;
    }
  }

  /**
    * set_piece_hashes with file hashes, for a torrent whose pieces hold the bytes of its files: every file that has
    * bytes, and is no pad, is hashed once, over its own bytes, in order; so is an empty one with bytes behind it.
    */
  method SetPieceHashes(files: seq<File>, pieces: seq<seq<byte>>) returns (calls: seq<Call>)
    requires files != [] && Flatten(pieces) == Stream(files)
    ensures calls == CallsOf(files[..Reached(files)])
  {
    var filehash, fileIdx: nat, leftInFile := [], 0, |files[0].content|;
    calls := [];
    ScanStarts(files);
    assert pieces[..0] == [];
    for i := 0 to |pieces|
      invariant Scan(files, |Flatten(pieces[..i])|, fileIdx, filehash, leftInFile, calls)
      invariant |Flatten(pieces[..i])| < |Stream(files)| ==> fileIdx < |files|
    {
      PieceAt(pieces, i);
      fileIdx, filehash, leftInFile, calls := HashPiece(files, pieces[i], fileIdx, filehash, leftInFile, calls,
                                                        |Flatten(pieces[..i])|);
    }
    assert pieces[..|pieces|] == pieces;
    ScanEnds(files, fileIdx, filehash, leftInFile, calls);
  }
}
