/**
 * The library hashing routine (hashlib/hashfuncs.go): `HashFile` splits the
 * file among four workers, each `GetSHA` hashes one range and sends its hex
 * digest, and the digests are sorted as strings, fed one after another to a
 * final SHA-256 and returned as hex.
 *
 * `filepath.Abs` is the parameter `resolve` (`None` when the working
 * directory cannot be determined). The goroutines and the channel are
 * replaced by a loop that lets the workers finish in an arbitrary order.
 */
module HashLib {
  import opened Results
  import opened Encoding
  import opened Files
  import opened Chunks
  import opened SeqLemmas

  const NumThreads := 4

  /** How `filepath.Abs` maps a path: to an absolute path, or to a failure. */
  type Resolver = string -> Option<string>

  /** The two failures `HashFile` reports. */
  datatype HashError =
    | ResolveFailed(path: string)  // "failed to resolve file path"
    | OpenFailed(path: string)     // "failed to open file"

  /**
   * `GetSHA`: resolve the path, open it, seek to `startIndex` and feed
   * 4096-byte reads to an incremental SHA-256 until `bytesPerThread` bytes
   * are in or the end of the file is met; then send the hex digest. A
   * resolve, open, seek or read failure sends nothing. The ghost `totalRead`
   * is how many bytes the loop consumed.
   */
  method GetSHA(fs: FileSystem, resolve: Resolver, filename: string, startIndex: int, bytesPerThread: int, sha: Sha256)
    returns (sent: Option<string>, ghost totalRead: nat)
    ensures resolve(filename).None? ==> sent == None
    ensures resolve(filename).Some? && (resolve(filename).value !in fs || startIndex < 0) ==> sent == None
    ensures sent.Some? ==>
      && resolve(filename).Some? && resolve(filename).value in fs && 0 <= startIndex
      && var c := fs[resolve(filename).value];
      && LoopExit(|c|, startIndex, bytesPerThread, totalRead)
      && sent.value == ChunkDigest(c, startIndex, totalRead, sha)
    ensures sent.Some? && 0 < bytesPerThread && startIndex + totalRead < |fs[resolve(filename).value]| ==>
      bytesPerThread <= totalRead < bytesPerThread + BufferSize
    ensures resolve(filename).Some? && resolve(filename).value in fs && 0 <= startIndex && bytesPerThread <= 0 ==>
      sent.Some?
  {
    totalRead := 0;
    var absPath := resolve(filename);
    if absPath.None? {
      return None, 0;
    }
    var file := OpenFile(fs, absPath.value);
    if file == null {
      return None, 0;
    }
    var ok := file.Seek(startIndex);
    if !ok {
      return None, 0;
    }
    var written: seq<byte> := [];  // everything handed to hasher.Write so far
    var total: nat := 0;
    while total < bytesPerThread
      invariant file.offset == startIndex + total
      invariant written == Window(file.content, startIndex, total)
      invariant startIndex + total <= Max(|file.content|, startIndex)
      invariant total == 0 || total < bytesPerThread + BufferSize
      invariant bytesPerThread <= 0 ==> total == 0
      decreases bytesPerThread - total
    {
      var data, status := file.Read();
      if |data| > 0 {
        WindowGrow(file.content, startIndex, total, |data|);
        written := written + data;
        total := total + |data|;
      }
      if status == Eof || total >= bytesPerThread {
        break;
      } else if status == ReadFailed {
        return None, 0;
      }
    }
    assert file.content == fs[absPath.value];
    sent := Some(Hex(sha(written)));
    totalRead := total;
  }

  /**
   * Go's `<=` on strings. Go compares the UTF-8 bytes; UTF-8 orders byte
   * strings as their code points, so this compares characters.
   */
  predicate LexLe(a: string, b: string) {
    |a| == 0 || (|b| > 0 && (a[0] < b[0] || (a[0] == b[0] && LexLe(a[1..], b[1..]))))
  }

  lemma {:induction false} LexLeTotal(a: string, b: string)
    ensures LexLe(a, b) || LexLe(b, a)
  {
    if |a| > 0 && |b| > 0 && a[0] == b[0] {
      LexLeTotal(a[1..], b[1..]);
    }
  }

  lemma {:induction false} LexLeAntisymmetric(a: string, b: string)
    requires LexLe(a, b) && LexLe(b, a)
    ensures a == b
  {
    if |a| > 0 {
      LexLeAntisymmetric(a[1..], b[1..]);
      assert a == [a[0]] + a[1..];
      assert b == [b[0]] + b[1..];
    }
  }

  lemma {:induction false} LexLeTransitive(a: string, b: string, c: string)
    requires LexLe(a, b) && LexLe(b, c)
    ensures LexLe(a, c)
  {
    if |a| > 0 && a[0] == b[0] && b[0] == c[0] {
      LexLeTransitive(a[1..], b[1..], c[1..]);
    }
  }

  /** Each string is `<=` the next one. */
  predicate Sorted(s: seq<string>) {
    forall i :: 0 <= i < |s| - 1 ==> LexLe(s[i], s[i + 1])
  }

  /** In a sorted list the first string is `<=` every string. */
  lemma {:induction false} SortedFirstLeast(s: seq<string>, j: nat)
    requires Sorted(s) && j < |s|
    ensures LexLe(s[0], s[j])
  {
    if j == 0 {
      LexLeTotal(s[0], s[0]);
    } else {
      SortedFirstLeast(s, j - 1);
      LexLeTransitive(s[0], s[j - 1], s[j]);
    }
  }

  function InsertString(x: string, s: seq<string>): (r: seq<string>)
    requires Sorted(s)
    ensures Sorted(r)
    ensures multiset(r) == multiset(s) + multiset{x}
    ensures |r| == |s| + 1 && (r[0] == x || (s != [] && r[0] == s[0]))
  {
    if s == [] || LexLe(x, s[0]) then [x] + s
    else
      assert s == [s[0]] + s[1..];
      LexLeTotal(x, s[0]);
      [s[0]] + InsertString(x, s[1..])
  }

  /** `sort.Strings`: the same strings, in ascending order. */
  function SortStrings(s: seq<string>): (r: seq<string>)
    ensures Sorted(r)
    ensures multiset(r) == multiset(s)
  {
    if s == [] then []
    else
      assert s == [s[0]] + s[1..];
      InsertString(s[0], SortStrings(s[1..]))
  }

  /** Two sorted arrangements of the same strings begin with the same string. */
  lemma SortedHeads(a: seq<string>, b: seq<string>)
    requires Sorted(a) && Sorted(b) && a != []
    requires multiset(a) == multiset(b)
    ensures b != [] && a[0] == b[0]
  {
    assert a[0] in multiset(b);
    var j :| 0 <= j < |b| && b[j] == a[0];
    assert b[0] in multiset(a);
    var k :| 0 <= k < |a| && a[k] == b[0];
    SortedFirstLeast(a, k);
    SortedFirstLeast(b, j);
    LexLeAntisymmetric(a[0], b[0]);
  }

  /** Sorting has one outcome: two sorted arrangements of the same strings are equal. */
  lemma {:induction false} SortedUnique(a: seq<string>, b: seq<string>)
    requires Sorted(a) && Sorted(b)
    requires multiset(a) == multiset(b)
    ensures a == b
    decreases |a|
  {
    if a == [] {
      assert |b| == |multiset(b)| == 0;
    } else {
      SortedHeads(a, b);
      MultisetTail(a);
      MultisetTail(b);
      SortedUnique(a[1..], b[1..]);
      SameHeadSameTail(a, b);
    }
  }

  predicate AllAscii(s: seq<string>) {
    forall k :: 0 <= k < |s| ==> IsAscii(s[k])
  }

  lemma AsciiPermutation(a: seq<string>, b: seq<string>)
    requires multiset(a) == multiset(b) && AllAscii(a)
    ensures AllAscii(b)
  {
    forall k | 0 <= k < |b|
      ensures IsAscii(b[k])
    {
      assert b[k] in multiset(a);
    }
  }

  /** The bytes the final hasher is fed: `[]byte(hash)` of each string, in order. */
  function Fed(hashes: seq<string>): (bs: seq<byte>)
    requires AllAscii(hashes)
  {
    if hashes == [] then []
    else
      var last := |hashes| - 1;
      Fed(hashes[..last]) + AsciiBytes(hashes[last])
  }

  /** The returned hash for the collected digests, in whatever order they arrived. */
  function CombineDigests(ds: seq<string>, sha: Sha256): (h: string)
    requires AllAscii(ds)
    ensures |h| == 64 && IsLowerHex(h)
  {
    var sorted := SortStrings(ds);
    AsciiPermutation(ds, sorted);
    Hex(sha(Fed(sorted)))
  }

  /**
   * The returned hash depends only on which digests were collected, not on
   * the order in which the workers sent them.
   */
  lemma CombineOrderIndependent(d1: seq<string>, d2: seq<string>, sha: Sha256)
    requires multiset(d1) == multiset(d2) && AllAscii(d1)
    ensures AllAscii(d2)
    ensures SortStrings(d1) == SortStrings(d2)
    ensures CombineDigests(d1, sha) == CombineDigests(d2, sha)
  {
    AsciiPermutation(d1, d2);
    SortedUnique(SortStrings(d1), SortStrings(d2));
  }

  lemma DigestsAscii(c: seq<byte>, b: nat, runs: seq<Option<nat>>, sha: Sha256)
    ensures AllAscii(Digests(c, b, runs, sha))
  {
    var ds := Digests(c, b, runs, sha);
    forall k | 0 <= k < |ds|
      ensures IsAscii(ds[k])
    {
      LowerHexIsAscii(ds[k]);
    }
  }

  /**
   * `HashFile`: a path that cannot be resolved or opened is an error.
   * Otherwise every one of the four workers either sends nothing or sends
   * the digest of what its read loop consumed from `i * bytesPerThread`;
   * whatever the order in which they finish, the result is the final
   * SHA-256, in hex, of the sent digests sorted as strings.
   */
  method HashFile(fs: FileSystem, resolve: Resolver, filePath: string, sha: Sha256)
    returns (r: Result<string, HashError>, ghost runs: seq<Option<nat>>)
    ensures resolve(filePath).None? ==> r == Err(ResolveFailed(filePath)) && runs == []
    ensures resolve(filePath).Some? && resolve(filePath).value !in fs ==>
      r == Err(OpenFailed(resolve(filePath).value)) && runs == []
    ensures resolve(filePath).Some? && resolve(filePath).value in fs ==>
      var c := fs[resolve(filePath).value];
      var b := BytesPerThread(|c|, NumThreads);
      && |runs| == NumThreads
      && (forall i :: 0 <= i < NumThreads && runs[i].Some? ==> LoopExit(|c|, i * b, b, runs[i].value))
      && AllAscii(Digests(c, b, runs, sha))
      && r == Ok(CombineDigests(Digests(c, b, runs, sha), sha))
    ensures r.Ok? ==> |r.value| == 64 && IsLowerHex(r.value)
    ensures resolve(filePath).Some? && resolve(filePath).value in fs && |fs[resolve(filePath).value]| < NumThreads ==>
      CountSent(runs) == NumThreads
  {
    var absPath := resolve(filePath);
    if absPath.None? {
      return Err(ResolveFailed(filePath)), [];
    }
    var file := OpenFile(fs, absPath.value);
    if file == null {
      return Err(OpenFailed(absPath.value)), [];
    }
    var fileSize := |file.content|;
    var bytesPerThread := fileSize / NumThreads;
    assert fileSize < NumThreads ==> bytesPerThread == 0 by {
      ShortFileEmptyRanges(fileSize, NumThreads);
    }
    var channel;
    channel, runs := RunWorkers(fs, resolve, filePath, bytesPerThread, sha);
    ghost var ds := Digests(file.content, bytesPerThread, runs, sha);
    DigestsAscii(file.content, bytesPerThread, runs, sha);
    CombineOrderIndependent(ds, channel, sha);
    var hashes := SortStrings(channel);
    AsciiPermutation(channel, hashes);
    var written := FeedHasher(hashes);
    r := Ok(Hex(sha(written)));
  }

  /**
   * The spawning loop, `wg.Wait()` and the draining of the channel: worker
   * `i` hashes from `i * bytesPerThread`; the workers finish in an arbitrary
   * order and the channel holds what they sent in that order. Whatever the
   * order, the channel holds exactly the digests of the workers that sent.
   */
  method RunWorkers(fs: FileSystem, resolve: Resolver, fn: string, bytesPerThread: nat, sha: Sha256)
    returns (channel: seq<string>, ghost runs: seq<Option<nat>>)
    requires resolve(fn).Some? && resolve(fn).value in fs
    ensures |runs| == NumThreads
    ensures forall i :: 0 <= i < NumThreads && runs[i].Some? ==>
      LoopExit(|fs[resolve(fn).value]|, i * bytesPerThread, bytesPerThread, runs[i].value)
    ensures multiset(channel) == multiset(Digests(fs[resolve(fn).value], bytesPerThread, runs, sha))
    ensures bytesPerThread == 0 ==> CountSent(runs) == NumThreads
  {
    var pending;
    pending, runs := Spawn();
    channel := [];
    NoDigests(fs[resolve(fn).value], bytesPerThread, runs, sha);
    while pending != {}
      invariant |runs| == NumThreads
      invariant forall i :: i in pending ==> i < NumThreads && runs[i].None?
      invariant forall k :: 0 <= k < |runs| && runs[k].Some? ==>
        LoopExit(|fs[resolve(fn).value]|, k * bytesPerThread, bytesPerThread, runs[k].value)
      invariant multiset(channel) == multiset(Digests(fs[resolve(fn).value], bytesPerThread, runs, sha))
      invariant bytesPerThread == 0 ==> CountSent(runs) + |pending| == NumThreads
      decreases pending
    {
      var i :| i in pending;
      channel, runs := FinishWorker(fs, resolve, fn, bytesPerThread, sha, i, channel, runs);
      pending := pending - {i};
    }
  }

  /** The spawning loop: every worker is started and none has finished yet. */
  method Spawn() returns (pending: set<nat>, ghost runs: seq<Option<nat>>)
    ensures |runs| == NumThreads
    ensures forall j :: j in pending <==> 0 <= j < NumThreads
    ensures forall j :: 0 <= j < NumThreads ==> runs[j].None?
    ensures |pending| == NumThreads && CountSent(runs) == 0
  {
    runs := [];
    pending := {};
    for i := 0 to NumThreads
      invariant |runs| == i
      invariant forall j :: j in pending <==> 0 <= j < i
      invariant forall j :: 0 <= j < i ==> runs[j].None?
      invariant |pending| == i && CountSent(runs) == 0
    {
      assert (runs + [None])[..i] == runs;
      pending := pending + {i};
      runs := runs + [None];
    }
  }

  /** Worker `i` runs `GetSHA`; if it sends, its digest joins the channel and its run is recorded. */
  method FinishWorker(fs: FileSystem, resolve: Resolver, fn: string, bytesPerThread: nat, sha: Sha256, i: nat,
                      channel: seq<string>, ghost runs: seq<Option<nat>>)
    returns (channel': seq<string>, ghost runs': seq<Option<nat>>)
    requires resolve(fn).Some? && resolve(fn).value in fs && i < |runs| && runs[i].None?
    requires multiset(channel) == multiset(Digests(fs[resolve(fn).value], bytesPerThread, runs, sha))
    requires forall k :: 0 <= k < |runs| && runs[k].Some? ==>
      LoopExit(|fs[resolve(fn).value]|, k * bytesPerThread, bytesPerThread, runs[k].value)
    ensures |runs'| == |runs|
    ensures forall k :: 0 <= k < |runs| && k != i ==> runs'[k] == runs[k]
    ensures runs'[i].Some? ==>
      LoopExit(|fs[resolve(fn).value]|, i * bytesPerThread, bytesPerThread, runs'[i].value)
    ensures bytesPerThread == 0 ==> runs'[i].Some?
    ensures CountSent(runs') == CountSent(runs) + (if runs'[i].Some? then 1 else 0)
    ensures forall k :: 0 <= k < |runs'| && runs'[k].Some? ==>
      LoopExit(|fs[resolve(fn).value]|, k * bytesPerThread, bytesPerThread, runs'[k].value)
    ensures multiset(channel') == multiset(Digests(fs[resolve(fn).value], bytesPerThread, runs', sha))
  {
    var sent, t := GetSHA(fs, resolve, fn, i * bytesPerThread, bytesPerThread, sha);
    if sent.Some? {
      DigestsSend(fs[resolve(fn).value], bytesPerThread, runs, sha, i, t);
      channel' := channel + [sent.value];
      runs' := runs[i := Some(t)];
      CountSentSend(runs, i, t);
      RecordRun(|fs[resolve(fn).value]|, bytesPerThread, runs, i, t);
    } else {
      channel', runs' := channel, runs;
    }
  }

  /** The `finalHasher.Write([]byte(hash))` loop: every string's bytes, in order. */
  method FeedHasher(hashes: seq<string>) returns (written: seq<byte>)
    requires AllAscii(hashes)
    ensures written == Fed(hashes)
  {
    written := [];
    for k := 0 to |hashes|
      invariant written == Fed(hashes[..k])
    {
      assert hashes[..k + 1][..k] == hashes[..k];
      written := written + AsciiBytes(hashes[k]);
    }
    assert hashes[..|hashes|] == hashes;
  }
}
