/**
 * The daemon's hashing step (MCAPDaemon/hashfuncs.go): 56 workers each hash
 * one range of the file and send `{Index, Hash}`; the results are sorted by
 * `Index` and their hex strings are concatenated.
 *
 * The goroutines, the wait group and the channel are replaced by a loop that
 * lets the workers finish in an arbitrary order, each appending to the
 * channel's contents when it sends.
 */
module McapHash {
  import opened Results
  import opened Encoding
  import opened Files
  import opened Chunks
  import opened SeqLemmas

  const NumThreads := 56

  /** One worker's message: its index and the lowercase hex digest of its chunk. */
  datatype HashResult = HashResult(index: int, hash: string)

  /**
   * `GetSHA`: open the file, seek to `startIndex`, and feed 4096-byte reads to
   * an incremental SHA-256 until `bytesPerThread` bytes are in or the end of
   * the file is met; then send the digest with the worker's index. An open,
   * seek or read failure sends nothing. The ghost `totalRead` is how many
   * bytes the loop consumed.
   */
  method GetSHA(fs: FileSystem, filename: string, startIndex: int, bytesPerThread: int, index: int, sha: Sha256)
    returns (sent: Option<HashResult>, ghost totalRead: nat)
    ensures filename !in fs || startIndex < 0 ==> sent == None
    ensures sent.Some? ==>
      && filename in fs && 0 <= startIndex
      && LoopExit(|fs[filename]|, startIndex, bytesPerThread, totalRead)
      && sent.value == HashResult(index, ChunkDigest(fs[filename], startIndex, totalRead, sha))
    ensures sent.Some? && 0 < bytesPerThread && startIndex + totalRead < |fs[filename]| ==>
      bytesPerThread <= totalRead < bytesPerThread + BufferSize
    ensures sent.Some? && bytesPerThread <= 0 ==> sent.value.hash == Hex(sha([]))
    ensures filename in fs && 0 <= startIndex && bytesPerThread <= 0 ==> sent.Some?
  {
    totalRead := 0;
    var file := OpenFile(fs, filename);
    if file == null {
      return None, 0;
    }
    var ok := file.Seek(startIndex);
    if !ok {
      return None, 0;
    }
    var written: seq<byte> := [];  // everything handed to hasher.Write so far
    var total: nat := 0;
    while total < bytesPerThread
      invariant file.offset == startIndex + total
      invariant written == Window(file.content, startIndex, total)
      invariant startIndex + total <= Max(|file.content|, startIndex)
      invariant total == 0 || total < bytesPerThread + BufferSize
      invariant bytesPerThread <= 0 ==> total == 0
      decreases bytesPerThread - total
    {
      var data, status := file.Read();
      if |data| > 0 {
        written := written + data;
        total := total + |data|;
      }
      if status == Eof {
        break;
      } else if status == ReadFailed {
        return None, 0;
      }
    }
    sent := Some(HashResult(index, Hex(sha(written))));
    totalRead := total;
  }

  /** Sorted by `Index`, ascending. */
  predicate SortedByIndex(s: seq<HashResult>) {
    forall i, j :: 0 <= i < j < |s| ==> s[i].index <= s[j].index
  }

  /** No two different results in `m` carry the same `Index`. */
  predicate IndexDetermines(m: multiset<HashResult>) {
    forall x, y :: x in m && y in m && x.index == y.index ==> x == y
  }

  function InsertByIndex(x: HashResult, s: seq<HashResult>): (r: seq<HashResult>)
    requires SortedByIndex(s)
    ensures SortedByIndex(r)
    ensures multiset(r) == multiset(s) + multiset{x}
    ensures |r| == |s| + 1 && (r[0] == x || (s != [] && r[0] == s[0]))
  {
    if s == [] || x.index <= s[0].index then [x] + s
    else
      assert s == [s[0]] + s[1..];
      var rest := InsertByIndex(x, s[1..]);
      assert s[0].index <= rest[0].index;
      [s[0]] + rest
  }

  /**
   * `sort.Slice(results, by Index)`: a permutation of the results, sorted by
   * `Index`. (The library sort is not stable; for results with distinct
   * indices every sorted permutation is the same, see `SortedUnique`.)
   */
  function SortByIndex(s: seq<HashResult>): (r: seq<HashResult>)
    ensures SortedByIndex(r)
    ensures multiset(r) == multiset(s)
  {
    if s == [] then []
    else
      assert s == [s[0]] + s[1..];
      InsertByIndex(s[0], SortByIndex(s[1..]))
  }

  /** Two sorted arrangements of the same results begin with the same one. */
  lemma SortedHeads(a: seq<HashResult>, b: seq<HashResult>)
    requires SortedByIndex(a) && SortedByIndex(b) && a != []
    requires multiset(a) == multiset(b)
    requires IndexDetermines(multiset(a))
    ensures b != [] && a[0] == b[0]
  {
    assert a[0] in multiset(b);
    var j :| 0 <= j < |b| && b[j] == a[0];
    assert b[0] in multiset(a);
    var k :| 0 <= k < |a| && a[k] == b[0];
    assert a[0].index <= a[k].index;
    assert b[0].index <= b[j].index;
  }

  lemma DeterminesSubset(m1: multiset<HashResult>, m2: multiset<HashResult>)
    requires m1 <= m2 && IndexDetermines(m2)
    ensures IndexDetermines(m1)
  {
  }

  /** Dropping the common first result keeps both arrangements sorted and of the same results. */
  lemma SortedTails(a: seq<HashResult>, b: seq<HashResult>)
    requires SortedByIndex(a) && SortedByIndex(b) && a != [] && b != [] && a[0] == b[0]
    requires multiset(a) == multiset(b)
    requires IndexDetermines(multiset(a))
    ensures SortedByIndex(a[1..]) && SortedByIndex(b[1..])
    ensures multiset(a[1..]) == multiset(b[1..])
    ensures IndexDetermines(multiset(a[1..]))
  {
    MultisetTail(a);
    MultisetTail(b);
    DeterminesSubset(multiset(a[1..]), multiset(a));
  }

  /** Two sorted arrangements of the same results, no index shared by two different ones, are equal. */
  lemma {:induction false} SortedUnique(a: seq<HashResult>, b: seq<HashResult>)
    requires SortedByIndex(a) && SortedByIndex(b)
    requires multiset(a) == multiset(b)
    requires IndexDetermines(multiset(a))
    ensures a == b
    decreases |a|
  {
    if a == [] {
      assert |b| == |multiset(b)| == 0;
    } else {
      SortedHeads(a, b);
      SortedTails(a, b);
      SortedUnique(a[1..], b[1..]);
      SameHeadSameTail(a, b);
    }
  }

  /** `finalHash += r.Hash` over the results, in order. */
  function ConcatHashes(s: seq<HashResult>): (r: string)
    ensures (forall k :: 0 <= k < |s| ==> |s[k].hash| == 64) ==> |r| == 64 * |s|
  {
    if s == [] then "" else ConcatHashes(s[..|s| - 1]) + s[|s| - 1].hash
  }

  /**
   * The final string does not depend on the order in which the results
   * arrived: any two arrival orders of the same results (no index shared by
   * two different results) give the same sorted list and the same string.
   */
  lemma CombineOrderIndependent(r1: seq<HashResult>, r2: seq<HashResult>)
    requires multiset(r1) == multiset(r2)
    requires IndexDetermines(multiset(r1))
    ensures SortByIndex(r1) == SortByIndex(r2)
    ensures ConcatHashes(SortByIndex(r1)) == ConcatHashes(SortByIndex(r2))
  {
    SortedUnique(SortByIndex(r1), SortByIndex(r2));
  }

  /** What worker `k` sends: `{k, digest}` if it succeeded after reading `t` bytes, nothing otherwise. */
  function SentBy(c: seq<byte>, b: nat, k: nat, run: Option<nat>, sha: Sha256): seq<HashResult>
  {
    match run
    case None => []
    case Some(t) => [HashResult(k, ChunkDigest(c, k * b, t, sha))]
  }

  /**
   * The results of the workers that sent one, in index order; `runs[k]` is
   * `Some(totalRead)` for a worker that sent.
   */
  function IndexedResults(c: seq<byte>, b: nat, runs: seq<Option<nat>>, sha: Sha256): seq<HashResult>
  {
    if runs == [] then []
    else
      var last := |runs| - 1;
      IndexedResults(c, b, runs[..last], sha) + SentBy(c, b, last, runs[last], sha)
  }

  /**
   * One result per worker that sent, strictly ascending by index, each one
   * determined by its index: `{k, digest of what worker k read}`.
   */
  lemma {:induction false} IndexedResultsShape(c: seq<byte>, b: nat, runs: seq<Option<nat>>, sha: Sha256)
    ensures var rs := IndexedResults(c, b, runs, sha);
      && |rs| == CountSent(runs)
      && (forall i, j :: 0 <= i < j < |rs| ==> rs[i].index < rs[j].index)
      && (forall k :: 0 <= k < |rs| ==>
           && 0 <= rs[k].index < |runs|
           && runs[rs[k].index].Some?
           && rs[k] == HashResult(rs[k].index, ChunkDigest(c, rs[k].index * b, runs[rs[k].index].value, sha)))
  {
    if runs != [] {
      IndexedResultsShape(c, b, runs[..|runs| - 1], sha);
    }
  }

  lemma {:induction false} NothingSent(c: seq<byte>, b: nat, runs: seq<Option<nat>>, sha: Sha256)
    requires forall k :: 0 <= k < |runs| ==> runs[k].None?
    ensures IndexedResults(c, b, runs, sha) == []
  {
    if runs != [] {
      NothingSent(c, b, runs[..|runs| - 1], sha);
    }
  }

  lemma IndexedResultsDetermined(c: seq<byte>, b: nat, runs: seq<Option<nat>>, sha: Sha256)
    ensures IndexDetermines(multiset(IndexedResults(c, b, runs, sha)))
  {
    var rs := IndexedResults(c, b, runs, sha);
    IndexedResultsShape(c, b, runs, sha);
    forall x: HashResult, y: HashResult | x in multiset(rs) && y in multiset(rs) && x.index == y.index
      ensures x == y
    {
      var p :| 0 <= p < |rs| && rs[p] == x;
      var q :| 0 <= q < |rs| && rs[q] == y;
    }
  }

  /** Worker `i` sending adds exactly its result to what has been collected. */
  lemma {:induction false} ResultsSend(c: seq<byte>, b: nat, runs: seq<Option<nat>>, sha: Sha256, i: nat, t: nat)
    requires i < |runs| && runs[i].None?
    ensures multiset(IndexedResults(c, b, runs[i := Some(t)], sha))
         == multiset(IndexedResults(c, b, runs, sha)) + multiset(SentBy(c, b, i, Some(t), sha))
    decreases |runs|
  {
    var last := |runs| - 1;
    var runs' := runs[i := Some(t)];
    if i == last {
      assert runs'[..last] == runs[..last];
    } else {
      assert runs'[..last] == runs[..last][i := Some(t)];
      ResultsSend(c, b, runs[..last], sha, i, t);
    }
  }

  /** Receiving worker `i`'s result keeps the channel equal, as a multiset, to the results sent so far. */
  lemma ReceiveStep(c: seq<byte>, b: nat, runs: seq<Option<nat>>, sha: Sha256,
                    channel: seq<HashResult>, i: nat, t: nat, r: HashResult)
    requires i < |runs| && runs[i].None?
    requires r == HashResult(i, ChunkDigest(c, i * b, t, sha))
    requires multiset(channel) == multiset(IndexedResults(c, b, runs, sha))
    ensures multiset(channel + [r]) == multiset(IndexedResults(c, b, runs[i := Some(t)], sha))
  {
    ResultsSend(c, b, runs, sha, i, t);
  }

  /**
   * `HashNUpload`: a `Stat` failure gives `""`. Otherwise every one of the 56
   * workers either sends nothing or sends the digest of what its read loop
   * consumed from `i * bytesPerThread`; whatever the order in which they
   * finish, the result is the concatenation of the sent digests in index
   * order, 64 characters per worker that sent, at most 3584 in all.
   */
  method HashNUpload(fs: FileSystem, fn: string, sha: Sha256) returns (finalHash: string, ghost runs: seq<Option<nat>>)
    ensures fn !in fs ==> finalHash == "" && runs == []
    ensures fn in fs ==>
      var b := BytesPerThread(|fs[fn]|, NumThreads);
      && |runs| == NumThreads
      && (forall i :: 0 <= i < NumThreads && runs[i].Some? ==> LoopExit(|fs[fn]|, i * b, b, runs[i].value))
      && finalHash == ConcatHashes(IndexedResults(fs[fn], b, runs, sha))
    ensures |finalHash| == 64 * CountSent(runs) <= 64 * NumThreads
    ensures |finalHash| <= 64 * NumThreads
    ensures fn in fs && |fs[fn]| < NumThreads ==> CountSent(runs) == NumThreads
  {
    if fn !in fs {
      return "", [];
    }
    var fileSize := |fs[fn]|;
    var bytesPerThread := fileSize / NumThreads;
    assert fileSize < NumThreads ==> bytesPerThread == 0 by {
      ShortFileEmptyRanges(fileSize, NumThreads);
    }
    var channel;
    channel, runs := RunWorkers(fs, fn, bytesPerThread, sha);
    finalHash := SortAndJoin(channel, fs[fn], bytesPerThread, runs, sha);
  }

  /**
   * The `sort.Slice` by `Index` and the concatenation that end `HashNUpload`:
   * whatever order the channel holds the results in, the string is the
   * digests in worker order.
   */
  method SortAndJoin(channel: seq<HashResult>, ghost c: seq<byte>, ghost b: nat, ghost runs: seq<Option<nat>>, sha: Sha256)
    returns (finalHash: string)
    requires multiset(channel) == multiset(IndexedResults(c, b, runs, sha))
    ensures finalHash == ConcatHashes(IndexedResults(c, b, runs, sha))
    ensures |finalHash| == 64 * CountSent(runs)
  {
    var results := SortByIndex(channel);
    IndexedResultsDetermined(c, b, runs, sha);
    IndexedResultsShape(c, b, runs, sha);
    SortedUnique(IndexedResults(c, b, runs, sha), results);
    finalHash := JoinHashes(results);
  }

  /**
   * The spawning loop, `wg.Wait()` and the draining of the channel: worker
   * `i` hashes from `i * bytesPerThread`; the workers finish in an arbitrary
   * order and the channel holds what they sent in that order. Whatever the
   * order, the channel holds exactly the results of the workers that sent.
   */
  method RunWorkers(fs: FileSystem, fn: string, bytesPerThread: nat, sha: Sha256)
    returns (channel: seq<HashResult>, ghost runs: seq<Option<nat>>)
    requires fn in fs
    ensures |runs| == NumThreads
    ensures forall i :: 0 <= i < NumThreads && runs[i].Some? ==>
      LoopExit(|fs[fn]|, i * bytesPerThread, bytesPerThread, runs[i].value)
    ensures multiset(channel) == multiset(IndexedResults(fs[fn], bytesPerThread, runs, sha))
    ensures bytesPerThread == 0 ==> CountSent(runs) == NumThreads
  {
    var pending;
    pending, runs := Spawn();
    channel := [];
    NothingSent(fs[fn], bytesPerThread, runs, sha);
    while pending != {}
      invariant |runs| == NumThreads
      invariant forall i :: i in pending ==> i < NumThreads && runs[i].None?
      invariant forall k :: 0 <= k < |runs| && runs[k].Some? ==>
        LoopExit(|fs[fn]|, k * bytesPerThread, bytesPerThread, runs[k].value)
      invariant multiset(channel) == multiset(IndexedResults(fs[fn], bytesPerThread, runs, sha))
      invariant bytesPerThread == 0 ==> CountSent(runs) + |pending| == NumThreads
      decreases pending
    {
      var i :| i in pending;
      channel, runs := FinishWorker(fs, fn, bytesPerThread, sha, i, channel, runs);
      pending := pending - {i};
    }
  }

  /** The spawning loop: every worker is started and none has finished yet. */
  method Spawn() returns (pending: set<nat>, ghost runs: seq<Option<nat>>)
    ensures |runs| == NumThreads
    ensures forall j :: j in pending <==> 0 <= j < NumThreads
    ensures forall j :: 0 <= j < NumThreads ==> runs[j].None?
    ensures |pending| == NumThreads && CountSent(runs) == 0
  {
    runs := [];
    pending := {};
    for i := 0 to NumThreads
      invariant |runs| == i
      invariant forall j :: j in pending <==> 0 <= j < i
      invariant forall j :: 0 <= j < i ==> runs[j].None?
      invariant |pending| == i && CountSent(runs) == 0
    {
      assert (runs + [None])[..i] == runs;
      pending := pending + {i};
      runs := runs + [None];
    }
  }

  /**
   * Worker `i` runs `GetSHA` from `i * bytesPerThread`; if it sends, its
   * result is appended to the channel and its run is recorded.
   */
  method FinishWorker(fs: FileSystem, fn: string, bytesPerThread: nat, sha: Sha256, i: nat,
                      channel: seq<HashResult>, ghost runs: seq<Option<nat>>)
    returns (channel': seq<HashResult>, ghost runs': seq<Option<nat>>)
    requires fn in fs && i < |runs| && runs[i].None?
    requires multiset(channel) == multiset(IndexedResults(fs[fn], bytesPerThread, runs, sha))
    requires forall k :: 0 <= k < |runs| && runs[k].Some? ==>
      LoopExit(|fs[fn]|, k * bytesPerThread, bytesPerThread, runs[k].value)
    ensures |runs'| == |runs|
    ensures forall k :: 0 <= k < |runs| && k != i ==> runs'[k] == runs[k]
    ensures runs'[i].Some? ==> LoopExit(|fs[fn]|, i * bytesPerThread, bytesPerThread, runs'[i].value)
    ensures bytesPerThread == 0 ==> runs'[i].Some?
    ensures CountSent(runs') == CountSent(runs) + (if runs'[i].Some? then 1 else 0)
    ensures forall k :: 0 <= k < |runs'| && runs'[k].Some? ==>
      LoopExit(|fs[fn]|, k * bytesPerThread, bytesPerThread, runs'[k].value)
    ensures multiset(channel') == multiset(IndexedResults(fs[fn], bytesPerThread, runs', sha))
  {
    var sent, t := GetSHA(fs, fn, i * bytesPerThread, bytesPerThread, i, sha);
    if sent.Some? {
      ReceiveStep(fs[fn], bytesPerThread, runs, sha, channel, i, t, sent.value);
      channel' := channel + [sent.value];
      runs' := runs[i := Some(t)];
      CountSentSend(runs, i, t);
      RecordRun(|fs[fn]|, bytesPerThread, runs, i, t);
    } else {
      channel', runs' := channel, runs;
    }
  }

  /** The `finalHash += r.Hash` loop: the hashes of the results, one after another. */
  method JoinHashes(results: seq<HashResult>) returns (finalHash: string)
    ensures finalHash == ConcatHashes(results)
  {
    finalHash := "";
    for k := 0 to |results|
      invariant finalHash == ConcatHashes(results[..k])
    {
      assert results[..k + 1][..k] == results[..k];
      finalHash := finalHash + results[k].hash;
    }
    assert results[..|results|] == results;
  }
}
