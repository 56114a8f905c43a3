/**
 * The stand-alone hashing program (hashfuncs.go): four workers each hash one
 * range of `printdata.mcap` and send the hex digest; the program collects
 * the digests in arrival order and prints them.
 *
 * The goroutines and the channel are replaced by a loop that lets the
 * workers finish in an arbitrary order; the printing is the returned list.
 */
module RootHash {
  import opened Results
  import opened Encoding
  import opened Files
  import opened Chunks

  const NumThreads := 4
  const FileName := "printdata.mcap"

  /**
   * `getSHA`: open the file, seek to `startIndex`, and feed 4096-byte reads
   * to an incremental SHA-256 until `bytesPerThread` bytes are in or the end
   * of the file is met; then send the digest as `%x`. An open, seek or read
   * failure sends nothing. The ghost `totalRead` is how many bytes the loop
   * consumed.
   */
  method GetSHA(fs: FileSystem, filename: string, startIndex: int, bytesPerThread: int, sha: Sha256)
    returns (sent: Option<string>, ghost totalRead: nat)
    ensures filename !in fs || startIndex < 0 ==> sent == None
    ensures sent.Some? ==>
      && filename in fs && 0 <= startIndex
      && LoopExit(|fs[filename]|, startIndex, bytesPerThread, totalRead)
      && sent.value == ChunkDigest(fs[filename], startIndex, totalRead, sha)
    ensures sent.Some? && startIndex == 0 && bytesPerThread == |fs[filename]| ==>
      sent.value == Hex(sha(fs[filename]))
    ensures filename in fs && 0 <= startIndex && bytesPerThread <= 0 ==> sent.Some?
  {
    totalRead := 0;
    var file := OpenFile(fs, filename);
    if file == null {
      return None, 0;
    }
    var ok := file.Seek(startIndex);
    if !ok {
      return None, 0;
    }
    var written: seq<byte> := [];  // everything handed to hasher.Write so far
    var total: nat := 0;
    while total < bytesPerThread
      invariant file.offset == startIndex + total
      invariant written == Window(file.content, startIndex, total)
      invariant startIndex + total <= Max(|file.content|, startIndex)
      invariant total == 0 || total < bytesPerThread + BufferSize
      invariant bytesPerThread <= 0 ==> total == 0
      decreases bytesPerThread - total
    {
      var data, status := file.Read();
      if |data| > 0 {
        WindowGrow(file.content, startIndex, total, |data|);
        written := written + data;
        total := total + |data|;
      }
      if status == Eof {
        break;
      } else if status == ReadFailed {
        return None, 0;
      }
    }
    sent := Some(Hex(sha(written)));
    totalRead := total;
    if startIndex == 0 && bytesPerThread == |fs[filename]| {
      WholeFileDigest(fs[filename], totalRead, sha);
    }
  }

  /**
   * `main`: a `Stat` failure on `printdata.mcap` prints nothing more and
   * gives `None`. Otherwise every one of the four workers either sends
   * nothing or sends the digest of what its read loop consumed from
   * `i * bytesPerThread`; the printed list holds exactly those digests, in
   * the order the workers finished, at most four of them.
   */
  method CollectHashes(fs: FileSystem, sha: Sha256) returns (hashes: Option<seq<string>>, ghost runs: seq<Option<nat>>)
    ensures FileName !in fs ==> hashes == None && runs == []
    ensures FileName in fs ==>
      var c := fs[FileName];
      var b := BytesPerThread(|c|, NumThreads);
      && hashes.Some?
      && |runs| == NumThreads
      && (forall i :: 0 <= i < NumThreads && runs[i].Some? ==> LoopExit(|c|, i * b, b, runs[i].value))
      && multiset(hashes.value) == multiset(Digests(c, b, runs, sha))
    ensures hashes.Some? ==> |hashes.value| <= NumThreads
    ensures hashes.Some? ==>
      && |hashes.value| == CountSent(runs)
      && forall k :: 0 <= k < |hashes.value| ==> |hashes.value[k]| == 64 && IsLowerHex(hashes.value[k])
    ensures FileName in fs && |fs[FileName]| < NumThreads ==> CountSent(runs) == NumThreads
  {
    if FileName !in fs {
      return None, [];
    }
    var fileSize := |fs[FileName]|;
    var bytesPerThread := fileSize / NumThreads;
    assert fileSize < NumThreads ==> bytesPerThread == 0 by {
      ShortFileEmptyRanges(fileSize, NumThreads);
    }
    var channel;
    channel, runs := RunWorkers(fs, bytesPerThread, sha);
    ghost var ds := Digests(fs[FileName], bytesPerThread, runs, sha);
    assert |channel| == |multiset(channel)| == |ds|;
    forall k | 0 <= k < |channel|
      ensures |channel[k]| == 64 && IsLowerHex(channel[k])
    {
      assert channel[k] in multiset(ds);
    }
    hashes := Some(channel);
  }

  /**
   * The spawning loop, `wg.Wait()` and the draining of the channel: worker
   * `i` hashes from `i * bytesPerThread`; the workers finish in an arbitrary
   * order and the channel holds what they sent in that order.
   */
  method RunWorkers(fs: FileSystem, bytesPerThread: nat, sha: Sha256)
    returns (channel: seq<string>, ghost runs: seq<Option<nat>>)
    requires FileName in fs
    ensures |runs| == NumThreads
    ensures forall i :: 0 <= i < NumThreads && runs[i].Some? ==>
      LoopExit(|fs[FileName]|, i * bytesPerThread, bytesPerThread, runs[i].value)
    ensures multiset(channel) == multiset(Digests(fs[FileName], bytesPerThread, runs, sha))
    ensures bytesPerThread == 0 ==> CountSent(runs) == NumThreads
  {
    var pending;
    pending, runs := Spawn();
    channel := [];
    NoDigests(fs[FileName], bytesPerThread, runs, sha);
    while pending != {}
      invariant |runs| == NumThreads
      invariant forall i :: i in pending ==> i < NumThreads && runs[i].None?
      invariant forall k :: 0 <= k < |runs| && runs[k].Some? ==>
        LoopExit(|fs[FileName]|, k * bytesPerThread, bytesPerThread, runs[k].value)
      invariant multiset(channel) == multiset(Digests(fs[FileName], bytesPerThread, runs, sha))
      invariant bytesPerThread == 0 ==> CountSent(runs) + |pending| == NumThreads
      decreases pending
    {
      var i :| i in pending;
      channel, runs := FinishWorker(fs, bytesPerThread, sha, i, channel, runs);
      pending := pending - {i};
    }
  }

  /** The spawning loop: every worker is started and none has finished yet. */
  method Spawn() returns (pending: set<nat>, ghost runs: seq<Option<nat>>)
    ensures |runs| == NumThreads
    ensures forall j :: j in pending <==> 0 <= j < NumThreads
    ensures forall j :: 0 <= j < NumThreads ==> runs[j].None?
    ensures |pending| == NumThreads && CountSent(runs) == 0
  {
    runs := [];
    pending := {};
    for i := 0 to NumThreads
      invariant |runs| == i
      invariant forall j :: j in pending <==> 0 <= j < i
      invariant forall j :: 0 <= j < i ==> runs[j].None?
      invariant |pending| == i && CountSent(runs) == 0
    {
      assert (runs + [None])[..i] == runs;
      pending := pending + {i};
      runs := runs + [None];
    }
  }

  /** Worker `i` runs `getSHA`; if it sends, its digest joins the channel and its run is recorded. */
  method FinishWorker(fs: FileSystem, bytesPerThread: nat, sha: Sha256, i: nat,
                      channel: seq<string>, ghost runs: seq<Option<nat>>)
    returns (channel': seq<string>, ghost runs': seq<Option<nat>>)
    requires FileName in fs && i < |runs| && runs[i].None?
    requires multiset(channel) == multiset(Digests(fs[FileName], bytesPerThread, runs, sha))
    requires forall k :: 0 <= k < |runs| && runs[k].Some? ==>
      LoopExit(|fs[FileName]|, k * bytesPerThread, bytesPerThread, runs[k].value)
    ensures |runs'| == |runs|
    ensures forall k :: 0 <= k < |runs| && k != i ==> runs'[k] == runs[k]
    ensures runs'[i].Some? ==>
      LoopExit(|fs[FileName]|, i * bytesPerThread, bytesPerThread, runs'[i].value)
    ensures bytesPerThread == 0 ==> runs'[i].Some?
    ensures CountSent(runs') == CountSent(runs) + (if runs'[i].Some? then 1 else 0)
    ensures forall k :: 0 <= k < |runs'| && runs'[k].Some? ==>
      LoopExit(|fs[FileName]|, k * bytesPerThread, bytesPerThread, runs'[k].value)
    ensures multiset(channel') == multiset(Digests(fs[FileName], bytesPerThread, runs', sha))
  {
    var sent, t := GetSHA(fs, FileName, i * bytesPerThread, bytesPerThread, sha);
    if sent.Some? {
      DigestsSend(fs[FileName], bytesPerThread, runs, sha, i, t);
      channel' := channel + [sent.value];
      runs' := runs[i := Some(t)];
      CountSentSend(runs, i, t);
      RecordRun(|fs[FileName]|, bytesPerThread, runs, i, t);
    } else {
      channel', runs' := channel, runs;
    }
  }
}
