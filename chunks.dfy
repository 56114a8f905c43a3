/**
 * What the three hashing programs share: the split of a file into one range
 * per worker, the bytes a worker's read loop ends up hashing, and the digests
 * of the workers that succeeded.
 *
 * Every program computes `bytesPerThread := fileSize / NUM_THREADS` and starts
 * worker `i` at `i * bytesPerThread`, giving every worker the same length:
 * the last worker is not given the `fileSize mod NUM_THREADS` tail.
 */
module Chunks {
  import opened Results
  import opened Encoding
  import opened Files

  /**
   * `fileSize / NUM_THREADS`. Sizes are never negative, so Go's division
   * (truncating toward zero) and Dafny's agree here.
   */
  function BytesPerThread(size: nat, threads: nat): nat
    requires threads > 0
  {
    size / threads
  }

  /** The nominal range handed to one worker: its index, start offset and length. */
  datatype ChunkRange = ChunkRange(index: nat, start: nat, length: nat)

  /** The ranges handed out by the spawning loop, worker 0 first. */
  function Partition(size: nat, threads: nat): (r: seq<ChunkRange>)
    requires threads > 0
    ensures |r| == threads
  {
    var b := BytesPerThread(size, threads);
    seq(threads, i requires 0 <= i < threads => ChunkRange(i, i * b, b))
  }

  predicate InRange(c: ChunkRange, x: int) {
    c.start <= x < c.start + c.length
  }

  /** Some range of the partition holds offset `x`. */
  predicate Covered(r: seq<ChunkRange>, x: int) {
    exists i :: 0 <= i < |r| && InRange(r[i], x)
  }

  lemma MulMonotone(a: nat, c: nat, b: nat)
    requires a <= c
    ensures a * b <= c * b
  {
  }

  /**
   * Every worker starts inside the file, its nominal range ends inside the
   * file, and consecutive workers start exactly `bytesPerThread` apart.
   */
  lemma PartitionStarts(size: nat, threads: nat, i: nat)
    requires threads > 0 && i < threads
    ensures var r := Partition(size, threads);
      && r[i].index == i
      && r[i].length == BytesPerThread(size, threads)
      && 0 <= r[i].start <= r[i].start + r[i].length <= size
      && (i + 1 < threads ==> r[i + 1].start == r[i].start + r[i].length)
  {
    var b := BytesPerThread(size, threads);
    MulMonotone(i + 1, threads, b);
    assert (i + 1) * b == i * b + b;
    assert threads * b <= size;
  }

  /** Nominal ranges of different workers do not overlap. */
  lemma PartitionDisjoint(size: nat, threads: nat, i: nat, j: nat)
    requires threads > 0 && i < j < threads
    ensures var r := Partition(size, threads);
      r[i].start + r[i].length <= r[j].start
  {
    var b := BytesPerThread(size, threads);
    MulMonotone(i + 1, j, b);
    assert (i + 1) * b == i * b + b;
  }

  lemma DivBounds(x: nat, b: nat)
    requires 0 < b
    ensures (x / b) * b <= x < (x / b) * b + b
  {
    assert x == (x / b) * b + x % b;
  }

  /** An offset below `threads * bytesPerThread` lies in the range of worker `offset / bytesPerThread`. */
  lemma CoveredBelow(size: nat, threads: nat, x: nat)
    requires threads > 0 && x < threads * BytesPerThread(size, threads)
    ensures Covered(Partition(size, threads), x)
  {
    var b := BytesPerThread(size, threads);
    var i := x / b;
    DivBounds(x, b);
    if threads <= i {
      MulMonotone(threads, i, b);
    }
    assert InRange(Partition(size, threads)[i], x);
  }

  /** A covered offset lies below `threads * bytesPerThread`. */
  lemma CoveredAbove(size: nat, threads: nat, x: int)
    requires threads > 0 && Covered(Partition(size, threads), x)
    ensures 0 <= x < threads * BytesPerThread(size, threads)
  {
    var b := BytesPerThread(size, threads);
    var r := Partition(size, threads);
    var i :| 0 <= i < |r| && InRange(r[i], x);
    MulMonotone(i + 1, threads, b);
    assert (i + 1) * b == i * b + b;
  }

  /**
   * The nominal ranges cover exactly `[0, threads * bytesPerThread)`: the
   * last `fileSize mod threads` bytes of the file are in no range.
   */
  lemma PartitionCovers(size: nat, threads: nat, x: int)
    requires threads > 0
    ensures threads * BytesPerThread(size, threads) + size % threads == size
    ensures Covered(Partition(size, threads), x) <==> 0 <= x < threads * BytesPerThread(size, threads)
  {
    if 0 <= x < threads * BytesPerThread(size, threads) {
      CoveredBelow(size, threads, x);
    }
    if Covered(Partition(size, threads), x) {
      CoveredAbove(size, threads, x);
    }
  }

  /**
   * The values `totalRead` can have when a worker's read loop ends without a
   * read error: nothing is read for an empty range; otherwise the loop stops
   * once `bytesPerThread` bytes are in or the end of the file is met, never
   * more than one buffer past its nominal end and never past the end of the file.
   */
  predicate LoopExit(size: nat, start: nat, bytesPerThread: int, t: nat) {
    if bytesPerThread <= 0 then t == 0
    else
      && t < bytesPerThread + BufferSize
      && (bytesPerThread <= t || size <= start + t)
      && start + t <= Max(size, start)
  }

  /** The bytes from offset `start` on, `t` of them, cut at the end of the file. */
  function Window(c: seq<byte>, start: nat, t: nat): (w: seq<byte>)
    ensures start + t <= |c| ==> w == c[start..start + t]
  {
    c[Min(start, |c|)..Min(start + t, |c|)]
  }

  /**
   * A worker whose range is the whole file, started at 0, hashes exactly the
   * file: its digest is plain SHA-256 of the content.
   */
  lemma WholeFileDigest(c: seq<byte>, t: nat, sha: Sha256)
    requires LoopExit(|c|, 0, |c|, t)
    ensures ChunkDigest(c, 0, t, sha) == Hex(sha(c))
  {
    assert t == |c|;
    assert c[0..|c|] == c;
  }

  /**
   * A range that reaches the end of the file is hashed the same way by every
   * run that ends without error, however the reads were split: the loop
   * always consumes the rest of the file.
   */
  lemma EndRangeDetermined(c: seq<byte>, start: nat, b: int, t1: nat, t2: nat, sha: Sha256)
    requires start <= |c| <= start + b
    requires LoopExit(|c|, start, b, t1) && LoopExit(|c|, start, b, t2)
    ensures t1 == t2 == |c| - start
    ensures ChunkDigest(c, start, t1, sha) == ChunkDigest(c, start, t2, sha)
  {
  }

  /** A read of `n` more bytes from inside the file extends the window by exactly those bytes. */
  lemma WindowGrow(c: seq<byte>, start: nat, t: nat, n: nat)
    requires start + t + n <= |c|
    ensures Window(c, start, t) + c[start + t..start + t + n] == Window(c, start, t + n)
  {
  }

  /** The lowercase hex SHA-256 of what a worker hashed: `t` bytes from `start`. */
  function ChunkDigest(c: seq<byte>, start: nat, t: nat, sha: Sha256): (h: string)
    ensures |h| == 64 && IsLowerHex(h)
  {
    Hex(sha(Window(c, start, t)))
  }

  /**
   * `totalRead` at the end of the loop when every `Read` fills as much of the
   * 4096-byte buffer as the file allows, which is what a read of a regular
   * file does; `t` is what has been read so far.
   */
  function FullReadTotal(size: nat, start: nat, bytesPerThread: int, t: nat): nat
    decreases bytesPerThread - t
  {
    if bytesPerThread <= t || size <= start + t then t
    else FullReadTotal(size, start, bytesPerThread, t + Min(BufferSize, size - start - t))
  }

  /** `b` rounded up to a whole number of read buffers. */
  function RoundUp(b: nat): (r: nat)
  {
    (b + BufferSize - 1) / BufferSize * BufferSize
  }

  lemma RoundUpFacts(b: nat, k: nat)
    ensures RoundUp(b) % BufferSize == 0
    ensures b <= RoundUp(b) < b + BufferSize
    ensures k * BufferSize < b ==> k * BufferSize + BufferSize <= RoundUp(b)
    ensures b <= k * BufferSize ==> RoundUp(b) <= k * BufferSize
  {
    var m := (b + BufferSize - 1) / BufferSize;
    assert RoundUp(b) == m * BufferSize;
    if k * BufferSize < b {
      assert k < m;
      MulMonotone(k + 1, m, BufferSize);
    }
    if b <= k * BufferSize {
      assert m <= k;
      MulMonotone(m, k, BufferSize);
    }
  }

  lemma {:induction false} FullReadTotalFrom(size: nat, start: nat, b: nat, t: nat)
    requires 0 < b && start + t <= size && t <= RoundUp(b)
    requires t % BufferSize == 0 || start + t == size
    ensures FullReadTotal(size, start, b, t) == Min(RoundUp(b), size - start)
    decreases b - t
  {
    RoundUpFacts(b, t / BufferSize);
    if b <= t || size <= start + t {
      if b <= t && start + t < size {
        assert t % BufferSize == 0;
        assert t / BufferSize * BufferSize == t;
      }
    } else {
      var n := Min(BufferSize, size - start - t);
      if n == BufferSize {
        assert t % BufferSize == 0;
        assert t / BufferSize * BufferSize == t;
        assert (t + n) % BufferSize == 0;
      }
      FullReadTotalFrom(size, start, b, t + n);
    }
  }

  /**
   * Reading a regular file, a worker hashes its nominal range rounded up to
   * whole 4096-byte buffers, cut at the end of the file; this is one of the
   * loop exits `LoopExit` allows.
   */
  lemma FullReads(size: nat, start: nat, b: nat)
    requires 0 < b && start <= size
    ensures FullReadTotal(size, start, b, 0) == Min(RoundUp(b), size - start)
    ensures LoopExit(size, start, b, FullReadTotal(size, start, b, 0))
  {
    FullReadTotalFrom(size, start, b, 0);
    RoundUpFacts(b, 0);
  }

  /**
   * The tail beyond the last nominal range is still hashed when it fits in
   * the last worker's overrun: with full reads the last worker then reads
   * through the end of the file.
   */
  lemma LastWorkerReadsTail(size: nat, threads: nat)
    requires threads > 0 && 0 < BytesPerThread(size, threads)
    requires size % threads <= RoundUp(BytesPerThread(size, threads)) - BytesPerThread(size, threads)
    ensures var last := Partition(size, threads)[threads - 1];
      last.start <= size && last.start + FullReadTotal(size, last.start, last.length, 0) == size
  {
    var b := BytesPerThread(size, threads);
    var last := Partition(size, threads)[threads - 1];
    PartitionStarts(size, threads, threads - 1);
    PartitionCovers(size, threads, 0);
    assert last.start == (threads - 1) * b && last.length == b;
    assert (threads - 1) * b + b == threads * b;
    FullReads(size, last.start, b);
  }

  /**
   * A file with fewer bytes than workers gives every worker an empty range:
   * each one that sends, sends SHA-256 of the empty input.
   */
  /** A file with fewer bytes than workers gives every worker an empty range. */
  lemma ShortFileEmptyRanges(size: nat, threads: nat)
    requires 0 < threads
    ensures size < threads ==> BytesPerThread(size, threads) == 0
  {
    if size < threads {
      assert size / threads == 0;
    }
  }

  lemma ShortFileHashesNothing(c: seq<byte>, threads: nat, start: nat, t: nat, sha: Sha256)
    requires 0 < threads && |c| < threads
    requires LoopExit(|c|, start, BytesPerThread(|c|, threads), t)
    ensures t == 0 && ChunkDigest(c, start, t, sha) == Hex(sha([]))
  {
    ShortFileEmptyRanges(|c|, threads);
    assert Window(c, start, t) == [];
  }

  /**
   * When `bytesPerThread` is a positive multiple of 4096 and the nominal range
   * lies inside the file, a worker reading a regular file hashes exactly its
   * nominal range.
   */
  lemma FullReadsAligned(size: nat, start: nat, b: nat)
    requires 0 < b && b % BufferSize == 0 && start + b <= size
    ensures FullReadTotal(size, start, b, 0) == b
  {
    FullReads(size, start, b);
    RoundUpFacts(b, b / BufferSize);
    assert b / BufferSize * BufferSize == b;
  }

  /**
   * So when `bytesPerThread` is a positive multiple of 4096, no worker hashes
   * any of the tail `[threads * bytesPerThread, fileSize)`: two files that
   * differ only there give every worker the same bytes.
   */
  lemma TailNotHashed(c1: seq<byte>, c2: seq<byte>, threads: nat, i: nat)
    requires threads > 0 && i < threads && |c1| == |c2|
    requires var b := BytesPerThread(|c1|, threads);
      0 < b && b % BufferSize == 0 && c1[..threads * b] == c2[..threads * b]
    ensures var b := BytesPerThread(|c1|, threads);
      && FullReadTotal(|c1|, i * b, b, 0) == b
      && Window(c1, i * b, b) == Window(c2, i * b, b)
  {
    var b := BytesPerThread(|c1|, threads);
    var lo, n := i * b, threads * b;
    PartitionStarts(|c1|, threads, i);
    FullReadsAligned(|c1|, lo, b);
    MulMonotone(i + 1, threads, b);
    assert lo + b <= n;
    SameWindow(c1, c2, n, lo, b);
  }

  /** Files that agree on their first `n` bytes agree on every window inside them. */
  lemma SameWindow(c1: seq<byte>, c2: seq<byte>, n: nat, lo: nat, len: nat)
    requires |c1| == |c2| && lo + len <= n <= |c1| && c1[..n] == c2[..n]
    ensures Window(c1, lo, len) == Window(c2, lo, len)
  {
    assert c1[lo..lo + len] == c1[..n][lo..lo + len];
    assert c2[lo..lo + len] == c2[..n][lo..lo + len];
  }

  /** How many workers sent a result; `runs[i]` is `Some(totalRead)` for those. */
  function CountSent(runs: seq<Option<nat>>): (n: nat)
    ensures n <= |runs|
  {
    if runs == [] then 0
    else CountSent(runs[..|runs| - 1]) + (if runs[|runs| - 1].Some? then 1 else 0)
  }

  /** What worker `k` contributes: its digest if it sent one, nothing otherwise. */
  function Sent(c: seq<byte>, b: nat, k: nat, run: Option<nat>, sha: Sha256): seq<string>
  {
    match run
    case None => []
    case Some(t) => [ChunkDigest(c, k * b, t, sha)]
  }

  /** The digests of the workers that sent one, in worker order. */
  function Digests(c: seq<byte>, b: nat, runs: seq<Option<nat>>, sha: Sha256): (ds: seq<string>)
    ensures |ds| == CountSent(runs)
    ensures forall k :: 0 <= k < |ds| ==> |ds[k]| == 64 && IsLowerHex(ds[k])
  {
    if runs == [] then []
    else
      var last := |runs| - 1;
      Digests(c, b, runs[..last], sha) + Sent(c, b, last, runs[last], sha)
  }

  /** Worker `i` finishing and sending adds its digest to the collected ones and changes nothing else. */
  lemma {:induction false} DigestsSend(c: seq<byte>, b: nat, runs: seq<Option<nat>>, sha: Sha256, i: nat, t: nat)
    requires i < |runs| && runs[i].None?
    ensures multiset(Digests(c, b, runs[i := Some(t)], sha))
         == multiset(Digests(c, b, runs, sha)) + multiset(Sent(c, b, i, Some(t), sha))
    decreases |runs|
  {
    var last := |runs| - 1;
    var runs' := runs[i := Some(t)];
    if i == last {
      assert runs'[..last] == runs[..last];
    } else {
      assert runs'[..last] == runs[..last][i := Some(t)];
      DigestsSend(c, b, runs[..last], sha, i, t);
    }
  }

  lemma {:induction false} NoDigests(c: seq<byte>, b: nat, runs: seq<Option<nat>>, sha: Sha256)
    requires forall k :: 0 <= k < |runs| ==> runs[k].None?
    ensures Digests(c, b, runs, sha) == []
  {
    if runs != [] {
      NoDigests(c, b, runs[..|runs| - 1], sha);
    }
  }

  /** When every worker sends, every worker's digest is collected. */
  /** Recording a valid loop exit for worker `i` keeps every recorded run a valid loop exit. */
  lemma RecordRun(size: nat, b: nat, runs: seq<Option<nat>>, i: nat, t: nat)
    requires i < |runs|
    requires forall k :: 0 <= k < |runs| && runs[k].Some? ==> LoopExit(size, k * b, b, runs[k].value)
    requires LoopExit(size, i * b, b, t)
    ensures forall k :: 0 <= k < |runs[i := Some(t)]| && runs[i := Some(t)][k].Some? ==>
      LoopExit(size, k * b, b, runs[i := Some(t)][k].value)
  {
  }

  /** A worker that had not sent and now sends raises the count by one. */
  lemma {:induction false} CountSentSend(runs: seq<Option<nat>>, i: nat, t: nat)
    requires i < |runs| && runs[i].None?
    ensures CountSent(runs[i := Some(t)]) == CountSent(runs) + 1
  {
    var last := |runs| - 1;
    var runs' := runs[i := Some(t)];
    if i < last {
      assert runs'[..last] == runs[..last][i := Some(t)];
      CountSentSend(runs[..last], i, t);
    } else {
      assert runs'[..last] == runs[..last];
    }
  }

  lemma {:induction false} AllSent(runs: seq<Option<nat>>)
    requires forall k :: 0 <= k < |runs| ==> runs[k].Some?
    ensures CountSent(runs) == |runs|
  {
    if runs != [] {
      AllSent(runs[..|runs| - 1]);
    }
  }
}
