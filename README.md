# Chunked file hashing and the MCAP upload daemon, in Dafny

This project models the sequential logic of the Capstone-Project repository's
file hashing: the three programs that split a file among worker goroutines,
hash each range with SHA-256 and combine the digests, and the parts of the
MCAP daemon that decide when and whether a file is hashed.

- `results.dfy` (`Results`): `Option` and `Result`.
- `encoding.dfy` (`Encoding`): bytes, 32-byte digests, SHA-256 as a
  parameter, lowercase hex encoding (`%x` / `hex.EncodeToString`) with its
  inverse, and `[]byte(s)` for ASCII text.
- `files.dfy` (`Files`): the file system as a map from path to contents, and
  an open file (`FileHandle`) with `Seek` and `Read` as `os.File` behaves on a
  regular file: a read fails, reports EOF at the end, or returns between 1
  and `min(4096, remaining)` bytes.
- `chunks.dfy` (`Chunks`): what the three programs share. This covers the
  `fileSize / N` partition, the bytes a worker's read loop hashes, and the
  digests of the workers that succeeded.
- `mcap_hash.dfy` (`McapHash`): MCAPDaemon/hashfuncs.go. `GetSHA` with its
  index, and `HashNUpload`, which sorts by `Index` and concatenates.
- `hashlib.dfy` (`HashLib`): hashlib/hashfuncs.go. `GetSHA` with path
  resolution and the extra quota break, and `HashFile`, which sorts the hex
  strings, re-hashes them and reports errors.
- `root_hash.dfy` (`RootHash`): hashfuncs.go. `getSHA`, and `main` collecting
  the digests for `printdata.mcap`.
- `sniffer.dfy` (`Sniffer`): `getMagicBytes` and the `.mcap` suffix and
  signature test in `printEvent` (MCAPDaemon/daemon.go).
- `debounce.dfy` (`Debounce`): the `timers` map of `dedupLoop` as a class
  `Debouncer`. `Notify` handles one event and `Fire` handles one timer
  expiring.

Concurrency is modelled as follows:

- The workers run in a loop that picks an arbitrary unfinished worker each
  time (`var i :| i in pending`). The channel is the sequence of what they
  sent, in that order.
- A ghost sequence `runs` records, for each worker, `Some(totalRead)` if it
  sent a digest and `None` if it failed.
- The sort functions stand for `sort.Slice` and `sort.Strings` through their
  results: a sorted permutation. Determinism is proved from the fact that
  this sorted permutation is unique.

Three points where the code does not do what its names, comments and tests
suggest; the model follows the code:

- Every worker is given the same `bytesPerThread = fileSize / N`, so the
  `fileSize mod N` bytes at the end lie in no worker's nominal range
  (`Chunks.PartitionCovers`). They can still be hashed: the last worker's
  loop reads past its nominal end (next point), and with full 4096-byte
  reads it reaches the end of the file whenever the tail fits in that
  overrun (`Chunks.LastWorkerReadsTail`). With full reads the tail goes
  unhashed when `bytesPerThread` is a positive multiple of 4096
  (`Chunks.TailNotHashed`). When `bytesPerThread` is 0, a file shorter than
  N bytes, no byte of the file is hashed at all
  (`Chunks.ShortFileHashesNothing`), yet every worker still sends, so the
  result is built from N copies of SHA-256 of the empty input.
- A worker's loop stops only after at least `bytesPerThread` bytes, so it may
  read up to 4095 bytes past its nominal range. With full 4096-byte reads it
  hashes `min(RoundUp(bytesPerThread), fileSize - start)` bytes.
- hashlib's `HashFile` is documented as "a SHA256 hash of an entire file"
  (hashlib/hashfuncs.go:62), and hashlib/hashfuncs_test.go:35-37 expects
  SHA-256 of the content. It returns SHA-256 of the concatenation of the
  sorted chunk digests instead.

## Model

| member | source | states |
|---|---|---|
| Encoding.Hex | MCAPDaemon/hashfuncs.go:54 | `%x` of a byte string is lowercase hex, two characters per byte |
| Encoding.UnhexHex | MCAPDaemon/hashfuncs.go:54 | hex encoding loses nothing: decoding it gives back the bytes |
| Encoding.HexInjective | hashlib/hashfuncs.go:59 | different digests have different hex strings |
| Files.FileHandle.Seek | MCAPDaemon/hashfuncs.go:30-34 | seeking fails exactly for a negative offset; otherwise the offset becomes the argument |
| Files.FileHandle.Read | MCAPDaemon/hashfuncs.go:41 | a read fails with no bytes, reports EOF only at the end of the file, or returns the next 1 to 4096 bytes and advances the offset by that many |
| Files.OpenFile | MCAPDaemon/hashfuncs.go:22-26 | an absent path fails to open; a present path gives a handle at offset 0 over the file's contents (the model's only open failure is an absent path) |
| Chunks.PartitionStarts | MCAPDaemon/hashfuncs.go:67-76 | worker i starts at i·b inside the file, its nominal range ends inside the file, and consecutive starts differ by exactly b |
| Chunks.PartitionDisjoint | MCAPDaemon/hashfuncs.go:68-76 | the nominal ranges of two different workers do not overlap |
| Chunks.PartitionCovers | MCAPDaemon/hashfuncs.go:68-76 | the ranges cover exactly [0, N·b); the size mod N bytes after them belong to no worker |
| Chunks.Window | MCAPDaemon/hashfuncs.go:40-45 | the bytes hashed from a start, cut at the end of the file, are the contiguous slice of the file |
| Chunks.ChunkDigest | MCAPDaemon/hashfuncs.go:54 | a chunk digest is 64 lowercase hex characters |
| Chunks.FullReads | MCAPDaemon/hashfuncs.go:40-52 | with full 4096-byte reads, a worker hashes min(b rounded up to 4096, size − start) bytes, and this satisfies the loop's exit condition |
| Chunks.FullReadsAligned | MCAPDaemon/hashfuncs.go:40-52 | when b is a multiple of 4096 and the range fits, full reads hash exactly b bytes |
| Chunks.TailNotHashed | MCAPDaemon/hashfuncs.go:68-76 | with full reads and b a multiple of 4096, two files that agree on their first N·b bytes give every worker the same bytes: the tail changes no chunk digest |
| Chunks.LastWorkerReadsTail | MCAPDaemon/hashfuncs.go:40-52 | with full reads, when the size mod N tail fits in the last worker's overrun, the last worker hashes through the end of the file, tail included |
| Chunks.ShortFileHashesNothing | MCAPDaemon/hashfuncs.go:68-76 | a file with fewer bytes than workers gives every worker an empty range, so each sent digest is SHA-256 of the empty input |
| Chunks.WholeFileDigest | hashfuncs.go:30-48 | hashing the range [0, len) of a file of exactly len bytes gives SHA-256 of the whole file |
| Chunks.EndRangeDetermined | hashfuncs.go:30-48 | a range that reaches the end of the file is hashed the same way by every run that succeeds, so repeated calls send the same digest |
| Chunks.Digests | hashlib/hashfuncs.go:97-100 | one 64-character lowercase hex digest per worker that sent one |
| Chunks.DigestsSend | hashlib/hashfuncs.go:59 | a worker that sends adds exactly its own digest to what has been collected |
| Chunks.NoDigests | hashlib/hashfuncs.go:85 | before any worker has finished, nothing has been collected |
| Chunks.CountSentSend | MCAPDaemon/hashfuncs.go:55 | a worker that had not sent and now sends raises the number of digests by exactly one |
| Chunks.RecordRun | MCAPDaemon/hashfuncs.go:40-55 | recording a worker's valid loop exit keeps every recorded run a valid loop exit for its own range |
| Chunks.AllSent | hashlib/hashfuncs.go:85-100 | when no worker fails, all of them contribute a digest (4 for hashlib) |
| McapHash.GetSHA | MCAPDaemon/hashfuncs.go:19-57 | an open or seek failure sends nothing. A result that is sent carries the worker's index and the digest of the contiguous bytes the loop consumed. Unless the file ended first, b ≤ totalRead < b + 4096. A zero range of an existing file at a non-negative start always sends, and what it sends is SHA-256 of the empty input |
| McapHash.SortByIndex | MCAPDaemon/hashfuncs.go:88-90 | the results come out in ascending Index order and are a permutation of those collected |
| McapHash.SortedUnique | MCAPDaemon/hashfuncs.go:88-90 | when no two results share an index, there is only one sorted arrangement |
| McapHash.CombineOrderIndependent | MCAPDaemon/hashfuncs.go:82-95 | any two arrival orders of the same results give the same sorted list and the same final string |
| McapHash.ConcatHashes | MCAPDaemon/hashfuncs.go:92-95 | the final string has 64 characters per result |
| McapHash.IndexedResultsShape | MCAPDaemon/hashfuncs.go:82-95 | the collected results, in index order, are one per successful worker, with strictly ascending indices, each the digest of that worker's range |
| McapHash.IndexedResultsDetermined | MCAPDaemon/hashfuncs.go:55 | no two different results share an index |
| McapHash.ResultsSend | MCAPDaemon/hashfuncs.go:55 | a worker that sends adds exactly its own result to what has been collected |
| McapHash.NothingSent | MCAPDaemon/hashfuncs.go:71 | before any worker has finished, the channel is empty |
| McapHash.RunWorkers | MCAPDaemon/hashfuncs.go:73-86 | whatever order the 56 workers finish in, the channel holds exactly the results of the workers that sent; with an empty range (b = 0) every worker sends |
| McapHash.SortAndJoin | MCAPDaemon/hashfuncs.go:88-95 | sorting the channel by Index and concatenating gives the digests in worker order, 64 characters per worker that sent, whatever order the channel held them in |
| McapHash.JoinHashes | MCAPDaemon/hashfuncs.go:92-95 | the loop builds the concatenation of the hashes in order |
| McapHash.HashNUpload | MCAPDaemon/hashfuncs.go:59-98 | a missing file gives "". Otherwise the result is the concatenation of the sent digests in index order, whatever the completion order, and has 64 × (number of successful workers) ≤ 3584 characters. A file shorter than 56 bytes has all 56 workers send |
| HashLib.GetSHA | hashlib/hashfuncs.go:19-60 | a resolve, open or seek failure sends nothing. A digest that is sent is the digest of the contiguous bytes the loop consumed from the start. Unless the file ended first, b ≤ totalRead < b + 4096. A zero range of a resolvable, existing file at a non-negative start always sends |
| HashLib.LexLeTotal | hashlib/hashfuncs.go:101 | any two strings are ordered one way or the other |
| HashLib.LexLeAntisymmetric | hashlib/hashfuncs.go:101 | strings ordered both ways are equal |
| HashLib.LexLeTransitive | hashlib/hashfuncs.go:101 | string order is transitive |
| HashLib.SortedFirstLeast | hashlib/hashfuncs.go:101 | the first string of a sorted list is ≤ every string in it |
| HashLib.SortStrings | hashlib/hashfuncs.go:101 | the strings come out in ascending order and are a permutation of the input |
| HashLib.SortedUnique | hashlib/hashfuncs.go:101 | there is only one sorted arrangement of a collection of strings |
| HashLib.CombineDigests | hashlib/hashfuncs.go:101-109 | the returned hash is 64 lowercase hex characters however many digests were combined |
| HashLib.CombineOrderIndependent | hashlib/hashfuncs.go:96-109 | any permutation of the collected digests gives the same sorted list and the same final hash |
| HashLib.RunWorkers | hashlib/hashfuncs.go:85-100 | whatever order the 4 workers finish in, the channel holds exactly the digests of the workers that sent; with an empty range (b = 0) all 4 send |
| HashLib.FeedHasher | hashlib/hashfuncs.go:104-107 | the final hasher is fed the bytes of every string, in order |
| HashLib.HashFile | hashlib/hashfuncs.go:63-110 | an unresolvable path or a missing file is an error. Otherwise the result is the final SHA-256, as 64 hex characters, of the sorted digests of the workers that sent, at most 4. A file shorter than 4 bytes has all 4 workers send |
| RootHash.GetSHA | hashfuncs.go:13-50 | an open or seek failure sends nothing. A digest that is sent is the digest of the contiguous bytes the loop consumed. A whole-file range sends SHA-256 of the file. A zero range of an existing file at a non-negative start always sends |
| RootHash.RunWorkers | hashfuncs.go:63-78 | whatever order the workers finish in, the channel holds exactly the digests of the workers that sent; with an empty range (b = 0) all 4 send |
| RootHash.CollectHashes | hashfuncs.go:52-81 | a missing printdata.mcap gives nothing. Otherwise the list holds one 64-character digest per successful worker, at most 4, in arrival order. A file shorter than 4 bytes has all 4 workers send |
| Sniffer.GetMagicBytes | MCAPDaemon/daemon.go:140-166 | an open failure, or a file under 5 bytes, is an error. Bytes come back exactly when the file has at least 7 bytes, and they are its last 7 |
| Sniffer.ShortFileReadFails | MCAPDaemon/daemon.go:153-163 | a 5- or 6-byte file passes the size check, but the read at a negative offset fails |
| Sniffer.Gate | MCAPDaemon/daemon.go:176-187 | the name is refused exactly when it lacks the .mcap suffix. With the suffix, unreadable magic bytes report the getMagicBytes error, and a wrong signature reports the 7 bytes getMagicBytes returned |
| Sniffer.GateHashesIff | MCAPDaemon/daemon.go:176-187 | a path is hashed exactly when its name ends in .mcap, the file has at least 7 bytes, and its last 7 bytes are "MCAP0\r\n" |
| Debounce.NotifyIgnores | MCAPDaemon/daemon.go:210-212 | events that are neither Create nor Write leave the registry unchanged |
| Debounce.NotifyArms | MCAPDaemon/daemon.go:214-226 | an accepted event adds its path if absent and sets its deadline to a full 100 ms from now. It keeps an existing timer's captured event, or captures this one, and touches no other path |
| Debounce.NotifyWellFormed | MCAPDaemon/daemon.go:214-224 | the registry keeps one timer per path, holding an accepted event for that path |
| Debounce.BurstCoalesces | MCAPDaemon/daemon.go:214-226 | a burst of events for one path leaves one timer. It captures the first event and its deadline is 100 ms after the last one, not extended additively |
| Debounce.BurstDoesNotFireEarly | MCAPDaemon/daemon.go:168-226 | when events come less than 100 ms apart, the deadline is always ahead of the next event, so the timer cannot fire mid-burst |
| Debounce.FreshAfterFire | MCAPDaemon/daemon.go:191-224 | after a fire removes a path, the next accepted event starts a fresh timer that captures that event |
| Debounce.Debouncer.Notify | MCAPDaemon/daemon.go:205-226 | handling an event updates the registry as Notified says and keeps it well formed |
| Debounce.Debouncer.Fire | MCAPDaemon/daemon.go:173-193 | a due timer removes only its own path and dispatches the captured event. It uploads exactly when the gate passes. The uploaded hash is HashNUpload's result: the index-ordered digests of the 56 workers that sent, each over a range its read loop could have consumed from i·(size/56); for a file shorter than 56 bytes all 56 send. Otherwise it reports why it skipped |

## Left out

- Goroutines, `sync.WaitGroup`, channels, the mutex and `time.AfterFunc`
  are replaced by sequential choice. The real race is not modelled: the
  timer entry is deleted only after hashing, and `Reset` on a timer that
  has already fired can dispatch twice.
- SHA-256 internals are not modelled. SHA-256 is a parameter returning 32
  bytes. `filepath.Abs` is a parameter too.
- `file.Stat()` failing on an open descriptor, and `ReadAt` failing on a
  file of at least 7 bytes, are not modelled: the model treats both as
  always succeeding, so `Sniffer.Gate` never reports `Unreadable` for a file
  of at least 7 bytes.
- Files.OpenFile: an existing path always opens. Permission errors,
  descriptor exhaustion and a file removed between `os.Stat` and the
  workers' `os.Open` are not modelled, so a present file always gives `Ok`
  from `HashFile` and every worker of a zero-length range sends.
- Device read errors that arrive together with data are not modelled. A
  read either fails with no bytes or succeeds, as `os.File` reports them.
- int64 overflow of offsets and sizes is not modelled: sizes are unbounded
  naturals.
- `sort.Slice` and `sort.Strings` sort in place, but the model represents
  them by their result on values. Nothing else refers to the slice, so no
  aliasing is lost.
- Logging (`fmt.Println`, `log.Println`, `printTime`, `exit`, `formatJSON`)
  and printing the hash list in hashfuncs.go are not modelled. They produce
  output only.
- Fabric gateway setup, identities, signing and `CreateAsset` are not
  modelled: they are network calls. `Debouncer.Fire` returns the hash that
  would be submitted.
- `dedupLoop`'s `w.Errors` branch and its return on closed channels only log
  or stop the loop, and are not modelled.
- chaincode/, dbmanager/, go-application/main.go, tui.go and hashfuncs.py
  are not part of this model. They are ledger, database and UI wrappers and
  a prototype whose threads are never started.
- The hashlib tests that expect `HashFile` to equal SHA-256 of the whole
  file are not modelled. The code re-hashes the sorted chunk digests
  instead, and `HashLib.HashFile` states that.
- McapHash.GetSHA, HashLib.GetSHA, RootHash.GetSHA: the chunk digest is
  determined only up to how the reads were split. A range inside the file
  may end anywhere in [b, b + 4096). `Chunks.EndRangeDetermined` and
  `Chunks.FullReads` give the cases where it is fixed.
