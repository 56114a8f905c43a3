/**
 * The daemon's file sniffer (MCAPDaemon/daemon.go): `getMagicBytes` reads
 * the last seven bytes of a file, and the event handler passes a file on to
 * hashing only when its name ends in `.mcap` and those bytes are the MCAP
 * signature `"MCAP0\r\n"`.
 */
module Sniffer {
  import opened Results
  import opened Encoding
  import opened Files

  /** The number of trailing bytes read. */
  const MagicLength := 7

  /** Files shorter than this are refused outright. */
  const MinSize := 5

  /** `"MCAP0\r\n"` as bytes. */
  const Signature: seq<byte> := [0x4D, 0x43, 0x41, 0x50, 0x30, 0x0D, 0x0A]

  const McapSuffix := ".mcap"

  /** Why `getMagicBytes` gave no bytes. */
  datatype MagicError =
    | OpenFailed(path: string)  // `os.Open` failed
    | TooSmall                  // "filesize too small, likely bad file"
    | NegativeOffset            // `ReadAt` at `fileSize - 7 < 0` fails

  /**
   * `getMagicBytes`: open the file, refuse it if it has fewer than 5 bytes,
   * otherwise read 7 bytes at offset `fileSize - 7` (which fails when that
   * offset is negative).
   */
  function GetMagicBytes(fs: FileSystem, path: string): (r: Result<seq<byte>, MagicError>)
    ensures path !in fs ==> r == Err(OpenFailed(path))
    ensures path in fs && |fs[path]| < MinSize ==> r == Err(TooSmall)
    ensures r.Ok? <==> path in fs && MagicLength <= |fs[path]|
    ensures r.Ok? ==> |r.value| == MagicLength && fs[path] == fs[path][..|fs[path]| - MagicLength] + r.value
  {
    if path !in fs then Err(OpenFailed(path))
    else
      var content := fs[path];
      var fileSize := |content|;
      if fileSize < MinSize then Err(TooSmall)
      else
        var start := fileSize - MagicLength;
        if start < 0 then Err(NegativeOffset)
        else Ok(content[start..start + MagicLength])
  }

  /** A 5- or 6-byte file is not refused as too small, but its read fails. */
  lemma ShortFileReadFails(fs: FileSystem, path: string)
    requires path in fs && MinSize <= |fs[path]| < MagicLength
    ensures GetMagicBytes(fs, path) == Err(NegativeOffset)
  {
  }

  /** `strings.HasSuffix`. */
  predicate HasSuffix(s: string, suffix: string) {
    |suffix| <= |s| && s[|s| - |suffix|..] == suffix
  }

  /** What the event handler does with a path before any hashing. */
  datatype GateOutcome =
    | NotMcapName                 // the name does not end in `.mcap`
    | Unreadable(err: MagicError) // "Failed to read magic bytes"
    | WrongMagic(magic: seq<byte>) // bytes read, but not the signature
    | Hash                        // "Valid MCAP file detected!"

  /** The `.mcap` suffix test, then `getMagicBytes`, then the signature comparison. */
  function Gate(fs: FileSystem, name: string): (g: GateOutcome)
    ensures g.Unreadable? ==> HasSuffix(name, McapSuffix) && GetMagicBytes(fs, name) == Err(g.err)
    ensures g.NotMcapName? <==> !HasSuffix(name, McapSuffix)
    ensures g.WrongMagic? ==>
      && HasSuffix(name, McapSuffix) && GetMagicBytes(fs, name) == Ok(g.magic)
      && |g.magic| == MagicLength && g.magic != Signature
  {
    if !HasSuffix(name, McapSuffix) then NotMcapName
    else
      match GetMagicBytes(fs, name)
      case Err(e) => Unreadable(e)
      case Ok(magic) => if magic == Signature then Hash else WrongMagic(magic)
  }

  /**
   * A path is passed on to hashing exactly when its name ends in `.mcap`,
   * the file exists with at least 7 bytes, and its last 7 bytes are the
   * signature.
   */
  lemma GateHashesIff(fs: FileSystem, name: string)
    ensures Gate(fs, name) == Hash <==>
      && HasSuffix(name, McapSuffix)
      && name in fs && MagicLength <= |fs[name]|
      && fs[name][|fs[name]| - MagicLength..] == Signature
  {
    if HasSuffix(name, McapSuffix) && name in fs && MagicLength <= |fs[name]| {
      var c := fs[name];
      var r := GetMagicBytes(fs, name);
      assert r.Ok?;
      assert c[..|c| - MagicLength] + r.value == c;
      assert r.value == c[|c| - MagicLength..];
    }
  }
}
