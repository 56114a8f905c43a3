/**
 * The part of the operating system the hashing code talks to: a directory of
 * files (path to content) and an open file with a read offset, as `os.File`
 * behaves for a regular file.
 */
module Files {
  import opened Encoding

  /** Size of the read buffer every worker allocates (`make([]byte, 4096)`). */
  const BufferSize := 4096

  /** What the program sees of the file system: the content of every existing path. */
  type FileSystem = map<string, seq<byte>>

  /** The error value returned with a `Read`: none, `io.EOF`, or any other error. */
  datatype ReadStatus = ReadOk | Eof | ReadFailed

  function Min(a: int, b: int): int { if a <= b then a else b }

  function Max(a: int, b: int): int { if a <= b then b else a }

  /** An open regular file: fixed content and the offset of the next read. */
  class FileHandle {
    const content: seq<byte>
    var offset: nat

    /** `os.Open` of an existing path: the offset starts at 0. */
    constructor Open(content: seq<byte>)
      ensures this.content == content && offset == 0
    {
      this.content := content;
      offset := 0;
    }

    /** Bytes between the offset and the end of the file (none once past it). */
    function Remaining(): nat
      reads this
    {
      if offset < |content| then |content| - offset else 0
    }

    /**
     * `Seek(off, io.SeekStart)`: a negative offset is an error and leaves the
     * offset alone; any other offset, also one past the end, is accepted.
     */
    method Seek(off: int) returns (ok: bool)
      modifies this
      ensures ok <==> 0 <= off
      ensures offset == if ok then off else old(offset)
    {
      ok := 0 <= off;
      if ok {
        offset := off;
      }
    }

    /**
     * `Read` into a 4096-byte buffer. A device error may occur on any call and
     * delivers no bytes; at the end of the file the answer is `io.EOF` with no
     * bytes; otherwise the next 1 to min(4096, remaining) bytes are delivered
     * and the offset moves past them. How many bytes one call delivers is not
     * fixed: the choice below is arbitrary.
     */
    method Read() returns (data: seq<byte>, status: ReadStatus)
      modifies this
      ensures status == ReadFailed ==> data == [] && offset == old(offset)
      ensures status == Eof ==> data == [] && offset == old(offset) && old(Remaining()) == 0
      ensures status == ReadOk ==>
        && 1 <= |data| <= Min(BufferSize, old(Remaining()))
        && data == content[old(offset)..old(offset) + |data|]
        && offset == old(offset) + |data|
    {
      var rem := Remaining();
      var deviceError: bool :| true;
      if deviceError {
        data, status := [], ReadFailed;
      } else if rem == 0 {
        data, status := [], Eof;
      } else {
        assert offset + rem == |content|;
        var n: int :| 1 <= n <= rem && n <= BufferSize;
        data := content[offset..offset + n];
        offset := offset + n;
        status := ReadOk;
      }
    }
  }

  /**
   * `os.Open(path)`. The model assumes that opening fails only when the
   * path does not exist; every other cause of failure is left out.
   */
  method OpenFile(fs: FileSystem, path: string) returns (f: FileHandle?)
    ensures (f == null) <==> (path !in fs)
    ensures f != null ==> fresh(f) && f.content == fs[path] && f.offset == 0
  {
    if path in fs {
      f := new FileHandle.Open(fs[path]);
    } else {
      f := null;
    }
  }
}
