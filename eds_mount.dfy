/** The mount `put` hands to the dagstore: the encoded square is buffered in
    memory, copied once to the block file, and served from memory to the
    first reader only; every later reader goes to the block file. */
module EdsMount {
  import opened Common

  /** What a fetch hands back: the buffered bytes, or the block file opened
      at `path`. */
  datatype Reader = MemoryReader(data: seq<byte>) | FileReader(path: string, data: seq<byte>)

  /** `mount.FileMount.Fetch`: open the file at `path` for reading. */
  function FileFetch(path: string, files: map<string, seq<byte>>): (r: Result<Reader>)
    ensures r.Ok? <==> path in files
    ensures r.Ok? ==> r.value == FileReader(path, files[path])
    ensures r.Err? ==> r.error == ErrNotExist
  {
    if path in files then Ok(FileReader(path, files[path])) else Err(ErrNotExist)
  }

  /** The block file is opened with `os.OpenFile` and no `O_TRUNC`: writing
      `b` over `was` replaces its first `|b|` bytes and keeps the rest. */
  function Overwrite(was: seq<byte>, b: seq<byte>): (r: seq<byte>)
    ensures |r| == if |b| >= |was| then |b| else |was|
    ensures r[..|b|] == b
    ensures |was| > |b| ==> r[|b|..] == was[|b|..]
  {
    if |b| >= |was| then b else b + was[|b|..]
  }

  /** All the chunks written through `Write`, in order. */
  function Concat(chunks: seq<seq<byte>>): (b: seq<byte>)
  {
    if chunks == [] then [] else Concat(chunks[..|chunks| - 1]) + chunks[|chunks| - 1]
  }

  /** `inMemoryOnceMount`: `buf` is the `*bytes.Buffer` (`None` once it has
      been released), `readOnce` the atomic flag, `path` the embedded
      `FileMount`'s path. */
  class InMemoryOnceMount {
    var buf: Option<seq<byte>>
    var readOnce: bool
    const path: string

    /** The mount `put` builds: an empty buffer in front of the block file. */
    constructor (path: string)
      ensures this.path == path && buf == Some([]) && !readOnce
    {
      this.path := path;
      buf := Some([]);
      readOnce := false;
    }

    /** The first fetch while the buffer is held is served from it and
        releases it. The flag is swapped only when the buffer is held, so a
        mount without a buffer never sets it; every other fetch opens the
        file. */
    method Fetch(files: map<string, seq<byte>>) returns (r: Result<Reader>)
      modifies this
      ensures old(buf).Some? && !old(readOnce) ==>
        r == Ok(MemoryReader(old(buf).value)) && buf == None && readOnce
      ensures !(old(buf).Some? && !old(readOnce)) ==>
        r == FileFetch(path, files) && buf == old(buf) && readOnce == (old(readOnce) || old(buf).Some?)
    {
      if buf.Some? {
        var was := readOnce;
        readOnce := true;
        if !was {
          r := Ok(MemoryReader(buf.value));
          buf := None;
          return;
        }
      }
      r := FileFetch(path, files);
    }

    /** `bytes.Buffer.Write`: append, report every byte written. Dereferences
        the buffer, so it must still be held. */
    method Write(b: seq<byte>) returns (n: nat)
      requires buf.Some?
      modifies this`buf
      ensures n == |b|
      ensures buf == Some(old(buf.value) + b)
    {
      buf := Some(buf.value + b);
      n := |b|;
    }

    /** `io.Copy` from a fresh reader over the buffer into a sink that fails
        with `sinkErr`, if given. The buffer is read, not drained: the mount
        is left as it was. */
    method WriteTo(sinkErr: Option<Error>) returns (r: Result<seq<byte>>)
      requires buf.Some?
      ensures sinkErr.None? ==> r == Ok(buf.value)
      ensures sinkErr.Some? ==> r == Err(sinkErr.value)
    {
      if sinkErr.Some? {
        r := Err(sinkErr.value);
      } else {
        r := Ok(buf.value);
      }
    }
  }

  /** What `put` does with its mount, followed by what the dagstore does with
      it: write the encoding chunk by chunk, copy it to the block file
      (opened, and created when missing, beforehand), then fetch twice. The
      copy does not consume the buffer, so the first fetch still sees every
      chunk; the second reads the block file, which then starts with those
      same bytes, and is exactly them for a new file. */
  method BufferCopyFetch(path: string, chunks: seq<seq<byte>>, sinkErr: Option<Error>,
                         files: map<string, seq<byte>>)
    returns (copied: Result<seq<byte>>, written: map<string, seq<byte>>,
             first: Result<Reader>, second: Result<Reader>)
    ensures sinkErr.None? ==> copied == Ok(Concat(chunks))
    ensures sinkErr.Some? ==> copied == Err(sinkErr.value)
    ensures var created := if path in files then files[path] else [];
      written == files[path := if sinkErr.None? then Overwrite(created, Concat(chunks)) else created]
    ensures first == Ok(MemoryReader(Concat(chunks)))
    ensures second == FileFetch(path, written)
    ensures sinkErr.None? ==> second.Ok? && second.value.data[..|Concat(chunks)|] == first.value.data
    ensures sinkErr.None? && path !in files ==> second == Ok(FileReader(path, Concat(chunks)))
  {
    written := if path in files then files else files[path := []];
    var m := new InMemoryOnceMount(path);
    var i := 0;
    while i < |chunks|
      invariant 0 <= i <= |chunks|
      invariant m.buf == Some(Concat(chunks[..i])) && !m.readOnce && m.path == path
    {
      assert chunks[..i + 1][..i] == chunks[..i];
      var _ := m.Write(chunks[i]);
      i := i + 1;
    }
    assert chunks[..i] == chunks;
    copied := m.WriteTo(sinkErr);
    if copied.Ok? {
      written := written[path := Overwrite(written[path], copied.value)];
    }
    first := m.Fetch(written);
    second := m.Fetch(written);
  }
}
