/**
 Decompression with a size limit.

 The gzip reader hands over the decompressed stream in chunks of its own choosing and then reports the end of the
 stream or a decoding error; a limited writer in front of the output buffer counts down the bytes it accepts.
 */
module Decompression {
  import opened Basics

  const DEFAULT_MAX_SIZE: int := 100 * 1024 * 1024

  datatype WriteError = SizeLimitExceeded

  datatype GzipError = BadHeader | Corrupt | LimitExceeded

  /** What the gzip reader makes of some bytes: nothing, or chunks followed by a clean or a faulty end. */
  datatype Stream =
    | NoStream
    | Chunks(chunks: seq<Bytes>, clean: bool)

  function Flatten(chunks: seq<Bytes>): Bytes {
    if chunks == [] then [] else chunks[0] + Flatten(chunks[1..])
  }

  /** The first `n` bytes, or all of them. */
  function Prefix(s: Bytes, n: int): Bytes {
    if n <= 0 then [] else if |s| <= n then s else s[..n]
  }

  // ----- specification, blind to the chunks -----

  /** With nothing to write any limit will do; otherwise the total must stay strictly below it. */
  predicate FitsLimit(total: nat, maxSize: int) {
    total == 0 || total < maxSize
  }

  function GzipResult(s: Stream, maxSize: int): Result<Bytes, GzipError> {
    if s.NoStream? then Failure(BadHeader)
    else
      var data := Flatten(s.chunks);
      if !FitsLimit(|data|, maxSize) then Failure(LimitExceeded)
      else if s.clean then Success(data)
      else Failure(Corrupt)
  }

  // ----- the writer and the copy loop -----

  class LimitedWriter {
    var written: Bytes
    var remaining: int

    constructor (limit: int)
      ensures written == [] && remaining == limit
    {
      written, remaining := [], limit;
    }

    /** Accepts what fits; reaching the limit is already an error. */
    method Write(p: Bytes) returns (n: nat, err: Option<WriteError>)
      modifies this
      ensures n == if old(remaining) <= 0 then 0 else if |p| <= old(remaining) then |p| else old(remaining)
      ensures written == old(written) + p[..n]
      ensures remaining == old(remaining) - n
      ensures err.Some? <==> old(remaining) <= |p| || old(remaining) <= 0
    {
      if remaining <= 0 {
        return 0, Some(SizeLimitExceeded);
      }
      var q := p;
      if |q| > remaining {
        q := q[..remaining];
      }
      written := written + q;
      n := |q|;
      remaining := remaining - n;
      if remaining <= 0 {
        return n, Some(SizeLimitExceeded);
      }
      return n, None;
    }
  }

  lemma {:induction false} FlattenSplit(chunks: seq<Bytes>, i: nat)
    requires i <= |chunks|
    ensures Flatten(chunks) == Flatten(chunks[..i]) + Flatten(chunks[i..])
    decreases i
  {
    if i == 0 {
      assert chunks[..0] == [] && chunks[0..] == chunks;
    } else {
      FlattenSplit(chunks[1..], i - 1);
      assert chunks[1..][..i - 1] == chunks[..i][1..];
      assert chunks[1..][i - 1..] == chunks[i..];
      assert chunks[0] + (Flatten(chunks[1..][..i - 1]) + Flatten(chunks[i..]))
          == Flatten(chunks[..i]) + Flatten(chunks[i..]);
    }
  }

  /** Flattening is concatenation: of one chunk the chunk, and of two lists the two streams in a row. */
  lemma {:induction false} FlattenIsConcatenation(chunk: Bytes, a: seq<Bytes>, b: seq<Bytes>)
    ensures Flatten([chunk]) == chunk && Flatten(a + b) == Flatten(a) + Flatten(b)
  {
    assert Flatten([chunk]) == chunk + Flatten([]);
    FlattenSplit(a + b, |a|);
    assert (a + b)[..|a|] == a && (a + b)[|a|..] == b;
  }

  lemma FlattenNext(chunks: seq<Bytes>, i: nat)
    requires i < |chunks|
    ensures Flatten(chunks[..i + 1]) == Flatten(chunks[..i]) + chunks[i]
    ensures |Flatten(chunks[..i + 1])| <= |Flatten(chunks)|
    ensures Flatten(chunks[..i + 1]) <= Flatten(chunks)
  {
    FlattenSplit(chunks[..i + 1], i);
    assert chunks[..i + 1][..i] == chunks[..i];
    assert chunks[..i + 1][i..] == [chunks[i]];
    assert Flatten([chunks[i]]) == chunks[i] + Flatten([]);
    FlattenSplit(chunks, i + 1);
  }

  /**
   The copy loop of `io.Copy`: an empty read is not written; a write error ends the copy at once; the end of the
   stream is examined only after everything has been written.
   */
  method CopyLimited(s: Stream, w: LimitedWriter) returns (r: Result<(), GzipError>)
    requires s.Chunks?
    requires w.written == []
    modifies w
    ensures var data, limit := Flatten(s.chunks), old(w.remaining);
            && r == (if 0 < |data| && limit <= |data| then Failure(LimitExceeded)
                     else if s.clean then Success(()) else Failure(Corrupt))
            && w.written == (if limit <= 0 then [] else if |data| <= limit then data else data[..limit])
  {
    ghost var limit := w.remaining;
    ghost var data := Flatten(s.chunks);
    var i := 0;
    assert s.chunks[..0] == [];
    while i < |s.chunks|
      invariant 0 <= i <= |s.chunks|
      invariant w.written == Flatten(s.chunks[..i])
      invariant w.remaining == limit - |w.written|
      invariant FitsLimit(|w.written|, limit)
    {
      var chunk := s.chunks[i];
      FlattenNext(s.chunks, i);
      if |chunk| > 0 {
        ghost var before := w.written;
        var n, err := w.Write(chunk);
        if err.Some? {
          assert w.written == Prefix(data, limit) by {
            WrittenIsPrefix(data, before, chunk, limit);
          }
          return Failure(LimitExceeded);
        }
      }
      i := i + 1;
    }
    assert s.chunks[..i] == s.chunks;
    return if s.clean then Success(()) else Failure(Corrupt);
  }

  /** What the writer holds when it refuses is the first `limit` bytes of the stream. */
  lemma {:induction false} WrittenIsPrefix(data: Bytes, before: Bytes, chunk: Bytes, limit: int)
    requires before + chunk <= data && FitsLimit(|before|, limit)
    requires limit <= |before| + |chunk| || limit <= |before|
    ensures before + Prefix(chunk, limit - |before|) == Prefix(data, limit)
  {
    assert data[..|before|] == before;
    assert data[|before|..|before| + |chunk|] == chunk by {
      assert (before + chunk)[|before|..] == chunk;
    }
  }

  // ----- the decompressor -----

  /** The magic number of section 2.3.1 of RFC 1952. */
  predicate IsGzipped(content: Bytes) {
    |content| >= 2 && content[0] == 0x1F && content[1] == 0x8B
  }

  /** `gunzip` is what the gzip reader makes of the content. */
  function DecompressResult(content: Bytes, gunzip: Bytes -> Stream, maxSize: int): Result<Bytes, GzipError> {
    if !IsGzipped(content) then Success(content) else GzipResult(gunzip(content), maxSize)
  }

  /** Decompression with the fallback to the raw bytes that the file service and `MustDecompress` share. */
  function DecompressOrRaw(content: Bytes, gunzip: Bytes -> Stream, maxSize: int): Bytes {
    var r := DecompressResult(content, gunzip, maxSize);
    if r.Success? then r.value else content
  }

  class Decompressor {
    const maxSize: int

    /** Zero means the default limit; negative limits are kept. */
    constructor (configured: int)
      ensures maxSize == if configured == 0 then 104_857_600 else configured
    {
      maxSize := if configured == 0 then DEFAULT_MAX_SIZE else configured;
    }

    method DecompressGzip(s: Stream) returns (r: Result<Bytes, GzipError>)
      ensures r == GzipResult(s, maxSize)
      ensures r == if s.NoStream? then Failure(BadHeader)
                   else if 0 < |Flatten(s.chunks)| && maxSize <= |Flatten(s.chunks)| then Failure(LimitExceeded)
                   else if s.clean then Success(Flatten(s.chunks)) else Failure(Corrupt)
    {
      if s.NoStream? {
        return Failure(BadHeader);
      }
      var lim := new LimitedWriter(maxSize);
      var copied := CopyLimited(s, lim);
      if copied.Failure? {
        return Failure(copied.error);
      }
      return Success(lim.written);
    }

    method Decompress(content: Bytes, gunzip: Bytes -> Stream) returns (r: Result<Bytes, GzipError>)
      ensures r == DecompressResult(content, gunzip, maxSize)
      ensures r == if |content| >= 2 && content[0] == 0x1F && content[1] == 0x8B
                   then GzipResult(gunzip(content), maxSize) else Success(content)
    {
      if !IsGzipped(content) {
        return Success(content);
      }
      r := DecompressGzip(gunzip(content));
    }

    method MustDecompress(content: Bytes, gunzip: Bytes -> Stream) returns (data: Bytes)
      ensures data == DecompressOrRaw(content, gunzip, maxSize)
      ensures var s := gunzip(content);
              if |content| >= 2 && content[0] == 0x1F && content[1] == 0x8B && s.Chunks? && s.clean
                 && (Flatten(s.chunks) == [] || |Flatten(s.chunks)| < maxSize)
              then data == Flatten(s.chunks) else data == content
    {
      var r := Decompress(content, gunzip);
      return if r.Success? then r.value else content;
    }
  }
}
