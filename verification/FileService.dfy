/**
 The pipeline behind a file request: cache lookup, fetch and decrypt, decompress or keep the raw bytes, detect the
 type, store in the background.
 */
module FileServices {
  import opened Basics
  import opened FileRequests
  import CachePaths
  import D = Decompression
  import C = CacheModel
  import FC = FilesystemCaches

  /**
   The outside world, uninterpreted.  `decrypt` is what the node of a chain decrypts for a transaction under a viewing
   key, nothing when it refuses the key; `sniff` is content-type detection on non-empty content; `extensionOf` maps a
   type to a file extension.
   */
  datatype Backend = Backend(
    decrypt: (string, string, string) -> Option<Bytes>,
    gunzip: Bytes -> D.Stream,
    sniff: Bytes -> string,
    extensionOf: string -> string)

  /** What happens on the way to the node; `Decrypts` if nothing goes wrong there. */
  datatype Outcome = NoClient | DecryptFails | Decrypts

  datatype ServiceError = InvalidRequest(input: InvalidInput) | ChainError | RejectedByDecryptor | DecryptionFailed

  // ----- type detection -----

  function DetectMIME(be: Backend, content: Bytes): string {
    if content == [] then "application/octet-stream" else be.sniff(content)
  }

  function DetectType(be: Backend, content: Bytes, filename: string): C.Metadata {
    var ext := CachePaths.Ext(filename);
    var trimmed := if ext != "" && ext[0] == '.' then ext[1..] else ext;
    C.Metadata(
      filename, |content|, DetectMIME(be, content),
      if trimmed != "" then trimmed else be.extensionOf(DetectMIME(be, content)),
      "", D.IsGzipped(content), false)
  }

  /**
   The extension is what follows the last dot of the filename; without a dot, or with nothing after it, it is the one
   for the detected type.
   */
  lemma {:induction false} ExtensionFollowsLastDot(be: Backend, content: Bytes, filename: string)
    ensures forall k :: 0 <= k < |filename| - 1 && filename[k] == '.'
                        && (forall j :: k < j < |filename| ==> filename[j] != '.' && filename[j] != '/') ==>
              DetectType(be, content, filename).extension == filename[k + 1..]
    ensures (forall k :: 0 <= k < |filename| - 1 && filename[k] == '.' ==>
               exists j :: k < j < |filename| && (filename[j] == '.' || filename[j] == '/')) ==>
              DetectType(be, content, filename).extension
                == be.extensionOf(if content == [] then "application/octet-stream" else be.sniff(content))
  {
    forall k | 0 <= k < |filename| {
      ExtensionAt(be, content, filename, k);
    }
    if CachePaths.Ext(filename) != "" {
      var k := CachePaths.DotOfExt(filename, |filename|);
      assert CachePaths.Ext(filename) == filename[k..];
    }
  }

  lemma {:induction false} ExtensionAt(be: Backend, content: Bytes, filename: string, k: nat)
    requires k < |filename|
    ensures filename[k] == '.' && (forall j :: k < j < |filename| ==> filename[j] != '.' && filename[j] != '/') ==>
              && CachePaths.Ext(filename) == filename[k..]
              && (k < |filename| - 1 ==> DetectType(be, content, filename).extension == filename[k + 1..])
  {
    if filename[k] == '.' && forall j :: k < j < |filename| ==> filename[j] != '.' && filename[j] != '/' {
      CachePaths.ExtFromDot(filename, k, |filename|);
      assert filename[k..][1..] == filename[k + 1..];
    }
  }

  // ----- ASCII, which survives the JSON form of metadata byte for byte -----

  predicate Ascii(s: string) {
    forall i :: 0 <= i < |s| ==> s[i] as int < 128
  }

  predicate AsciiMetadata(m: C.Metadata) {
    Ascii(m.filename) && Ascii(m.contentType) && Ascii(m.extension) && Ascii(m.hash)
  }

  /** Type names and file extensions are ASCII. */
  ghost predicate Textual(be: Backend) {
    (forall content :: Ascii(be.sniff(content))) && (forall mime :: Ascii(be.extensionOf(mime)))
  }

  /** Validation lets only ASCII filenames through, so all detected metadata is ASCII. */
  lemma {:induction false} DetectedIsAscii(be: Backend, content: Bytes, req: FileRequest)
    requires Textual(be) && Accepted(req)
    ensures AsciiMetadata(DetectType(be, content, req.filename))
  {
    var name := req.filename;
    forall i | 0 <= i < |name| ensures name[i] as int < 128 {
      assert FilenameChar(name[i]);
    }
    CachePaths.ExtFromIsTail(name, |name|);
    assert Ascii(DetectMIME(be, content));
  }

  // ----- what a fresh fetch yields -----

  function FreshContent(be: Backend, raw: Bytes): Bytes {
    D.DecompressOrRaw(raw, be.gunzip, D.DEFAULT_MAX_SIZE)
  }

  /** The file built from what the node has decrypted. */
  function FreshFile(be: Backend, req: FileRequest, raw: Bytes): C.File {
    var content := FreshContent(be, raw);
    C.File(req.txid, req.chainID, content, Some(DetectType(be, content, req.filename)))
  }

  function Decrypted(be: Backend, req: FileRequest): Option<Bytes> {
    be.decrypt(req.chainID, req.txid, req.evk)
  }

  function Fetch(be: Backend, req: FileRequest, outcome: Outcome): Result<C.File, ServiceError> {
    if outcome.NoClient? then Failure(ChainError)
    else if !DecryptorAcceptsTxid(req.txid) || !DecryptorAcceptsEvk(req.evk) then Failure(RejectedByDecryptor)
    else if outcome.DecryptFails? || Decrypted(be, req).None? then Failure(DecryptionFailed)
    else Success(FreshFile(be, req, Decrypted(be, req).value))
  }

  /** Size, type and compression flag are those of this content. */
  ghost predicate Describes(be: Backend, metadata: C.Metadata, content: Bytes) {
    && metadata.size == |content|
    && metadata.contentType == (if content == [] then "application/octet-stream" else be.sniff(content))
    && metadata.compressed == (|content| >= 2 && content[0] == 0x1F && content[1] == 0x8B)
  }

  /** The request has a viewing key that the decryptor lets through and the node serves for its transaction. */
  predicate Serves(be: Backend, req: FileRequest) {
    req.evk != "" && !HasUpper(req.evk) && Decrypted(be, req).Some?
  }

  /** An accepted request is ever fetched exactly when its viewing key is served; then only the way can fail. */
  lemma {:induction false} FetchedWhenServed(be: Backend, req: FileRequest, outcome: Outcome)
    requires Accepted(req)
    ensures Fetch(be, req, outcome).Success? <==> outcome.Decrypts? && Serves(be, req)
  {
    DecryptorAccepts(req);
  }

  /** Which failure a fetch of an accepted request meets: the first on its way. */
  lemma {:induction false} FetchFailures(be: Backend, req: FileRequest, outcome: Outcome)
    requires Accepted(req)
    ensures var barred := req.evk == "" || exists i :: 0 <= i < |req.evk| && 'A' <= req.evk[i] <= 'Z';
            && (Fetch(be, req, outcome) == Failure(ChainError) <==> outcome == NoClient)
            && (Fetch(be, req, outcome) == Failure(RejectedByDecryptor) <==> outcome != NoClient && barred)
            && (Fetch(be, req, outcome) == Failure(DecryptionFailed) <==>
                  outcome != NoClient && !barred
                  && (outcome == DecryptFails || be.decrypt(req.chainID, req.txid, req.evk) == None))
            && (Fetch(be, req, outcome).Success? <==>
                  outcome == Decrypts && !barred && be.decrypt(req.chainID, req.txid, req.evk) != None)
  {
    DecryptorAccepts(req);
  }

  /**
   What a fetch yields: the decompressed stream when the decrypted bytes carry the gzip magic, decode cleanly and stay
   below the limit, and the raw bytes otherwise, with metadata that describes this content.
   */
  lemma {:induction false} FetchYields(be: Backend, req: FileRequest)
    requires Accepted(req) && Serves(be, req)
    ensures Fetch(be, req, Decrypts).Success?
    ensures var raw := Decrypted(be, req).value;
            var s := be.gunzip(raw);
            var f := Fetch(be, req, Decrypts).value;
            && f.txid == req.txid && f.chainID == req.chainID
            && f.content == (if |raw| >= 2 && raw[0] == 0x1F && raw[1] == 0x8B && s.Chunks? && s.clean
                                && (D.Flatten(s.chunks) == [] || |D.Flatten(s.chunks)| < 104857600)
                             then D.Flatten(s.chunks) else raw)
            && f.metadata.Some? && Describes(be, f.metadata.value, f.content)
            && f.metadata.value.filename == req.filename
            && f.metadata.value.extension == DetectType(be, f.content, req.filename).extension
            && f.metadata.value.hash == "" && !f.metadata.value.encrypted
  {
    DecryptorAccepts(req);
  }

  // ----- the service object -----

  /** A background `Set` that has been started and not yet run. */
  datatype PendingSet = PendingSet(key: string, file: C.File)

  class FileService {
    const be: Backend
    const cache: FC.FilesystemCache?
    const decompressor: D.Decompressor
    var pending: seq<PendingSet>

    constructor (be: Backend, cache: FC.FilesystemCache?)
      ensures Valid() && this.be == be && this.cache == cache && pending == []
    {
      this.be, this.cache, pending := be, cache, [];
      decompressor := new D.Decompressor(100 * 1024 * 1024);
    }

    /** The decompressor was given the limit that fetches are specified with. */
    predicate Valid() {
      decompressor.maxSize == D.DEFAULT_MAX_SIZE
    }

    /** `now` and `cancelled` are what the lookup sees, `outcome` what the fetch meets. */
    method GetFile(req: FileRequest, now: int, cancelled: bool, outcome: Outcome)
      returns (r: Result<C.File, ServiceError>)
      requires Valid()
      modifies this, cache
      ensures !Accepted(req) ==>
                && r == Failure(InvalidRequest(Validate(req).value))
                && pending == old(pending) && (cache != null ==> cache.State() == old(cache.State()))
      ensures Accepted(req) && !(req.useCache && cache != null) ==>
                && r == Fetch(be, req, outcome)
                && pending == old(pending) && (cache != null ==> cache.State() == old(cache.State()))
      ensures Accepted(req) && req.useCache && cache != null && cancelled ==>
                r == Fetch(be, req, outcome) && cache.State() == old(cache.State())
      ensures Accepted(req) && req.useCache && cache != null && !cancelled ==>
                var hit := C.GetAnswer(cache.cfg, old(cache.State()), CacheKey(req), now);
                && cache.State() == C.Get(cache.cfg, old(cache.State()), CacheKey(req), now)
                && r == (if hit.Success? then Success(hit.value) else Fetch(be, req, outcome))
                && (hit.Success? ==> pending == old(pending))
      ensures Accepted(req) && Serves(be, req) && outcome.Decrypts? ==> r.Success?
      ensures Accepted(req) && req.useCache && cache != null
              && (cancelled || C.GetAnswer(cache.cfg, old(cache.State()), CacheKey(req), now).Failure?) ==>
                pending == old(pending) + if r.Success? then [PendingSet(CacheKey(req), r.value)] else []
    {
      var invalid := Validate(req);
      if invalid.Some? {
        return Failure(InvalidRequest(invalid.value));
      }
      FetchedWhenServed(be, req, outcome);
      if req.useCache && cache != null {
        var cached := cache.Get(CacheKey(req), now, cancelled);
        if cached.Success? {
          return Success(cached.value);
        }
      }
      if outcome.NoClient? {
        return Failure(ChainError);
      }
      if !DecryptorAcceptsTxid(req.txid) || !DecryptorAcceptsEvk(req.evk) {
        return Failure(RejectedByDecryptor);
      }
      var decrypted := be.decrypt(req.chainID, req.txid, req.evk);
      if outcome.DecryptFails? || decrypted.None? {
        return Failure(DecryptionFailed);
      }
      var data := decrypted.value;
      var decompressed := decompressor.Decompress(data, be.gunzip);
      if decompressed.Success? {
        data := decompressed.value;
      }
      var metadata := DetectType(be, data, req.filename);
      var file := C.File(req.txid, req.chainID, data, Some(metadata));
      if req.useCache && cache != null {
        pending := pending + [PendingSet(CacheKey(req), file)];
      }
      return Success(file);
    }

    /** A background `Set` runs; `cancelled` when its five seconds are over. */
    method RunPending(i: nat, now: int, cancelled: bool, walk: seq<string>)
      requires i < |pending| && cache != null
      requires C.NeedsRoom(cache.cfg, cache.State(), |pending[i].file.content|) ==> C.Walks(cache.dir, walk)
      modifies this, cache
      ensures pending == old(pending[..i] + pending[i + 1..])
      ensures var p := old(pending[i]);
              cache.State() == if cancelled then old(cache.State())
                               else C.Set(cache.cfg, old(cache.State()), p.key, p.file, walk, now)
    {
      var p := pending[i];
      var _ := cache.Set(p.key, p.file, now, cancelled, walk);
      pending := pending[..i] + pending[i + 1..];
    }
  }
}
