/**
 Whole runs of the service: any number of requests in flight, their lookups interleaved statement by statement,
 background stores that run or are lost, and administrators deleting, clearing and cleaning up meanwhile.
 */
module ServiceRuns {
  import opened Basics
  import opened FileRequests
  import opened CachePaths
  import opened FileServices
  import C = CacheModel
  import R = CacheRuns
  import W = CacheConcurrency

  /** Where an answer comes from; `age` is the age of the cached entry when its metadata was read. */
  datatype Source = Rejected | Fetched | Cached(age: int)

  datatype Response = Response(req: FileRequest, source: Source, answer: Result<C.File, ServiceError>)

  /** `waiting`: requests inside the cache, by reader; `fetching`: on their way to the node. */
  datatype Service = Service(
    world: W.World, waiting: map<nat, FileRequest>, fetching: seq<FileRequest>,
    pending: seq<PendingSet>, responses: seq<Response>)

  datatype Action =
    | Ask(id: nat, req: FileRequest, cancelled: bool) // a request arrives
    | Advance(id: nat)                                // one statement of a lookup
    | Finish(i: nat, outcome: Outcome)                // a fetch comes back
    | Store(i: nat, walk: seq<string>)                // a background store gets the write lock
    | Lose(i: nat)                                    // a background store times out
    | Admin(op: R.Op)
    | Tick(elapsed: nat)

  function Without<T>(s: seq<T>, i: nat): seq<T>
    requires i < |s|
  {
    s[..i] + s[i + 1..]
  }

  /** The cache step that a service action performs, if it performs one. */
  function CacheStep(s: Service, a: Action): Option<W.Action> {
    match a
    case Ask(id, req, cancelled) =>
      if Accepted(req) && req.useCache && !cancelled then Some(W.Enter(id, CacheKey(req))) else None
    case Advance(id) => Some(W.Advance(id))
    case Store(i, walk) =>
      if i < |s.pending| then Some(W.Write(R.Set(s.pending[i].key, s.pending[i].file, walk))) else None
    case Admin(op) => Some(W.Write(op))
    case Tick(elapsed) => Some(W.Tick(elapsed))
    case _ => None
  }

  ghost predicate Enabled(cfg: C.Config, s: Service, a: Action) {
    (CacheStep(s, a).Some? ==> W.Enabled(cfg, s.world, CacheStep(s, a).value))
    && match a
       case Finish(i, _) => i < |s.fetching|
       case Store(i, _) => i < |s.pending|
       case Lose(i) => i < |s.pending|
       case Admin(op) => !op.Set?
       case _ => true
  }

  ghost function NextWorld(cfg: C.Config, s: Service, a: Action): W.World
    requires Enabled(cfg, s, a)
  {
    if CacheStep(s, a).Some? then W.Next(cfg, s.world, CacheStep(s, a).value) else s.world
  }

  ghost function Next(cfg: C.Config, be: Backend, s: Service, a: Action): Service
    requires Enabled(cfg, s, a)
  {
    var world := NextWorld(cfg, s, a);
    var t := s.(world := world);
    match a
    case Ask(id, req, cancelled) =>
      if !Accepted(req) then
        t.(responses := s.responses + [Response(req, Rejected, Failure(InvalidRequest(Validate(req).value)))])
      else if req.useCache && !cancelled then t.(waiting := s.waiting[id := req])
      else t.(fetching := s.fetching + [req])
    case Advance(id) =>
      if id in world.readers || id !in s.waiting then t
      else
        var req := s.waiting[id];
        var answer, age := Returned(s.world, id).0, Returned(s.world, id).1;
        if answer.Success? then
          t.(waiting := s.waiting - {id},
             responses := s.responses + [Response(req, Cached(age), Success(answer.value))])
        else t.(waiting := s.waiting - {id}, fetching := s.fetching + [req])
    case Finish(i, outcome) =>
      var req := s.fetching[i];
      var answer := Fetch(be, req, outcome);
      t.(fetching := Without(s.fetching, i),
         responses := s.responses + [Response(req, Fetched, answer)],
         pending := s.pending
           + if answer.Success? && req.useCache then [PendingSet(CacheKey(req), answer.value)] else [])
    case Store(i, _) => t.(pending := Without(s.pending, i))
    case Lose(i) => t.(pending := Without(s.pending, i))
    case _ => t
  }

  /** What a reader is about to return with. */
  function Returned(w: W.World, id: nat): (W.Answer, int) {
    if id in w.readers && w.readers[id].phase.Returning? then (w.readers[id].phase.answer, w.readers[id].phase.age)
    else (Failure(C.CacheMiss), 0)
  }

  ghost predicate Legal(cfg: C.Config, be: Backend, s: Service, run: seq<Action>)
    decreases |run|, 0
  {
    run == [] || (Legal(cfg, be, s, Front(run)) && Enabled(cfg, After(cfg, be, s, Front(run)), Last(run)))
  }

  ghost function After(cfg: C.Config, be: Backend, s: Service, run: seq<Action>): Service
    requires Legal(cfg, be, s, run)
    decreases |run|, 1
  {
    if run == [] then s else Next(cfg, be, After(cfg, be, s, Front(run)), Last(run))
  }

  /**
   A service that has just started over a cache directory whose entries, if any, earlier runs have left: each content
   file has its metadata file, and the two are what some request's fetch would store.
   */
  ghost predicate Started(cfg: C.Config, be: Backend, keys: set<string>, s: Service) {
    && W.Settled(s.world) && s.world.finished == []
    && W.Paired(cfg, Good(cfg, be, keys), s.world.cache.dir)
    && s.waiting == map[] && s.fetching == [] && s.pending == [] && s.responses == []
  }

  // ----- the invariant -----

  /** The pairs that fetches can put at a path: those of some request with a viewing key whose key is in use. */
  ghost function Good(cfg: C.Config, be: Backend, keys: set<string>): iset<W.Triple> {
    iset t: W.Triple | IsVouchedFor(cfg, be, keys, t)
  }

  ghost predicate IsVouchedFor(cfg: C.Config, be: Backend, keys: set<string>, t: W.Triple) {
    exists req :: Vouches(cfg, be, keys, req, t)
  }

  ghost predicate Vouches(cfg: C.Config, be: Backend, keys: set<string>, req: FileRequest, t: W.Triple) {
    Accepted(req) && req.evk != "" && CacheKey(req) in keys
    && t.path == ContentPath(cfg.layout, CacheKey(req))
    && Fetch(be, req, Decrypts).Success? && t.content == Fetch(be, req, Decrypts).value.content
    && Describes(be, t.metadata, t.content)
  }

  /** The hash does not collide on the keys in use. */
  ghost predicate Distinct(cfg: C.Config, keys: set<string>) {
    forall a, b :: a in keys && b in keys && cfg.layout.digest(a) == cfg.layout.digest(b) ==> a == b
  }

  /** What is asked of the uninterpreted parts: type names are ASCII, and the JSON form keeps ASCII metadata. */
  ghost predicate Plausible(cfg: C.Config, be: Backend) {
    Textual(be) && forall m :: AsciiMetadata(m) ==> C.RoundTrips(cfg, m)
  }

  ghost predicate Asks(keys: set<string>, req: FileRequest) {
    Accepted(req) && CacheKey(req) in keys
  }

  /** The same request under another viewing key, which the node serves. */
  ghost predicate Donates(be: Backend, req: FileRequest, key: string) {
    Accepted(req.(evk := key)) && Serves(be, req.(evk := key))
  }

  /** What the request's fetch would yield under this viewing key. */
  function Donation(be: Backend, req: FileRequest, key: string): C.File
    requires Decrypted(be, req.(evk := key)).Some?
  {
    FreshFile(be, req, Decrypted(be, req.(evk := key)).value)
  }

  /** What a successful answer is, by where it comes from. */
  ghost predicate CoherentResponse(cfg: C.Config, be: Backend, r: Response) {
    r.answer.Success? ==>
      && Accepted(r.req) && r.req.evk != ""
      && match r.source
         case Rejected => false
         case Fetched => Serves(be, r.req) && r.answer == Fetch(be, r.req, Decrypts)
         case Cached(age) => r.req.useCache && exists key :: CoherentHit(cfg, be, r.req, key, age, r.answer.value)
  }

  ghost predicate CoherentHit(cfg: C.Config, be: Backend, req: FileRequest, key: string, age: int, f: C.File) {
    && Donates(be, req, key) && f.content == Donation(be, req, key).content && f.metadata.Some?
    && (Describes(be, f.metadata.value, f.content) || (cfg.ttl < age && f.metadata.value == C.NO_METADATA))
  }

  ghost predicate GoodPending(cfg: C.Config, be: Backend, keys: set<string>, p: PendingSet) {
    p.file.metadata.Some? && C.RoundTrips(cfg, p.file.metadata.value)
    && W.Triple(ContentPath(cfg.layout, p.key), p.file.content, p.file.metadata.value) in Good(cfg, be, keys)
  }

  ghost predicate Inv(cfg: C.Config, be: Backend, keys: set<string>, s: Service) {
    && W.GoodInv(cfg, Good(cfg, be, keys), s.world)
    && (forall id :: id in s.waiting ==>
          && Asks(keys, s.waiting[id]) && s.waiting[id].useCache
          && id in s.world.readers && s.world.readers[id].key == CacheKey(s.waiting[id]))
    && (forall q :: q in s.fetching ==> Asks(keys, q))
    && (forall p :: p in s.pending ==> GoodPending(cfg, be, keys, p))
    && (forall r :: r in s.responses ==> CoherentResponse(cfg, be, r))
  }

  /** Every request of the run uses one of the keys. */
  ghost predicate KeysInUse(keys: set<string>, run: seq<Action>) {
    forall a :: a in run && a.Ask? && Accepted(a.req) ==> CacheKey(a.req) in keys
  }

  // ----- preservation -----

  lemma {:induction false} CacheStepIsGood(cfg: C.Config, be: Backend, keys: set<string>, s: Service, a: Action)
    requires Inv(cfg, be, keys, s) && Enabled(cfg, s, a)
    ensures W.GoodInv(cfg, Good(cfg, be, keys), NextWorld(cfg, s, a))
  {
    if CacheStep(s, a).Some? {
      if a.Store? {
        assert s.pending[a.i] in s.pending;
      }
      W.StepKeepsGoodInv(cfg, Good(cfg, be, keys), s.world, CacheStep(s, a).value);
    }
  }

  /** A hit under a request's key is what a fresh fetch for that request would yield. */
  lemma {:induction false} HitIsCoherent(cfg: C.Config, be: Backend, keys: set<string>, req: FileRequest,
                                         answer: W.Answer, age: int)
    requires Distinct(cfg, keys) && Asks(keys, req) && req.useCache && answer.Success?
    requires W.Acceptable(cfg, Good(cfg, be, keys), CacheKey(req), answer, age)
    ensures CoherentResponse(cfg, be, Response(req, Cached(age), Success(answer.value)))
  {
    var p, f := ContentPath(cfg.layout, CacheKey(req)), answer.value;
    var md :| W.Triple(p, f.content, md) in Good(cfg, be, keys)
              && (f.metadata.value == md || (cfg.ttl < age && f.metadata.value == C.NO_METADATA));
    var q :| Vouches(cfg, be, keys, q, W.Triple(p, f.content, md));
    PathsSeparateDigests(cfg.layout, CacheKey(req), CacheKey(q));
    CacheKeySeparates(req, q);
    VoucherDonates(be, req, q);
    assert CoherentHit(cfg, be, req, q.evk, age, f);
  }

  /** A request whose fetch succeeds donates its file to every accepted request with the same cache key. */
  lemma {:induction false} VoucherDonates(be: Backend, req: FileRequest, q: FileRequest)
    requires Accepted(req) && Accepted(q) && req.chainID == q.chainID && req.txid == q.txid
    requires Fetch(be, q, Decrypts).Success?
    ensures Donates(be, req, q.evk) && Donation(be, req, q.evk).content == Fetch(be, q, Decrypts).value.content
  {
    FetchedWhenServed(be, q, Decrypts);
  }

  /** What a successful fetch returns and stores is vouched for. */
  lemma {:induction false} FetchIsCoherent(cfg: C.Config, be: Backend, keys: set<string>, req: FileRequest,
                                           outcome: Outcome)
    requires Plausible(cfg, be) && Asks(keys, req) && Fetch(be, req, outcome).Success?
    ensures CoherentResponse(cfg, be, Response(req, Fetched, Fetch(be, req, outcome)))
    ensures GoodPending(cfg, be, keys, PendingSet(CacheKey(req), Fetch(be, req, outcome).value))
  {
    var f := Fetch(be, req, outcome).value;
    FetchedWhenServed(be, req, outcome);
    DetectedIsAscii(be, f.content, req);
    assert Vouches(cfg, be, keys, req, W.Triple(ContentPath(cfg.layout, CacheKey(req)), f.content, f.metadata.value));
  }

  lemma {:induction false} AskKeepsInv(cfg: C.Config, be: Backend, keys: set<string>, s: Service, a: Action)
    requires Inv(cfg, be, keys, s) && Enabled(cfg, s, a) && a.Ask?
    requires Accepted(a.req) ==> CacheKey(a.req) in keys
    ensures Inv(cfg, be, keys, Next(cfg, be, s, a))
  {
    CacheStepIsGood(cfg, be, keys, s, a);
  }

  /** The answer a request is about to be given from the cache. */
  lemma {:induction false} ReturnIsCoherent(cfg: C.Config, be: Backend, keys: set<string>, s: Service, id: nat)
    requires Distinct(cfg, keys) && Inv(cfg, be, keys, s)
    requires id in s.waiting && s.world.readers[id].phase.Returning? && s.world.readers[id].phase.answer.Success?
    ensures var phase := s.world.readers[id].phase;
            CoherentResponse(cfg, be, Response(s.waiting[id], Cached(phase.age), Success(phase.answer.value)))
  {
    var r := s.world.readers[id];
    assert W.ReaderInv(cfg, s.world, r);
    W.ReturnedIsAcceptable(cfg, Good(cfg, be, keys), s.world, r.key, r.phase.answer, r.phase.age);
    HitIsCoherent(cfg, be, keys, s.waiting[id], r.phase.answer, r.phase.age);
  }

  lemma {:induction false} AdvanceKeepsInv(cfg: C.Config, be: Backend, keys: set<string>, s: Service, a: Action)
    requires Distinct(cfg, keys) && Inv(cfg, be, keys, s) && Enabled(cfg, s, a) && a.Advance?
    ensures Inv(cfg, be, keys, Next(cfg, be, s, a))
  {
    CacheStepIsGood(cfg, be, keys, s, a);
    W.ReadersFrame(cfg, s.world, a.id);
    if a.id in s.waiting && Returned(s.world, a.id).0.Success? {
      ReturnIsCoherent(cfg, be, keys, s, a.id);
    }
  }

  lemma {:induction false} FinishKeepsInv(cfg: C.Config, be: Backend, keys: set<string>, s: Service, a: Action)
    requires Plausible(cfg, be) && Inv(cfg, be, keys, s) && Enabled(cfg, s, a) && a.Finish?
    ensures Inv(cfg, be, keys, Next(cfg, be, s, a))
  {
    var req := s.fetching[a.i];
    assert req in s.fetching;
    if Fetch(be, req, a.outcome).Success? {
      FetchIsCoherent(cfg, be, keys, req, a.outcome);
    }
  }

  lemma {:induction false} StepKeepsInv(cfg: C.Config, be: Backend, keys: set<string>, s: Service, a: Action)
    requires Plausible(cfg, be) && Distinct(cfg, keys)
    requires Inv(cfg, be, keys, s) && Enabled(cfg, s, a)
    requires a.Ask? && Accepted(a.req) ==> CacheKey(a.req) in keys
    ensures Inv(cfg, be, keys, Next(cfg, be, s, a))
  {
    match a
    case Ask(_, _, _) => AskKeepsInv(cfg, be, keys, s, a);
    case Advance(_) => AdvanceKeepsInv(cfg, be, keys, s, a);
    case Finish(_, _) => FinishKeepsInv(cfg, be, keys, s, a);
    case _ => CacheStepIsGood(cfg, be, keys, s, a);
  }

  lemma {:induction false} RunKeepsInv(cfg: C.Config, be: Backend, keys: set<string>, s: Service, run: seq<Action>)
    requires Plausible(cfg, be) && Distinct(cfg, keys) && KeysInUse(keys, run)
    requires Started(cfg, be, keys, s) && Legal(cfg, be, s, run)
    ensures Inv(cfg, be, keys, After(cfg, be, s, run))
    decreases |run|
  {
    if run != [] {
      assert run == Front(run) + [Last(run)] && Last(run) in run;
      RunKeepsInv(cfg, be, keys, s, Front(run));
      StepKeepsInv(cfg, be, keys, After(cfg, be, s, Front(run)), Last(run));
    }
  }

  // ----- the theorems -----

  /** The parts of two files that do not come from the storing request's filename. */
  predicate SameFile(f: C.File, g: C.File) {
    f.content == g.content && f.metadata.Some? && g.metadata.Some?
    && f.metadata.value.size == g.metadata.value.size
    && f.metadata.value.contentType == g.metadata.value.contentType
    && f.metadata.value.compressed == g.metadata.value.compressed
  }

  /** A cached answer without metadata, read after the entry had expired. */
  predicate LostMetadata(cfg: C.Config, r: Response) {
    r.answer.Success? && r.source.Cached? && cfg.ttl < r.source.age
    && r.answer.value.metadata == Some(C.NO_METADATA)
  }

  lemma {:induction false} ResponsesAreCoherent(cfg: C.Config, be: Backend, keys: set<string>, s: Service,
                                                run: seq<Action>, r: Response)
    requires Plausible(cfg, be) && Distinct(cfg, keys) && KeysInUse(keys, run)
    requires Started(cfg, be, keys, s) && Legal(cfg, be, s, run)
    requires r in After(cfg, be, s, run).responses
    ensures CoherentResponse(cfg, be, r)
  {
    RunKeepsInv(cfg, be, keys, s, run);
  }

  /** This is the file that a fetch of the response's request would yield under this viewing key. */
  ghost predicate DonatedBy(cfg: C.Config, be: Backend, r: Response, key: string) {
    && r.answer.Success? && Donates(be, r.req, key)
    && r.answer.value.content == Donation(be, r.req, key).content
    && (SameFile(r.answer.value, Donation(be, r.req, key)) || LostMetadata(cfg, r))
  }

  /** The node decrypts the same bytes for this transaction under every key that it serves. */
  ghost predicate KeysAgree(be: Backend, chainID: string, txid: string) {
    forall a, b :: be.decrypt(chainID, txid, a).Some? && be.decrypt(chainID, txid, b).Some? ==>
      be.decrypt(chainID, txid, a) == be.decrypt(chainID, txid, b)
  }

  /**
   Over every interleaving, a file handed out, cached or fresh, has the content, size, type and compression flag that
   a fetch for its chain and transaction yields under some viewing key that the node serves; under every such key if
   the node decrypts the same under all of them (the metadata alone may be lost, from an entry that has just expired).
   */
  lemma {:induction false} AnswersAreFresh(cfg: C.Config, be: Backend, keys: set<string>, s: Service,
                                           run: seq<Action>, r: Response)
    requires Plausible(cfg, be) && Distinct(cfg, keys) && KeysInUse(keys, run)
    requires Started(cfg, be, keys, s) && Legal(cfg, be, s, run)
    requires r in After(cfg, be, s, run).responses && r.answer.Success?
    ensures exists key :: DonatedBy(cfg, be, r, key)
    ensures KeysAgree(be, r.req.chainID, r.req.txid) ==>
              forall key :: Donates(be, r.req, key) ==> DonatedBy(cfg, be, r, key)
    ensures if r.source.Cached? then r.req.useCache && r.req.evk != "" else r.answer == Fetch(be, r.req, Decrypts)
  {
    ResponsesAreCoherent(cfg, be, keys, s, run, r);
    FetchedWhenServed(be, r.req, Decrypts);
    var key := r.req.evk;
    if r.source.Cached? {
      key :| CoherentHit(cfg, be, r.req, key, r.source.age, r.answer.value);
    } else {
      assert r.req.(evk := key) == r.req;
    }
    assert DonatedBy(cfg, be, r, key);
  }

  /** A request without a viewing key is never given a file, not even a cached one. */
  lemma {:induction false} NoFileWithoutEvk(cfg: C.Config, be: Backend, keys: set<string>, s: Service,
                                            run: seq<Action>, r: Response)
    requires Plausible(cfg, be) && Distinct(cfg, keys) && KeysInUse(keys, run)
    requires Started(cfg, be, keys, s) && Legal(cfg, be, s, run)
    requires r in After(cfg, be, s, run).responses && r.req.evk == ""
    ensures r.answer.Failure?
  {
    ResponsesAreCoherent(cfg, be, keys, s, run, r);
  }

  /** The files at `p` and beside it hold what a fresh fetch for this request would store. */
  ghost predicate FreshEntry(cfg: C.Config, be: Backend, keys: set<string>, dir: C.Dir, p: string, req: FileRequest)
    requires p in dir && IsContent(p)
  {
    && Accepted(req) && req.evk != "" && CacheKey(req) in keys
    && p == ContentPath(cfg.layout, CacheKey(req))
    && Sidecar(p) in dir
    && Fetch(be, req, Decrypts).Success? && dir[p].bytes == Fetch(be, req, Decrypts).value.content
    && Describes(be, cfg.decode(dir[Sidecar(p)].bytes), dir[p].bytes)
  }

  /**
   Over every interleaving, each stored content file belongs to the key of a request whose viewing key is served, holds
   what a fresh fetch for that request would yield, and has beside it a metadata file that agrees.
   */
  lemma {:induction false} StoredEntriesAreFresh(cfg: C.Config, be: Backend, keys: set<string>, s: Service,
                                                 run: seq<Action>, p: string)
    requires Plausible(cfg, be) && Distinct(cfg, keys) && KeysInUse(keys, run)
    requires Started(cfg, be, keys, s) && Legal(cfg, be, s, run)
    requires p in After(cfg, be, s, run).world.cache.dir && IsContent(p)
    ensures exists req :: FreshEntry(cfg, be, keys, After(cfg, be, s, run).world.cache.dir, p, req)
  {
    RunKeepsInv(cfg, be, keys, s, run);
    var w, good := After(cfg, be, s, run).world, Good(cfg, be, keys);
    W.PairedAfterLoss(cfg, good, w);
    var t := W.Triple(p, w.cache.dir[p].bytes, cfg.decode(w.cache.dir[Sidecar(p)].bytes));
    assert t in good;
    var req :| Vouches(cfg, be, keys, req, t);
    assert FreshEntry(cfg, be, keys, w.cache.dir, p, req);
  }
}
