/**
 Exactly when a cached answer is as good as a fetch of one's own: particular runs of the service that show where it is
 not, beside the theorems of `ServiceRuns` that show where it is.
 */
module CachedAnswers {
  import opened Basics
  import opened FileRequests
  import opened CachePaths
  import opened FileServices
  import opened ServiceRuns
  import C = CacheModel
  import W = CacheConcurrency
  import L = LookupRaces

  /** A service that has just started over an empty cache directory. */
  const IDLE := Service(L.IDLE, map[], [], [], [])

  // ----- what some run leads to -----

  /** From the idle service, this run, whose requests use these keys, leads to this state. */
  ghost predicate Reaches(cfg: C.Config, be: Backend, keys: set<string>, run: seq<Action>, s: Service) {
    Legal(cfg, be, IDLE, run) && KeysInUse(keys, run) && After(cfg, be, IDLE, run) == s
  }

  ghost predicate Reachable(cfg: C.Config, be: Backend, keys: set<string>, s: Service) {
    exists run :: Reaches(cfg, be, keys, run, s)
  }

  lemma {:induction false} IdleIsReachable(cfg: C.Config, be: Backend, keys: set<string>)
    ensures Reachable(cfg, be, keys, IDLE)
  {
    assert Reaches(cfg, be, keys, [], IDLE);
  }

  lemma {:induction false} OneMoreAction(cfg: C.Config, be: Backend, keys: set<string>, s: Service, a: Action)
    requires Reachable(cfg, be, keys, s) && Enabled(cfg, s, a)
    requires a.Ask? && Accepted(a.req) ==> CacheKey(a.req) in keys
    ensures Reachable(cfg, be, keys, Next(cfg, be, s, a))
  {
    var run :| Reaches(cfg, be, keys, run, s);
    assert Front(run + [a]) == run && Last(run + [a]) == a;
    assert Reaches(cfg, be, keys, run + [a], Next(cfg, be, s, a));
  }

  /** While a request's lookup stays inside, nothing but the cache moves. */
  lemma {:induction false} AloneIsReachable(cfg: C.Config, be: Backend, keys: set<string>, s: Service, id: nat, n: nat)
    requires Reachable(cfg, be, keys, s) && L.StaysInside(cfg, s.world, id, n + 1)
    ensures Reachable(cfg, be, keys, s.(world := L.Alone(cfg, s.world, id, n)))
    decreases n
  {
    if n == 0 {
      assert s.(world := L.Alone(cfg, s.world, id, 0)) == s;
    } else {
      var t := s.(world := L.Alone(cfg, s.world, id, n - 1));
      AloneIsReachable(cfg, be, keys, s, id, n - 1);
      OneMoreAction(cfg, be, keys, t, Advance(id));
      assert Next(cfg, be, t, Advance(id)) == s.(world := L.Alone(cfg, s.world, id, n));
    }
  }

  // ----- a negative time to live -----

  lemma {:induction false} StepStaysBarren(cfg: C.Config, be: Backend, s: Service, a: Action)
    requires cfg.ttl < 0 && Enabled(cfg, s, a) && L.Barren(s.world)
    requires forall r :: r in s.responses && r.answer.Success? ==> r.source.Fetched?
    ensures L.Barren(Next(cfg, be, s, a).world)
    ensures forall r :: r in Next(cfg, be, s, a).responses && r.answer.Success? ==> r.source.Fetched?
  {
    if CacheStep(s, a).Some? {
      L.StepKeepsBarren(cfg, s.world, CacheStep(s, a).value);
    }
  }

  /** With a negative time to live no file is ever answered from the cache. */
  lemma {:induction false} NegativeTtlNeverHits(cfg: C.Config, be: Backend, run: seq<Action>)
    requires cfg.ttl < 0 && Legal(cfg, be, IDLE, run)
    ensures L.Barren(After(cfg, be, IDLE, run).world)
    ensures forall r :: r in After(cfg, be, IDLE, run).responses && r.answer.Success? ==> r.source.Fetched?
    decreases |run|
  {
    if run != [] {
      NegativeTtlNeverHits(cfg, be, Front(run));
      StepStaysBarren(cfg, be, After(cfg, be, IDLE, Front(run)), Last(run));
    }
  }

  // ----- a primed cache -----

  /** The request may use the cache, and its own fetch succeeds if nothing goes wrong on the way. */
  predicate Fetchable(be: Backend, req: FileRequest) {
    Accepted(req) && Serves(be, req) && req.useCache
  }

  function OwnFile(be: Backend, req: FileRequest): C.File
    requires Serves(be, req)
  {
    FreshFile(be, req, Decrypted(be, req).value)
  }

  ghost predicate Looking(s: Service, id: nat, req: FileRequest, phase: W.Phase) {
    id in s.waiting && s.waiting[id] == req
    && id in s.world.readers && s.world.readers[id] == W.Reader(CacheKey(req), phase)
  }

  /** A request that may use the cache begins its lookup. */
  lemma {:induction false} Asked(cfg: C.Config, be: Backend, keys: set<string>, s: Service, id: nat, req: FileRequest)
    returns (t: Service)
    requires Reachable(cfg, be, keys, s) && Accepted(req) && req.useCache && CacheKey(req) in keys
    requires id !in s.world.readers
    ensures Reachable(cfg, be, keys, t)
    ensures t == s.(world := s.world.(readers := s.world.readers[id := W.Reader(CacheKey(req), W.Entered)]),
                    waiting := s.waiting[id := req])
  {
    OneMoreAction(cfg, be, keys, s, Ask(id, req, false));
    t := Next(cfg, be, s, Ask(id, req, false));
  }

  /** On an empty cache the request misses. */
  lemma {:induction false} Misses(cfg: C.Config, be: Backend, keys: set<string>, req: FileRequest)
    returns (s: Service)
    requires Accepted(req) && req.useCache && CacheKey(req) in keys
    ensures Reachable(cfg, be, keys, s)
    ensures s.world.readers == map[] && s.world.clock == 0 && s.world.cache.dir == map[]
    ensures s.waiting == map[] && s.fetching == [req] && s.pending == []
  {
    IdleIsReachable(cfg, be, keys);
    s := Asked(cfg, be, keys, IDLE, 1, req);
    s := FindsNothing(cfg, be, keys, s, 1, req);
  }

  /** A lookup that finds no file sends its request on to the node. */
  lemma {:induction false} FindsNothing(cfg: C.Config, be: Backend, keys: set<string>, s: Service, id: nat,
                                        req: FileRequest)
    returns (t: Service)
    requires Reachable(cfg, be, keys, s) && Looking(s, id, req, W.Entered)
    requires ContentPath(cfg.layout, CacheKey(req)) !in s.world.cache.dir
    ensures Reachable(cfg, be, keys, t)
    ensures t.world.readers == s.world.readers - {id} && t.world.clock == s.world.clock
    ensures t.world.cache.dir == s.world.cache.dir
    ensures t.waiting == s.waiting - {id} && t.fetching == s.fetching + [req] && t.pending == s.pending
  {
    L.MissPath(cfg, s.world, id, CacheKey(req));
    AloneIsReachable(cfg, be, keys, s, id, 2);
    t := s.(world := L.Alone(cfg, s.world, id, 2));
    t := SendsOn(cfg, be, keys, t, id, req);
  }

  lemma {:induction false} SendsOn(cfg: C.Config, be: Backend, keys: set<string>, s: Service, id: nat, req: FileRequest)
    returns (t: Service)
    requires Reachable(cfg, be, keys, s) && Looking(s, id, req, W.Returning(Failure(C.CacheMiss), 0))
    ensures Reachable(cfg, be, keys, t)
    ensures t.world.readers == s.world.readers - {id} && t.world.clock == s.world.clock
    ensures t.world.cache.dir == s.world.cache.dir
    ensures t.waiting == s.waiting - {id} && t.fetching == s.fetching + [req] && t.pending == s.pending
  {
    OneMoreAction(cfg, be, keys, s, Advance(id));
    t := Next(cfg, be, s, Advance(id));
  }

  /** It is fetched, and its file is stored in the background. */
  lemma {:induction false} Primes(cfg: C.Config, be: Backend, keys: set<string>, req: FileRequest)
    returns (s: Service)
    requires Fetchable(be, req) && CacheKey(req) in keys
    ensures Reachable(cfg, be, keys, s)
    ensures s.world.readers == map[] && s.world.clock == 0 && s.waiting == map[]
    ensures var p, dir := ContentPath(cfg.layout, CacheKey(req)), s.world.cache.dir;
            p in dir && dir[p] == C.Node(OwnFile(be, req).content, 0)
  {
    s := Misses(cfg, be, keys, req);
    FetchedWhenServed(be, req, Decrypts);
    OneMoreAction(cfg, be, keys, s, Finish(0, Decrypts));
    s := Next(cfg, be, s, Finish(0, Decrypts));
    assert s.pending == [PendingSet(CacheKey(req), OwnFile(be, req))];
    s := Stores(cfg, be, keys, s, CacheKey(req), OwnFile(be, req));
  }

  lemma {:induction false} Stores(cfg: C.Config, be: Backend, keys: set<string>, s: Service, key: string, file: C.File)
    returns (t: Service)
    requires Reachable(cfg, be, keys, s) && s.pending == [PendingSet(key, file)]
    requires s.world.readers == map[] && s.world.cache.dir == map[] && file.metadata.Some?
    ensures Reachable(cfg, be, keys, t)
    ensures t.world.readers == map[] && t.world.clock == s.world.clock && t.waiting == s.waiting
    ensures var p, dir := ContentPath(cfg.layout, key), t.world.cache.dir;
            p in dir && dir[p] == C.Node(file.content, s.world.clock)
  {
    L.EvictNothing(cfg, s.world.cache, |file.content|);
    PathsSeparateDigests(cfg.layout, key, key);
    OneMoreAction(cfg, be, keys, s, Store(0, []));
    t := Next(cfg, be, s, Store(0, []));
  }

  // ----- a hit -----

  /** A lookup of a fresh entry reads its content. */
  lemma {:induction false} Reads(cfg: C.Config, be: Backend, keys: set<string>, s: Service, id: nat, req: FileRequest)
    returns (t: Service)
    requires Reachable(cfg, be, keys, s) && Accepted(req) && req.useCache && CacheKey(req) in keys
    requires id !in s.world.readers
    requires var p, w := ContentPath(cfg.layout, CacheKey(req)), s.world;
             p in w.cache.dir && !C.Expired(cfg, w.cache.dir[p], w.clock)
    ensures Reachable(cfg, be, keys, t)
    ensures var node := s.world.cache.dir[ContentPath(cfg.layout, CacheKey(req))];
            Looking(t, id, req, W.HaveContent(node.bytes, node))
    ensures t.world.cache.dir == s.world.cache.dir && t.world.clock == s.world.clock
    ensures t.world.readers.Keys == s.world.readers.Keys + {id}
  {
    t := Asked(cfg, be, keys, s, id, req);
    L.FreshPath(cfg, t.world, id, CacheKey(req));
    AloneIsReachable(cfg, be, keys, t, id, 4);
    t := t.(world := L.Alone(cfg, t.world, id, 4));
  }

  /** A lookup that has read the content goes on to answer, with the metadata it finds then. */
  lemma {:induction false} Hits(cfg: C.Config, be: Backend, keys: set<string>, s: Service, id: nat, req: FileRequest,
                                node: C.Node)
    returns (t: Service)
    requires Reachable(cfg, be, keys, s) && Looking(s, id, req, W.HaveContent(node.bytes, node))
    ensures Reachable(cfg, be, keys, t)
    ensures var hit := C.Hit(node.bytes, C.MetadataAt(cfg, s.world.cache.dir, MetaPath(cfg.layout, CacheKey(req))));
            Response(req, Cached(s.world.clock - node.mtime), Success(hit)) in t.responses
  {
    L.HitPath(cfg, s.world, id);
    AloneIsReachable(cfg, be, keys, s, id, 2);
    t := s.(world := L.Alone(cfg, s.world, id, 2));
    var hit := C.Hit(node.bytes, C.MetadataAt(cfg, s.world.cache.dir, MetaPath(cfg.layout, CacheKey(req))));
    t := Answers(cfg, be, keys, t, id, req, hit, s.world.clock - node.mtime);
  }

  lemma {:induction false} Answers(cfg: C.Config, be: Backend, keys: set<string>, s: Service, id: nat,
                                   req: FileRequest, file: C.File, age: int)
    returns (t: Service)
    requires Reachable(cfg, be, keys, s) && Looking(s, id, req, W.Returning(Success(file), age))
    ensures Reachable(cfg, be, keys, t)
    ensures Response(req, Cached(age), Success(file)) in t.responses
  {
    OneMoreAction(cfg, be, keys, s, Advance(id));
    t := Next(cfg, be, s, Advance(id));
  }

  // ----- files borrowed from another viewing key -----

  ghost predicate Answered(r: Response, req: FileRequest, content: Bytes) {
    r.req == req && r.answer.Success? && r.answer.value.content == content
  }

  /**
   Whatever its own viewing key, an accepted request that has one and may use the cache is in some run answered with
   what the node serves under any other key: the same request under that key stores the file first.
   */
  lemma {:induction false} RequestsBorrow(cfg: C.Config, be: Backend, req: FileRequest, key: string)
    requires Accepted(req) && req.useCache && req.evk != "" && 0 <= cfg.ttl && Donates(be, req, key)
    ensures exists s, r :: Reachable(cfg, be, {CacheKey(req)}, s) && r in s.responses
                           && Answered(r, req, Donation(be, req, key).content)
  {
    var keys, donor := {CacheKey(req)}, req.(evk := key);
    var node := C.Node(OwnFile(be, donor).content, 0);
    assert CacheKey(donor) == CacheKey(req);
    var s := Primes(cfg, be, keys, donor);
    s := Reads(cfg, be, keys, s, 2, req);
    s := Hits(cfg, be, keys, s, 2, req, node);
    assert node.bytes == Donation(be, req, key).content;
    var r :| r in s.responses && Answered(r, req, node.bytes);
  }

  /**
   In particular a request whose viewing key is refused, by the decryptor for an upper-case letter or by the node, is
   in some run answered with the file that another key gives access to, although no fetch for it ever succeeds.
   */
  lemma {:induction false} RefusedKeysBorrow(cfg: C.Config, be: Backend, req: FileRequest, key: string)
    requires Accepted(req) && req.useCache && req.evk != "" && 0 <= cfg.ttl && Donates(be, req, key)
    requires HasUpper(req.evk) || Decrypted(be, req).None?
    ensures exists s, r :: Reachable(cfg, be, {CacheKey(req)}, s) && r in s.responses
                           && Answered(r, req, Donation(be, req, key).content)
    ensures forall outcome :: Fetch(be, req, outcome).Failure?
  {
    RequestsBorrow(cfg, be, req, key);
    forall outcome ensures Fetch(be, req, outcome).Failure? {
      FetchedWhenServed(be, req, outcome);
    }
  }

  lemma {:induction false} UpperCaseKeysBorrow(cfg: C.Config, be: Backend, req: FileRequest, key: string)
    requires Accepted(req) && req.useCache && HasUpper(req.evk) && 0 <= cfg.ttl && Donates(be, req, key)
    ensures exists s, r :: Reachable(cfg, be, {CacheKey(req)}, s) && r in s.responses
                           && Answered(r, req, Donation(be, req, key).content)
    ensures forall outcome :: Fetch(be, req, outcome).Failure?
  {
    RefusedKeysBorrow(cfg, be, req, key);
  }

  // ----- exactly when a request's answers are its own -----

  /** The answer is what the request's own fetch could have yielded, up to lost metadata. */
  ghost predicate ItsOwn(cfg: C.Config, be: Backend, r: Response) {
    && r.answer.Success? && Fetch(be, r.req, Decrypts).Success?
    && r.answer.value.content == Fetch(be, r.req, Decrypts).value.content
    && (SameFile(r.answer.value, Fetch(be, r.req, Decrypts).value) || LostMetadata(cfg, r))
  }

  /** Whatever this request is answered with, in any run, is its own. */
  ghost predicate OnlyItsOwn(cfg: C.Config, be: Backend, req: FileRequest) {
    forall keys, s, r ::
      Distinct(cfg, keys) && Reachable(cfg, be, keys, s) && r in s.responses && r.req == req && r.answer.Success? ==>
        ItsOwn(cfg, be, r)
  }

  /** The node serves this other key, and not with what it serves, if anything, under the request's own. */
  ghost predicate Foreign(be: Backend, req: FileRequest, key: string) {
    Donates(be, req, key)
    && (Serves(be, req) ==> OwnFile(be, req).content != Donation(be, req, key).content)
  }

  lemma {:induction false} NotItsOwn(cfg: C.Config, be: Backend, keys: set<string>, s: Service, r: Response)
    requires Distinct(cfg, keys) && Reachable(cfg, be, keys, s)
    requires r in s.responses && r.answer.Success? && !ItsOwn(cfg, be, r)
    ensures !OnlyItsOwn(cfg, be, r.req)
  {
  }

  lemma {:induction false} BorrowedIsNotItsOwn(cfg: C.Config, be: Backend, req: FileRequest, key: string)
    requires Accepted(req) && req.useCache && req.evk != "" && 0 <= cfg.ttl && Foreign(be, req, key)
    ensures !OnlyItsOwn(cfg, be, req)
  {
    RequestsBorrow(cfg, be, req, key);
    var s, r :| Reachable(cfg, be, {CacheKey(req)}, s) && r in s.responses
                && Answered(r, req, Donation(be, req, key).content);
    FetchedWhenServed(be, req, Decrypts);
    NotItsOwn(cfg, be, {CacheKey(req)}, s, r);
  }

  lemma {:induction false} NativeIsItsOwn(cfg: C.Config, be: Backend, r: Response, key: string)
    requires Accepted(r.req) && DonatedBy(cfg, be, r, key) && !Foreign(be, r.req, key)
    ensures ItsOwn(cfg, be, r)
  {
    FetchedWhenServed(be, r.req, Decrypts);
  }

  lemma {:induction false} OwnFetchAgrees(cfg: C.Config, be: Backend, keys: set<string>, s: Service, r: Response)
    requires Plausible(cfg, be) && Distinct(cfg, keys) && Reachable(cfg, be, keys, s)
    requires r in s.responses && r.answer.Success? && Accepted(r.req)
    requires r.req.useCache && r.req.evk != "" && 0 <= cfg.ttl ==> forall key :: !Foreign(be, r.req, key)
    ensures ItsOwn(cfg, be, r)
  {
    var run :| Reaches(cfg, be, keys, run, s);
    if cfg.ttl < 0 {
      NegativeTtlNeverHits(cfg, be, run);
    }
    AnswersAreFresh(cfg, be, keys, IDLE, run, r);
    if r.source.Cached? {
      var key :| DonatedBy(cfg, be, r, key);
      NativeIsItsOwn(cfg, be, r, key);
    }
  }

  /**
   Cached agrees with fresh for an accepted request, in every run, exactly unless it may use a cache that keeps
   anything, has a viewing key, and the node serves something else for its transaction under some other key.
   */
  lemma {:induction false} CachedAgreesWithFetch(cfg: C.Config, be: Backend, req: FileRequest)
    requires Plausible(cfg, be) && Accepted(req)
    ensures OnlyItsOwn(cfg, be, req) <==>
              !(req.useCache && req.evk != "" && 0 <= cfg.ttl && exists key :: Foreign(be, req, key))
  {
    if req.useCache && req.evk != "" && 0 <= cfg.ttl && exists key :: Foreign(be, req, key) {
      var key :| Foreign(be, req, key);
      BorrowedIsNotItsOwn(cfg, be, req, key);
    } else {
      forall keys, s, r | Distinct(cfg, keys) && Reachable(cfg, be, keys, s) && r in s.responses
                          && r.req == req && r.answer.Success?
        ensures ItsOwn(cfg, be, r)
      {
        OwnFetchAgrees(cfg, be, keys, s, r);
      }
    }
  }

  lemma {:induction false} ForeignWhenKeysAgree(be: Backend, req: FileRequest)
    requires KeysAgree(be, req.chainID, req.txid)
    ensures (exists key :: Foreign(be, req, key)) <==> !Serves(be, req) && exists key :: Donates(be, req, key)
  {
    if key :| Foreign(be, req, key) {
      assert Donates(be, req, key);
    }
    if !Serves(be, req) {
      if key :| Donates(be, req, key) {
        assert Foreign(be, req, key);
      }
    }
  }

  /**
   Where the node decrypts the same bytes under every key it serves, the exception is a request whose own key is
   refused, by the decryptor or by the node, while some other key is served.
   */
  lemma {:induction false} CachedAgreesWhenKeysAgree(cfg: C.Config, be: Backend, req: FileRequest)
    requires Plausible(cfg, be) && Accepted(req) && KeysAgree(be, req.chainID, req.txid)
    ensures OnlyItsOwn(cfg, be, req) <==>
              !(req.useCache && req.evk != "" && 0 <= cfg.ttl
                && !Serves(be, req) && exists key :: Donates(be, req, key))
  {
    CachedAgreesWithFetch(cfg, be, req);
    ForeignWhenKeysAgree(be, req);
  }

  // ----- lost metadata -----

  /** Just before the entry expires, a request reads its content. */
  lemma {:induction false} ReadsInTime(cfg: C.Config, be: Backend, keys: set<string>, req: FileRequest, node: C.Node)
    returns (s: Service)
    requires Fetchable(be, req) && CacheKey(req) in keys && 0 <= cfg.ttl
    requires node == C.Node(OwnFile(be, req).content, 0)
    ensures Reachable(cfg, be, keys, s)
    ensures Looking(s, 2, req, W.HaveContent(node.bytes, node)) && 3 !in s.world.readers
    ensures var p, w := ContentPath(cfg.layout, CacheKey(req)), s.world;
            p in w.cache.dir && w.cache.dir[p] == node && w.clock == cfg.ttl
  {
    s := Primes(cfg, be, keys, req);
    OneMoreAction(cfg, be, keys, s, Tick(cfg.ttl));
    s := Next(cfg, be, s, Tick(cfg.ttl));
    s := Reads(cfg, be, keys, s, 2, req);
  }

  /** At `age`, another request's lookup enters and deletes both files. */
  lemma {:induction false} Deletes(cfg: C.Config, be: Backend, keys: set<string>, s: Service, req: FileRequest,
                                   node: C.Node, age: int)
    returns (t: Service)
    requires Reachable(cfg, be, keys, s) && Fetchable(be, req) && CacheKey(req) in keys && 0 <= cfg.ttl < age
    requires Looking(s, 2, req, W.HaveContent(node.bytes, node)) && 3 !in s.world.readers && node.mtime == 0
    requires var p, w := ContentPath(cfg.layout, CacheKey(req)), s.world;
             p in w.cache.dir && w.cache.dir[p] == node && w.clock == cfg.ttl
    ensures Reachable(cfg, be, keys, t) && Looking(t, 2, req, W.HaveContent(node.bytes, node))
    ensures MetaPath(cfg.layout, CacheKey(req)) !in t.world.cache.dir && t.world.clock == age
  {
    OneMoreAction(cfg, be, keys, s, Tick(age - cfg.ttl));
    t := Next(cfg, be, s, Tick(age - cfg.ttl));
    t := Asked(cfg, be, keys, t, 3, req);
    L.StalePath(cfg, t.world, 3, CacheKey(req));
    AloneIsReachable(cfg, be, keys, t, 3, 6);
    t := t.(world := L.Alone(cfg, t.world, 3, 6));
  }

  function BareAnswer(be: Backend, req: FileRequest, age: int): Response
    requires Serves(be, req)
  {
    Response(req, Cached(age), Success(C.Hit(OwnFile(be, req).content, C.NO_METADATA)))
  }

  /** The file comes with metadata that describes its content. */
  ghost predicate Whole(be: Backend, f: C.File) {
    f.metadata.Some? && Describes(be, f.metadata.value, f.content)
  }

  /** For every fetchable request, and every age past the time to live, some run hands out the bare content. */
  lemma {:induction false} MetadataCanVanish(cfg: C.Config, be: Backend, req: FileRequest, age: int)
    requires Fetchable(be, req) && 0 <= cfg.ttl < age
    ensures exists s :: Reachable(cfg, be, {CacheKey(req)}, s) && BareAnswer(be, req, age) in s.responses
  {
    var keys, node := {CacheKey(req)}, C.Node(OwnFile(be, req).content, 0);
    var s := ReadsInTime(cfg, be, keys, req, node);
    s := Deletes(cfg, be, keys, s, req, node, age);
    s := Hits(cfg, be, keys, s, 2, req, node);
  }

  /** In every run, cached answers whose metadata was read at this age are whole. */
  ghost predicate WholeAtAge(cfg: C.Config, be: Backend, age: int) {
    forall keys, s, r ::
      Distinct(cfg, keys) && Reachable(cfg, be, keys, s) && r in s.responses
      && r.source == Cached(age) && r.answer.Success? ==>
        Whole(be, r.answer.value)
  }

  lemma {:induction false} FreshAnswersAreWhole(cfg: C.Config, be: Backend, keys: set<string>, s: Service, r: Response)
    requires Plausible(cfg, be) && Distinct(cfg, keys) && Reachable(cfg, be, keys, s)
    requires r in s.responses && r.answer.Success? && r.source.Cached? && (r.source.age <= cfg.ttl || cfg.ttl < 0)
    ensures Whole(be, r.answer.value)
  {
    var run :| Reaches(cfg, be, keys, run, s);
    if cfg.ttl < 0 {
      NegativeTtlNeverHits(cfg, be, run);
    } else {
      ResponsesAreCoherent(cfg, be, keys, IDLE, run, r);
    }
  }

  /**
   The service hands out cached files whole, in every run, exactly when the entry is at most `ttl` old at the moment
   its metadata is read (or nothing is ever answered from the cache); one fetchable request is enough for the converse.
   */
  lemma {:induction false} CachedFilesAreWholeExactlyWhileFresh(cfg: C.Config, be: Backend, req: FileRequest, age: int)
    requires Plausible(cfg, be) && Fetchable(be, req)
    ensures WholeAtAge(cfg, be, age) <==> age <= cfg.ttl || cfg.ttl < 0
  {
    if age <= cfg.ttl || cfg.ttl < 0 {
      forall keys, s, r | Distinct(cfg, keys) && Reachable(cfg, be, keys, s) && r in s.responses
                          && r.source == Cached(age) && r.answer.Success?
        ensures Whole(be, r.answer.value)
      {
        FreshAnswersAreWhole(cfg, be, keys, s, r);
      }
    } else {
      MetadataCanVanish(cfg, be, req, age);
      var r := BareAnswer(be, req, age);
      assert Distinct(cfg, {CacheKey(req)});
      assert !Whole(be, r.answer.value);
    }
  }
}
