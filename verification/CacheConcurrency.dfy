/**
 Concurrent lookups.  `Get` holds only the read lock, so any number of them interleave, and each may delete
 files; `Set`, `Delete`, `Clear` and cleanup hold the write lock, so they run alone and are single steps here.
 Each step of a `Get` touches the shared state at most once, as the statements of the source do.
 */
module CacheConcurrency {
  import opened Basics
  import opened CachePaths
  import C = CacheModel
  import R = CacheRuns

  /**
   Where a `Get` is.  `seen` is what the second Stat returned; `age` is the age of the entry when its metadata was
   read, and zero for a miss.
   */
  datatype Phase =
    | Entered                                                  // read lock taken
    | Exists                                                   // the first Stat found the content file
    | Statted(seen: C.Node)                                    // the second Stat returned its time
    | Stale(seen: C.Node)                                      // judged expired, miss not yet counted
    | DropContent(seen: C.Node)                                // about to delete the content file
    | DropMeta(seen: C.Node)                                   // about to delete the metadata file
    | Fresh(seen: C.Node)                                      // judged fresh, about to read
    | HaveContent(content: Bytes, seen: C.Node)                // about to read the metadata
    | HaveBoth(content: Bytes, metadata: C.Metadata, age: int) // hit not yet counted
    | NoFile(error: C.CacheError)                              // miss not yet counted
    | Returning(answer: Answer, age: int)                      // counted, about to release the lock

  type Answer = Result<C.File, C.CacheError>

  datatype Reader = Reader(key: string, phase: Phase)

  datatype Completed = Completed(key: string, answer: Answer, age: int)

  /** `base` only serves to state things: the directory as the last writer left it. */
  datatype World = World(
    cache: C.Cache, clock: int, readers: map<nat, Reader>, finished: seq<Completed>, base: C.Dir)

  datatype Action =
    | Enter(id: nat, key: string)
    | Advance(id: nat)
    | Write(op: R.Op)
    | Tick(elapsed: nat)

  function EventOf(w: World, op: R.Op): R.Event {
    R.Event(op, w.clock, false)
  }

  /** A lock acquisition succeeds; writers wait until no reader is inside. */
  ghost predicate Enabled(cfg: C.Config, w: World, a: Action) {
    match a
    case Enter(id, _) => id !in w.readers
    case Advance(id) => id in w.readers
    case Write(op) => w.readers == map[] && !op.Get? && R.LegalStep(cfg, w.cache, EventOf(w, op))
    case Tick(_) => true
  }

  function Moved(w: World, id: nat, phase: Phase): World
    requires id in w.readers
  {
    w.(readers := w.readers[id := w.readers[id].(phase := phase)])
  }

  /** The next statement of reader `id`. */
  function AdvanceReader(cfg: C.Config, w: World, id: nat): World
    requires id in w.readers
  {
    var key := w.readers[id].key;
    var p, m := ContentPath(cfg.layout, key), MetaPath(cfg.layout, key);
    var dir := w.cache.dir;
    match w.readers[id].phase
    case Entered => Moved(w, id, if p in dir then Exists else NoFile(C.CacheMiss))
    case Exists => Moved(w, id, if p in dir then Statted(dir[p]) else NoFile(C.CacheMiss))
    case Statted(seen) => Moved(w, id, if C.Expired(cfg, seen, w.clock) then Stale(seen) else Fresh(seen))
    case Stale(seen) =>
      Moved(w, id, DropContent(seen)).(cache := w.cache.(misses := w.cache.misses + 1))
    case DropContent(seen) =>
      Moved(w, id, DropMeta(seen)).(cache := w.cache.(dir := dir - {p}))
    case DropMeta(seen) =>
      Moved(w, id, Returning(Failure(C.CacheMiss), 0)).(cache := w.cache.(dir := dir - {m}))
    case Fresh(seen) => Moved(w, id, if p in dir then HaveContent(dir[p].bytes, seen) else NoFile(C.ReadFailed))
    case HaveContent(content, seen) =>
      Moved(w, id, HaveBoth(content, C.MetadataAt(cfg, dir, m), w.clock - seen.mtime))
    case HaveBoth(content, metadata, age) =>
      Moved(w, id, Returning(Success(C.Hit(content, metadata)), age)).(cache := w.cache.(hits := w.cache.hits + 1))
    case NoFile(error) =>
      Moved(w, id, Returning(Failure(error), 0)).(cache := w.cache.(misses := w.cache.misses + 1))
    case Returning(answer, age) =>
      w.(readers := w.readers - {id}, finished := w.finished + [Completed(key, answer, age)])
  }

  ghost function Next(cfg: C.Config, w: World, a: Action): World
    requires Enabled(cfg, w, a)
  {
    match a
    case Enter(id, key) => w.(readers := w.readers[id := Reader(key, Entered)])
    case Advance(id) => AdvanceReader(cfg, w, id)
    case Write(op) =>
      var c := R.Next(cfg, w.cache, EventOf(w, op));
      w.(cache := c, base := c.dir)
    case Tick(elapsed) => w.(clock := w.clock + elapsed)
  }

  ghost predicate Legal(cfg: C.Config, w: World, run: seq<Action>)
    decreases |run|, 0
  {
    run == [] || (Legal(cfg, w, Front(run)) && Enabled(cfg, After(cfg, w, Front(run)), Last(run)))
  }

  ghost function After(cfg: C.Config, w: World, run: seq<Action>): World
    requires Legal(cfg, w, run)
    decreases |run|, 1
  {
    if run == [] then w else Next(cfg, After(cfg, w, Front(run)), Last(run))
  }

  /** Nobody is inside, as when the cache has just been opened over its directory. */
  ghost predicate Settled(w: World) {
    w.readers == map[] && w.base == w.cache.dir
  }

  // ----- what deletions by readers can do -----

  ghost predicate OnlyLost(d: C.Dir, e: C.Dir) {
    forall p :: p in e ==> p in d && e[p] == d[p]
  }

  /** What is missing at `p` since the last writer: metadata only after content, and content only when expired. */
  ghost predicate LostInOrder(cfg: C.Config, w: World, p: string)
    requires IsContent(p)
  {
    p in w.base ==>
      && (p !in w.cache.dir ==> C.Expired(cfg, w.base[p], w.clock))
      && (p in w.cache.dir && Sidecar(p) in w.base ==> Sidecar(p) in w.cache.dir)
  }

  ghost predicate Shrunk(cfg: C.Config, w: World) {
    OnlyLost(w.base, w.cache.dir)
    && forall p :: IsContent(p) ==> LostInOrder(cfg, w, p)
  }

  ghost predicate ExpiredOrNone(cfg: C.Config, w: World, p: string) {
    p in w.base ==> C.Expired(cfg, w.base[p], w.clock)
  }

  /** A hit has the content the last writer left, and its metadata unless it was read after the entry expired. */
  ghost predicate HitMatchesBase(cfg: C.Config, w: World, key: string, content: Bytes, metadata: C.Metadata, age: int)
  {
    var p, m := ContentPath(cfg.layout, key), MetaPath(cfg.layout, key);
    && p in w.base && content == w.base[p].bytes
    && age <= w.clock - w.base[p].mtime
    && (metadata == C.MetadataAt(cfg, w.base, m) || (cfg.ttl < age && metadata == C.NO_METADATA))
  }

  ghost predicate AnswerMatchesBase(cfg: C.Config, w: World, key: string, answer: Answer, age: int) {
    match answer
    case Success(f) => f.metadata.Some? && HitMatchesBase(cfg, w, key, f.content, f.metadata.value, age)
    case Failure(_) => ExpiredOrNone(cfg, w, ContentPath(cfg.layout, key))
  }

  ghost predicate ReaderInv(cfg: C.Config, w: World, r: Reader) {
    var p := ContentPath(cfg.layout, r.key);
    match r.phase
    case Entered => true
    case Exists => true
    case Statted(seen) => p in w.base && w.base[p] == seen
    case Fresh(seen) => p in w.base && w.base[p] == seen
    case Stale(seen) => p in w.base && w.base[p] == seen && C.Expired(cfg, seen, w.clock)
    case DropContent(seen) => p in w.base && w.base[p] == seen && C.Expired(cfg, seen, w.clock)
    case DropMeta(seen) => p in w.base && w.base[p] == seen && C.Expired(cfg, seen, w.clock) && p !in w.cache.dir
    case HaveContent(content, seen) => p in w.base && w.base[p] == seen && content == seen.bytes
    case HaveBoth(content, metadata, age) => HitMatchesBase(cfg, w, r.key, content, metadata, age)
    case NoFile(_) => ExpiredOrNone(cfg, w, p)
    case Returning(answer, age) => AnswerMatchesBase(cfg, w, r.key, answer, age)
  }

  ghost predicate Inv(cfg: C.Config, w: World) {
    Shrunk(cfg, w) && forall id :: id in w.readers ==> ReaderInv(cfg, w, w.readers[id])
  }

  /** What one statement of a reader changes: it may delete one file, and never touches clock or base. */
  lemma {:induction false} AdvanceFrame(cfg: C.Config, w: World, id: nat)
    requires id in w.readers
    ensures var v := AdvanceReader(cfg, w, id);
            && OnlyLost(w.cache.dir, v.cache.dir) && v.clock == w.clock && v.base == w.base
            && v.cache.size == w.cache.size && v.cache.items == w.cache.items
  {
  }

  lemma {:induction false} OthersStay(cfg: C.Config, w: World, id: nat, other: nat)
    requires id in w.readers
    ensures var v := AdvanceReader(cfg, w, id);
            && (other in v.readers ==> other in w.readers && v.readers[other].key == w.readers[other].key)
            && (other in w.readers && other != id ==> other in v.readers && v.readers[other] == w.readers[other])
  {
  }

  lemma {:induction false} ReadersFrame(cfg: C.Config, w: World, id: nat)
    requires id in w.readers
    ensures var v := AdvanceReader(cfg, w, id);
            forall other :: other in w.readers && other != id ==>
              other in v.readers && v.readers[other] == w.readers[other]
    ensures var v := AdvanceReader(cfg, w, id);
            id in v.readers ==> v.readers[id].key == w.readers[id].key
  {
    var v := AdvanceReader(cfg, w, id);
    OthersStay(cfg, w, id, id);
    forall other | other in w.readers && other != id
      ensures other in v.readers && v.readers[other] == w.readers[other]
    {
      OthersStay(cfg, w, id, other);
    }
  }

  lemma AdvanceKeepsShrunk(cfg: C.Config, w: World, id: nat)
    requires id in w.readers && Inv(cfg, w)
    ensures Shrunk(cfg, AdvanceReader(cfg, w, id))
  {
    var v := AdvanceReader(cfg, w, id);
    var r := w.readers[id];
    var own := ContentPath(cfg.layout, r.key);
    AdvanceFrame(cfg, w, id);
    SidecarOfContentPath(cfg.layout, r.key);
    assert ReaderInv(cfg, w, r);
    forall p | IsContent(p) ensures LostInOrder(cfg, v, p) {
      assert LostInOrder(cfg, w, p);
      SidecarSeparates(p, own);
      SidecarSeparates(own, p);
    }
  }

  lemma AdvanceKeepsOwn(cfg: C.Config, w: World, id: nat)
    requires id in w.readers && Inv(cfg, w)
    ensures var v := AdvanceReader(cfg, w, id);
            id in v.readers ==> ReaderInv(cfg, v, v.readers[id])
  {
    var r := w.readers[id];
    SidecarOfContentPath(cfg.layout, r.key);
    assert ReaderInv(cfg, w, r);
    assert LostInOrder(cfg, w, ContentPath(cfg.layout, r.key));
  }

  /** Facts about a reader survive other readers' deletions and the passing of time. */
  lemma ReaderInvStable(cfg: C.Config, w: World, v: World, r: Reader)
    requires ReaderInv(cfg, w, r)
    requires OnlyLost(w.cache.dir, v.cache.dir) && w.clock <= v.clock && v.base == w.base
    ensures ReaderInv(cfg, v, r)
  {
  }

  lemma AdvanceKeepsInv(cfg: C.Config, w: World, id: nat)
    requires id in w.readers && Inv(cfg, w)
    ensures Inv(cfg, AdvanceReader(cfg, w, id))
  {
    var v := AdvanceReader(cfg, w, id);
    AdvanceFrame(cfg, w, id);
    AdvanceKeepsShrunk(cfg, w, id);
    AdvanceKeepsOwn(cfg, w, id);
    forall other | other in v.readers ensures ReaderInv(cfg, v, v.readers[other]) {
      if other != id {
        OthersStay(cfg, w, id, other);
        ReaderInvStable(cfg, w, v, w.readers[other]);
      }
    }
  }

  lemma TickKeepsInv(cfg: C.Config, w: World, elapsed: nat)
    requires Inv(cfg, w)
    ensures Inv(cfg, w.(clock := w.clock + elapsed))
  {
    var v := w.(clock := w.clock + elapsed);
    forall p | IsContent(p) ensures LostInOrder(cfg, v, p) {
      assert LostInOrder(cfg, w, p);
    }
    forall id | id in v.readers ensures ReaderInv(cfg, v, v.readers[id]) {
      ReaderInvStable(cfg, w, v, w.readers[id]);
    }
  }

  /** Every step of every interleaving keeps the invariant, whatever is written. */
  lemma StepKeepsInv(cfg: C.Config, w: World, a: Action)
    requires Inv(cfg, w) && Enabled(cfg, w, a)
    ensures Inv(cfg, Next(cfg, w, a))
  {
    match a
    case Advance(id) => AdvanceKeepsInv(cfg, w, id);
    case Tick(elapsed) => TickKeepsInv(cfg, w, elapsed);
    case Write(_) =>
    case Enter(id, key) =>
      var v := Next(cfg, w, a);
      forall p | IsContent(p) ensures LostInOrder(cfg, v, p) {
        assert LostInOrder(cfg, w, p);
      }
      forall other | other in v.readers ensures ReaderInv(cfg, v, v.readers[other]) {
        if other != id {
          ReaderInvStable(cfg, w, v, w.readers[other]);
        }
      }
  }

  lemma {:induction false} RunKeepsInv(cfg: C.Config, w: World, run: seq<Action>)
    requires Settled(w) && Legal(cfg, w, run)
    ensures Inv(cfg, After(cfg, w, run))
    decreases |run|
  {
    if run != [] {
      RunKeepsInv(cfg, w, Front(run));
      StepKeepsInv(cfg, After(cfg, w, Front(run)), Last(run));
    }
  }

  /**
   In every reachable state, a `Get` deletes a content file only if that very file, content and time, is the one
   it found expired; and it deletes a metadata file only when the content file is already gone.
   */
  lemma {:induction false} OnlyExpiredEntriesAreRemoved(cfg: C.Config, w: World, run: seq<Action>, id: nat, q: string)
    requires Settled(w) && Legal(cfg, w, run)
    requires id in After(cfg, w, run).readers
    requires q in After(cfg, w, run).cache.dir
    requires q !in AdvanceReader(cfg, After(cfg, w, run), id).cache.dir
    ensures var now := After(cfg, w, run);
            var r := now.readers[id];
            if IsContent(q) then
              && r.phase == DropContent(now.cache.dir[q]) && q == ContentPath(cfg.layout, r.key)
              && now.clock - now.cache.dir[q].mtime > cfg.ttl
            else
              && r.phase.DropMeta? && q == MetaPath(cfg.layout, r.key)
              && ContentPath(cfg.layout, r.key) !in now.cache.dir
              && now.clock - r.phase.seen.mtime > cfg.ttl
  {
    RunKeepsInv(cfg, w, run);
    var now := After(cfg, w, run);
    var p := ContentPath(cfg.layout, now.readers[id].key);
    SidecarOfContentPath(cfg.layout, now.readers[id].key);
    SidecarSeparates(p, p);
    assert ReaderInv(cfg, now, now.readers[id]);
  }

  // ----- which pairs are stored and returned -----

  /** A content file's path, its bytes, and the metadata that belongs with them. */
  datatype Triple = Triple(path: string, content: Bytes, metadata: C.Metadata)

  /** Every content file has its metadata file, and the two form a good pair. */
  ghost predicate Paired(cfg: C.Config, good: iset<Triple>, dir: C.Dir) {
    forall p :: p in dir && IsContent(p) ==>
      Sidecar(p) in dir && Triple(p, dir[p].bytes, cfg.decode(dir[Sidecar(p)].bytes)) in good
  }

  /** Every `Set` carries metadata that can be read back, and only good pairs are written. */
  ghost predicate GoodWrite(cfg: C.Config, good: iset<Triple>, a: Action) {
    a.Write? && a.op.Set? ==>
      && a.op.file.metadata.Some? && C.RoundTrips(cfg, a.op.file.metadata.value)
      && Triple(ContentPath(cfg.layout, a.op.key), a.op.file.content, a.op.file.metadata.value) in good
  }

  /** A hit is a good pair, or, if its metadata was read after the entry expired, may come with empty metadata. */
  ghost predicate Acceptable(cfg: C.Config, good: iset<Triple>, key: string, answer: Answer, age: int) {
    answer.Success? ==>
      var p, f := ContentPath(cfg.layout, key), answer.value;
      && f.metadata.Some?
      && (Triple(p, f.content, f.metadata.value) in good
          || (cfg.ttl < age && f.metadata.value == C.NO_METADATA && exists md :: Triple(p, f.content, md) in good))
  }

  ghost predicate GoodInv(cfg: C.Config, good: iset<Triple>, w: World) {
    Inv(cfg, w) && Paired(cfg, good, w.base)
    && forall c :: c in w.finished ==> Acceptable(cfg, good, c.key, c.answer, c.age)
  }

  /** Readers never separate a content file from its metadata file. */
  lemma PairedAfterLoss(cfg: C.Config, good: iset<Triple>, w: World)
    requires Shrunk(cfg, w) && Paired(cfg, good, w.base)
    ensures Paired(cfg, good, w.cache.dir)
  {
    forall p | p in w.cache.dir && IsContent(p)
      ensures Sidecar(p) in w.cache.dir
              && Triple(p, w.cache.dir[p].bytes, cfg.decode(w.cache.dir[Sidecar(p)].bytes)) in good
    {
      assert LostInOrder(cfg, w, p);
    }
  }

  lemma ReturnedIsAcceptable(cfg: C.Config, good: iset<Triple>, w: World, key: string, answer: Answer, age: int)
    requires Paired(cfg, good, w.base) && AnswerMatchesBase(cfg, w, key, answer, age)
    ensures Acceptable(cfg, good, key, answer, age)
  {
    SidecarOfContentPath(cfg.layout, key);
    if answer.Success? {
      var p := ContentPath(cfg.layout, key);
      assert Triple(p, answer.value.content, cfg.decode(w.base[Sidecar(p)].bytes)) in good;
    }
  }

  lemma PairedAfterRemoval(cfg: C.Config, good: iset<Triple>, d: C.Dir, s: set<string>)
    requires Paired(cfg, good, d) && C.ContentNames(s)
    ensures Paired(cfg, good, C.RemoveEntries(d, s))
  {
    var e := C.RemoveEntries(d, s);
    forall p | p in e && IsContent(p)
      ensures Sidecar(p) in e && Triple(p, e[p].bytes, cfg.decode(e[Sidecar(p)].bytes)) in good
    {
      R.RemovalPointwise(d, s, p);
      assert R.MetaOf(d, p) == R.MetaOf(e, p);
    }
  }

  lemma PairedAfterStore(cfg: C.Config, good: iset<Triple>, d: C.Dir, key: string, file: C.File, now: int)
    requires Paired(cfg, good, d)
    requires file.metadata.Some? && C.RoundTrips(cfg, file.metadata.value)
    requires Triple(ContentPath(cfg.layout, key), file.content, file.metadata.value) in good
    ensures Paired(cfg, good, C.Stored(cfg, d, key, file, now))
  {
    var e := C.Stored(cfg, d, key, file, now);
    forall p | p in e && IsContent(p)
      ensures Sidecar(p) in e && Triple(p, e[p].bytes, cfg.decode(e[Sidecar(p)].bytes)) in good
    {
      R.StoredPointwise(cfg, d, key, file, now, p);
      assert p != ContentPath(cfg.layout, key) ==> R.MetaOf(d, p) == R.MetaOf(e, p);
      assert p == ContentPath(cfg.layout, key) ==> R.MetaOf(e, p).Some?;
    }
  }

  lemma WriteKeepsPaired(cfg: C.Config, good: iset<Triple>, w: World, a: Action)
    requires Paired(cfg, good, w.cache.dir)
    requires a.Write? && Enabled(cfg, w, a) && GoodWrite(cfg, good, a)
    ensures Paired(cfg, good, Next(cfg, w, a).cache.dir)
  {
    var c := w.cache;
    match a.op
    case Delete(key) =>
      C.RemovePaths(cfg, c.dir, key);
      PairedAfterRemoval(cfg, good, c.dir, {ContentPath(cfg.layout, key)});
    case Clear =>
    case Cleanup =>
      PairedAfterRemoval(cfg, good, c.dir, C.ExpiredContents(cfg, c.dir, w.clock));
    case Set(key, file, walk) =>
      var n := |file.content|;
      if C.NeedsRoom(cfg, c, n) {
        C.EvictedAreContents(c.dir, walk, n);
        PairedAfterRemoval(cfg, good, c.dir, C.Names(C.Evicted(c.dir, walk, n)));
      }
      PairedAfterStore(cfg, good, C.MakeRoom(cfg, c, walk, n).dir, key, file, w.clock);
  }

  lemma StepKeepsGoodInv(cfg: C.Config, good: iset<Triple>, w: World, a: Action)
    requires GoodInv(cfg, good, w) && Enabled(cfg, w, a) && GoodWrite(cfg, good, a)
    ensures GoodInv(cfg, good, Next(cfg, w, a))
  {
    StepKeepsInv(cfg, w, a);
    match a
    case Write(_) =>
      PairedAfterLoss(cfg, good, w);
      WriteKeepsPaired(cfg, good, w, a);
    case Advance(id) =>
      AdvanceFrame(cfg, w, id);
      var r := w.readers[id];
      assert ReaderInv(cfg, w, r);
      if r.phase.Returning? {
        ReturnedIsAcceptable(cfg, good, w, r.key, r.phase.answer, r.phase.age);
      }
    case _ =>
  }

  ghost predicate GoodRun(cfg: C.Config, good: iset<Triple>, run: seq<Action>) {
    forall a :: a in run ==> GoodWrite(cfg, good, a)
  }

  lemma {:induction false} RunKeepsGoodInv(cfg: C.Config, good: iset<Triple>, w: World, run: seq<Action>)
    requires Settled(w) && w.finished == [] && Paired(cfg, good, w.cache.dir)
    requires Legal(cfg, w, run) && GoodRun(cfg, good, run)
    ensures GoodInv(cfg, good, After(cfg, w, run))
    decreases |run|
  {
    if run != [] {
      assert run == Front(run) + [Last(run)];
      assert Last(run) in run;
      RunKeepsGoodInv(cfg, good, w, Front(run));
      StepKeepsGoodInv(cfg, good, After(cfg, w, Front(run)), Last(run));
    }
  }

  /** Over every interleaving, each content file on disk has its own metadata file beside it. */
  lemma {:induction false} DiskStaysPaired(cfg: C.Config, good: iset<Triple>, w: World, run: seq<Action>)
    requires Settled(w) && w.finished == [] && Paired(cfg, good, w.cache.dir)
    requires Legal(cfg, w, run) && GoodRun(cfg, good, run)
    ensures Paired(cfg, good, After(cfg, w, run).cache.dir)
  {
    RunKeepsGoodInv(cfg, good, w, run);
    PairedAfterLoss(cfg, good, After(cfg, w, run));
  }

  /**
   Over every interleaving, each hit is a stored content with the metadata stored beside it; only if the entry was
   older than `ttl` when its metadata was read can the metadata be empty instead.
   */
  lemma HitsAreCoherent(cfg: C.Config, good: iset<Triple>, w: World, run: seq<Action>, c: Completed)
    requires Settled(w) && w.finished == [] && Paired(cfg, good, w.cache.dir)
    requires Legal(cfg, w, run) && GoodRun(cfg, good, run)
    requires c in After(cfg, w, run).finished && c.answer.Success?
    ensures c.answer.value.metadata.Some?
    ensures var p, f := ContentPath(cfg.layout, c.key), c.answer.value;
            || Triple(p, f.content, f.metadata.value) in good
            || (cfg.ttl < c.age && f.metadata.value == C.NO_METADATA
                && exists md :: Triple(p, f.content, md) in good)
  {
    RunKeepsGoodInv(cfg, good, w, run);
    assert Acceptable(cfg, good, c.key, c.answer, c.age);
  }

  // ----- the latest Set, in every interleaving -----

  ghost function NextLive(cfg: C.Config, w: World, a: Action, key: string, live: Option<R.Live>): Option<R.Live>
    requires Enabled(cfg, w, a)
  {
    if a.Write? then R.NextLive(cfg, w.cache, EventOf(w, a.op), key, live) else live
  }

  /** The latest `Set` of the key, unless a writer has undone it since. */
  ghost function LatestSet(cfg: C.Config, w: World, run: seq<Action>, key: string): Option<R.Live>
    requires Legal(cfg, w, run)
    decreases |run|
  {
    if run == [] then None
    else NextLive(cfg, After(cfg, w, Front(run)), Last(run), key, LatestSet(cfg, w, Front(run), key))
  }

  /** What is written does not collide with this key, and can be read back when written under it. */
  ghost predicate CleanAction(cfg: C.Config, a: Action, key: string) {
    a.Write? ==>
      && !R.Collides(cfg, a.op, key)
      && (a.op.Set? && a.op.key == key && a.op.file.metadata.Some? ==> C.RoundTrips(cfg, a.op.file.metadata.value))
  }

  ghost predicate CleanFor(cfg: C.Config, run: seq<Action>, key: string) {
    forall a :: a in run ==> CleanAction(cfg, a, key)
  }

  /** A directory that has only lost expired entries still agrees with the latest `Set`. */
  lemma MatchAfterLoss(cfg: C.Config, w: World, key: string, live: Option<R.Live>)
    requires Shrunk(cfg, w) && R.Matches(cfg, w.base, key, live, w.clock)
    ensures R.Matches(cfg, w.cache.dir, key, live, w.clock)
  {
    var p := ContentPath(cfg.layout, key);
    SidecarOfContentPath(cfg.layout, key);
    assert LostInOrder(cfg, w, p);
  }

  /** The directory agrees with the latest `Set`, whose metadata can be read back. */
  ghost predicate Agrees(cfg: C.Config, w: World, key: string, live: Option<R.Live>) {
    R.Matches(cfg, w.base, key, live, w.clock)
    && (live.Some? && live.value.file.metadata.Some? ==> C.RoundTrips(cfg, live.value.file.metadata.value))
  }

  lemma {:induction false} StepKeepsAgreement(cfg: C.Config, w: World, a: Action, key: string, live: Option<R.Live>)
    requires Inv(cfg, w) && Enabled(cfg, w, a) && CleanAction(cfg, a, key) && Agrees(cfg, w, key, live)
    ensures Agrees(cfg, Next(cfg, w, a), key, NextLive(cfg, w, a, key, live))
  {
    match a
    case Write(op) =>
      MatchAfterLoss(cfg, w, key, live);
      R.StepKeepsMatch(cfg, w.cache, EventOf(w, op), key, live);
    case Advance(id) =>
      AdvanceFrame(cfg, w, id);
    case _ =>
  }

  lemma {:induction false} LatestSetMatches(cfg: C.Config, w: World, run: seq<Action>, key: string)
    requires Settled(w) && ContentPath(cfg.layout, key) !in w.cache.dir
    requires Legal(cfg, w, run) && CleanFor(cfg, run, key)
    ensures Agrees(cfg, After(cfg, w, run), key, LatestSet(cfg, w, run, key))
    decreases |run|
  {
    if run != [] {
      assert run == Front(run) + [Last(run)] && Last(run) in run;
      LatestSetMatches(cfg, w, Front(run), key);
      RunKeepsInv(cfg, w, Front(run));
      StepKeepsAgreement(cfg, After(cfg, w, Front(run)), Last(run), key, LatestSet(cfg, w, Front(run), key));
    }
  }

  /**
   Over every interleaving, a lookup about to return answers for the latest `Set` of its key: with none, a miss;
   with one at most `ttl` old, a hit; and every hit has that `Set`'s content and metadata, the metadata being empty
   only if it was read after the entry expired.
   */
  lemma {:induction false} LookupsReturnLatestSet(cfg: C.Config, w: World, run: seq<Action>, id: nat)
    requires Settled(w) && Legal(cfg, w, run)
    requires id in After(cfg, w, run).readers && After(cfg, w, run).readers[id].phase.Returning?
    requires var key := After(cfg, w, run).readers[id].key;
             ContentPath(cfg.layout, key) !in w.cache.dir && CleanFor(cfg, run, key)
    ensures var v := After(cfg, w, run);
            var Reader(key, Returning(answer, age)) := v.readers[id];
            match LatestSet(cfg, w, run, key)
            case None => answer.Failure?
            case Some(l) =>
              && (v.clock - l.at <= cfg.ttl ==> answer.Success?)
              && (answer.Success? ==>
                    && answer.value.content == l.file.content && age <= v.clock - l.at
                    && (l.file.metadata.Some? ==>
                          answer.value.metadata == l.file.metadata
                          || (cfg.ttl < age && answer.value.metadata == Some(C.NO_METADATA))))
  {
    var v := After(cfg, w, run);
    RunKeepsInv(cfg, w, run);
    LatestSetMatches(cfg, w, run, v.readers[id].key);
    SidecarOfContentPath(cfg.layout, v.readers[id].key);
    assert ReaderInv(cfg, v, v.readers[id]);
  }

  /** Reader `id` has been inside ever since the run's first `since` actions. */
  ghost predicate StaysIn(cfg: C.Config, w: World, run: seq<Action>, since: nat, id: nat)
    requires since <= |run| && Legal(cfg, w, run)
    decreases |run|
  {
    id in After(cfg, w, run).readers && (|run| == since || StaysIn(cfg, w, Front(run), since, id))
  }

  lemma {:induction false} NobodyWrites(cfg: C.Config, w: World, run: seq<Action>, id: nat, key: string)
    requires run != [] && Legal(cfg, w, run) && id in After(cfg, w, Front(run)).readers
    ensures !Last(run).Write? && LatestSet(cfg, w, run, key) == LatestSet(cfg, w, Front(run), key)
  {
  }

  /** While a lookup is inside no writer runs: the latest `Set` when it returns is the latest when it entered. */
  lemma {:induction false} LatestSetStands(cfg: C.Config, w: World, run: seq<Action>, since: nat, id: nat, key: string)
    requires since <= |run| && Legal(cfg, w, run) && StaysIn(cfg, w, run, since, id)
    ensures Legal(cfg, w, run[..since])
    ensures LatestSet(cfg, w, run, key) == LatestSet(cfg, w, run[..since], key)
    ensures forall i :: since <= i < |run| ==> !run[i].Write?
    decreases |run|
  {
    if |run| == since {
      assert run[..since] == run;
    } else {
      LatestSetStands(cfg, w, Front(run), since, id, key);
      assert Front(run)[..since] == run[..since];
      NobodyWrites(cfg, w, run, id, key);
      forall i | since <= i < |run| ensures !run[i].Write? {
        assert i < |run| - 1 ==> run[i] == Front(run)[i];
      }
    }
  }

  // ----- counting -----

  /** A cache that has just been opened: nobody inside, nothing counted yet. */
  ghost predicate AtRest(w: World) {
    w.readers == map[] && w.finished == [] && w.cache.hits == 0 && w.cache.misses == 0
  }

  /** The reader has counted itself, as a hit or as a miss, but not returned yet. */
  predicate Counted(phase: Phase, hit: bool) {
    match phase
    case DropContent(_) => !hit
    case DropMeta(_) => !hit
    case Returning(answer, _) => answer.Success? <==> hit
    case _ => false
  }

  ghost function CountedReaders(w: World, hit: bool): set<nat> {
    set id | id in w.readers && Counted(w.readers[id].phase, hit)
  }

  /** The lookups that have returned with a file, or without. */
  ghost function Returned(w: World, hit: bool): set<nat> {
    set i: nat | i < |w.finished| && (w.finished[i].answer.Success? <==> hit)
  }

  function Counter(w: World, hit: bool): nat {
    if hit then w.cache.hits else w.cache.misses
  }

  ghost predicate TalliedAs(w: World, hit: bool) {
    Counter(w, hit) == |Returned(w, hit)| + |CountedReaders(w, hit)|
  }

  ghost predicate Tallied(w: World) {
    TalliedAs(w, true) && TalliedAs(w, false)
  }

  /** A reader's own step changes its own membership among the counted, and nobody else's. */
  lemma {:induction false} AdvanceCounts(cfg: C.Config, w: World, id: nat, hit: bool)
    requires id in w.readers
    ensures var v := AdvanceReader(cfg, w, id);
            CountedReaders(v, hit) == if id in v.readers && Counted(v.readers[id].phase, hit)
                                      then CountedReaders(w, hit) + {id} else CountedReaders(w, hit) - {id}
  {
    var v := AdvanceReader(cfg, w, id);
    forall other | other != id ensures other in CountedReaders(v, hit) <==> other in CountedReaders(w, hit) {
      OthersStay(cfg, w, id, other);
    }
  }

  /** Leaving adds one lookup to those that have returned. */
  lemma {:induction false} AdvanceReturns(cfg: C.Config, w: World, id: nat, hit: bool)
    requires id in w.readers
    ensures var v, phase := AdvanceReader(cfg, w, id), w.readers[id].phase;
            Returned(v, hit) == if phase.Returning? && (phase.answer.Success? <==> hit)
                                then Returned(w, hit) + {|w.finished|} else Returned(w, hit)
  {
    var v := AdvanceReader(cfg, w, id);
    forall i: nat | i < |w.finished| ensures v.finished[i] == w.finished[i] {}
  }

  /** What a statement does to the counter is what it does to the reader's own place. */
  lemma {:induction false} AdvanceCounter(cfg: C.Config, w: World, id: nat, hit: bool)
    requires id in w.readers
    ensures var v, phase := AdvanceReader(cfg, w, id), w.readers[id].phase;
            Counter(v, hit) == Counter(w, hit)
              + (if id in v.readers && Counted(v.readers[id].phase, hit) then 1 else 0)
              - (if Counted(phase, hit) then 1 else 0)
              + (if phase.Returning? && (phase.answer.Success? <==> hit) then 1 else 0)
  {
  }

  lemma {:induction false} AdvanceKeepsTally(cfg: C.Config, w: World, id: nat, hit: bool)
    requires TalliedAs(w, hit) && id in w.readers
    ensures TalliedAs(AdvanceReader(cfg, w, id), hit)
  {
    AdvanceCounter(cfg, w, id, hit);
    AdvanceCounts(cfg, w, id, hit);
    AdvanceReturns(cfg, w, id, hit);
    SumsMatch(cfg, w, AdvanceReader(cfg, w, id), id, hit);
  }

  lemma {:induction false} SumsMatch(cfg: C.Config, w: World, v: World, id: nat, hit: bool)
    requires TalliedAs(w, hit) && id in w.readers
    requires var phase := w.readers[id].phase;
             var counted, left := id in v.readers && Counted(v.readers[id].phase, hit),
                                  phase.Returning? && (phase.answer.Success? <==> hit);
             && Counter(v, hit) == Counter(w, hit) + (if counted then 1 else 0) + (if left then 1 else 0)
                                   - (if Counted(phase, hit) then 1 else 0)
             && CountedReaders(v, hit) == (if counted then CountedReaders(w, hit) + {id}
                                           else CountedReaders(w, hit) - {id})
             && Returned(v, hit) == (if left then Returned(w, hit) + {|w.finished|} else Returned(w, hit))
    ensures TalliedAs(v, hit)
  {
    assert id in CountedReaders(w, hit) <==> Counted(w.readers[id].phase, hit);
    assert |w.finished| !in Returned(w, hit);
    TallyAdds(Returned(w, hit), |w.finished|);
    TallyAdds(CountedReaders(w, hit), id);
  }

  lemma {:induction false} TallyAdds(s: set<nat>, x: nat)
    ensures |s + {x}| == |s| + if x in s then 0 else 1
    ensures |s - {x}| == |s| - if x in s then 1 else 0
  {
    if x in s {
      assert s + {x} == s;
    } else {
      assert s - {x} == s;
    }
  }

  lemma {:induction false} StepKeepsTally(cfg: C.Config, w: World, a: Action)
    requires Tallied(w) && Enabled(cfg, w, a)
    ensures Tallied(Next(cfg, w, a))
  {
    if a.Advance? {
      AdvanceKeepsTally(cfg, w, a.id, true);
      AdvanceKeepsTally(cfg, w, a.id, false);
    } else {
      var v := Next(cfg, w, a);
      assert CountedReaders(v, true) == CountedReaders(w, true) && CountedReaders(v, false) == CountedReaders(w, false);
      assert Returned(v, true) == Returned(w, true) && Returned(v, false) == Returned(w, false);
    }
  }

  /**
   Over every interleaving, hits is the number of lookups that have returned with a file, plus those that have counted
   themselves and are about to, and misses the number of those without; with nobody inside, exactly these numbers.
   */
  lemma {:induction false} HitsAndMisses(cfg: C.Config, w: World, run: seq<Action>)
    requires AtRest(w) && Legal(cfg, w, run)
    ensures Tallied(After(cfg, w, run))
    ensures var v := After(cfg, w, run);
            v.readers == map[] ==>
              && v.cache.hits == |set i: nat | i < |v.finished| && v.finished[i].answer.Success?|
              && v.cache.misses == |set i: nat | i < |v.finished| && v.finished[i].answer.Failure?|
    decreases |run|
  {
    var v := After(cfg, w, run);
    if run == [] {
      assert Returned(w, true) == {} && Returned(w, false) == {};
      assert CountedReaders(w, true) == {} && CountedReaders(w, false) == {};
    } else {
      HitsAndMisses(cfg, w, Front(run));
      StepKeepsTally(cfg, After(cfg, w, Front(run)), Last(run));
    }
    if v.readers == map[] {
      RestingTally(v);
    }
  }

  lemma {:induction false} RestingTally(v: World)
    requires Tallied(v) && v.readers == map[]
    ensures v.cache.hits == |set i: nat | i < |v.finished| && v.finished[i].answer.Success?|
    ensures v.cache.misses == |set i: nat | i < |v.finished| && v.finished[i].answer.Failure?|
  {
    assert CountedReaders(v, true) == {} && CountedReaders(v, false) == {};
    assert Returned(v, true) == set i: nat | i < |v.finished| && v.finished[i].answer.Success?;
    assert Returned(v, false) == set i: nat | i < |v.finished| && v.finished[i].answer.Failure?;
  }

  // ----- the disk -----

  /** What a step adds to counter minus disk: a content file that a reader deletes, or one that a `Set` overwrites. */
  ghost function StepDrift(cfg: C.Config, w: World, a: Action): R.Drift
    requires Enabled(cfg, w, a)
  {
    match a
    case Advance(id) =>
      var p := ContentPath(cfg.layout, w.readers[id].key);
      if w.readers[id].phase.DropContent? && p in w.cache.dir then R.Drift(|w.cache.dir[p].bytes|, 1)
      else R.Drift(0, 0)
    case Write(op) => R.StepDrift(cfg, w.cache, EventOf(w, op))
    case _ => R.Drift(0, 0)
  }

  /** Drift accumulated since the start or the last `Clear`. */
  ghost function RunDrift(cfg: C.Config, w: World, run: seq<Action>): R.Drift
    requires Legal(cfg, w, run)
    decreases |run|
  {
    if run == [] || (Last(run).Write? && Last(run).op.Clear?) then R.Drift(0, 0)
    else
      var d := RunDrift(cfg, w, Front(run));
      var s := StepDrift(cfg, After(cfg, w, Front(run)), Last(run));
      R.Drift(d.bytes + s.bytes, d.items + s.items)
  }

  lemma {:induction false} ContentDeleted(cfg: C.Config, dir: C.Dir, key: string)
    ensures var p := ContentPath(cfg.layout, key);
            && C.RealBytes(dir - {p}) == C.RealBytes(dir) - C.SizeAt(dir, p)
            && C.RealItems(dir - {p}) == C.RealItems(dir) - (if p in dir then 1 else 0)
  {
    var p := ContentPath(cfg.layout, key);
    SidecarOfContentPath(cfg.layout, key);
    assert C.Contents(dir - {p}) == C.Contents(dir) - {p};
    C.BytesFrame(dir - {p}, dir, C.Contents(dir) - {p});
    if p in dir {
      C.BytesTake(dir, C.Contents(dir), p);
    } else {
      assert C.Contents(dir) - {p} == C.Contents(dir);
    }
  }

  lemma {:induction false} MetadataDeleted(cfg: C.Config, dir: C.Dir, key: string)
    ensures var m := MetaPath(cfg.layout, key);
            C.RealBytes(dir - {m}) == C.RealBytes(dir) && C.RealItems(dir - {m}) == C.RealItems(dir)
  {
    var p, m := ContentPath(cfg.layout, key), MetaPath(cfg.layout, key);
    SidecarOfContentPath(cfg.layout, key);
    SidecarSeparates(p, p);
    assert C.Contents(dir - {m}) == C.Contents(dir);
    C.BytesFrame(dir - {m}, dir, C.Contents(dir));
  }

  /** What one statement of a reader takes off the disk. */
  lemma {:induction false} AdvanceDeletes(cfg: C.Config, w: World, id: nat)
    requires id in w.readers
    ensures AdvanceReader(cfg, w, id).cache.dir ==
              var key := w.readers[id].key;
              match w.readers[id].phase
              case DropContent(_) => w.cache.dir - {ContentPath(cfg.layout, key)}
              case DropMeta(_) => w.cache.dir - {MetaPath(cfg.layout, key)}
              case _ => w.cache.dir
  {
  }

  lemma {:induction false} AdvanceConservesDrift(cfg: C.Config, w: World, id: nat)
    requires id in w.readers
    ensures var v, s := AdvanceReader(cfg, w, id), StepDrift(cfg, w, Advance(id));
            && v.cache.size == w.cache.size && v.cache.items == w.cache.items
            && C.RealBytes(v.cache.dir) == C.RealBytes(w.cache.dir) - s.bytes
            && C.RealItems(v.cache.dir) == C.RealItems(w.cache.dir) - s.items
  {
    AdvanceFrame(cfg, w, id);
    AdvanceDeletes(cfg, w, id);
    if w.readers[id].phase.DropContent? {
      ContentDeleted(cfg, w.cache.dir, w.readers[id].key);
    } else if w.readers[id].phase.DropMeta? {
      MetadataDeleted(cfg, w.cache.dir, w.readers[id].key);
    }
  }

  lemma {:induction false} WriteConservesDrift(cfg: C.Config, w: World, op: R.Op)
    requires Enabled(cfg, w, Write(op)) && !op.Clear?
    ensures var c, s := Next(cfg, w, Write(op)).cache, StepDrift(cfg, w, Write(op));
            && c.size - C.RealBytes(c.dir) == w.cache.size - C.RealBytes(w.cache.dir) + s.bytes
            && c.items - C.RealItems(c.dir) == w.cache.items - C.RealItems(w.cache.dir) + s.items
  {
    R.StepConservesDrift(cfg, w.cache, EventOf(w, op));
  }

  lemma {:induction false} StepConservesDrift(cfg: C.Config, w: World, a: Action)
    requires Enabled(cfg, w, a) && !(a.Write? && a.op.Clear?)
    ensures var c, s := Next(cfg, w, a).cache, StepDrift(cfg, w, a);
            && c.size - C.RealBytes(c.dir) == w.cache.size - C.RealBytes(w.cache.dir) + s.bytes
            && c.items - C.RealItems(c.dir) == w.cache.items - C.RealItems(w.cache.dir) + s.items
  {
    if a.Advance? {
      AdvanceConservesDrift(cfg, w, a.id);
    } else if a.Write? {
      WriteConservesDrift(cfg, w, a.op);
    }
  }

  /**
   Conservation over every interleaving: the counters exceed the disk by exactly the content files that readers
   have deleted and that `Set` has overwritten since the last `Clear`.  A file that two readers both try to delete
   counts once.
   */
  lemma {:induction false} DriftConservation(cfg: C.Config, w: World, run: seq<Action>)
    requires R.Exact(w.cache) && Legal(cfg, w, run)
    ensures var c, d := After(cfg, w, run).cache, RunDrift(cfg, w, run);
            && c.size == C.RealBytes(c.dir) + d.bytes
            && c.items == C.RealItems(c.dir) + d.items
    decreases |run|
  {
    if run != [] {
      DriftConservation(cfg, w, Front(run));
      if Last(run).Write? && Last(run).op.Clear? {
        assert C.Contents(map[]) == {};
      } else {
        StepConservesDrift(cfg, After(cfg, w, Front(run)), Last(run));
      }
    }
  }

  lemma StepBoundsDisk(cfg: C.Config, w: World, a: Action)
    requires C.RealBytes(w.cache.dir) <= w.cache.size && Enabled(cfg, w, a)
    ensures var bytes := C.RealBytes(Next(cfg, w, a).cache.dir);
            || bytes <= C.RealBytes(w.cache.dir) || bytes <= cfg.maxSize
            || (a.Write? && a.op.Set? && bytes <= |a.op.file.content|)
  {
    match a
    case Advance(id) =>
      AdvanceConservesDrift(cfg, w, id);
    case Write(op) =>
      R.StepStaysBounded(cfg, w.cache, EventOf(w, op));
    case _ =>
  }

  /**
   Over every interleaving of lookups and writers, the counters never fall short of the disk, and the disk never
   holds more than it started with, the limit, or the largest file offered.
   */
  lemma {:induction false} DiskStaysBounded(cfg: C.Config, w: World, run: seq<Action>, largest: int)
    requires R.Exact(w.cache) && Legal(cfg, w, run)
    requires forall a :: a in run && a.Write? && a.op.Set? ==> |a.op.file.content| <= largest
    ensures var c := After(cfg, w, run).cache;
            C.RealBytes(c.dir) <= c.size && C.RealItems(c.dir) <= c.items
    ensures var bytes := C.RealBytes(After(cfg, w, run).cache.dir);
            bytes <= C.RealBytes(w.cache.dir) || bytes <= cfg.maxSize || bytes <= largest
    decreases |run|
  {
    DriftConservation(cfg, w, run);
    if run != [] {
      assert run == Front(run) + [Last(run)] && Last(run) in run;
      DiskStaysBounded(cfg, w, Front(run), largest);
      StepBoundsDisk(cfg, After(cfg, w, Front(run)), Last(run));
    }
  }
}
