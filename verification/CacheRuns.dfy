/**
 Whole runs of the filesystem cache: any sequence of operations, cleanups included, at non-decreasing times.
 */
module CacheRuns {
  import opened Basics
  import opened CachePaths
  import C = CacheModel

  datatype Op =
    | Get(key: string)
    | Set(key: string, file: C.File, walk: seq<string>)
    | Delete(key: string)
    | Clear
    | Cleanup

  /** `cancelled`: the caller's context had ended when the operation was entered. */
  datatype Event = Event(op: Op, now: int, cancelled: bool)

  /** Cancelled operations return before touching anything; cleanup has no context. */
  predicate Takes(e: Event) {
    !e.cancelled || e.op.Cleanup?
  }

  predicate Evicts(cfg: C.Config, c: C.Cache, e: Event) {
    Takes(e) && e.op.Set? && C.NeedsRoom(cfg, c, |e.op.file.content|)
  }

  ghost predicate LegalStep(cfg: C.Config, c: C.Cache, e: Event) {
    Evicts(cfg, c, e) ==> C.Walks(c.dir, e.op.walk)
  }

  ghost function Next(cfg: C.Config, c: C.Cache, e: Event): C.Cache
    requires LegalStep(cfg, c, e)
  {
    if !Takes(e) then c else
    match e.op
    case Get(key) => C.Get(cfg, c, key, e.now)
    case Set(key, file, walk) => C.Set(cfg, c, key, file, walk, e.now)
    case Delete(key) => C.Delete(cfg, c, key)
    case Clear => C.Clear(c)
    case Cleanup => C.Cleanup(cfg, c, e.now)
  }

  /** A cancelled operation changes nothing; a cleanup cannot be cancelled. */
  lemma {:induction false} CancelledStep(cfg: C.Config, c: C.Cache, e: Event)
    requires e.cancelled
    ensures e.op != Cleanup ==> LegalStep(cfg, c, e) && Next(cfg, c, e) == c
    ensures e.op == Cleanup ==> LegalStep(cfg, c, e) && Next(cfg, c, e) == C.Cleanup(cfg, c, e.now)
  {
  }

  ghost predicate Legal(cfg: C.Config, c: C.Cache, run: seq<Event>)
    decreases |run|, 0
  {
    run == [] || (Legal(cfg, c, Front(run)) && LegalStep(cfg, After(cfg, c, Front(run)), Last(run)))
  }

  ghost function After(cfg: C.Config, c: C.Cache, run: seq<Event>): C.Cache
    requires Legal(cfg, c, run)
    decreases |run|, 1
  {
    if run == [] then c else Next(cfg, After(cfg, c, Front(run)), Last(run))
  }

  ghost predicate Timed(run: seq<Event>) {
    forall i, j :: 0 <= i < j < |run| ==> run[i].now <= run[j].now
  }

  // ----- the counters -----

  /** How far the counters have run ahead of the disk. */
  datatype Drift = Drift(bytes: nat, items: nat)

  /**
   The two places where the counters are not adjusted: `Set` over an existing entry, and `Get` removing an
   expired one.
   */
  ghost function StepDrift(cfg: C.Config, c: C.Cache, e: Event): Drift
    requires LegalStep(cfg, c, e)
  {
    if !Takes(e) then Drift(0, 0) else
    match e.op
    case Get(key) =>
      var p := ContentPath(cfg.layout, key);
      if p in c.dir && C.Expired(cfg, c.dir[p], e.now) then Drift(|c.dir[p].bytes|, 1) else Drift(0, 0)
    case Set(key, file, walk) =>
      var p := ContentPath(cfg.layout, key);
      var room := C.MakeRoom(cfg, c, walk, |file.content|);
      if p in room.dir then Drift(|room.dir[p].bytes|, 1) else Drift(0, 0)
    case _ => Drift(0, 0)
  }

  /** Drift accumulated since the start or the last `Clear`. */
  ghost function RunDrift(cfg: C.Config, c: C.Cache, run: seq<Event>): Drift
    requires Legal(cfg, c, run)
    decreases |run|
  {
    if run == [] then Drift(0, 0)
    else if Takes(Last(run)) && Last(run).op.Clear? then Drift(0, 0)
    else
      var d := RunDrift(cfg, c, Front(run));
      var s := StepDrift(cfg, After(cfg, c, Front(run)), Last(run));
      Drift(d.bytes + s.bytes, d.items + s.items)
  }

  /** The counters agree with the disk, as they do after construction. */
  ghost predicate Exact(c: C.Cache) {
    c.size == C.RealBytes(c.dir) && c.items == C.RealItems(c.dir)
  }

  /** One step changes both differences by exactly its drift. */
  lemma StepConservesDrift(cfg: C.Config, c: C.Cache, e: Event)
    requires LegalStep(cfg, c, e)
    requires !(Takes(e) && e.op.Clear?)
    ensures var n := Next(cfg, c, e);
            var s := StepDrift(cfg, c, e);
            && n.size - C.RealBytes(n.dir) == c.size - C.RealBytes(c.dir) + s.bytes
            && n.items - C.RealItems(n.dir) == c.items - C.RealItems(c.dir) + s.items
  {
    if Takes(e) {
      match e.op
      case Get(key) =>
        RemoveOne(cfg, c.dir, key);
      case Set(key, file, walk) =>
        if C.NeedsRoom(cfg, c, |file.content|) {
          C.EvictMeasure(c, walk, |file.content|);
        }
        C.StoredMeasure(cfg, C.MakeRoom(cfg, c, walk, |file.content|).dir, key, file, e.now);
      case Delete(key) =>
        RemoveOne(cfg, c.dir, key);
      case Cleanup =>
        C.CleanupMeasure(cfg, c, e.now);
    }
  }

  /** Removing one entry by its two paths, whether or not it is there. */
  lemma RemoveOne(cfg: C.Config, dir: C.Dir, key: string)
    ensures var p := ContentPath(cfg.layout, key);
            var d := dir - {p, MetaPath(cfg.layout, key)};
            && C.RealBytes(d) == C.RealBytes(dir) - C.SizeAt(dir, p)
            && C.RealItems(d) == C.RealItems(dir) - (if p in dir then 1 else 0)
  {
    var p := ContentPath(cfg.layout, key);
    SidecarOfContentPath(cfg.layout, key);
    SidecarSeparates(p, p);
    C.RemovePaths(cfg, dir, key);
    var d := dir - {p, MetaPath(cfg.layout, key)};
    if p in dir {
      C.RemoveEntriesMeasure(dir, {p});
      C.BytesTake(dir, {p}, p);
    } else {
      assert C.Contents(d) == C.Contents(dir);
      C.BytesFrame(d, dir, C.Contents(dir));
    }
  }

  /**
   Conservation: over every run from exact counters, the counters exceed the disk by exactly the bytes (and the
   number) of entries overwritten by `Set` or removed by an expired `Get` since the last `Clear`.
   */
  lemma {:induction false} DriftConservation(cfg: C.Config, c: C.Cache, run: seq<Event>)
    requires Exact(c) && Legal(cfg, c, run)
    ensures var end := After(cfg, c, run);
            && end.size == C.RealBytes(end.dir) + RunDrift(cfg, c, run).bytes
            && end.items == C.RealItems(end.dir) + RunDrift(cfg, c, run).items
    decreases |run|
  {
    if run != [] {
      DriftConservation(cfg, c, Front(run));
      if Takes(Last(run)) && Last(run).op.Clear? {
        assert C.Contents(map[]) == {};
      } else {
        StepConservesDrift(cfg, After(cfg, c, Front(run)), Last(run));
      }
    }
  }

  /**
   The real bytes on disk never exceed the starting bytes, the limit and the largest file: the drifting counter
   over-approximates the disk, so eviction may come early but never late.
   */
  lemma {:induction false} DiskStaysBounded(cfg: C.Config, c: C.Cache, run: seq<Event>, largest: int)
    requires Exact(c) && Legal(cfg, c, run)
    requires forall e :: e in run && e.op.Set? ==> |e.op.file.content| <= largest
    ensures var bytes := C.RealBytes(After(cfg, c, run).dir);
            bytes <= C.RealBytes(c.dir) || bytes <= cfg.maxSize || bytes <= largest
    decreases |run|
  {
    if run != [] {
      assert run == Front(run) + [Last(run)] && Last(run) in run;
      DiskStaysBounded(cfg, c, Front(run), largest);
      DriftConservation(cfg, c, Front(run));
      StepStaysBounded(cfg, After(cfg, c, Front(run)), Last(run));
    }
  }

  lemma StepStaysBounded(cfg: C.Config, c: C.Cache, e: Event)
    requires LegalStep(cfg, c, e)
    requires C.RealBytes(c.dir) <= c.size
    ensures var bytes := C.RealBytes(Next(cfg, c, e).dir);
            bytes <= C.RealBytes(c.dir) || bytes <= cfg.maxSize || (e.op.Set? && bytes <= |e.op.file.content|)
  {
    assert C.Contents(map[]) == {};
    if Takes(e) {
      match e.op
      case Get(key) =>
        RemoveOne(cfg, c.dir, key);
      case Set(key, file, walk) =>
        if C.NeedsRoom(cfg, c, |file.content|) {
          C.EvictFrees(c, walk, |file.content|);
        }
        C.StoredMeasure(cfg, C.MakeRoom(cfg, c, walk, |file.content|).dir, key, file, e.now);
      case Delete(key) =>
        RemoveOne(cfg, c.dir, key);
      case Clear =>
      case Cleanup =>
        C.CleanupMeasure(cfg, c, e.now);
    }
  }

  // ----- one entry -----

  ghost function MetaOf(dir: C.Dir, p: string): Option<C.Node>
    requires IsContent(p)
  {
    if Sidecar(p) in dir then Some(dir[Sidecar(p)]) else None
  }

  /** Both directories hold the same content file at `p`, with the same metadata file, or neither holds one. */
  ghost predicate SameEntry(d: C.Dir, e: C.Dir, p: string)
    requires IsContent(p)
  {
    (p in d <==> p in e) && (p in d ==> d[p] == e[p] && MetaOf(d, p) == MetaOf(e, p))
  }

  /** Removing entries removes those and leaves every other entry whole. */
  lemma RemovalPointwise(dir: C.Dir, s: set<string>, p: string)
    requires C.ContentNames(s) && IsContent(p)
    ensures p in s ==> p !in C.RemoveEntries(dir, s)
    ensures p !in s ==> SameEntry(dir, C.RemoveEntries(dir, s), p)
  {
    forall q | q in s ensures Sidecar(q) != p && (q != p ==> Sidecar(q) != Sidecar(p)) && q != Sidecar(p) {
      SidecarSeparates(p, q);
    }
  }

  lemma RemoveOnePointwise(cfg: C.Config, dir: C.Dir, key: string, p: string)
    requires IsContent(p)
    ensures var q := ContentPath(cfg.layout, key);
            var d := dir - {q, MetaPath(cfg.layout, key)};
            && (p == q ==> p !in d)
            && (p != q ==> SameEntry(dir, d, p))
  {
    C.RemovePaths(cfg, dir, key);
    RemovalPointwise(dir, {ContentPath(cfg.layout, key)}, p);
  }

  ghost function StoredMeta(cfg: C.Config, dir: C.Dir, key: string, file: C.File, now: int): Option<C.Node> {
    var m := MetaPath(cfg.layout, key);
    if file.metadata.Some? then Some(C.Node(cfg.encode(file.metadata.value), now))
    else if m in dir then Some(dir[m]) else None
  }

  /** Storing replaces one entry and leaves every other entry whole. */
  lemma StoredPointwise(cfg: C.Config, dir: C.Dir, key: string, file: C.File, now: int, q: string)
    requires IsContent(q)
    ensures var p := ContentPath(cfg.layout, key);
            var d := C.Stored(cfg, dir, key, file, now);
            && (q != p ==> SameEntry(dir, d, q))
            && (q == p ==> q in d && d[q] == C.Node(file.content, now)
                           && MetaOf(d, q) == StoredMeta(cfg, dir, key, file, now))
  {
    var p := ContentPath(cfg.layout, key);
    SidecarOfContentPath(cfg.layout, key);
    SidecarSeparates(p, q);
    SidecarSeparates(q, p);
  }

  // ----- lookups return the latest Set -----

  predicate Stores(e: Event, key: string) {
    Takes(e) && e.op.Set? && e.op.key == key
  }

  /** The step undoes a stored entry: deletion, clearing, or eviction on behalf of some other `Set`. */
  ghost predicate Undoes(cfg: C.Config, c: C.Cache, e: Event, key: string)
    requires LegalStep(cfg, c, e)
  {
    Takes(e) &&
    match e.op
    case Delete(k) => k == key
    case Clear => true
    case Set(k, file, walk) =>
      var p := ContentPath(cfg.layout, key);
      p in c.dir && p !in C.MakeRoom(cfg, c, walk, |file.content|).dir
    case _ => false
  }

  /** A file stored and not undone, and when it was stored. */
  datatype Live = Live(file: C.File, at: int)

  ghost function NextLive(cfg: C.Config, c: C.Cache, e: Event, key: string, live: Option<Live>): Option<Live>
    requires LegalStep(cfg, c, e)
  {
    if Stores(e, key) then Some(Live(e.op.file, e.now))
    else if Undoes(cfg, c, e, key) then None
    else live
  }

  /** The latest `Set` of the key, unless something has undone it since. */
  ghost function LatestSet(cfg: C.Config, c: C.Cache, run: seq<Event>, key: string): Option<Live>
    requires Legal(cfg, c, run)
    decreases |run|
  {
    if run == [] then None
    else NextLive(cfg, After(cfg, c, Front(run)), Last(run), key, LatestSet(cfg, c, Front(run), key))
  }

  predicate Collides(cfg: C.Config, op: Op, key: string) {
    (op.Get? || op.Set? || op.Delete?) && op.key != key && cfg.layout.digest(op.key) == cfg.layout.digest(key)
  }

  /** No other key of the run collides with this one. */
  ghost predicate DigestDistinct(cfg: C.Config, run: seq<Event>, key: string) {
    forall e :: e in run ==> !Collides(cfg, e.op, key)
  }

  /** Metadata written under the key can be read back. */
  ghost predicate ReadableMetadata(cfg: C.Config, run: seq<Event>, key: string) {
    forall e :: e in run && Stores(e, key) && e.op.file.metadata.Some?
      ==> C.RoundTrips(cfg, e.op.file.metadata.value)
  }

  /** A step that neither stores the key nor undoes it leaves its entry as it was, or removes it because expired. */
  lemma OtherStepsLeaveEntry(cfg: C.Config, c: C.Cache, e: Event, key: string)
    requires LegalStep(cfg, c, e) && !Collides(cfg, e.op, key)
    requires !Stores(e, key) && !Undoes(cfg, c, e, key)
    ensures IsContent(ContentPath(cfg.layout, key))
    ensures var p := ContentPath(cfg.layout, key);
            var d := Next(cfg, c, e).dir;
            SameEntry(c.dir, d, p) || (p in c.dir && p !in d && C.Expired(cfg, c.dir[p], e.now))
  {
    var p := ContentPath(cfg.layout, key);
    SidecarOfContentPath(cfg.layout, key);
    if Takes(e) {
      match e.op
      case Get(k) =>
        RemoveOnePointwise(cfg, c.dir, k, p);
        PathsSeparateDigests(cfg.layout, k, key);
      case Cleanup =>
        RemovalPointwise(c.dir, C.ExpiredContents(cfg, c.dir, e.now), p);
      case Delete(k) =>
        RemoveOnePointwise(cfg, c.dir, k, p);
        PathsSeparateDigests(cfg.layout, k, key);
      case Clear =>
      case Set(k, file, walk) =>
        PathsSeparateDigests(cfg.layout, k, key);
        var room := C.MakeRoom(cfg, c, walk, |file.content|);
        if C.NeedsRoom(cfg, c, |file.content|) {
          C.EvictedAreContents(c.dir, walk, |file.content|);
          RemovalPointwise(c.dir, C.Names(C.Evicted(c.dir, walk, |file.content|)), p);
        }
        StoredPointwise(cfg, room.dir, k, file, e.now, p);
    }
  }

  lemma UndoneStepsRemoveEntry(cfg: C.Config, c: C.Cache, e: Event, key: string)
    requires LegalStep(cfg, c, e) && !Collides(cfg, e.op, key)
    requires !Stores(e, key) && Undoes(cfg, c, e, key)
    ensures ContentPath(cfg.layout, key) !in Next(cfg, c, e).dir
  {
    var p := ContentPath(cfg.layout, key);
    SidecarOfContentPath(cfg.layout, key);
    match e.op
    case Delete(k) =>
      RemoveOnePointwise(cfg, c.dir, k, p);
    case Clear =>
    case Set(k, file, walk) =>
      PathsSeparateDigests(cfg.layout, k, key);
      StoredPointwise(cfg, C.MakeRoom(cfg, c, walk, |file.content|).dir, k, file, e.now, p);
  }

  /** The directory holds the live file with its metadata, unless that has expired by `t` and been removed. */
  ghost predicate Matches(cfg: C.Config, dir: C.Dir, key: string, live: Option<Live>, t: int) {
    var p := ContentPath(cfg.layout, key);
    SidecarOfContentPath(cfg.layout, key);
    match live
    case None => p !in dir
    case Some(l) =>
      if p in dir then
        dir[p] == C.Node(l.file.content, l.at)
        && (l.file.metadata.Some? ==> MetaOf(dir, p) == Some(C.Node(cfg.encode(l.file.metadata.value), l.at)))
      else t - l.at > cfg.ttl
  }

  /** Every step keeps the directory in agreement with the latest `Set`. */
  lemma StepKeepsMatch(cfg: C.Config, c: C.Cache, e: Event, key: string, live: Option<Live>)
    requires LegalStep(cfg, c, e) && !Collides(cfg, e.op, key)
    requires Matches(cfg, c.dir, key, live, e.now)
    ensures Matches(cfg, Next(cfg, c, e).dir, key, NextLive(cfg, c, e, key, live), e.now)
  {
    var p := ContentPath(cfg.layout, key);
    SidecarOfContentPath(cfg.layout, key);
    if Stores(e, key) {
      StoredPointwise(cfg, C.MakeRoom(cfg, c, e.op.walk, |e.op.file.content|).dir, key, e.op.file, e.now, p);
    } else if Undoes(cfg, c, e, key) {
      UndoneStepsRemoveEntry(cfg, c, e, key);
    } else {
      OtherStepsLeaveEntry(cfg, c, e, key);
    }
  }

  lemma {:induction false} LatestSetMatches(cfg: C.Config, c: C.Cache, run: seq<Event>, key: string, t: int)
    requires Legal(cfg, c, run) && Timed(run) && DigestDistinct(cfg, run, key)
    requires ContentPath(cfg.layout, key) !in c.dir
    requires run != [] ==> Last(run).now <= t
    ensures Matches(cfg, After(cfg, c, run).dir, key, LatestSet(cfg, c, run, key), t)
    decreases |run|
  {
    if run != [] {
      var front, e := Front(run), Last(run);
      assert run == front + [e];
      LatestSetMatches(cfg, c, front, key, e.now);
      StepKeepsMatch(cfg, After(cfg, c, front), e, key, LatestSet(cfg, c, front, key));
    }
  }

  lemma {:induction false} LatestSetIsReadable(cfg: C.Config, c: C.Cache, run: seq<Event>, key: string)
    requires Legal(cfg, c, run) && ReadableMetadata(cfg, run, key)
    ensures var live := LatestSet(cfg, c, run, key);
            live.Some? && live.value.file.metadata.Some? ==> C.RoundTrips(cfg, live.value.file.metadata.value)
    decreases |run|
  {
    if run != [] {
      assert run == Front(run) + [Last(run)];
      LatestSetIsReadable(cfg, c, Front(run), key);
    }
  }

  /**
   The cache is a timed map: over every run from a directory without the key, a lookup hits exactly when there is
   a latest `Set` of the key that no `Delete`, `Clear` or eviction has undone and that is at most `ttl` old; the
   hit has that `Set`'s content and, when it carried metadata, its metadata.
   */
  lemma {:induction false} GetReturnsLatestSet(cfg: C.Config, c: C.Cache, run: seq<Event>, key: string, now: int)
    requires Legal(cfg, c, run) && Timed(run) && DigestDistinct(cfg, run, key) && ReadableMetadata(cfg, run, key)
    requires ContentPath(cfg.layout, key) !in c.dir
    requires run != [] ==> Last(run).now <= now
    ensures var answer := C.GetAnswer(cfg, After(cfg, c, run), key, now);
            match LatestSet(cfg, c, run, key)
            case None => answer == Failure(C.CacheMiss)
            case Some(l) =>
              if now - l.at > cfg.ttl then answer == Failure(C.CacheMiss)
              else answer.Success? && answer.value.content == l.file.content
                   && (l.file.metadata.Some? ==> answer.value.metadata == l.file.metadata)
  {
    LatestSetMatches(cfg, c, run, key, now);
    LatestSetIsReadable(cfg, c, run, key);
    SidecarOfContentPath(cfg.layout, key);
  }
}
