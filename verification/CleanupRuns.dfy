/**
 Cleanup is invisible: inserting cleanups into a run that does not evict changes no lookup's answer.
 */
module CleanupRuns {
  import opened Basics
  import opened CachePaths
  import opened CacheRuns
  import C = CacheModel

  /** The answers of the lookups of a run, in order. */
  ghost function Answers(cfg: C.Config, c: C.Cache, run: seq<Event>): seq<Result<C.File, C.CacheError>>
    requires Legal(cfg, c, run)
    decreases |run|
  {
    if run == [] then []
    else if Takes(Last(run)) && Last(run).op.Get? then
      Answers(cfg, c, Front(run)) + [C.GetAnswer(cfg, After(cfg, c, Front(run)), Last(run).op.key, Last(run).now)]
    else Answers(cfg, c, Front(run))
  }

  function DropCleanups(run: seq<Event>): seq<Event> {
    if run == [] then []
    else if Last(run).op.Cleanup? then DropCleanups(Front(run))
    else DropCleanups(Front(run)) + [Last(run)]
  }

  /** No `Set` of the run finds the counter over the limit. */
  ghost predicate NeverEvicts(cfg: C.Config, c: C.Cache, run: seq<Event>)
    requires Legal(cfg, c, run)
    decreases |run|
  {
    run == [] ||
    (NeverEvicts(cfg, c, Front(run)) && !Evicts(cfg, After(cfg, c, Front(run)), Last(run)))
  }

  // ----- what lookups can see -----

  /** A lookup at time `t` would find an entry here. */
  predicate Visible(cfg: C.Config, dir: C.Dir, p: string, t: int) {
    p in dir && !C.Expired(cfg, dir[p], t)
  }

  /** Lookups at time `t` find the same at `p`; with `full`, the same metadata file too. */
  ghost predicate SameAt(cfg: C.Config, full: bool, d: C.Dir, e: C.Dir, p: string, t: int)
    requires IsContent(p)
  {
    (Visible(cfg, d, p, t) <==> Visible(cfg, e, p, t))
    && (Visible(cfg, d, p, t) ==> d[p] == e[p] && (full ==> MetaOf(d, p) == MetaOf(e, p)))
  }

  ghost predicate SameLookups(cfg: C.Config, full: bool, d: C.Dir, e: C.Dir, t: int) {
    forall p :: IsContent(p) ==> SameAt(cfg, full, d, e, p, t)
  }

  /** Two answers agree: both misses, or hits with the same content and, with `full`, the same metadata. */
  predicate AgreeOn(full: bool, a: Result<C.File, C.CacheError>, b: Result<C.File, C.CacheError>) {
    if full || a.Failure? || b.Failure? then a == b else a.value.content == b.value.content
  }

  lemma LookupsAgree(cfg: C.Config, full: bool, c: C.Cache, e: C.Cache, key: string, now: int)
    requires SameLookups(cfg, full, c.dir, e.dir, now)
    ensures AgreeOn(full, C.GetAnswer(cfg, c, key, now), C.GetAnswer(cfg, e, key, now))
  {
    var p := ContentPath(cfg.layout, key);
    SidecarOfContentPath(cfg.layout, key);
    assert SameAt(cfg, full, c.dir, e.dir, p, now);
  }

  /** Expired lookups and cleanups leave an entry whole or remove it because it is expired. */
  lemma GetPointwise(cfg: C.Config, c: C.Cache, key: string, now: int, p: string)
    requires IsContent(p)
    ensures SameAt(cfg, true, c.dir, C.Get(cfg, c, key, now).dir, p, now)
  {
    RemoveOnePointwise(cfg, c.dir, key, p);
  }

  lemma CleanupPointwise(cfg: C.Config, c: C.Cache, now: int, p: string)
    requires IsContent(p)
    ensures SameAt(cfg, true, c.dir, C.Cleanup(cfg, c, now).dir, p, now)
  {
    RemovalPointwise(c.dir, C.ExpiredContents(cfg, c.dir, now), p);
  }

  // ----- the swept and the unswept cache -----

  /** The swept cache holds part of what the unswept one holds, and its counter is lower by at least the rest. */
  ghost predicate SweptOf(cfg: C.Config, full: bool, s: C.Cache, u: C.Cache, t: int) {
    C.Contents(s.dir) <= C.Contents(u.dir)
    && (forall p :: p in C.Contents(s.dir) ==> s.dir[p].bytes == u.dir[p].bytes)
    && s.size + C.TotalBytes(u.dir, C.Contents(u.dir) - C.Contents(s.dir)) <= u.size
    && SameLookups(cfg, full, s.dir, u.dir, t)
  }

  /** Both caches lose the same content files, whether present or not, and account for them alike. */
  lemma GapAfterRemoval(s: C.Cache, u: C.Cache, p: string)
    requires IsContent(p)
    requires C.Contents(s.dir) <= C.Contents(u.dir)
    requires forall q :: q in C.Contents(s.dir) ==> s.dir[q].bytes == u.dir[q].bytes
    ensures var gap := C.Contents(u.dir) - C.Contents(s.dir);
            && C.TotalBytes(u.dir, gap - {p}) <= C.TotalBytes(u.dir, gap)
            && C.TotalBytes(u.dir, gap - {p}) == C.TotalBytes(u.dir, gap) - C.SizeAt(u.dir, p) + C.SizeAt(s.dir, p)
  {
    var gap := C.Contents(u.dir) - C.Contents(s.dir);
    if p in gap {
      C.BytesTake(u.dir, gap, p);
    } else {
      assert gap - {p} == gap;
    }
  }

  lemma {:induction false} RemovalContents(cfg: C.Config, dir: C.Dir, key: string)
    ensures var p := ContentPath(cfg.layout, key);
            var d := dir - {p, MetaPath(cfg.layout, key)};
            C.Contents(d) == C.Contents(dir) - {p} && forall q :: q in d ==> d[q] == dir[q]
  {
    var p := ContentPath(cfg.layout, key);
    SidecarOfContentPath(cfg.layout, key);
    SidecarSeparates(p, p);
  }

  /** The byte account of a gap that has shrunk by at most one file. */
  lemma GapShrinks(s: C.Cache, u: C.Cache, s': C.Cache, u': C.Cache, p: string)
    requires IsContent(p)
    requires C.Contents(s.dir) <= C.Contents(u.dir)
    requires forall q :: q in C.Contents(s.dir) ==> s.dir[q].bytes == u.dir[q].bytes
    requires C.Contents(s'.dir) - {p} == C.Contents(s.dir) - {p} && C.Contents(u'.dir) - {p} == C.Contents(u.dir) - {p}
    requires forall q :: q in C.Contents(u'.dir) && q != p ==> q in u.dir && u'.dir[q].bytes == u.dir[q].bytes
    requires p in C.Contents(u'.dir) ==> p in C.Contents(s'.dir)
    ensures C.TotalBytes(u'.dir, C.Contents(u'.dir) - C.Contents(s'.dir))
         == C.TotalBytes(u.dir, C.Contents(u.dir) - C.Contents(s.dir)) - C.SizeAt(u.dir, p) + C.SizeAt(s.dir, p)
  {
    var gap := C.Contents(u.dir) - C.Contents(s.dir);
    var gap' := C.Contents(u'.dir) - C.Contents(s'.dir);
    forall q ensures q in gap' <==> q in gap && q != p {
      assert q != p ==> (q in C.Contents(u'.dir) <==> q in C.Contents(u'.dir) - {p});
      assert q != p ==> (q in C.Contents(u.dir) <==> q in C.Contents(u.dir) - {p});
      assert q != p ==> (q in C.Contents(s'.dir) <==> q in C.Contents(s'.dir) - {p});
      assert q != p ==> (q in C.Contents(s.dir) <==> q in C.Contents(s.dir) - {p});
    }
    assert gap' == gap - {p};
    GapAfterRemoval(s, u, p);
    C.BytesFrame(u'.dir, u.dir, gap');
  }

  /** An expired lookup removes the same file from both caches, if both have it. */
  lemma GapAfterExpiry(cfg: C.Config, s: C.Cache, u: C.Cache, s': C.Cache, u': C.Cache, key: string)
    requires C.Contents(s.dir) <= C.Contents(u.dir)
    requires forall q :: q in C.Contents(s.dir) ==> s.dir[q].bytes == u.dir[q].bytes
    requires var p, m := ContentPath(cfg.layout, key), MetaPath(cfg.layout, key);
             && (s'.dir == s.dir - {p, m} || (p !in s.dir && s'.dir == s.dir)) && u'.dir == u.dir - {p, m}
    ensures C.Contents(s'.dir) <= C.Contents(u'.dir)
    ensures forall q :: q in C.Contents(s'.dir) ==> s'.dir[q].bytes == u'.dir[q].bytes
    ensures C.TotalBytes(u'.dir, C.Contents(u'.dir) - C.Contents(s'.dir))
         <= C.TotalBytes(u.dir, C.Contents(u.dir) - C.Contents(s.dir))
  {
    var p := ContentPath(cfg.layout, key);
    SidecarOfContentPath(cfg.layout, key);
    RemovalContents(cfg, s.dir, key);
    RemovalContents(cfg, u.dir, key);
    GapShrinks(s, u, s', u', p);
    assert p in s.dir ==> p in C.Contents(s.dir);
    assert C.SizeAt(s.dir, p) <= C.SizeAt(u.dir, p);
  }

  lemma LookupsAfterGet(cfg: C.Config, full: bool, s: C.Cache, u: C.Cache, key: string, now: int)
    requires SameLookups(cfg, full, s.dir, u.dir, now)
    ensures SameLookups(cfg, full, C.Get(cfg, s, key, now).dir, C.Get(cfg, u, key, now).dir, now)
  {
    forall p | IsContent(p)
      ensures SameAt(cfg, full, C.Get(cfg, s, key, now).dir, C.Get(cfg, u, key, now).dir, p, now)
    {
      assert SameAt(cfg, full, s.dir, u.dir, p, now);
      GetPointwise(cfg, s, key, now, p);
      GetPointwise(cfg, u, key, now, p);
    }
  }

  lemma SweptAfterGet(cfg: C.Config, full: bool, s: C.Cache, u: C.Cache, key: string, now: int)
    requires SweptOf(cfg, full, s, u, now)
    ensures SweptOf(cfg, full, C.Get(cfg, s, key, now), C.Get(cfg, u, key, now), now)
  {
    var p := ContentPath(cfg.layout, key);
    SidecarOfContentPath(cfg.layout, key);
    LookupsAfterGet(cfg, full, s, u, key, now);
    assert p in s.dir ==> p in C.Contents(s.dir);
    assert SameAt(cfg, full, s.dir, u.dir, p, now);
    if p in u.dir && C.Expired(cfg, u.dir[p], now) {
      GapAfterExpiry(cfg, s, u, C.Get(cfg, s, key, now), C.Get(cfg, u, key, now), key);
    }
  }

  lemma SweptAfterDelete(cfg: C.Config, full: bool, s: C.Cache, u: C.Cache, key: string, now: int)
    requires SweptOf(cfg, full, s, u, now)
    ensures SweptOf(cfg, full, C.Delete(cfg, s, key), C.Delete(cfg, u, key), now)
  {
    var q := ContentPath(cfg.layout, key);
    var s', u' := C.Delete(cfg, s, key), C.Delete(cfg, u, key);
    SidecarOfContentPath(cfg.layout, key);
    forall p | IsContent(p) ensures SameAt(cfg, full, s'.dir, u'.dir, p, now) {
      assert SameAt(cfg, full, s.dir, u.dir, p, now);
      RemoveOnePointwise(cfg, s.dir, key, p);
      RemoveOnePointwise(cfg, u.dir, key, p);
    }
    RemovalContents(cfg, s.dir, key);
    RemovalContents(cfg, u.dir, key);
    GapShrinks(s, u, s', u', q);
  }

  lemma LookupsAfterStore(cfg: C.Config, full: bool, d: C.Dir, e: C.Dir, key: string, file: C.File, now: int)
    requires SameLookups(cfg, full, d, e, now) && (full ==> file.metadata.Some?)
    ensures SameLookups(cfg, full, C.Stored(cfg, d, key, file, now), C.Stored(cfg, e, key, file, now), now)
  {
    forall p | IsContent(p)
      ensures SameAt(cfg, full, C.Stored(cfg, d, key, file, now), C.Stored(cfg, e, key, file, now), p, now)
    {
      assert SameAt(cfg, full, d, e, p, now);
      StoredPointwise(cfg, d, key, file, now, p);
      StoredPointwise(cfg, e, key, file, now, p);
    }
  }

  /** A `Set` for which there is room in both caches. */
  lemma SweptAfterStore(cfg: C.Config, full: bool, s: C.Cache, u: C.Cache, key: string, file: C.File, now: int)
    requires SweptOf(cfg, full, s, u, now) && (full ==> file.metadata.Some?)
    requires !C.NeedsRoom(cfg, u, |file.content|)
    ensures !C.NeedsRoom(cfg, s, |file.content|)
    ensures SweptOf(cfg, full, C.Set(cfg, s, key, file, [], now), C.Set(cfg, u, key, file, [], now), now)
  {
    var p := ContentPath(cfg.layout, key);
    var s', u' := C.Set(cfg, s, key, file, [], now), C.Set(cfg, u, key, file, [], now);
    LookupsAfterStore(cfg, full, s.dir, u.dir, key, file, now);
    C.StoredContents(cfg, s.dir, key, file, now);
    C.StoredContents(cfg, u.dir, key, file, now);
    GapShrinks(s, u, s', u', p);
    assert p in s.dir ==> p in C.Contents(s.dir);
    assert C.SizeAt(s.dir, p) <= C.SizeAt(u.dir, p);
  }

  /** The byte account of a gap to which some of the swept cache's files are added. */
  lemma {:induction false} GapGrows(s: C.Dir, u: C.Dir, s': C.Dir, gone: set<string>)
    requires gone <= C.Contents(s) <= C.Contents(u) && C.Contents(s') == C.Contents(s) - gone
    requires forall q :: q in C.Contents(s) ==> s[q].bytes == u[q].bytes
    ensures C.TotalBytes(u, C.Contents(u) - C.Contents(s'))
         == C.TotalBytes(u, C.Contents(u) - C.Contents(s)) + C.TotalBytes(s, gone)
  {
    var gap, gap' := C.Contents(u) - C.Contents(s), C.Contents(u) - C.Contents(s');
    assert gap' - gap == gone;
    C.BytesSplit(u, gap, gap');
    C.BytesFrame(u, s, gone);
  }

  lemma SweptAfterCleanup(cfg: C.Config, full: bool, s: C.Cache, u: C.Cache, now: int)
    requires SweptOf(cfg, full, s, u, now)
    ensures SweptOf(cfg, full, C.Cleanup(cfg, s, now), u, now)
  {
    var gone := C.ExpiredContents(cfg, s.dir, now);
    var s' := C.Cleanup(cfg, s, now);
    assert C.Contents(s'.dir) == C.Contents(s.dir) - gone by {
      C.RemoveEntriesMeasure(s.dir, gone);
    }
    assert s'.size + C.TotalBytes(u.dir, C.Contents(u.dir) - C.Contents(s'.dir)) <= u.size by {
      GapGrows(s.dir, u.dir, s'.dir, gone);
    }
    forall p | IsContent(p) ensures SameAt(cfg, full, s'.dir, u.dir, p, now) {
      assert SameAt(cfg, full, s.dir, u.dir, p, now);
      CleanupPointwise(cfg, s, now, p);
    }
  }

  /** Entries only grow older: caches that answer alike now answer alike later. */
  lemma SweptLater(cfg: C.Config, full: bool, s: C.Cache, u: C.Cache, t: int, now: int)
    requires SweptOf(cfg, full, s, u, t) && t <= now
    ensures SweptOf(cfg, full, s, u, now)
  {
    forall p | IsContent(p) ensures SameAt(cfg, full, s.dir, u.dir, p, now) {
      assert SameAt(cfg, full, s.dir, u.dir, p, t);
    }
  }

  lemma {:induction false} SweptOfItself(cfg: C.Config, full: bool, c: C.Cache, t: int)
    ensures SweptOf(cfg, full, c, c, t)
  {
    assert C.Contents(c.dir) - C.Contents(c.dir) == {};
  }

  /** What the unswept run does while the swept one performs `e`. */
  ghost function NextUnswept(cfg: C.Config, u: C.Cache, e: Event): C.Cache
    requires LegalStep(cfg, u, e)
  {
    if e.op.Cleanup? then u else Next(cfg, u, e)
  }

  lemma SweptStep(cfg: C.Config, full: bool, s: C.Cache, u: C.Cache, e: Event)
    requires SweptOf(cfg, full, s, u, e.now)
    requires full && e.op.Set? ==> e.op.file.metadata.Some?
    requires LegalStep(cfg, u, e) && !Evicts(cfg, u, e)
    ensures LegalStep(cfg, s, e)
    ensures SweptOf(cfg, full, Next(cfg, s, e), NextUnswept(cfg, u, e), e.now)
  {
    if Takes(e) {
      match e.op
      case Get(key) => SweptAfterGet(cfg, full, s, u, key, e.now);
      case Set(key, file, _) => SweptAfterStore(cfg, full, s, u, key, file, e.now);
      case Delete(key) => SweptAfterDelete(cfg, full, s, u, key, e.now);
      case Clear => SweptOfItself(cfg, full, C.Clear(u), e.now);
      case Cleanup => SweptAfterCleanup(cfg, full, s, u, e.now);
    }
  }

  // ----- whole runs -----

  /** Every `Set` of the run writes a metadata file. */
  ghost predicate MetadataCarried(run: seq<Event>) {
    forall e :: e in run && e.op.Set? ==> e.op.file.metadata.Some?
  }

  lemma {:induction false} FrontKeepsOrder(run: seq<Event>)
    requires run != [] && Timed(run)
    ensures Timed(Front(run))
    ensures MetadataCarried(run) ==> MetadataCarried(Front(run))
    ensures Front(run) != [] ==> Last(Front(run)).now <= Last(run).now
  {
    assert run == Front(run) + [Last(run)];
    forall i, j | 0 <= i < j < |Front(run)| ensures Front(run)[i].now <= Front(run)[j].now {
      assert Front(run)[i] == run[i] && Front(run)[j] == run[j];
    }
    forall e | e in Front(run) ensures e in run {}
  }

  lemma {:induction false} DroppedStep(cfg: C.Config, c: C.Cache, run: seq<Event>)
    requires run != []
    requires Legal(cfg, c, DropCleanups(run)) && NeverEvicts(cfg, c, DropCleanups(run))
    ensures Legal(cfg, c, DropCleanups(Front(run))) && NeverEvicts(cfg, c, DropCleanups(Front(run)))
    ensures var u := After(cfg, c, DropCleanups(Front(run)));
            && LegalStep(cfg, u, Last(run)) && !Evicts(cfg, u, Last(run))
            && After(cfg, c, DropCleanups(run)) == NextUnswept(cfg, u, Last(run))
  {
    assert !Last(run).op.Cleanup? ==> Front(DropCleanups(run)) == DropCleanups(Front(run));
  }

  lemma {:induction false} CleanupKeepsPace(cfg: C.Config, full: bool, c: C.Cache, run: seq<Event>, t: int)
    requires Timed(run) && (full ==> MetadataCarried(run))
    requires Legal(cfg, c, DropCleanups(run)) && NeverEvicts(cfg, c, DropCleanups(run))
    requires run != [] ==> Last(run).now <= t
    ensures Legal(cfg, c, run)
    ensures SweptOf(cfg, full, After(cfg, c, run), After(cfg, c, DropCleanups(run)), t)
    decreases |run|
  {
    if run == [] {
      SweptOfItself(cfg, full, c, t);
    } else {
      var front, e := Front(run), Last(run);
      DroppedStep(cfg, c, run);
      FrontKeepsOrder(run);
      assert e in run;
      CleanupKeepsPace(cfg, full, c, front, e.now);
      SweptStep(cfg, full, After(cfg, c, front), After(cfg, c, DropCleanups(front)), e);
      SweptLater(cfg, full, After(cfg, c, run), After(cfg, c, DropCleanups(run)), e.now, t);
    }
  }

  /** The same number of answers, agreeing one by one. */
  ghost predicate AllAgree(full: bool, a: seq<Result<C.File, C.CacheError>>, b: seq<Result<C.File, C.CacheError>>) {
    |a| == |b| && forall i :: 0 <= i < |a| ==> AgreeOn(full, a[i], b[i])
  }

  lemma {:induction false} AnswersAgree(cfg: C.Config, full: bool, c: C.Cache, run: seq<Event>)
    requires Timed(run) && (full ==> MetadataCarried(run))
    requires Legal(cfg, c, DropCleanups(run)) && NeverEvicts(cfg, c, DropCleanups(run))
    ensures Legal(cfg, c, run)
    ensures AllAgree(full, Answers(cfg, c, run), Answers(cfg, c, DropCleanups(run)))
    decreases |run|
  {
    if run != [] {
      var front, e := Front(run), Last(run);
      FrontKeepsOrder(run);
      DroppedStep(cfg, c, run);
      CleanupKeepsPace(cfg, full, c, run, e.now);
      AnswersAgree(cfg, full, c, front);
      if !e.op.Cleanup? {
        assert Front(DropCleanups(run)) == DropCleanups(front);
        CleanupKeepsPace(cfg, full, c, front, e.now);
        if e.op.Get? {
          LookupsAgree(cfg, full, After(cfg, c, front), After(cfg, c, DropCleanups(front)), e.op.key, e.now);
        }
      }
    }
  }

  /**
   Inserting cleanups anywhere into a run in which no `Set` evicts changes no lookup's hit or miss and no content;
   and if every `Set` of the run carries metadata, it changes no answer at all.
   */
  lemma CleanupIsInvisible(cfg: C.Config, c: C.Cache, run: seq<Event>)
    requires Timed(run)
    requires Legal(cfg, c, DropCleanups(run)) && NeverEvicts(cfg, c, DropCleanups(run))
    ensures Legal(cfg, c, run)
    ensures AllAgree(false, Answers(cfg, c, run), Answers(cfg, c, DropCleanups(run)))
    ensures MetadataCarried(run) ==> Answers(cfg, c, run) == Answers(cfg, c, DropCleanups(run))
  {
    AnswersAgree(cfg, false, c, run);
    if MetadataCarried(run) {
      AnswersAgree(cfg, true, c, run);
    }
  }

  // ----- a negative time to live -----

  /** Nothing on disk is newer than `t`. */
  ghost predicate Past(c: C.Cache, t: int) {
    forall p :: p in c.dir ==> c.dir[p].mtime <= t
  }

  lemma {:induction false} StepKeepsPast(cfg: C.Config, c: C.Cache, e: Event)
    requires LegalStep(cfg, c, e) && Past(c, e.now)
    ensures Past(Next(cfg, c, e), e.now)
  {
  }

  /** The lookups that a run performs. */
  function Lookups(run: seq<Event>): nat {
    if run == [] then 0
    else Lookups(Front(run)) + if Takes(Last(run)) && Last(run).op.Get? then 1 else 0
  }

  function Misses(n: nat): seq<Result<C.File, C.CacheError>> {
    if n == 0 then [] else Misses(n - 1) + [Failure(C.CacheMiss)]
  }

  /** With a negative time to live every entry has expired as soon as it is written: all lookups miss. */
  lemma {:induction false} NegativeTtlOnlyMisses(cfg: C.Config, c: C.Cache, run: seq<Event>, t: int)
    requires cfg.ttl < 0 && c.dir == map[] && Timed(run) && Legal(cfg, c, run)
    requires run != [] ==> Last(run).now <= t
    ensures Past(After(cfg, c, run), t)
    ensures Answers(cfg, c, run) == Misses(Lookups(run))
    decreases |run|
  {
    if run != [] {
      FrontKeepsOrder(run);
      NegativeTtlOnlyMisses(cfg, c, Front(run), Last(run).now);
      StepKeepsPast(cfg, After(cfg, c, Front(run)), Last(run));
    }
  }

  lemma {:induction false} DroppingKeepsLookups(run: seq<Event>)
    requires Timed(run)
    ensures Lookups(DropCleanups(run)) == Lookups(run)
    ensures Timed(DropCleanups(run))
    ensures DropCleanups(run) != [] ==> Last(DropCleanups(run)).now <= Last(run).now
  {
    if run != [] {
      var front, e := Front(run), Last(run);
      FrontKeepsOrder(run);
      DroppingKeepsLookups(front);
      var kept := DropCleanups(front);
      if !e.op.Cleanup? {
        assert Front(kept + [e]) == kept && Last(kept + [e]) == e;
        forall i, j | 0 <= i < j < |kept + [e]| ensures (kept + [e])[i].now <= (kept + [e])[j].now {
          assert kept[i].now <= Last(kept).now;
        }
      }
    }
  }
}
