/**
 Why `CleanupRuns.CleanupIsInvisible` speaks of runs without eviction, and of metadata only when every `Set` carries
 some: cleanup shows under every limit as soon as anything is kept at all.
 */
module CleanupMatters {
  import opened Basics
  import opened CachePaths
  import opened CleanupRuns
  import C = CacheModel
  import EvictionOrder
  import R = CacheRuns

  const EMPTY := C.Cache(map[], 0, 0, 0, 0)

  function CleanupAt(now: int): R.Event {
    R.Event(R.Cleanup, now, false)
  }

  lemma {:induction false} OneMoreEvent(cfg: C.Config, c: C.Cache, run: seq<R.Event>, e: R.Event)
    requires R.Legal(cfg, c, run) && R.LegalStep(cfg, R.After(cfg, c, run), e)
    ensures R.Legal(cfg, c, run + [e])
    ensures R.After(cfg, c, run + [e]) == R.Next(cfg, R.After(cfg, c, run), e)
    ensures NeverEvicts(cfg, c, run + [e]) <==> NeverEvicts(cfg, c, run) && !R.Evicts(cfg, R.After(cfg, c, run), e)
    ensures Answers(cfg, c, run + [e]) ==
              Answers(cfg, c, run) +
              if R.Takes(e) && e.op.Get? then [C.GetAnswer(cfg, R.After(cfg, c, run), e.op.key, e.now)] else []
  {
    assert Front(run + [e]) == run && Last(run + [e]) == e;
  }

  lemma {:induction false} OneMoreCleanup(cfg: C.Config, c: C.Cache, run: seq<R.Event>, now: int)
    requires R.Legal(cfg, c, run)
    ensures var more := run + [CleanupAt(now)];
            && R.Legal(cfg, c, more)
            && R.After(cfg, c, more) == C.Cleanup(cfg, R.After(cfg, c, run), now)
            && (NeverEvicts(cfg, c, run) ==> NeverEvicts(cfg, c, more))
            && Answers(cfg, c, more) == Answers(cfg, c, run)
  {
    OneMoreEvent(cfg, c, run, CleanupAt(now));
  }

  lemma {:induction false} DropLast(run: seq<R.Event>, e: R.Event)
    ensures DropCleanups(run + [e]) == if e.op.Cleanup? then DropCleanups(run) else DropCleanups(run) + [e]
  {
    assert Front(run + [e]) == run && Last(run + [e]) == e;
  }

  // ----- a cleanup that keeps a later Set from evicting -----

  /** A file of `n` zero bytes, without metadata. */
  function Blank(n: nat): C.File {
    C.File("", "", seq(n, _ => 0), None)
  }

  function SetBlank(key: string, n: nat, walk: seq<string>, now: int): R.Event {
    R.Event(R.Set(key, Blank(n), walk), now, false)
  }

  function GetAt(key: string, now: int): R.Event {
    R.Event(R.Get(key), now, false)
  }

  /** At `ttl + 1`: a file that just fits, one more byte, and a look whether the first is still there. */
  function Filling(cfg: C.Config, run: seq<R.Event>, kept: string, extra: string): seq<R.Event>
    requires 1 <= cfg.maxSize
  {
    run + [SetBlank(kept, cfg.maxSize - 1, [], cfg.ttl + 1)]
    + [SetBlank(extra, 1, [ContentPath(cfg.layout, kept)], cfg.ttl + 1)] + [GetAt(kept, cfg.ttl + 1)]
  }

  /** The cache with one entry. */
  function OneBlank(cfg: C.Config, key: string, n: nat): C.Cache {
    C.Cache(map[ContentPath(cfg.layout, key) := C.Node(Blank(n).content, 0)], n, 1, 0, 0)
  }

  lemma {:induction false} FirstBlank(cfg: C.Config, stale: string, run: seq<R.Event>)
    requires 1 <= cfg.maxSize && run == [SetBlank(stale, 1, [], 0)]
    ensures R.Legal(cfg, EMPTY, run) && Answers(cfg, EMPTY, run) == []
    ensures R.After(cfg, EMPTY, run) == OneBlank(cfg, stale, 1)
  {
    assert [] + run == run;
    OneMoreEvent(cfg, EMPTY, [], SetBlank(stale, 1, [], 0));
  }

  lemma {:induction false} BlankExpires(cfg: C.Config, key: string, n: nat)
    requires 0 <= cfg.ttl
    ensures var c := C.Cleanup(cfg, OneBlank(cfg, key, n), cfg.ttl + 1); c.dir == map[] && c.size == 0
    ensures var c := C.Get(cfg, OneBlank(cfg, key, n), key, cfg.ttl + 1); c.dir == map[] && c.size == n
  {
    var p, d := ContentPath(cfg.layout, key), OneBlank(cfg, key, n).dir;
    SidecarOfContentPath(cfg.layout, key);
    C.RemovePaths(cfg, d, key);
    assert C.ExpiredContents(cfg, d, cfg.ttl + 1) == {p};
    C.BytesTake(d, {p}, p);
    assert {p} - {p} == {};
  }

  /** An expired entry that a lookup removes stays in the size counter. */
  lemma {:induction false} LookupLeavesDrift(cfg: C.Config, stale: string, run: seq<R.Event>)
    requires 1 <= cfg.maxSize && 0 <= cfg.ttl && run == [SetBlank(stale, 1, [], 0)]
    ensures var more := run + [GetAt(stale, cfg.ttl + 1)];
            && R.Legal(cfg, EMPTY, more) && Answers(cfg, EMPTY, more) == [Failure(C.CacheMiss)]
            && R.After(cfg, EMPTY, more).dir == map[] && R.After(cfg, EMPTY, more).size == 1
  {
    FirstBlank(cfg, stale, run);
    BlankExpires(cfg, stale, 1);
    OneMoreEvent(cfg, EMPTY, run, GetAt(stale, cfg.ttl + 1));
  }

  /** One that a cleanup removes does not. */
  lemma {:induction false} CleanupLeavesNoDrift(cfg: C.Config, stale: string, run: seq<R.Event>)
    requires 1 <= cfg.maxSize && 0 <= cfg.ttl && run == [SetBlank(stale, 1, [], 0)]
    ensures var more := run + [CleanupAt(cfg.ttl + 1)] + [GetAt(stale, cfg.ttl + 1)];
            && R.Legal(cfg, EMPTY, more) && Answers(cfg, EMPTY, more) == [Failure(C.CacheMiss)]
            && R.After(cfg, EMPTY, more).dir == map[] && R.After(cfg, EMPTY, more).size == 0
  {
    FirstBlank(cfg, stale, run);
    BlankExpires(cfg, stale, 1);
    OneMoreCleanup(cfg, EMPTY, run, cfg.ttl + 1);
    OneMoreEvent(cfg, EMPTY, run + [CleanupAt(cfg.ttl + 1)], GetAt(stale, cfg.ttl + 1));
  }

  /** Whether the extra byte still fits decides whether the kept file survives. */
  lemma {:induction false} ExtraByte(cfg: C.Config, c: C.Cache, kept: string, extra: string, drift: nat)
    requires 1 <= cfg.maxSize && cfg.layout.digest(kept) != cfg.layout.digest(extra) && drift <= 1
    requires c.dir == map[ContentPath(cfg.layout, kept) := C.Node(Blank(cfg.maxSize - 1).content, cfg.ttl + 1)]
    requires c.size == drift + cfg.maxSize - 1
    ensures var p, e := ContentPath(cfg.layout, kept), SetBlank(extra, 1, [ContentPath(cfg.layout, kept)], cfg.ttl + 1);
            && R.LegalStep(cfg, c, e)
            && (p in R.Next(cfg, c, e).dir <==> drift == 0)
            && (drift == 0 ==> R.Next(cfg, c, e).dir[p] == c.dir[p])
  {
    var p := ContentPath(cfg.layout, kept);
    PathsSeparateDigests(cfg.layout, kept, extra);
    SidecarOfContentPath(cfg.layout, kept);
    assert C.Walks(c.dir, [p]);
    if drift == 1 {
      OneEntryGoes(c, p);
    }
  }

  lemma {:induction false} OneEntryGoes(c: C.Cache, p: string)
    requires C.Walks(c.dir, [p]) && IsContent(p)
    ensures p !in C.EvictOldest(c, [p], 1).dir
  {
    var x := EvictionOrder.FileInfo(p, |c.dir[p].bytes|, c.dir[p].mtime);
    assert [p][1..] == [];
    assert C.Entries(c.dir, [p]) == [x] + C.Entries(c.dir, []) == [x];
    assert EvictionOrder.StableSort([x]) == [x];
    assert EvictionOrder.Victims([x], 1) == [x] + EvictionOrder.Victims([x][1..], 1 - x.size) == [x];
    assert x.path in C.Names([x]);
  }

  /** Two `Set`s and a lookup, after any run. */
  lemma {:induction false} ThreeMore(cfg: C.Config, run: seq<R.Event>, one: R.Event, two: R.Event, ask: R.Event)
    requires R.Legal(cfg, EMPTY, run) && one.op.Set? && two.op.Set? && ask.op.Get? && R.Takes(ask)
    requires var c := R.After(cfg, EMPTY, run);
             R.LegalStep(cfg, c, one) && R.LegalStep(cfg, R.Next(cfg, c, one), two)
    ensures R.Legal(cfg, EMPTY, run + [one] + [two] + [ask])
    ensures var c := R.Next(cfg, R.Next(cfg, R.After(cfg, EMPTY, run), one), two);
            Answers(cfg, EMPTY, run + [one] + [two] + [ask])
              == Answers(cfg, EMPTY, run) + [C.GetAnswer(cfg, c, ask.op.key, ask.now)]
  {
    OneMoreEvent(cfg, EMPTY, run, one);
    OneMoreEvent(cfg, EMPTY, run + [one], two);
    OneMoreEvent(cfg, EMPTY, run + [one] + [two], ask);
  }

  /** The answer that a filled cache gives in the end. */
  lemma {:induction false} FilledAnswer(cfg: C.Config, c: C.Cache, kept: string, extra: string, drift: nat)
    requires 1 <= cfg.maxSize && 0 <= cfg.ttl && cfg.layout.digest(kept) != cfg.layout.digest(extra) && drift <= 1
    requires c.dir == map[] && c.size == drift
    ensures var one := SetBlank(kept, cfg.maxSize - 1, [], cfg.ttl + 1);
            var two := SetBlank(extra, 1, [ContentPath(cfg.layout, kept)], cfg.ttl + 1);
            && R.LegalStep(cfg, c, one) && R.LegalStep(cfg, R.Next(cfg, c, one), two)
            && (C.GetAnswer(cfg, R.Next(cfg, R.Next(cfg, c, one), two), kept, cfg.ttl + 1).Success? <==> drift == 0)
  {
    ExtraByte(cfg, R.Next(cfg, c, SetBlank(kept, cfg.maxSize - 1, [], cfg.ttl + 1)), kept, extra, drift);
  }

  lemma {:induction false} FillingAnswers(cfg: C.Config, run: seq<R.Event>, kept: string, extra: string, drift: nat)
    requires 1 <= cfg.maxSize && 0 <= cfg.ttl && cfg.layout.digest(kept) != cfg.layout.digest(extra) && drift <= 1
    requires R.Legal(cfg, EMPTY, run) && R.After(cfg, EMPTY, run).dir == map[] && R.After(cfg, EMPTY, run).size == drift
    ensures R.Legal(cfg, EMPTY, Filling(cfg, run, kept, extra))
    ensures exists last :: Answers(cfg, EMPTY, Filling(cfg, run, kept, extra)) == Answers(cfg, EMPTY, run) + [last]
                           && (last.Success? <==> drift == 0)
  {
    var one := SetBlank(kept, cfg.maxSize - 1, [], cfg.ttl + 1);
    var two := SetBlank(extra, 1, [ContentPath(cfg.layout, kept)], cfg.ttl + 1);
    FilledAnswer(cfg, R.After(cfg, EMPTY, run), kept, extra, drift);
    ThreeMore(cfg, run, one, two, GetAt(kept, cfg.ttl + 1));
    assert Filling(cfg, run, kept, extra) == run + [one] + [two] + [GetAt(kept, cfg.ttl + 1)];
  }

  lemma {:induction false} OneMoreInTime(run: seq<R.Event>, e: R.Event)
    requires R.Timed(run) && (run != [] ==> Last(run).now <= e.now)
    ensures R.Timed(run + [e]) && Last(run + [e]) == e
  {
    forall i, j | 0 <= i < j < |run + [e]| ensures (run + [e])[i].now <= (run + [e])[j].now {
      assert run[i].now <= Last(run).now;
    }
  }

  lemma {:induction false} OneAlone(run: seq<R.Event>, e: R.Event)
    requires run == [e] && !e.op.Cleanup?
    ensures DropCleanups(run) == run && R.Timed(run) && run != [] && Last(run) == e
  {
    assert run == [] + [e];
    DropLast([], e);
  }

  lemma {:induction false} ExpiringDrops(cfg: C.Config, stale: string, first: seq<R.Event>)
    requires 0 <= cfg.ttl && first == [SetBlank(stale, 1, [], 0)]
    ensures var run := first + [CleanupAt(cfg.ttl + 1)] + [GetAt(stale, cfg.ttl + 1)];
            && DropCleanups(run) == first + [GetAt(stale, cfg.ttl + 1)]
            && R.Timed(run) && run != [] && Last(run).now == cfg.ttl + 1
  {
    OneAlone(first, SetBlank(stale, 1, [], 0));
    DropMiddle(first, CleanupAt(cfg.ttl + 1), GetAt(stale, cfg.ttl + 1));
    TwoMoreInTime(first, CleanupAt(cfg.ttl + 1), GetAt(stale, cfg.ttl + 1));
  }

  lemma {:induction false} DropMiddle(run: seq<R.Event>, cleanup: R.Event, ask: R.Event)
    requires cleanup.op.Cleanup? && ask.op.Get?
    ensures DropCleanups(run + [cleanup] + [ask]) == DropCleanups(run) + [ask]
  {
    DropLast(run, cleanup);
    DropLast(run + [cleanup], ask);
  }

  lemma {:induction false} TwoMoreInTime(run: seq<R.Event>, a: R.Event, b: R.Event)
    requires R.Timed(run) && (run != [] ==> Last(run).now <= a.now) && a.now <= b.now
    ensures R.Timed(run + [a] + [b]) && Last(run + [a] + [b]) == b
  {
    OneMoreInTime(run, a);
    OneMoreInTime(run + [a], b);
  }

  lemma {:induction false} DropThree(run: seq<R.Event>, a: R.Event, b: R.Event, c: R.Event)
    requires !a.op.Cleanup? && !b.op.Cleanup? && !c.op.Cleanup?
    ensures DropCleanups(run + [a] + [b] + [c]) == DropCleanups(run) + [a] + [b] + [c]
  {
    DropLast(run, a);
    DropLast(run + [a], b);
    DropLast(run + [a] + [b], c);
  }

  lemma {:induction false} FillingDrops(cfg: C.Config, run: seq<R.Event>, kept: string, extra: string)
    requires 1 <= cfg.maxSize && R.Timed(run) && run != [] && Last(run).now == cfg.ttl + 1
    ensures DropCleanups(Filling(cfg, run, kept, extra)) == Filling(cfg, DropCleanups(run), kept, extra)
    ensures R.Timed(Filling(cfg, run, kept, extra))
  {
    var one := SetBlank(kept, cfg.maxSize - 1, [], cfg.ttl + 1);
    var two := SetBlank(extra, 1, [ContentPath(cfg.layout, kept)], cfg.ttl + 1);
    DropThree(run, one, two, GetAt(kept, cfg.ttl + 1));
    TwoMoreInTime(run, one, two);
    OneMoreInTime(run + [one] + [two], GetAt(kept, cfg.ttl + 1));
  }

  /** From an empty cache, this run and the same without its cleanups end in different answers. */
  ghost predicate ShowsCleanup(cfg: C.Config, run: seq<R.Event>) {
    && R.Timed(run) && R.Legal(cfg, EMPTY, run) && R.Legal(cfg, EMPTY, DropCleanups(run))
    && Answers(cfg, EMPTY, run) != [] && Last(Answers(cfg, EMPTY, run)).Success?
    && Answers(cfg, EMPTY, DropCleanups(run)) != [] && Last(Answers(cfg, EMPTY, DropCleanups(run))).Failure?
    && |Answers(cfg, EMPTY, run)| == |Answers(cfg, EMPTY, DropCleanups(run))|
  }

  lemma {:induction false} FillingShows(cfg: C.Config, run: seq<R.Event>, kept: string, extra: string)
    requires 1 <= cfg.maxSize && 0 <= cfg.ttl && cfg.layout.digest(kept) != cfg.layout.digest(extra)
    requires R.Timed(run) && run != [] && Last(run).now == cfg.ttl + 1
    requires R.Legal(cfg, EMPTY, run) && R.Legal(cfg, EMPTY, DropCleanups(run))
    requires R.After(cfg, EMPTY, run).dir == map[] && R.After(cfg, EMPTY, run).size == 0
    requires var c := R.After(cfg, EMPTY, DropCleanups(run)); c.dir == map[] && c.size == 1
    requires |Answers(cfg, EMPTY, run)| == |Answers(cfg, EMPTY, DropCleanups(run))|
    ensures ShowsCleanup(cfg, Filling(cfg, run, kept, extra))
  {
    FillingDrops(cfg, run, kept, extra);
    FillingAnswers(cfg, run, kept, extra, 0);
    FillingAnswers(cfg, DropCleanups(run), kept, extra, 1);
  }

  /**
   Under every limit of at least one byte and every non-negative time to live, one cleanup can turn a miss into a hit:
   without it, a lookup removes the expired entry and leaves the size counter too high, so a later `Set` evicts.
   */
  lemma {:induction false} CleanupCanMatter(cfg: C.Config, stale: string, kept: string, extra: string)
    requires 1 <= cfg.maxSize && 0 <= cfg.ttl && cfg.layout.digest(kept) != cfg.layout.digest(extra)
    ensures exists run :: ShowsCleanup(cfg, run)
  {
    var first := [SetBlank(stale, 1, [], 0)];
    ExpiringDrops(cfg, stale, first);
    LookupLeavesDrift(cfg, stale, first);
    CleanupLeavesNoDrift(cfg, stale, first);
    FillingShows(cfg, first + [CleanupAt(cfg.ttl + 1)] + [GetAt(stale, cfg.ttl + 1)], kept, extra);
  }

  // ----- exactly when cleanup never shows -----

  /** From an empty cache, dropping the cleanups of a run changes no hit, no miss and no content. */
  ghost predicate CleanupNeverShows(cfg: C.Config) {
    forall run :: R.Timed(run) && R.Legal(cfg, EMPTY, run) && R.Legal(cfg, EMPTY, DropCleanups(run)) ==>
      AllAgree(false, Answers(cfg, EMPTY, run), Answers(cfg, EMPTY, DropCleanups(run)))
  }

  lemma {:induction false} NothingLasts(cfg: C.Config, run: seq<R.Event>)
    requires cfg.ttl < 0 && R.Timed(run) && R.Legal(cfg, EMPTY, run) && R.Legal(cfg, EMPTY, DropCleanups(run))
    ensures Answers(cfg, EMPTY, run) == Answers(cfg, EMPTY, DropCleanups(run))
  {
    var t := if run == [] then 0 else Last(run).now;
    DroppingKeepsLookups(run);
    NegativeTtlOnlyMisses(cfg, EMPTY, run, t);
    NegativeTtlOnlyMisses(cfg, EMPTY, DropCleanups(run), t);
  }

  /** With room for at least one byte, cleanup never shows exactly when nothing is ever kept. */
  lemma {:induction false} CleanupNeverShowsExactly(cfg: C.Config, kept: string, extra: string)
    requires 1 <= cfg.maxSize && cfg.layout.digest(kept) != cfg.layout.digest(extra)
    ensures CleanupNeverShows(cfg) <==> cfg.ttl < 0
  {
    if cfg.ttl < 0 {
      forall run | R.Timed(run) && R.Legal(cfg, EMPTY, run) && R.Legal(cfg, EMPTY, DropCleanups(run))
        ensures AllAgree(false, Answers(cfg, EMPTY, run), Answers(cfg, EMPTY, DropCleanups(run)))
      {
        NothingLasts(cfg, run);
      }
    } else {
      CleanupCanMatter(cfg, kept, kept, extra);
      var run :| ShowsCleanup(cfg, run);
      assert !AllAgree(false, Answers(cfg, EMPTY, run), Answers(cfg, EMPTY, DropCleanups(run)));
    }
  }

  // ----- a cleanup that removes the metadata a later Set would have inherited -----

  function Bare(metadata: Option<C.Metadata>): C.File {
    C.File("", "", [], metadata)
  }

  function SetAt(key: string, metadata: Option<C.Metadata>, now: int): R.Event {
    R.Event(R.Set(key, Bare(metadata), []), now, false)
  }

  /** An entry has expired and is overwritten without metadata; whether it still has some depends on the cleanup. */
  function Overwriting(cfg: C.Config, key: string, first: seq<R.Event>, cleanups: seq<R.Event>): seq<R.Event> {
    first + cleanups + [SetAt(key, None, cfg.ttl + 1)] + [GetAt(key, cfg.ttl + 1)]
  }

  /** The cache with one empty file that carries this metadata. */
  ghost function OneEntry(cfg: C.Config, key: string, metadata: C.Metadata): C.Cache {
    C.Cache(C.Stored(cfg, map[], key, Bare(Some(metadata)), 0), 0, 1, 0, 0)
  }

  lemma {:induction false} OneExpires(cfg: C.Config, key: string, metadata: C.Metadata)
    requires 0 <= cfg.ttl
    ensures var p, d := ContentPath(cfg.layout, key), OneEntry(cfg, key, metadata).dir;
            && p in d && d.Keys == {p, MetaPath(cfg.layout, key)} && d[p].bytes == []
            && C.ExpiredContents(cfg, d, cfg.ttl + 1) == {p}
  {
    var p, d := ContentPath(cfg.layout, key), OneEntry(cfg, key, metadata).dir;
    SidecarOfContentPath(cfg.layout, key);
    SidecarSeparates(p, p);
    assert C.Expired(cfg, d[p], cfg.ttl + 1);
  }

  lemma {:induction false} CleanupEmpties(cfg: C.Config, key: string, metadata: C.Metadata)
    requires 0 <= cfg.ttl
    ensures C.Cleanup(cfg, OneEntry(cfg, key, metadata), cfg.ttl + 1) == EMPTY
  {
    var p, d := ContentPath(cfg.layout, key), OneEntry(cfg, key, metadata).dir;
    OneExpires(cfg, key, metadata);
    C.RemovePaths(cfg, d, key);
    assert C.RemoveEntries(d, {p}) == map[];
    C.BytesTake(d, {p}, p);
    assert {p} - {p} == {};
  }

  /** Overwriting without metadata keeps whatever metadata file is there. */
  lemma {:induction false} OverwrittenAnswer(cfg: C.Config, key: string, c: C.Cache)
    requires 0 <= cfg.ttl && !C.NeedsRoom(cfg, c, 0)
    ensures C.GetAnswer(cfg, C.Set(cfg, c, key, Bare(None), [], cfg.ttl + 1), key, cfg.ttl + 1)
         == Success(C.Hit([], C.MetadataAt(cfg, c.dir, MetaPath(cfg.layout, key))))
  {
    PathsSeparateDigests(cfg.layout, key, key);
  }

  lemma {:induction false} SetThenAsk(cfg: C.Config, c: C.Cache, run: seq<R.Event>, e: R.Event, ask: R.Event)
    requires R.Legal(cfg, c, run) && NeverEvicts(cfg, c, run)
    requires !R.Evicts(cfg, R.After(cfg, c, run), e) && e.op.Set? && ask.op.Get? && R.Takes(ask)
    ensures R.Legal(cfg, c, run + [e] + [ask]) && NeverEvicts(cfg, c, run + [e] + [ask])
    ensures Answers(cfg, c, run + [e] + [ask]) == Answers(cfg, c, run)
              + [C.GetAnswer(cfg, R.Next(cfg, R.After(cfg, c, run), e), ask.op.key, ask.now)]
  {
    OneMoreEvent(cfg, c, run, e);
    OneMoreEvent(cfg, c, run + [e], ask);
  }

  lemma {:induction false} OverwriteAndAsk(cfg: C.Config, key: string, run: seq<R.Event>)
    requires 0 <= cfg.ttl && R.Legal(cfg, EMPTY, run) && Answers(cfg, EMPTY, run) == []
    requires NeverEvicts(cfg, EMPTY, run) && !C.NeedsRoom(cfg, R.After(cfg, EMPTY, run), 0)
    ensures var more := run + [SetAt(key, None, cfg.ttl + 1)] + [GetAt(key, cfg.ttl + 1)];
            && R.Legal(cfg, EMPTY, more) && NeverEvicts(cfg, EMPTY, more)
            && Answers(cfg, EMPTY, more)
                 == [Success(C.Hit([], C.MetadataAt(cfg, R.After(cfg, EMPTY, run).dir, MetaPath(cfg.layout, key))))]
  {
    SetThenAsk(cfg, EMPTY, run, SetAt(key, None, cfg.ttl + 1), GetAt(key, cfg.ttl + 1));
    OverwrittenAnswer(cfg, key, R.After(cfg, EMPTY, run));
  }

  lemma {:induction false} FirstSet(cfg: C.Config, key: string, metadata: C.Metadata, first: seq<R.Event>)
    requires 0 <= cfg.maxSize && first == [SetAt(key, Some(metadata), 0)]
    ensures R.Legal(cfg, EMPTY, first) && NeverEvicts(cfg, EMPTY, first) && Answers(cfg, EMPTY, first) == []
    ensures R.After(cfg, EMPTY, first) == OneEntry(cfg, key, metadata)
  {
    assert [] + first == first;
    OneMoreEvent(cfg, EMPTY, [], SetAt(key, Some(metadata), 0));
  }

  lemma {:induction false} PlainKeepsMetadata(cfg: C.Config, key: string, metadata: C.Metadata, run: seq<R.Event>)
    requires 0 <= cfg.ttl && 0 <= cfg.maxSize && C.RoundTrips(cfg, metadata)
    requires R.Legal(cfg, EMPTY, run) && NeverEvicts(cfg, EMPTY, run) && Answers(cfg, EMPTY, run) == []
    requires R.After(cfg, EMPTY, run) == OneEntry(cfg, key, metadata)
    ensures var more := Overwriting(cfg, key, run, []);
            && R.Legal(cfg, EMPTY, more) && NeverEvicts(cfg, EMPTY, more)
            && Answers(cfg, EMPTY, more) == [Success(C.Hit([], metadata))]
  {
    OverwriteAndAsk(cfg, key, run);
    PathsSeparateDigests(cfg.layout, key, key);
    assert run == run + [];
  }

  lemma {:induction false} CleanOverwriteAndAsk(cfg: C.Config, key: string, metadata: C.Metadata, run: seq<R.Event>)
    requires 0 <= cfg.ttl && 0 <= cfg.maxSize
    requires R.Legal(cfg, EMPTY, run) && NeverEvicts(cfg, EMPTY, run) && Answers(cfg, EMPTY, run) == []
    requires R.After(cfg, EMPTY, run) == OneEntry(cfg, key, metadata)
    ensures var more := run + [CleanupAt(cfg.ttl + 1)] + [SetAt(key, None, cfg.ttl + 1)]
                        + [GetAt(key, cfg.ttl + 1)];
            R.Legal(cfg, EMPTY, more) && Answers(cfg, EMPTY, more) == [Success(C.Hit([], C.NO_METADATA))]
  {
    CleanupEmpties(cfg, key, metadata);
    OneMoreCleanup(cfg, EMPTY, run, cfg.ttl + 1);
    OverwriteAndAsk(cfg, key, run + [CleanupAt(cfg.ttl + 1)]);
  }

  lemma {:induction false} OverwritingDrops(cfg: C.Config, key: string, run: seq<R.Event>)
    requires DropCleanups(run) == run
    ensures DropCleanups(Overwriting(cfg, key, run, [CleanupAt(cfg.ttl + 1)])) == Overwriting(cfg, key, run, [])
  {
    assert run + [] == run;
    DropFirstOfThree(run, CleanupAt(cfg.ttl + 1), SetAt(key, None, cfg.ttl + 1), GetAt(key, cfg.ttl + 1));
  }

  lemma {:induction false} DropFirstOfThree(run: seq<R.Event>, cleanup: R.Event, e: R.Event, ask: R.Event)
    requires cleanup.op.Cleanup? && e.op.Set? && ask.op.Get?
    ensures DropCleanups(run + [cleanup] + [e] + [ask]) == DropCleanups(run) + [e] + [ask]
  {
    DropLast(run, cleanup);
    DropLast(run + [cleanup], e);
    DropLast(run + [cleanup] + [e], ask);
  }

  /** Without eviction, a `Set` that carries no metadata inherits an expired entry's, unless a cleanup came first. */
  lemma {:induction false} MetadataCanMatter(cfg: C.Config, key: string, metadata: C.Metadata, first: seq<R.Event>)
    requires 0 <= cfg.ttl && 0 <= cfg.maxSize && C.RoundTrips(cfg, metadata) && metadata != C.NO_METADATA
    requires first == [SetAt(key, Some(metadata), 0)]
    ensures var plain := Overwriting(cfg, key, first, []);
            var cleaned := Overwriting(cfg, key, first, [CleanupAt(cfg.ttl + 1)]);
            && DropCleanups(cleaned) == plain
            && R.Legal(cfg, EMPTY, plain) && NeverEvicts(cfg, EMPTY, plain) && R.Legal(cfg, EMPTY, cleaned)
            && Answers(cfg, EMPTY, plain) != Answers(cfg, EMPTY, cleaned)
  {
    FirstSet(cfg, key, metadata, first);
    PlainKeepsMetadata(cfg, key, metadata, first);
    CleanOverwriteAndAsk(cfg, key, metadata, first);
    OneAlone(first, SetAt(key, Some(metadata), 0));
    OverwritingDrops(cfg, key, first);
  }
}
