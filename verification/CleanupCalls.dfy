/**
 Cleanup and the callers: what a sequence of calls can be answered with, in whatever order eviction walks the
 directory, with its cleanups and without them.
 */
module CleanupCalls {
  import opened Basics
  import opened CachePaths
  import opened CleanupRuns
  import opened CleanupMatters
  import EvictionOrder
  import C = CacheModel
  import R = CacheRuns

  // ----- calls and what they show -----

  /** The event without the walk, which no caller chooses. */
  function Call(e: R.Event): R.Event {
    if e.op.Set? then e.(op := e.op.(walk := [])) else e
  }

  function Calls(run: seq<R.Event>): seq<R.Event> {
    if run == [] then [] else Calls(Front(run)) + [Call(Last(run))]
  }

  /** The contents that lookups returned. */
  function Contents(answers: seq<Result<C.File, C.CacheError>>): seq<Option<Bytes>> {
    if answers == [] then []
    else
      var a := Last(answers);
      Contents(Front(answers)) + [if a.Success? then Some(a.value.content) else None]
  }

  ghost predicate Shows(cfg: C.Config, script: seq<R.Event>, seen: seq<Option<Bytes>>, run: seq<R.Event>) {
    R.Legal(cfg, EMPTY, run) && Calls(run) == Calls(script) && Contents(Answers(cfg, EMPTY, run)) == seen
  }

  /** From an empty cache, with some walks, the calls of the script are answered like this. */
  ghost predicate CanShow(cfg: C.Config, script: seq<R.Event>, seen: seq<Option<Bytes>>) {
    exists run :: Shows(cfg, script, seen, run)
  }

  /** With its cleanups and without them, every script can be answered in the same ways. */
  ghost predicate CallersNeverNotice(cfg: C.Config) {
    forall script, seen ::
      R.Timed(script) ==> (CanShow(cfg, script, seen) <==> CanShow(cfg, DropCleanups(script), seen))
  }

  lemma {:induction false} OneMoreCall(run: seq<R.Event>, e: R.Event)
    ensures Calls(run + [e]) == Calls(run) + [Call(e)]
  {
    assert Front(run + [e]) == run && Last(run + [e]) == e;
  }

  lemma {:induction false} OneMoreAnswer(answers: seq<Result<C.File, C.CacheError>>, a: Result<C.File, C.CacheError>)
    ensures Contents(answers + [a]) == Contents(answers) + [if a.Success? then Some(a.value.content) else None]
  {
    assert Front(answers + [a]) == answers && Last(answers + [a]) == a;
  }

  lemma {:induction false} LastCall(run: seq<R.Event>, calls: seq<R.Event>, e: R.Event)
    requires Calls(run) == calls + [e]
    ensures run != [] && Calls(Front(run)) == calls && Call(Last(run)) == e
  {
    if run != [] {
      assert Front(Calls(run)) == Calls(Front(run)) && Last(Calls(run)) == Call(Last(run));
      assert Front(calls + [e]) == calls && Last(calls + [e]) == e;
    }
  }

  // ----- nothing lasts: callers never notice -----

  /** Every finite set of files can be walked. */
  lemma {:induction false} SomeWalk(s: set<string>) returns (walk: seq<string>)
    ensures forall p :: p in walk <==> p in s
    ensures forall i, j :: 0 <= i < j < |walk| ==> walk[i] != walk[j]
    decreases |s|
  {
    if s == {} {
      walk := [];
    } else {
      var p :| p in s;
      var rest := SomeWalk(s - {p});
      walk := rest + [p];
      forall i, j | 0 <= i < j < |walk| ensures walk[i] != walk[j] {
        assert rest[i] in rest;
      }
    }
  }

  /** Every script can be run. */
  lemma {:induction false} SomeRun(cfg: C.Config, script: seq<R.Event>) returns (run: seq<R.Event>)
    ensures R.Legal(cfg, EMPTY, run) && Calls(run) == Calls(script)
    decreases |script|
  {
    if script == [] {
      run := [];
    } else {
      var front := SomeRun(cfg, Front(script));
      var c, e := R.After(cfg, EMPTY, front), Last(script);
      var walk := SomeWalk(c.dir.Keys);
      if e.op.Set? {
        e := e.(op := e.op.(walk := walk));
      }
      OneMoreEvent(cfg, EMPTY, front, e);
      OneMoreCall(front, e);
      run := front + [e];
    }
  }

  lemma {:induction false} CallsAt(run: seq<R.Event>)
    ensures |Calls(run)| == |run| && forall i :: 0 <= i < |run| ==> Calls(run)[i] == Call(run[i])
    decreases |run|
  {
    if run != [] {
      CallsAt(Front(run));
      forall i | 0 <= i < |run| ensures Calls(run)[i] == Call(run[i]) {
        assert i < |run| - 1 ==> Calls(run)[i] == Calls(Front(run))[i] && run[i] == Front(run)[i];
      }
    }
  }

  lemma {:induction false} CallsLookUp(run: seq<R.Event>)
    ensures Lookups(Calls(run)) == Lookups(run)
    decreases |run|
  {
    if run != [] {
      CallsLookUp(Front(run));
      assert Front(Calls(run)) == Calls(Front(run)) && Last(Calls(run)) == Call(Last(run));
    }
  }

  lemma {:induction false} SameCalls(run: seq<R.Event>, script: seq<R.Event>)
    requires Calls(run) == Calls(script)
    ensures |run| == |script| && Lookups(run) == Lookups(script)
    ensures R.Timed(script) ==> R.Timed(run)
  {
    CallsAt(run);
    CallsAt(script);
    CallsLookUp(run);
    CallsLookUp(script);
    assert forall i :: 0 <= i < |run| ==> run[i].now == Calls(run)[i].now == script[i].now;
  }

  lemma {:induction false} OnlyMissesShow(cfg: C.Config, script: seq<R.Event>, run: seq<R.Event>)
    requires cfg.ttl < 0 && R.Timed(script) && R.Legal(cfg, EMPTY, run) && Calls(run) == Calls(script)
    ensures Answers(cfg, EMPTY, run) == Misses(Lookups(script))
  {
    SameCalls(run, script);
    NegativeTtlOnlyMisses(cfg, EMPTY, run, if run == [] then 0 else Last(run).now);
  }

  /** One script shows what another shows if both can only miss, equally often. */
  lemma {:induction false} ShowsTheSame(cfg: C.Config, a: seq<R.Event>, b: seq<R.Event>, seen: seq<Option<Bytes>>)
    requires cfg.ttl < 0 && R.Timed(a) && R.Timed(b) && Lookups(a) == Lookups(b) && CanShow(cfg, a, seen)
    ensures CanShow(cfg, b, seen)
  {
    var run :| Shows(cfg, a, seen, run);
    OnlyMissesShow(cfg, a, run);
    var other := SomeRun(cfg, b);
    OnlyMissesShow(cfg, b, other);
    assert Shows(cfg, b, seen, other);
  }

  // ----- an expired file that shields a live one -----

  /** Three keys, and how many bytes no cache of this size has room for. */
  datatype Shield = Shield(cfg: C.Config, stale: string, kept: string, extra: string) {
    const now := cfg.ttl + 1
    const much: nat := Max(0, cfg.maxSize) + 1
    const p := ContentPath(cfg.layout, stale)
    const q := ContentPath(cfg.layout, kept)

    predicate Valid() {
      var digest := cfg.layout.digest;
      && 0 <= cfg.ttl
      && digest(stale) != digest(kept) && digest(kept) != digest(extra) && digest(extra) != digest(stale)
    }

    function StaleSet(walk: seq<string>): R.Event { SetBlank(stale, much, walk, 0) }
    function KeptSet(walk: seq<string>): R.Event { SetBlank(kept, 0, walk, now) }
    function ExtraSet(walk: seq<string>): R.Event { SetBlank(extra, much, walk, now) }

    /** A file too large for the cache expires; an empty one joins it; then another too large one comes. */
    function Plain(): seq<R.Event> { [StaleSet([])] + [KeptSet([])] + [ExtraSet([])] + [GetAt(kept, now)] }
    function Cleaned(): seq<R.Event> {
      [StaleSet([])] + [KeptSet([])] + [CleanupAt(now)] + [ExtraSet([])] + [GetAt(kept, now)]
    }

    function StaleNode(): C.Node { C.Node(Blank(much).content, 0) }
    function KeptNode(): C.Node { C.Node([], now) }

    // The states that the scripts go through.
    function WithStale(): C.Cache { C.Cache(map[p := StaleNode()], much, 1, 0, 0) }
    function WithBoth(): C.Cache { C.Cache(map[p := StaleNode()][q := KeptNode()], much, 2, 0, 0) }

    lemma {:induction false} Paths()
      requires Valid()
      ensures IsContent(p) && IsContent(q) && p != q
      ensures ContentPath(cfg.layout, extra) != p && ContentPath(cfg.layout, extra) != q
    {
      SidecarOfContentPath(cfg.layout, stale);
      SidecarOfContentPath(cfg.layout, kept);
      PathsSeparateDigests(cfg.layout, stale, kept);
      PathsSeparateDigests(cfg.layout, stale, extra);
      PathsSeparateDigests(cfg.layout, kept, extra);
    }

    /** Eviction asked for nothing, or over an empty directory, deletes nothing. */
    lemma {:induction false} EvictsNothing(c: C.Cache, walk: seq<string>, needed: int)
      requires C.Walks(c.dir, walk) && (needed <= 0 || c.dir == map[])
      ensures C.EvictOldest(c, walk, needed) == c
    {
      assert forall i :: 0 <= i < |walk| ==> walk[i] in walk;
      assert C.Evicted(c.dir, walk, needed) == [];
      assert C.Names([]) == {};
      assert C.RemoveEntries(c.dir, {}) == c.dir;
    }

    lemma {:induction false} StaleComes(walk: seq<string>)
      requires Valid() && C.Walks(map[], walk)
      ensures R.LegalStep(cfg, EMPTY, StaleSet(walk)) && R.Next(cfg, EMPTY, StaleSet(walk)) == WithStale()
    {
      EvictsNothing(EMPTY, walk, much);
    }

    lemma {:induction false} KeptComes(walk: seq<string>)
      requires Valid() && C.Walks(WithStale().dir, walk)
      ensures R.LegalStep(cfg, WithStale(), KeptSet(walk)) && R.Next(cfg, WithStale(), KeptSet(walk)) == WithBoth()
    {
      EvictsNothing(WithStale(), walk, 0);
    }

    lemma {:induction false} StaleIsOldest()
      requires Valid()
      ensures C.Walks(WithBoth().dir, [p, q])
      ensures C.Evicted(WithBoth().dir, [p, q], much) == [EvictionOrder.FileInfo(p, much, 0)]
    {
      var d := WithBoth().dir;
      var x, y := EvictionOrder.FileInfo(p, much, 0), EvictionOrder.FileInfo(q, 0, now);
      Paths();
      assert [p, q][1..] == [q] && [q][1..] == [];
      assert C.Entries(d, [q]) == [y] + C.Entries(d, []) == [y];
      assert C.Entries(d, [p, q]) == [x] + C.Entries(d, [q]) == [x, y];
      OlderFirst(x, y, much);
    }

    lemma {:induction false} OlderFirst(x: EvictionOrder.FileInfo, y: EvictionOrder.FileInfo, needed: nat)
      requires x.modTime <= y.modTime && 0 < needed <= x.size
      ensures EvictionOrder.Victims(EvictionOrder.StableSort([x, y]), needed) == [x]
    {
      assert [x, y][1..] == [y] && [y][1..] == [];
      assert EvictionOrder.StableSort([y]) == [y];
      assert EvictionOrder.StableSort([x, y]) == [x] + [y] == [x, y];
      assert EvictionOrder.Victims([x, y], needed) == [x] + EvictionOrder.Victims([y], needed - x.size);
    }

    /** Without a cleanup the expired file is the oldest, and frees enough by itself. */
    lemma {:induction false} StaleShields()
      requires Valid()
      ensures C.Walks(WithBoth().dir, [p, q])
      ensures var dir := C.EvictOldest(WithBoth(), [p, q], much).dir; q in dir && dir[q] == KeptNode()
    {
      var x := EvictionOrder.FileInfo(p, much, 0);
      Paths();
      StaleIsOldest();
      assert C.Names([x]) == {p};
      SidecarSeparates(p, q);
    }

    /** With one, the empty file is all there is, and goes. */
    lemma {:induction false} KeptGoes(c: C.Cache, walk: seq<string>)
      requires Valid() && c.dir == map[q := KeptNode()] && c.size == 0
      requires R.LegalStep(cfg, c, ExtraSet(walk))
      ensures q !in R.Next(cfg, c, ExtraSet(walk)).dir
    {
      Paths();
      var e := C.EvictOldest(c, walk, much);
      C.EvictFrees(c, walk, much);
      assert C.Contents(c.dir) == {q};
      C.BytesTake(c.dir, {q}, q);
      assert {q} - {q} == {};
      assert q in e.dir ==> q in C.Contents(e.dir);
    }

    lemma {:induction false} OnlyStaleExpires()
      requires Valid()
      ensures C.ExpiredContents(cfg, WithBoth().dir, now) == {p}
      ensures C.TotalBytes(WithBoth().dir, {p}) == much
    {
      Paths();
      C.BytesTake(WithBoth().dir, {p}, p);
      assert {p} - {p} == {};
    }

    lemma {:induction false} CleanupTakesStale()
      requires Valid()
      ensures var c := C.Cleanup(cfg, WithBoth(), now); c.dir == map[q := KeptNode()] && c.size == 0
    {
      Paths();
      OnlyStaleExpires();
      SidecarSeparates(p, q);
      assert C.RemoveEntries(WithBoth().dir, {p}) == map[q := KeptNode()];
    }

    // ----- the script without its cleanup -----

    lemma {:induction false} SetNext(run: seq<R.Event>, c: C.Cache, e: R.Event, d: C.Cache)
      requires R.Legal(cfg, EMPTY, run) && R.After(cfg, EMPTY, run) == c && Answers(cfg, EMPTY, run) == []
      requires e.op.Set? && R.LegalStep(cfg, c, e) && R.Next(cfg, c, e) == d
      ensures R.Legal(cfg, EMPTY, run + [e]) && R.After(cfg, EMPTY, run + [e]) == d
      ensures Answers(cfg, EMPTY, run + [e]) == [] && Calls(run + [e]) == Calls(run) + [Call(e)]
    {
      OneMoreEvent(cfg, EMPTY, run, e);
      OneMoreCall(run, e);
    }

    lemma {:induction false} PlainRuns() returns (run: seq<R.Event>)
      requires Valid()
      ensures R.Legal(cfg, EMPTY, run) && R.After(cfg, EMPTY, run) == WithBoth() && Answers(cfg, EMPTY, run) == []
      ensures Calls(run) == [StaleSet([])] + [KeptSet([])]
    {
      assert C.Walks(map[], []) && C.Walks(WithStale().dir, [p]);
      StaleComes([]);
      SetNext([], EMPTY, StaleSet([]), WithStale());
      run := [] + [StaleSet([])];
      KeptComes([p]);
      SetNext(run, WithStale(), KeptSet([p]), WithBoth());
      run := run + [KeptSet([p])];
    }

    lemma {:induction false} ExtraSparesKept()
      requires Valid()
      ensures R.LegalStep(cfg, WithBoth(), ExtraSet([p, q]))
      ensures var dir := R.Next(cfg, WithBoth(), ExtraSet([p, q])).dir; q in dir && dir[q] == KeptNode()
    {
      Paths();
      StaleShields();
    }

    /** Without the cleanup the last lookup can hit. */
    lemma {:induction false} PlainHits()
      requires Valid()
      ensures CanShow(cfg, Plain(), [Some([])])
    {
      var run := PlainRuns();
      ExtraSparesKept();
      SetNext(run, WithBoth(), ExtraSet([p, q]), R.Next(cfg, WithBoth(), ExtraSet([p, q])));
      PlainIsCalls();
      ShowsHit(run + [ExtraSet([p, q])], Plain());
    }

    lemma {:induction false} ShowsHit(run: seq<R.Event>, script: seq<R.Event>)
      requires Valid() && R.Legal(cfg, EMPTY, run) && Answers(cfg, EMPTY, run) == []
      requires var dir := R.After(cfg, EMPTY, run).dir; q in dir && dir[q] == KeptNode()
      requires Calls(script) == Calls(run) + [GetAt(kept, now)]
      ensures CanShow(cfg, script, [Some([])])
    {
      var ask, answer := GetAt(kept, now), C.GetAnswer(cfg, R.After(cfg, EMPTY, run), kept, now);
      OneMoreEvent(cfg, EMPTY, run, ask);
      OneMoreCall(run, ask);
      assert [] + [answer] == [answer];
      OneMoreAnswer([], answer);
      assert Shows(cfg, script, [Some([])], run + [ask]);
    }

    lemma {:induction false} PlainIsCalls()
      ensures Calls(Plain()) == Plain()
    {
      assert [] + [StaleSet([])] == [StaleSet([])];
      OneMoreCall([], StaleSet([]));
      OneMoreCall([StaleSet([])], KeptSet([]));
      OneMoreCall([StaleSet([])] + [KeptSet([])], ExtraSet([]));
      OneMoreCall([StaleSet([])] + [KeptSet([])] + [ExtraSet([])], GetAt(kept, now));
    }

    // ----- the script with its cleanup -----

    lemma {:induction false} AfterStale(run: seq<R.Event>)
      requires Valid() && R.Legal(cfg, EMPTY, run) && Calls(run) == [StaleSet([])]
      ensures R.After(cfg, EMPTY, run) == WithStale() && Answers(cfg, EMPTY, run) == []
    {
      assert Calls(run) == [] + [StaleSet([])];
      LastCall(run, [], StaleSet([]));
      SameCalls(Front(run), []);
      StaleComes(Last(run).op.walk);
    }

    lemma {:induction false} AfterKept(run: seq<R.Event>)
      requires Valid() && R.Legal(cfg, EMPTY, run) && Calls(run) == [StaleSet([])] + [KeptSet([])]
      ensures R.After(cfg, EMPTY, run) == WithBoth() && Answers(cfg, EMPTY, run) == []
    {
      LastCall(run, [StaleSet([])], KeptSet([]));
      AfterStale(Front(run));
      KeptComes(Last(run).op.walk);
    }

    lemma {:induction false} AfterCleanup(run: seq<R.Event>)
      requires Valid() && R.Legal(cfg, EMPTY, run)
      requires Calls(run) == [StaleSet([])] + [KeptSet([])] + [CleanupAt(now)]
      ensures var c := R.After(cfg, EMPTY, run); c.dir == map[q := KeptNode()] && c.size == 0
      ensures Answers(cfg, EMPTY, run) == []
    {
      LastCall(run, [StaleSet([])] + [KeptSet([])], CleanupAt(now));
      AfterKept(Front(run));
      CleanupNext(run, WithBoth());
      CleanupTakesStale();
    }

    lemma {:induction false} CleanupNext(run: seq<R.Event>, c: C.Cache)
      requires run != [] && R.Legal(cfg, EMPTY, run) && Last(run) == CleanupAt(now)
      requires R.After(cfg, EMPTY, Front(run)) == c && Answers(cfg, EMPTY, Front(run)) == []
      ensures R.After(cfg, EMPTY, run) == C.Cleanup(cfg, c, now) && Answers(cfg, EMPTY, run) == []
    {
    }

    lemma {:induction false} AfterExtra(run: seq<R.Event>)
      requires Valid() && R.Legal(cfg, EMPTY, run)
      requires Calls(run) == [StaleSet([])] + [KeptSet([])] + [CleanupAt(now)] + [ExtraSet([])]
      ensures q !in R.After(cfg, EMPTY, run).dir && Answers(cfg, EMPTY, run) == []
    {
      LastCall(run, [StaleSet([])] + [KeptSet([])] + [CleanupAt(now)], ExtraSet([]));
      AfterCleanup(Front(run));
      KeptGoes(R.After(cfg, EMPTY, Front(run)), Last(run).op.walk);
    }

    /** With the cleanup the last lookup misses, whatever the walks. */
    lemma {:induction false} CleanedMisses(run: seq<R.Event>)
      requires Valid() && R.Legal(cfg, EMPTY, run) && Calls(run) == Cleaned()
      ensures Contents(Answers(cfg, EMPTY, run)) == [None]
    {
      var calls := [StaleSet([])] + [KeptSet([])] + [CleanupAt(now)] + [ExtraSet([])];
      assert Cleaned() == calls + [GetAt(kept, now)];
      LastCall(run, calls, GetAt(kept, now));
      AfterExtra(Front(run));
      OneMoreAnswer([], C.GetAnswer(cfg, R.After(cfg, EMPTY, Front(run)), kept, now));
    }

    lemma {:induction false} CleanedIsCalls()
      ensures Calls(Cleaned()) == Cleaned()
    {
      var front := [StaleSet([])] + [KeptSet([])];
      assert [] + [StaleSet([])] == [StaleSet([])];
      OneMoreCall([], StaleSet([]));
      OneMoreCall([StaleSet([])], KeptSet([]));
      OneMoreCall(front, CleanupAt(now));
      OneMoreCall(front + [CleanupAt(now)], ExtraSet([]));
      OneMoreCall(front + [CleanupAt(now)] + [ExtraSet([])], GetAt(kept, now));
    }

    lemma {:induction false} CleanedDrops()
      requires 0 <= cfg.ttl
      ensures DropCleanups(Cleaned()) == Plain() && R.Timed(Cleaned())
    {
      var front := [StaleSet([])] + [KeptSet([])];
      TwoAlone([StaleSet([])], StaleSet([]), KeptSet([]));
      CleanedEnds(front, CleanupAt(now), ExtraSet([]), GetAt(kept, now));
    }

    lemma {:induction false} TwoAlone(first: seq<R.Event>, a: R.Event, b: R.Event)
      requires first == [a] && a.op.Set? && b.op.Set? && a.now <= b.now
      ensures DropCleanups(first + [b]) == first + [b] && R.Timed(first + [b]) && Last(first + [b]) == b
    {
      OneAlone(first, a);
      DropLast(first, b);
      OneMoreInTime(first, b);
    }

    lemma {:induction false} CleanedEnds(front: seq<R.Event>, cleanup: R.Event, e: R.Event, ask: R.Event)
      requires cleanup.op.Cleanup? && e.op.Set? && ask.op.Get?
      requires R.Timed(front) && front != [] && Last(front).now == cleanup.now == e.now == ask.now
      ensures DropCleanups(front + [cleanup] + [e] + [ask]) == DropCleanups(front) + [e] + [ask]
      ensures R.Timed(front + [cleanup] + [e] + [ask])
    {
      DropFirstOfThree(front, cleanup, e, ask);
      TwoMoreInTime(front, cleanup, e);
      OneMoreInTime(front + [cleanup] + [e], ask);
    }

    /**
     A cleanup can also turn a hit into a miss: it takes the expired file whose eviction would have spared a live one.
     Without it the last lookup of the script can hit; with it, it never does, whatever the walks.
     */
    lemma {:induction false} CleanupCanCost()
      requires Valid()
      ensures DropCleanups(Cleaned()) == Plain() && R.Timed(Cleaned())
      ensures CanShow(cfg, Plain(), [Some([])])
      ensures forall seen :: CanShow(cfg, Cleaned(), seen) ==> seen == [None]
    {
      CleanedDrops();
      PlainHits();
      forall seen | CanShow(cfg, Cleaned(), seen) ensures seen == [None] {
        var run :| Shows(cfg, Cleaned(), seen, run);
        CleanedIsCalls();
        CleanedMisses(run);
      }
    }
  }

  /** Under every limit, callers never notice cleanups, whatever the walks, exactly when nothing is ever kept. */
  lemma {:induction false} CallersNeverNoticeExactly(cfg: C.Config, stale: string, kept: string, extra: string)
    requires var digest := cfg.layout.digest;
             digest(stale) != digest(kept) && digest(kept) != digest(extra) && digest(extra) != digest(stale)
    ensures CallersNeverNotice(cfg) <==> cfg.ttl < 0
  {
    if cfg.ttl < 0 {
      forall script, seen | R.Timed(script)
        ensures CanShow(cfg, script, seen) <==> CanShow(cfg, DropCleanups(script), seen)
      {
        DroppingKeepsLookups(script);
        if CanShow(cfg, script, seen) {
          ShowsTheSame(cfg, script, DropCleanups(script), seen);
        }
        if CanShow(cfg, DropCleanups(script), seen) {
          ShowsTheSame(cfg, DropCleanups(script), script, seen);
        }
      }
    } else {
      var shield := Shield(cfg, stale, kept, extra);
      shield.CleanupCanCost();
      assert !CanShow(cfg, shield.Cleaned(), [Some([])]);
    }
  }
}
