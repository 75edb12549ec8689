/**
 Particular interleavings of lookups: one that runs undisturbed, and two that race for an expiring entry.
 */
module LookupRaces {
  import opened Basics
  import opened CachePaths
  import opened CacheConcurrency
  import C = CacheModel
  import R = CacheRuns

  // ----- one reader running alone -----

  /** Reader `id` runs up to `n` statements with nobody interfering. */
  function Alone(cfg: C.Config, w: World, id: nat, n: nat): World
    decreases n
  {
    if n == 0 then w
    else
      var v := Alone(cfg, w, id, n - 1);
      if id in v.readers then AdvanceReader(cfg, v, id) else v
  }

  /** The reader is still inside before each of the first `n` statements. */
  predicate StaysInside(cfg: C.Config, w: World, id: nat, n: nat)
    decreases n
  {
    n == 0 || (StaysInside(cfg, w, id, n - 1) && id in Alone(cfg, w, id, n - 1).readers)
  }

  ghost predicate EnteredOn(cfg: C.Config, w: World, id: nat, key: string) {
    id in w.readers && w.readers[id] == Reader(key, Entered)
  }

  /** No content file: two statements lead to the miss. */
  lemma {:induction false} MissPath(cfg: C.Config, w: World, id: nat, key: string)
    requires EnteredOn(cfg, w, id, key) && ContentPath(cfg.layout, key) !in w.cache.dir
    ensures StaysInside(cfg, w, id, 3)
    ensures Alone(cfg, w, id, 2) == Moved(w, id, Returning(Failure(C.CacheMiss), 0))
                                      .(cache := w.cache.(misses := w.cache.misses + 1))
  {
    var w1 := Alone(cfg, w, id, 1);
    var w2 := Alone(cfg, w, id, 2);
    assert w1 == AdvanceReader(cfg, w, id) && w2 == AdvanceReader(cfg, w1, id);
    assert StaysInside(cfg, w, id, 1) && StaysInside(cfg, w, id, 2);
  }

  /** A fresh entry: four statements lead to where the content has been read. */
  lemma {:induction false} FreshPath(cfg: C.Config, w: World, id: nat, key: string)
    requires EnteredOn(cfg, w, id, key)
    requires var p := ContentPath(cfg.layout, key);
             p in w.cache.dir && !C.Expired(cfg, w.cache.dir[p], w.clock)
    ensures StaysInside(cfg, w, id, 5)
    ensures var node := w.cache.dir[ContentPath(cfg.layout, key)];
            Alone(cfg, w, id, 4) == Moved(w, id, HaveContent(node.bytes, node))
  {
    var w1, w2 := Alone(cfg, w, id, 1), Alone(cfg, w, id, 2);
    var w3, w4 := Alone(cfg, w, id, 3), Alone(cfg, w, id, 4);
    assert w1 == AdvanceReader(cfg, w, id) && w2 == AdvanceReader(cfg, w1, id);
    assert w3 == AdvanceReader(cfg, w2, id) && w4 == AdvanceReader(cfg, w3, id);
    assert StaysInside(cfg, w, id, 2) && StaysInside(cfg, w, id, 4);
  }

  /** With the content read: two statements lead to the hit, with the metadata there is. */
  lemma {:induction false} HitPath(cfg: C.Config, w: World, id: nat)
    requires id in w.readers && w.readers[id].phase.HaveContent?
    ensures StaysInside(cfg, w, id, 3)
    ensures var r := w.readers[id];
            var hit := C.Hit(r.phase.content, C.MetadataAt(cfg, w.cache.dir, MetaPath(cfg.layout, r.key)));
            Alone(cfg, w, id, 2) == Moved(w, id, Returning(Success(hit), w.clock - r.phase.seen.mtime))
                                      .(cache := w.cache.(hits := w.cache.hits + 1))
  {
    var w1, w2 := Alone(cfg, w, id, 1), Alone(cfg, w, id, 2);
    assert w1 == AdvanceReader(cfg, w, id) && w2 == AdvanceReader(cfg, w1, id);
    assert StaysInside(cfg, w, id, 1) && StaysInside(cfg, w, id, 2);
  }

  /** An expired entry: four statements lead to where the miss has been counted. */
  lemma {:induction false} StaleHalf(cfg: C.Config, w: World, id: nat, key: string)
    requires EnteredOn(cfg, w, id, key)
    requires var p := ContentPath(cfg.layout, key);
             p in w.cache.dir && C.Expired(cfg, w.cache.dir[p], w.clock)
    ensures StaysInside(cfg, w, id, 4)
    ensures var c := w.cache;
            Alone(cfg, w, id, 4)
              == Moved(w, id, DropContent(c.dir[ContentPath(cfg.layout, key)])).(cache := c.(misses := c.misses + 1))
  {
    var w1, w2 := Alone(cfg, w, id, 1), Alone(cfg, w, id, 2);
    var w3, w4 := Alone(cfg, w, id, 3), Alone(cfg, w, id, 4);
    assert w1 == AdvanceReader(cfg, w, id) && w2 == AdvanceReader(cfg, w1, id);
    assert w3 == AdvanceReader(cfg, w2, id) && w4 == AdvanceReader(cfg, w3, id);
    assert StaysInside(cfg, w, id, 2);
  }

  /** Two more statements delete both files. */
  lemma {:induction false} StalePath(cfg: C.Config, w: World, id: nat, key: string)
    requires EnteredOn(cfg, w, id, key)
    requires var p := ContentPath(cfg.layout, key);
             p in w.cache.dir && C.Expired(cfg, w.cache.dir[p], w.clock)
    ensures StaysInside(cfg, w, id, 7)
    ensures var c := w.cache;
            Alone(cfg, w, id, 6) == Moved(w, id, Returning(Failure(C.CacheMiss), 0)).(cache :=
              c.(misses := c.misses + 1, dir := c.dir - {ContentPath(cfg.layout, key), MetaPath(cfg.layout, key)}))
  {
    StaleHalf(cfg, w, id, key);
    var w4, w5, w6 := Alone(cfg, w, id, 4), Alone(cfg, w, id, 5), Alone(cfg, w, id, 6);
    assert w5 == AdvanceReader(cfg, w4, id) && w6 == AdvanceReader(cfg, w5, id);
    assert StaysInside(cfg, w, id, 5) && StaysInside(cfg, w, id, 6);
    var p, m := ContentPath(cfg.layout, key), MetaPath(cfg.layout, key);
    assert w.cache.dir - {p} - {m} == w.cache.dir - {p, m};
  }

  lemma {:induction false} AloneTwice(cfg: C.Config, w: World, id: nat, m: nat, n: nat)
    ensures Alone(cfg, w, id, m + n) == Alone(cfg, Alone(cfg, w, id, m), id, n)
    decreases n
  {
    if n != 0 {
      AloneTwice(cfg, w, id, m, n - 1);
    }
  }

  /** The answer's age, as a lookup reports it. */
  function AgeOf(cfg: C.Config, c: C.Cache, key: string, now: int): int {
    var p := ContentPath(cfg.layout, key);
    if C.GetAnswer(cfg, c, key, now).Success? then now - c.dir[p].mtime else 0
  }

  /** `done` is what the single step of the sequential model makes of `w`. */
  ghost predicate IsAtomic(cfg: C.Config, w: World, key: string, done: World) {
    && done.readers == map[] && done.clock == w.clock && done.base == w.base
    && done.cache == C.Get(cfg, w.cache, key, w.clock)
    && done.finished == w.finished + [Completed(key, C.GetAnswer(cfg, w.cache, key, w.clock),
                                                AgeOf(cfg, w.cache, key, w.clock))]
  }

  function Entering(w: World, id: nat, key: string): World {
    w.(readers := map[id := Reader(key, Entered)])
  }

  lemma {:induction false} MissIsAtomic(cfg: C.Config, w: World, id: nat, key: string)
    requires w.readers == map[] && ContentPath(cfg.layout, key) !in w.cache.dir
    ensures IsAtomic(cfg, w, key, Alone(cfg, Entering(w, id, key), id, 7))
  {
    var w0 := Entering(w, id, key);
    MissPath(cfg, w0, id, key);
    assert Alone(cfg, w0, id, 3).readers == map[];
    AloneStops(cfg, w0, id, 3, 4);
  }

  lemma {:induction false} ExpiryIsAtomic(cfg: C.Config, w: World, id: nat, key: string)
    requires w.readers == map[]
    requires var p := ContentPath(cfg.layout, key); p in w.cache.dir && C.Expired(cfg, w.cache.dir[p], w.clock)
    ensures IsAtomic(cfg, w, key, Alone(cfg, Entering(w, id, key), id, 7))
  {
    StalePath(cfg, Entering(w, id, key), id, key);
    assert Alone(cfg, Entering(w, id, key), id, 7).readers == map[];
  }

  lemma {:induction false} HitIsAtomic(cfg: C.Config, w: World, id: nat, key: string)
    requires w.readers == map[]
    requires var p := ContentPath(cfg.layout, key); p in w.cache.dir && !C.Expired(cfg, w.cache.dir[p], w.clock)
    ensures IsAtomic(cfg, w, key, Alone(cfg, Entering(w, id, key), id, 7))
  {
    var w0 := Entering(w, id, key);
    FreshHitPath(cfg, w0, id, key);
    assert Alone(cfg, w0, id, 7).readers == map[];
  }

  /** Undisturbed, the statements of a lookup amount to the single step of the sequential model. */
  lemma {:induction false} AloneIsAtomic(cfg: C.Config, w: World, id: nat, key: string)
    requires w.readers == map[]
    ensures IsAtomic(cfg, w, key, Alone(cfg, w.(readers := map[id := Reader(key, Entered)]), id, 7))
  {
    var p := ContentPath(cfg.layout, key);
    if p !in w.cache.dir {
      MissIsAtomic(cfg, w, id, key);
    } else if C.Expired(cfg, w.cache.dir[p], w.clock) {
      ExpiryIsAtomic(cfg, w, id, key);
    } else {
      HitIsAtomic(cfg, w, id, key);
    }
  }

  lemma {:induction false} AloneStops(cfg: C.Config, w: World, id: nat, m: nat, n: nat)
    requires id !in Alone(cfg, w, id, m).readers
    ensures Alone(cfg, w, id, m + n) == Alone(cfg, w, id, m)
    decreases n
  {
    if n != 0 {
      AloneStops(cfg, w, id, m, n - 1);
    }
  }

  lemma {:induction false} OneMoreInside(cfg: C.Config, w: World, id: nat, n: nat)
    requires StaysInside(cfg, w, id, n) && id in Alone(cfg, w, id, n).readers
    ensures StaysInside(cfg, w, id, n + 1)
  {
  }

  /** A fresh entry: six statements lead to the hit. */
  lemma {:induction false} FreshHitPath(cfg: C.Config, w: World, id: nat, key: string)
    requires EnteredOn(cfg, w, id, key)
    requires var p := ContentPath(cfg.layout, key);
             p in w.cache.dir && !C.Expired(cfg, w.cache.dir[p], w.clock)
    ensures StaysInside(cfg, w, id, 7)
    ensures var node := w.cache.dir[ContentPath(cfg.layout, key)];
            var hit := C.Hit(node.bytes, C.MetadataAt(cfg, w.cache.dir, MetaPath(cfg.layout, key)));
            Alone(cfg, w, id, 6) == Moved(w, id, Returning(Success(hit), w.clock - node.mtime))
                                      .(cache := w.cache.(hits := w.cache.hits + 1))
  {
    FreshPath(cfg, w, id, key);
    var v := Alone(cfg, w, id, 4);
    HitPath(cfg, v, id);
    assert StaysInside(cfg, v, id, 2);
    AloneTwice(cfg, w, id, 4, 1);
    AloneTwice(cfg, w, id, 4, 2);
    OneMoreInside(cfg, w, id, 5);
    OneMoreInside(cfg, w, id, 6);
  }

  /** Every undisturbed lookup gets to where it returns with its answer. */
  lemma {:induction false} LookupPath(cfg: C.Config, w: World, id: nat, key: string) returns (n: nat)
    requires EnteredOn(cfg, w, id, key)
    ensures StaysInside(cfg, w, id, n + 1)
    ensures Alone(cfg, w, id, n)
         == Moved(w, id, Returning(C.GetAnswer(cfg, w.cache, key, w.clock), AgeOf(cfg, w.cache, key, w.clock)))
              .(cache := C.Get(cfg, w.cache, key, w.clock))
  {
    var p := ContentPath(cfg.layout, key);
    if p !in w.cache.dir {
      MissPath(cfg, w, id, key);
      n := 2;
    } else if C.Expired(cfg, w.cache.dir[p], w.clock) {
      StalePath(cfg, w, id, key);
      n := 6;
    } else {
      FreshHitPath(cfg, w, id, key);
      n := 6;
    }
  }

  /** An entry judged fresh and deleted before it is read: the lookup fails with a read error, counted as a miss. */
  lemma {:induction false} OvertakenPath(cfg: C.Config, w: World, id: nat)
    requires id in w.readers && w.readers[id].phase.Fresh?
    requires ContentPath(cfg.layout, w.readers[id].key) !in w.cache.dir
    ensures Alone(cfg, w, id, 2) == Moved(w, id, Returning(Failure(C.ReadFailed), 0))
                                      .(cache := w.cache.(misses := w.cache.misses + 1))
  {
    var w1, w2 := Alone(cfg, w, id, 1), Alone(cfg, w, id, 2);
    assert w1 == AdvanceReader(cfg, w, id) && w2 == AdvanceReader(cfg, w1, id);
  }

  // ----- what some run leads to -----

  const IDLE := World(C.Cache(map[], 0, 0, 0, 0), 0, map[], [], map[])

  /** From an empty cache, this run, which writes only good pairs, leads to this world. */
  ghost predicate Reaches(cfg: C.Config, good: iset<Triple>, run: seq<Action>, w: World) {
    Legal(cfg, IDLE, run) && GoodRun(cfg, good, run) && After(cfg, IDLE, run) == w
  }

  ghost predicate Reachable(cfg: C.Config, good: iset<Triple>, w: World) {
    exists run :: Reaches(cfg, good, run, w)
  }

  lemma {:induction false} IdleIsReachable(cfg: C.Config, good: iset<Triple>)
    ensures Reachable(cfg, good, IDLE)
  {
    assert Reaches(cfg, good, [], IDLE);
  }

  lemma {:induction false} OneMoreAction(cfg: C.Config, good: iset<Triple>, w: World, a: Action)
    requires Reachable(cfg, good, w) && Enabled(cfg, w, a) && GoodWrite(cfg, good, a)
    ensures Reachable(cfg, good, Next(cfg, w, a))
  {
    var run :| Reaches(cfg, good, run, w);
    assert Front(run + [a]) == run && Last(run + [a]) == a;
    assert Reaches(cfg, good, run + [a], Next(cfg, w, a));
  }

  lemma {:induction false} AloneIsReachable(cfg: C.Config, good: iset<Triple>, w: World, id: nat, n: nat)
    requires Reachable(cfg, good, w) && StaysInside(cfg, w, id, n)
    ensures Reachable(cfg, good, Alone(cfg, w, id, n))
    decreases n
  {
    if n != 0 {
      AloneIsReachable(cfg, good, w, id, n - 1);
      OneMoreAction(cfg, good, Alone(cfg, w, id, n - 1), Advance(id));
    }
  }

  // ----- the race for an expiring entry -----

  /** Evicting from an empty directory does nothing, so a first `Set` always stores its file. */
  lemma {:induction false} EvictNothing(cfg: C.Config, c: C.Cache, needed: int)
    requires c.dir == map[]
    ensures C.Walks(c.dir, [])
    ensures C.MakeRoom(cfg, c, [], needed).dir == map[]
  {
    assert C.RemoveEntries(map[], {}) == map[];
    assert C.Names([]) == {};
  }

  function TripleOf(cfg: C.Config, key: string, file: C.File): Triple
    requires file.metadata.Some?
  {
    Triple(ContentPath(cfg.layout, key), file.content, file.metadata.value)
  }

  /** A file with metadata that is not the empty one and can be read back. */
  predicate Telling(cfg: C.Config, file: C.File) {
    file.metadata.Some? && file.metadata.value != C.NO_METADATA && C.RoundTrips(cfg, file.metadata.value)
  }

  /** The first lookup reads the content of the entry, stored at time zero, while it is fresh. */
  lemma {:induction false} FirstReads(cfg: C.Config, key: string, file: C.File) returns (w: World)
    requires 0 <= cfg.ttl && Telling(cfg, file)
    ensures Reachable(cfg, iset{TripleOf(cfg, key, file)}, w)
    ensures var p, node := ContentPath(cfg.layout, key), C.Node(file.content, 0);
            && w.readers == map[1 := Reader(key, HaveContent(node.bytes, node))]
            && p in w.cache.dir && w.cache.dir[p] == node && w.clock == cfg.ttl
  {
    var good := iset{TripleOf(cfg, key, file)};
    IdleIsReachable(cfg, good);
    EvictNothing(cfg, IDLE.cache, |file.content|);
    PathsSeparateDigests(cfg.layout, key, key);
    var write := Write(R.Set(key, file, []));
    OneMoreAction(cfg, good, IDLE, write);
    w := Next(cfg, IDLE, write);
    OneMoreAction(cfg, good, w, Tick(cfg.ttl));
    w := Next(cfg, w, Tick(cfg.ttl));
    OneMoreAction(cfg, good, w, Enter(1, key));
    w := Next(cfg, w, Enter(1, key));
    FreshPath(cfg, w, 1, key);
    AloneIsReachable(cfg, good, w, 1, 4);
    w := Alone(cfg, w, 1, 4);
  }

  /** When the entry has reached `age`, a second lookup enters and deletes both files. */
  lemma {:induction false} SecondDeletes(cfg: C.Config, good: iset<Triple>, key: string, node: C.Node, age: int,
                                         w: World)
    returns (v: World)
    requires Reachable(cfg, good, w) && 0 <= cfg.ttl < age
    requires w.readers == map[1 := Reader(key, HaveContent(node.bytes, node))] && w.clock == cfg.ttl
    requires var p := ContentPath(cfg.layout, key); p in w.cache.dir && w.cache.dir[p] == node && node.mtime == 0
    ensures Reachable(cfg, good, v)
    ensures 1 in v.readers && v.readers[1] == Reader(key, HaveContent(node.bytes, node))
    ensures MetaPath(cfg.layout, key) !in v.cache.dir && v.clock == age
  {
    OneMoreAction(cfg, good, w, Tick(age - cfg.ttl));
    v := Next(cfg, w, Tick(age - cfg.ttl));
    OneMoreAction(cfg, good, v, Enter(2, key));
    v := Next(cfg, v, Enter(2, key));
    StalePath(cfg, v, 2, key);
    AloneIsReachable(cfg, good, v, 2, 6);
    v := Alone(cfg, v, 2, 6);
  }

  /** Then the first lookup goes on to the metadata, finds none, and leaves. */
  lemma {:induction false} FirstLeaves(cfg: C.Config, good: iset<Triple>, key: string, node: C.Node, v: World)
    returns (u: World)
    requires Reachable(cfg, good, v) && 1 in v.readers && v.readers[1] == Reader(key, HaveContent(node.bytes, node))
    requires MetaPath(cfg.layout, key) !in v.cache.dir
    ensures Reachable(cfg, good, u)
    ensures Completed(key, Success(C.Hit(node.bytes, C.NO_METADATA)), v.clock - node.mtime) in u.finished
  {
    HitPath(cfg, v, 1);
    AloneIsReachable(cfg, good, v, 1, 3);
    u := Alone(cfg, v, 1, 3);
    assert u == AdvanceReader(cfg, Alone(cfg, v, 1, 2), 1);
  }

  /**
   Whatever is stored, and however long past its time to live the metadata is read, some interleaving of two lookups
   returns the content without its metadata.
   */
  lemma {:induction false} MetadataCanVanish(cfg: C.Config, key: string, file: C.File, age: int)
    requires 0 <= cfg.ttl < age && Telling(cfg, file)
    ensures exists u :: Reachable(cfg, iset{TripleOf(cfg, key, file)}, u)
                        && Completed(key, Success(C.Hit(file.content, C.NO_METADATA)), age) in u.finished
  {
    var good, node := iset{TripleOf(cfg, key, file)}, C.Node(file.content, 0);
    var w := FirstReads(cfg, key, file);
    var v := SecondDeletes(cfg, good, key, node, age, w);
    var u := FirstLeaves(cfg, good, key, node, v);
  }

  // ----- a negative time to live -----

  /** No lookup inside has judged an entry fresh. */
  predicate NoPrize(w: World, phase: Phase) {
    match phase
    case Statted(seen) => seen.mtime <= w.clock
    case Fresh(_) => false
    case HaveContent(_, _) => false
    case HaveBoth(_, _, _) => false
    case Returning(answer, _) => answer.Failure?
    case _ => true
  }

  /** Nothing comes from the future, and nobody has hit. */
  ghost predicate Barren(w: World) {
    && (forall p :: p in w.cache.dir ==> w.cache.dir[p].mtime <= w.clock)
    && (forall id :: id in w.readers ==> NoPrize(w, w.readers[id].phase))
    && (forall c :: c in w.finished ==> c.answer.Failure?)
  }

  lemma {:induction false} WriteIsNow(cfg: C.Config, w: World, op: R.Op, p: string)
    requires Enabled(cfg, w, Write(op)) && p in Next(cfg, w, Write(op)).cache.dir
    ensures var node := Next(cfg, w, Write(op)).cache.dir[p];
            node.mtime == w.clock || (p in w.cache.dir && node == w.cache.dir[p])
  {
  }

  lemma {:induction false} StepKeepsBarren(cfg: C.Config, w: World, a: Action)
    requires cfg.ttl < 0 && Barren(w) && Enabled(cfg, w, a)
    ensures Barren(Next(cfg, w, a))
  {
    match a
    case Advance(id) =>
      AdvanceFrame(cfg, w, id);
      ReadersFrame(cfg, w, id);
    case Write(op) =>
      forall p | p in Next(cfg, w, a).cache.dir ensures Next(cfg, w, a).cache.dir[p].mtime <= w.clock {
        WriteIsNow(cfg, w, op, p);
      }
    case _ =>
  }

  /** With a negative time to live every entry has expired as soon as it is written, and no lookup ever hits. */
  lemma {:induction false} NegativeTtlNeverHits(cfg: C.Config, run: seq<Action>)
    requires cfg.ttl < 0 && Legal(cfg, IDLE, run)
    ensures Barren(After(cfg, IDLE, run))
    decreases |run|
  {
    if run != [] {
      NegativeTtlNeverHits(cfg, Front(run));
      StepKeepsBarren(cfg, After(cfg, IDLE, Front(run)), Last(run));
    }
  }

  // ----- exactly when metadata can be lost -----

  /** If the lookup hit, it returned one of the good pairs. */
  ghost predicate Whole(cfg: C.Config, good: iset<Triple>, c: Completed) {
    c.answer.Success? ==>
      && c.answer.value.metadata.Some?
      && Triple(ContentPath(cfg.layout, c.key), c.answer.value.content, c.answer.value.metadata.value) in good
  }

  /** In every run that writes only good pairs, each hit whose metadata was read at this age is a good pair. */
  ghost predicate SafeAtAge(cfg: C.Config, age: int) {
    forall good, w, c :: Reachable(cfg, good, w) && c in w.finished && c.age == age ==> Whole(cfg, good, c)
  }

  lemma {:induction false} FreshHitsAreWhole(cfg: C.Config, good: iset<Triple>, w: World, c: Completed)
    requires Reachable(cfg, good, w) && c in w.finished && c.age <= cfg.ttl
    ensures Whole(cfg, good, c)
  {
    var run :| Reaches(cfg, good, run, w);
    if c.answer.Success? {
      HitsAreCoherent(cfg, good, IDLE, run, c);
    }
  }

  lemma {:induction false} BarrenIsWhole(cfg: C.Config, good: iset<Triple>, w: World, c: Completed)
    requires Reachable(cfg, good, w) && c in w.finished && cfg.ttl < 0
    ensures Whole(cfg, good, c)
  {
    var run :| Reaches(cfg, good, run, w);
    NegativeTtlNeverHits(cfg, run);
  }

  /**
   The exact condition: a hit is sure to carry its stored metadata, in every interleaving, exactly when the entry is
   at most `ttl` old at the moment its metadata is read (or there are no hits at all).
   */
  lemma {:induction false} MetadataIsSafeExactlyWhileFresh(cfg: C.Config, key: string, file: C.File, age: int)
    requires Telling(cfg, file)
    ensures SafeAtAge(cfg, age) <==> age <= cfg.ttl || cfg.ttl < 0
  {
    if age <= cfg.ttl || cfg.ttl < 0 {
      forall good, w, c | Reachable(cfg, good, w) && c in w.finished && c.age == age ensures Whole(cfg, good, c) {
        if age <= cfg.ttl {
          FreshHitsAreWhole(cfg, good, w, c);
        } else {
          BarrenIsWhole(cfg, good, w, c);
        }
      }
    } else {
      MetadataCanVanish(cfg, key, file, age);
      assert !Whole(cfg, iset{TripleOf(cfg, key, file)},
                    Completed(key, Success(C.Hit(file.content, C.NO_METADATA)), age));
    }
  }
}
