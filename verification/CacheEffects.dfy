/**
 What each cache operation does to the files and the counters, path by path and number by number.
 */
module CacheEffects {
  import opened Basics
  import opened CachePaths
  import opened EvictionOrder
  import C = CacheModel

  // ----- the order in which eviction takes files -----

  /** The walk meets `a` before `b`. */
  ghost predicate Before(walk: seq<string>, a: string, b: string) {
    exists i, j :: 0 <= i < j < |walk| && walk[i] == a && walk[j] == b
  }

  /** `x` is older than `y`, or as old and met earlier. */
  ghost predicate Precedes(walk: seq<string>, x: FileInfo, y: FileInfo) {
    x.modTime < y.modTime || (x.modTime == y.modTime && Before(walk, x.path, y.path))
  }

  ghost predicate InOrder(walk: seq<string>, s: seq<FileInfo>) {
    forall i, j :: 0 <= i < j < |s| ==> Precedes(walk, s[i], s[j])
  }

  /** The content files of the directory with their sizes and times, oldest first, equally old ones as met. */
  ghost predicate AgeOrder(dir: C.Dir, walk: seq<string>, order: seq<FileInfo>) {
    && (forall p :: p in dir && IsContent(p) ==> FileInfo(p, |dir[p].bytes|, dir[p].mtime) in order)
    && (forall x :: x in order ==>
          x.path in dir && IsContent(x.path) && x == FileInfo(x.path, |dir[x.path].bytes|, dir[x.path].mtime))
    && (forall i, j :: 0 <= i < j < |order| ==> order[i].path != order[j].path)
    && InOrder(walk, order)
  }

  /** The first `k` files of the age order are the shortest prefix that frees `needed` bytes, or all of them. */
  ghost predicate ShortestPrefix(dir: C.Dir, walk: seq<string>, needed: int, order: seq<FileInfo>, k: nat) {
    && AgeOrder(dir, walk, order) && k <= |order|
    && (needed <= Total(order[..k]) || k == |order|)
    && (forall j :: 0 <= j < k ==> Total(order[..j]) < needed)
  }

  ghost predicate AsMet(walk: seq<string>, s: seq<FileInfo>) {
    forall i, j :: 0 <= i < j < |s| ==> Before(walk, s[i].path, s[j].path)
  }

  lemma {:induction false} EntriesAsMet(dir: C.Dir, walk: seq<string>)
    requires forall p :: p in walk ==> p in dir
    ensures AsMet(walk, C.Entries(dir, walk))
    ensures forall x :: x in C.Entries(dir, walk) ==> x.path in walk
  {
    if walk != [] {
      var rest := C.Entries(dir, walk[1..]);
      EntriesAsMet(dir, walk[1..]);
      forall i, j | 0 <= i < j < |rest| ensures Before(walk, rest[i].path, rest[j].path) {
        MetLater(walk, rest[i].path, rest[j].path);
      }
      forall j | 0 <= j < |rest| ensures Before(walk, walk[0], rest[j].path) {
        assert rest[j] in rest;
        MetAfterFirst(walk, rest[j].path);
      }
    }
  }

  lemma {:induction false} MetLater(walk: seq<string>, a: string, b: string)
    requires walk != [] && Before(walk[1..], a, b)
    ensures Before(walk, a, b)
  {
    var i, j :| 0 <= i < j < |walk[1..]| && walk[1..][i] == a && walk[1..][j] == b;
    assert walk[i + 1] == a && walk[j + 1] == b;
  }

  lemma {:induction false} MetAfterFirst(walk: seq<string>, b: string)
    requires walk != [] && b in walk[1..]
    ensures Before(walk, walk[0], b)
  {
    var j :| 0 <= j < |walk[1..]| && walk[1..][j] == b;
    assert walk[j + 1] == b;
  }

  lemma {:induction false} InsertInOrder(walk: seq<string>, x: FileInfo, s: seq<FileInfo>)
    requires InOrder(walk, s) && forall y :: y in s ==> Before(walk, x.path, y.path)
    ensures InOrder(walk, Insert(x, s))
    ensures forall y :: y in Insert(x, s) <==> y == x || y in s
  {
    if s != [] && s[0].modTime < x.modTime {
      var rest := Insert(x, s[1..]);
      assert s == [s[0]] + s[1..];
      InsertInOrder(walk, x, s[1..]);
      forall j | 0 <= j < |rest| ensures Precedes(walk, s[0], rest[j]) {
        assert rest[j] in rest;
      }
    } else if s != [] {
      forall j | 0 <= j < |s| ensures Precedes(walk, x, s[j]) {
        assert j > 0 ==> Precedes(walk, s[0], s[j]);
        assert s[j] in s;
      }
    }
  }

  lemma {:induction false} SortInOrder(walk: seq<string>, s: seq<FileInfo>)
    requires AsMet(walk, s)
    ensures InOrder(walk, StableSort(s))
    ensures forall y :: y in StableSort(s) <==> y in s
  {
    if s != [] {
      SortInOrder(walk, s[1..]);
      forall y | y in StableSort(s[1..]) ensures Before(walk, s[0].path, y.path) {
        var j :| 0 <= j < |s[1..]| && s[1..][j] == y;
        assert s[j + 1] == y;
      }
      InsertInOrder(walk, s[0], StableSort(s[1..]));
      assert s == [s[0]] + s[1..];
    }
  }

  lemma {:induction false} EvictionIsInAgeOrder(dir: C.Dir, walk: seq<string>)
    requires C.Walks(dir, walk)
    ensures AgeOrder(dir, walk, StableSort(C.Entries(dir, walk)))
  {
    var all := C.Entries(dir, walk);
    C.EntriesOfWalk(dir, walk);
    C.EntriesDistinct(dir, walk);
    EntriesAsMet(dir, walk);
    SortInOrder(walk, all);
    StableSortIsStableSort(all);
    StableIsPermutation(all, StableSort(all));
    C.PermutationKeepsDistinct(all, StableSort(all));
  }

  lemma {:induction false} EvictionTakesShortestPrefix(dir: C.Dir, walk: seq<string>, needed: int)
    requires C.Walks(dir, walk)
    ensures var order, k := StableSort(C.Entries(dir, walk)), |C.Evicted(dir, walk, needed)|;
            ShortestPrefix(dir, walk, needed, order, k) && C.Evicted(dir, walk, needed) == order[..k]
  {
    EvictionIsInAgeOrder(dir, walk);
    VictimsByTotal(StableSort(C.Entries(dir, walk)), needed);
  }

  lemma {:induction false} VictimsByTotal(order: seq<FileInfo>, needed: int)
    ensures var k := |Victims(order, needed)|;
            && k <= |order| && Victims(order, needed) == order[..k]
            && (needed <= Total(order[..k]) || k == |order|)
            && (forall j :: 0 <= j < k ==> Total(order[..j]) < needed)
  {
    VictimsAreShortestPrefix(order, needed);
  }

  // ----- removing and storing files -----

  /** A path survives a removal exactly if it is neither a removed content file nor the metadata file of one. */
  lemma {:induction false} RemovalByPath(dir: C.Dir, s: set<string>, q: string)
    requires C.ContentNames(s)
    ensures var d := C.RemoveEntries(dir, s);
            && (q in d <==> q in dir && q !in s && forall p :: p in s ==> q != Sidecar(p))
            && (q in d ==> d[q] == dir[q])
  {
  }

  lemma {:induction false} StoreByPath(cfg: C.Config, dir: C.Dir, key: string, file: C.File, now: int, q: string)
    ensures var p, m := ContentPath(cfg.layout, key), MetaPath(cfg.layout, key);
            var d := C.Stored(cfg, dir, key, file, now);
            && (q in d <==> q in dir || q == p || (q == m && file.metadata.Some?))
            && (q == p ==> d[q] == C.Node(file.content, now))
            && (q == m && file.metadata.Some? ==> d[q] == C.Node(cfg.encode(file.metadata.value), now))
            && (q in dir && q != p && (q != m || file.metadata.None?) ==> d[q] == dir[q])
  {
    PathsSeparateDigests(cfg.layout, key, key);
  }

  // ----- Set -----

  /** A `Set` for which the counter says there is room. */
  lemma {:induction false} SetWithRoom(cfg: C.Config, c: C.Cache, key: string, file: C.File, walk: seq<string>,
                                       now: int)
    requires c.size + |file.content| <= cfg.maxSize
    ensures var p, m, n := ContentPath(cfg.layout, key), MetaPath(cfg.layout, key), |file.content|;
            var d := C.Set(cfg, c, key, file, walk, now);
            && C.Contents(d.dir) == C.Contents(c.dir) + {p}
            && d.size == c.size + n && d.items == c.items + 1 && d.hits == c.hits && d.misses == c.misses
            && d.dir[p] == C.Node(file.content, now)
            && (file.metadata.Some? ==> m in d.dir && d.dir[m] == C.Node(cfg.encode(file.metadata.value), now))
            && (forall q :: q in d.dir <==> q in c.dir || q == p || (q == m && file.metadata.Some?))
            && (forall q :: q in c.dir && q != p && (q != m || file.metadata.None?) ==> d.dir[q] == c.dir[q])
  {
    var d := C.Set(cfg, c, key, file, walk, now).dir;
    C.StoredContents(cfg, c.dir, key, file, now);
    StoreByPath(cfg, c.dir, key, file, now, MetaPath(cfg.layout, key));
    forall q ensures (q in d <==> q in c.dir || q == ContentPath(cfg.layout, key)
                                  || (q == MetaPath(cfg.layout, key) && file.metadata.Some?)) {
      StoreByPath(cfg, c.dir, key, file, now, q);
    }
    PathsSeparateDigests(cfg.layout, key, key);
  }

  /** The first `k` of these files. */
  ghost function FirstPaths(order: seq<FileInfo>, k: nat): set<string>
    requires k <= |order|
  {
    set i | 0 <= i < k :: order[i].path
  }

  /** How a `Set` that found the counter too high has changed the cache: `k` files of `order` have gone before. */
  ghost predicate SetAfterEviction(cfg: C.Config, c: C.Cache, d: C.Cache, key: string, file: C.File, now: int,
                                   order: seq<FileInfo>, k: nat)
    requires k <= |order| && forall x :: x in order ==> IsContent(x.path)
  {
    var p, m, gone := ContentPath(cfg.layout, key), MetaPath(cfg.layout, key), FirstPaths(order, k);
    && C.Contents(d.dir) == (C.Contents(c.dir) - gone) + {p}
    && d.size == c.size - Total(order[..k]) + |file.content| && d.items == c.items - k + 1
    && d.hits == c.hits && d.misses == c.misses
    && p in d.dir && d.dir[p] == C.Node(file.content, now)
    && (file.metadata.Some? ==> m in d.dir && d.dir[m] == C.Node(cfg.encode(file.metadata.value), now))
    && (forall q :: q in d.dir && q != p && (q != m || file.metadata.None?) ==> q in c.dir && d.dir[q] == c.dir[q])
    && (forall q :: q in c.dir && q != p && (q != m || file.metadata.None?) ==>
          (q !in d.dir <==> exists i :: 0 <= i < k && (q == order[i].path || q == Sidecar(order[i].path))))
  }

  /**
   A `Set` that finds the counter too high first removes exactly the shortest prefix, in stable age order, that frees
   the size of the file (or everything), with the metadata files; then it stores the file.
   */
  lemma {:induction false} SetWithoutRoom(cfg: C.Config, c: C.Cache, key: string, file: C.File, walk: seq<string>,
                                          now: int)
    requires c.size + |file.content| > cfg.maxSize && C.Walks(c.dir, walk)
    ensures exists order, k: nat ::
              && ShortestPrefix(c.dir, walk, |file.content|, order, k)
              && SetAfterEviction(cfg, c, C.Set(cfg, c, key, file, walk, now), key, file, now, order, k)
  {
    var n := |file.content|;
    var order, k := StableSort(C.Entries(c.dir, walk)), |C.Evicted(c.dir, walk, n)|;
    EvictionTakesShortestPrefix(c.dir, walk, n);
    C.EvictedAreContents(c.dir, walk, n);
    C.EvictMeasure(c, walk, n);
    NamesAreFirst(order, k);
    StoredAfterEviction(cfg, c, key, file, walk, now, order, k);
  }

  lemma {:induction false} NamesAreFirst(order: seq<FileInfo>, k: nat)
    requires k <= |order|
    ensures C.Names(order[..k]) == FirstPaths(order, k)
  {
    forall p ensures p in C.Names(order[..k]) <==> p in FirstPaths(order, k) {
      if p in FirstPaths(order, k) {
        var i :| 0 <= i < k && order[i].path == p;
        assert order[..k][i] == order[i];
      }
    }
  }

  lemma {:induction false} StoredAfterEviction(cfg: C.Config, c: C.Cache, key: string, file: C.File, walk: seq<string>,
                                               now: int, order: seq<FileInfo>, k: nat)
    requires c.size + |file.content| > cfg.maxSize && C.Walks(c.dir, walk)
    requires k <= |order| && forall x :: x in order ==> IsContent(x.path)
    requires C.Evicted(c.dir, walk, |file.content|) == order[..k]
    requires C.Names(order[..k]) == FirstPaths(order, k) && C.ContentNames(FirstPaths(order, k))
    requires C.Contents(C.EvictOldest(c, walk, |file.content|).dir) == C.Contents(c.dir) - FirstPaths(order, k)
    ensures SetAfterEviction(cfg, c, C.Set(cfg, c, key, file, walk, now), key, file, now, order, k)
  {
    var p, m := ContentPath(cfg.layout, key), MetaPath(cfg.layout, key);
    var room := C.EvictOldest(c, walk, |file.content|).dir;
    var d := C.Set(cfg, c, key, file, walk, now).dir;
    PathsSeparateDigests(cfg.layout, key, key);
    C.StoredContents(cfg, room, key, file, now);
    StoreByPath(cfg, room, key, file, now, m);
    forall q | q != p && (q != m || file.metadata.None?)
      ensures q in d ==> q in c.dir && d[q] == c.dir[q]
      ensures q in c.dir ==>
                (q !in d <==> exists i :: 0 <= i < k && (q == order[i].path || q == Sidecar(order[i].path)))
    {
      StoreByPath(cfg, room, key, file, now, q);
      GoneByIndex(c.dir, order, k, q);
    }
  }

  lemma {:induction false} GoneByIndex(dir: C.Dir, order: seq<FileInfo>, k: nat, q: string)
    requires k <= |order| && forall x :: x in order ==> IsContent(x.path)
    requires C.ContentNames(FirstPaths(order, k))
    ensures var d := C.RemoveEntries(dir, FirstPaths(order, k));
            && (q in d ==> q in dir && d[q] == dir[q])
            && (q in dir ==>
                  (q !in d <==> exists i :: 0 <= i < k && (q == order[i].path || q == Sidecar(order[i].path))))
  {
    var s := FirstPaths(order, k);
    RemovalByPath(dir, s, q);
    if i :| 0 <= i < k && (q == order[i].path || q == Sidecar(order[i].path)) {
      assert order[i].path in s;
    }
    if p :| p in s && (q == p || q == Sidecar(p)) {
      var i :| 0 <= i < k && order[i].path == p;
    }
  }

  // ----- Get, Delete, Clear and cleanup -----

  /** A lookup hits exactly when the content file is there and at most `ttl` old; an expired entry loses both files. */
  lemma {:induction false} GetEffect(cfg: C.Config, c: C.Cache, key: string, now: int)
    ensures var p, m := ContentPath(cfg.layout, key), MetaPath(cfg.layout, key);
            var d, answer := C.Get(cfg, c, key, now), C.GetAnswer(cfg, c, key, now);
            && d.size == c.size && d.items == c.items
            && if p in c.dir && now - c.dir[p].mtime <= cfg.ttl then
                 && d.hits == c.hits + 1 && d.misses == c.misses && d.dir == c.dir
                 && answer.Success? && answer.value.content == c.dir[p].bytes
                 && answer.value.txid == "" && answer.value.chainID == "" && answer.value.metadata.Some?
                 && (m in c.dir ==> answer.value.metadata.value == cfg.decode(c.dir[m].bytes))
                 && (m !in c.dir ==> answer.value.metadata.value == C.Metadata("", 0, "", "", "", false, false))
               else
                 && d.hits == c.hits && d.misses == c.misses + 1 && answer == Failure(C.CacheMiss)
                 && (forall q :: q in d.dir <==> q in c.dir && (p in c.dir ==> q != p && q != m))
                 && (forall q :: q in d.dir ==> d.dir[q] == c.dir[q])
  {
  }

  /** Both files go, whether or not the other is there, and the counters drop by the content file found. */
  lemma {:induction false} DeleteEffect(cfg: C.Config, c: C.Cache, key: string)
    ensures var p, m := ContentPath(cfg.layout, key), MetaPath(cfg.layout, key);
            var d := C.Delete(cfg, c, key);
            && (forall q :: q in d.dir <==> q in c.dir && q != p && q != m)
            && (forall q :: q in d.dir ==> d.dir[q] == c.dir[q])
            && d.size == c.size - (if p in c.dir then |c.dir[p].bytes| else 0)
            && d.items == c.items - (if p in c.dir then 1 else 0)
            && d.hits == c.hits && d.misses == c.misses
  {
  }

  lemma {:induction false} ClearEffect(c: C.Cache)
    ensures C.Clear(c) == C.Cache(map[], 0, 0, c.hits, c.misses)
  {
  }

  /** A cleanup removes the content files older than `ttl` and their metadata files, and no others. */
  lemma {:induction false} CleanupEffect(cfg: C.Config, c: C.Cache, now: int, q: string)
    ensures var d := C.Cleanup(cfg, c, now);
            && (q in d.dir ==> q in c.dir && d.dir[q] == c.dir[q])
            && (q in c.dir ==>
                  (q !in d.dir <==> exists p :: p in c.dir && IsContent(p) && now - c.dir[p].mtime > cfg.ttl
                                                && (q == p || q == Sidecar(p))))
            && c.size - d.size == C.RealBytes(c.dir) - C.RealBytes(d.dir)
            && c.items - d.items == C.RealItems(c.dir) - C.RealItems(d.dir)
            && d.hits == c.hits && d.misses == c.misses
  {
    var gone := C.ExpiredContents(cfg, c.dir, now);
    C.CleanupMeasure(cfg, c, now);
    RemovalByPath(c.dir, gone, q);
    if p :| p in c.dir && IsContent(p) && now - c.dir[p].mtime > cfg.ttl && (q == p || q == Sidecar(p)) {
      assert p in gone;
    }
  }
}
