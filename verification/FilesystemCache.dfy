/**
 The cache object: methods that update the directory and the counters in place, each proved to compute the
 corresponding function of `CacheModel`.

 `walk` stands for the order in which `filepath.Walk` visits the files, `now` for the clock, `cancelled` for the
 state of the caller's context on entry.
 */
module FilesystemCaches {
  import opened Basics
  import opened CachePaths
  import opened EvictionOrder
  import C = CacheModel

  const DEFAULT_MAX_SIZE: int := 1024 * 1024 * 1024
  const DEFAULT_TTL: int := 24 * 60 * 60 * 1_000_000_000 // 24 h in nanoseconds

  class FilesystemCache {
    const cfg: C.Config
    var dir: C.Dir
    var size: int
    var items: int
    var hits: nat
    var misses: nat

    ghost function State(): C.Cache
      reads this
    {
      C.Cache(dir, size, items, hits, misses)
    }

    /** A new cache over whatever the directory holds; zero limits mean the defaults. */
    constructor (cfg: C.Config, dir: C.Dir, walk: seq<string>)
      requires C.Walks(dir, walk)
      ensures this.cfg == cfg.(maxSize := if cfg.maxSize == 0 then 1_073_741_824 else cfg.maxSize,
                               ttl := if cfg.ttl == 0 then 86_400_000_000_000 else cfg.ttl)
      ensures State() == C.Cache(dir, C.RealBytes(dir), C.RealItems(dir), 0, 0)
    {
      var maxSize, ttl := cfg.maxSize, cfg.ttl;
      if maxSize == 0 {
        maxSize := DEFAULT_MAX_SIZE;
      }
      if ttl == 0 {
        ttl := DEFAULT_TTL;
      }
      this.cfg := cfg.(maxSize := maxSize, ttl := ttl);
      this.dir, size, items, hits, misses := dir, 0, 0, 0, 0;
      new;
      CalculateSize(walk);
    }

    method CalculateSize(walk: seq<string>)
      requires C.Walks(dir, walk)
      modifies this`size, this`items
      ensures size == C.RealBytes(dir) && items == C.RealItems(dir)
    {
      var totalSize, totalItems := 0, 0;
      for i := 0 to |walk|
        invariant totalSize == C.TotalBytes(dir, Counted(dir, walk[..i]))
        invariant totalItems == |Counted(dir, walk[..i])|
      {
        var path := walk[i];
        CountOneMore(dir, walk, i);
        if Ext(path) == ".bin" {
          totalSize := totalSize + |dir[path].bytes|;
          totalItems := totalItems + 1;
        }
      }
      assert walk[..|walk|] == walk;
      assert Counted(dir, walk) == C.Contents(dir);
      size, items := totalSize, totalItems;
    }

    method Get(key: string, now: int, cancelled: bool) returns (r: Result<C.File, C.CacheError>)
      modifies this
      ensures cancelled ==> State() == old(State()) && r == Failure(C.Cancelled)
      ensures !cancelled ==> State() == C.Get(cfg, old(State()), key, now)
      ensures !cancelled ==> r == C.GetAnswer(cfg, old(State()), key, now)
    {
      if cancelled {
        return Failure(C.Cancelled);
      }
      var contentPath, metaPath := ContentPath(cfg.layout, key), MetaPath(cfg.layout, key);
      if contentPath !in dir {
        misses := misses + 1;
        return Failure(C.CacheMiss);
      }
      if now - dir[contentPath].mtime > cfg.ttl {
        misses := misses + 1;
        dir := dir - {contentPath};
        dir := dir - {metaPath};
        assert dir == old(dir) - {contentPath, metaPath};
        return Failure(C.CacheMiss);
      }
      var content := dir[contentPath].bytes;
      var metadata := C.NO_METADATA;
      if metaPath in dir {
        metadata := cfg.decode(dir[metaPath].bytes);
      }
      hits := hits + 1;
      return Success(C.Hit(content, metadata));
    }

    method Set(key: string, file: C.File, now: int, cancelled: bool, walk: seq<string>) returns (r: Result<(),
        C.CacheError>)
      requires !cancelled && C.NeedsRoom(cfg, State(), |file.content|) ==> C.Walks(dir, walk)
      modifies this
      ensures cancelled ==> State() == old(State()) && r == Failure(C.Cancelled)
      ensures !cancelled ==> State() == C.Set(cfg, old(State()), key, file, walk, now) && r == Success(())
    {
      if cancelled {
        return Failure(C.Cancelled);
      }
      var fileSize := |file.content|;
      if size + fileSize > cfg.maxSize {
        EvictOldest(walk, fileSize);
      }
      var contentPath, metaPath := ContentPath(cfg.layout, key), MetaPath(cfg.layout, key);
      dir := dir[contentPath := C.Node(file.content, now)];
      if file.metadata.Some? {
        dir := dir[metaPath := C.Node(cfg.encode(file.metadata.value), now)];
      }
      size := size + fileSize;
      items := items + 1;
      return Success(());
    }

    method Delete(key: string, cancelled: bool) returns (r: Result<(), C.CacheError>)
      modifies this
      ensures cancelled ==> State() == old(State()) && r == Failure(C.Cancelled)
      ensures !cancelled ==> State() == C.Delete(cfg, old(State()), key) && r == Success(())
    {
      if cancelled {
        return Failure(C.Cancelled);
      }
      var contentPath, metaPath := ContentPath(cfg.layout, key), MetaPath(cfg.layout, key);
      if contentPath in dir {
        size := size - |dir[contentPath].bytes|;
        items := items - 1;
      }
      dir := dir - {contentPath};
      dir := dir - {metaPath};
      assert dir == old(dir) - {contentPath, metaPath};
      return Success(());
    }

    method Clear(cancelled: bool) returns (r: Result<(), C.CacheError>)
      modifies this
      ensures cancelled ==> State() == old(State()) && r == Failure(C.Cancelled)
      ensures !cancelled ==> State() == C.Clear(old(State())) && r == Success(())
    {
      if cancelled {
        return Failure(C.Cancelled);
      }
      dir := map[];
      size, items := 0, 0;
      return Success(());
    }

    /** The walk of eviction: every content file with its size and time, in the order visited. */
    method CollectFiles(walk: seq<string>) returns (files: array<FileInfo>)
      requires C.Walks(dir, walk)
      ensures fresh(files) && files[..] == C.Entries(dir, walk)
    {
      var found: seq<FileInfo> := [];
      for i := 0 to |walk|
        invariant found + C.Entries(dir, walk[i..]) == C.Entries(dir, walk)
      {
        var path := walk[i];
        CollectOneMore(dir, walk, i, found);
        if Ext(path) == ".bin" {
          found := found + [FileInfo(path, |dir[path].bytes|, dir[path].mtime)];
        }
      }
      files := new FileInfo[|found|](i requires 0 <= i < |found| => found[i]);
      assert files[..] == found;
    }

    method EvictOldest(walk: seq<string>, neededSize: int)
      requires C.Walks(dir, walk)
      modifies this`dir, this`size, this`items
      ensures State() == C.EvictOldest(old(State()), walk, neededSize)
    {
      var files := CollectFiles(walk);
      BubbleSort(files);
      OrderedContents(dir, walk);
      EvictInOrder(files, neededSize);
      C.EvictedAreContents(old(dir), walk, neededSize);
    }

    /** The loop of eviction: takes files off the front until enough is freed. */
    method EvictInOrder(files: array<FileInfo>, neededSize: int)
      requires C.ContentNames(C.Names(files[..]))
      modifies this`dir, this`size, this`items
      ensures C.ContentNames(C.Names(Victims(files[..], neededSize)))
      ensures State() == EvictedSoFar(old(State()), Victims(files[..], neededSize))
    {
      ghost var before, order := State(), files[..];
      EvictNone(before, order);
      var freedSize, k := 0, 0;
      while k < files.Length && freedSize < neededSize
        invariant 0 <= k <= files.Length && files[..] == order
        invariant freedSize == Total(order[..k])
        invariant forall i :: 0 <= i < k ==> Total(order[..i]) < neededSize
        invariant C.ContentNames(C.Names(order[..k])) && State() == EvictedSoFar(before, order[..k])
      {
        var f := files[k];
        EvictOneMore(before, order, k);
        dir := dir - {f.path};
        dir := dir - {Sidecar(f.path)};
        freedSize := freedSize + f.size;
        size := size - f.size;
        items := items - 1;
        k := k + 1;
      }
      VictimsByIndex(order, neededSize, k);
    }

    /** The callback of cleanup's walk. A metadata file may have gone before the walk reaches it. */
    method CleanupVisit(path: string, now: int)
      modifies this`dir, this`size, this`items
      ensures State() == VisitFile(cfg, old(State()), path, now)
    {
      if path in dir && Ext(path) == ".bin" && now - dir[path].mtime > cfg.ttl {
        var bytes := |dir[path].bytes|;
        dir := dir - {path};
        dir := dir - {Sidecar(path)};
        size := size - bytes;
        items := items - 1;
      }
    }

    method Cleanup(now: int, walk: seq<string>)
      requires C.Walks(dir, walk)
      modifies this`dir, this`size, this`items
      ensures State() == C.Cleanup(cfg, old(State()), now)
    {
      ghost var before := State();
      ghost var gone: set<string> := {};
      assert C.RemoveEntries(dir, {}) == dir;
      for i := 0 to |walk|
        invariant gone == Visited(cfg, before.dir, walk[..i], now)
        invariant State() == CleanedUp(before, gone)
      {
        ghost var next := Visited(cfg, before.dir, walk[..i + 1], now);
        VisitedOneMore(cfg, before.dir, walk, i, now);
        VisitOneMore(cfg, before, gone, next, walk[i], now);
        CleanupVisit(walk[i], now);
        gone := next;
      }
      assert walk[..|walk|] == walk;
      assert gone == C.ExpiredContents(cfg, before.dir, now);
    }
  }

  /** The content files among those the counting walk has visited. */
  ghost function Counted(dir: C.Dir, walk: seq<string>): (s: set<string>)
    ensures s <= dir.Keys
  {
    set p | p in walk && p in dir && IsContent(p)
  }

  lemma {:induction false} CountedOneMore(dir: C.Dir, walk: seq<string>, i: nat)
    requires C.Walks(dir, walk) && i < |walk|
    ensures var s, t := Counted(dir, walk[..i]), Counted(dir, walk[..i + 1]);
            if IsContent(walk[i]) then walk[i] !in s && t == s + {walk[i]} else t == s
  {
    assert walk[..i + 1] == walk[..i] + [walk[i]];
  }

  lemma {:induction false} MeasureOneMore(dir: C.Dir, s: set<string>, p: string)
    requires s <= dir.Keys && p in dir && p !in s
    ensures C.TotalBytes(dir, s + {p}) == C.TotalBytes(dir, s) + |dir[p].bytes|
    ensures |s + {p}| == |s| + 1
  {
    C.BytesTake(dir, s + {p}, p);
    assert s + {p} - {p} == s;
  }

  lemma CountOneMore(dir: C.Dir, walk: seq<string>, i: nat)
    requires C.Walks(dir, walk) && i < |walk|
    ensures IsContent(walk[i]) ==>
              && C.TotalBytes(dir, Counted(dir, walk[..i + 1]))
                   == C.TotalBytes(dir, Counted(dir, walk[..i])) + |dir[walk[i]].bytes|
              && |Counted(dir, walk[..i + 1])| == |Counted(dir, walk[..i])| + 1
    ensures !IsContent(walk[i]) ==> Counted(dir, walk[..i + 1]) == Counted(dir, walk[..i])
  {
    CountedOneMore(dir, walk, i);
    if IsContent(walk[i]) {
      MeasureOneMore(dir, Counted(dir, walk[..i]), walk[i]);
    }
  }

  /** The cache when cleanup has taken these content files. */
  ghost function CleanedUp(c: C.Cache, gone: set<string>): C.Cache
    requires C.ContentNames(gone) && gone <= c.dir.Keys
  {
    c.(dir := C.RemoveEntries(c.dir, gone),
       size := c.size - C.TotalBytes(c.dir, gone),
       items := c.items - |gone|)
  }

  /** What the walk does with one file. */
  ghost function VisitFile(cfg: C.Config, c: C.Cache, p: string, now: int): C.Cache {
    if p in c.dir && IsContent(p) && C.Expired(cfg, c.dir[p], now) then
      c.(dir := c.dir - {p} - {Sidecar(p)}, size := c.size - |c.dir[p].bytes|, items := c.items - 1)
    else c
  }

  lemma {:induction false} VisitOneMore(cfg: C.Config, c: C.Cache, s: set<string>, t: set<string>, p: string, now: int)
    requires C.ContentNames(s) && s <= c.dir.Keys && p in c.dir
    requires if IsContent(p) && C.Expired(cfg, c.dir[p], now) then p !in s && t == s + {p} else t == s
    ensures C.ContentNames(t) && t <= c.dir.Keys
    ensures CleanedUp(c, t) == VisitFile(cfg, CleanedUp(c, s), p, now)
  {
    if IsContent(p) && C.Expired(cfg, c.dir[p], now) {
      MeasureOneMore(c.dir, s, p);
      RemoveOneMore(c.dir, s, p);
      StillThere(c.dir, s, p);
    }
  }

  /** The expired content files among those the cleanup walk has visited. */
  ghost function Visited(cfg: C.Config, dir: C.Dir, walk: seq<string>, now: int): (s: set<string>)
    ensures C.ContentNames(s) && s <= dir.Keys
  {
    set p | p in walk && p in dir && IsContent(p) && C.Expired(cfg, dir[p], now)
  }

  lemma {:induction false} VisitedOneMore(cfg: C.Config, dir: C.Dir, walk: seq<string>, i: nat, now: int)
    requires C.Walks(dir, walk) && i < |walk|
    ensures var p := walk[i];
            var s, t := Visited(cfg, dir, walk[..i], now), Visited(cfg, dir, walk[..i + 1], now);
            if IsContent(p) && C.Expired(cfg, dir[p], now) then p !in s && t == s + {p} else t == s
  {
    assert walk[..i + 1] == walk[..i] + [walk[i]];
  }

  lemma {:induction false} CollectOneMore(dir: C.Dir, walk: seq<string>, i: nat, found: seq<FileInfo>)
    requires C.Walks(dir, walk) && i < |walk|
    ensures IsContent(walk[i]) ==>
              found + C.Entries(dir, walk[i..]) == (found + [C.InfoAt(dir, walk[i])]) + C.Entries(dir, walk[i + 1..])
    ensures !IsContent(walk[i]) ==> C.Entries(dir, walk[i..]) == C.Entries(dir, walk[i + 1..])
  {
    assert walk[i..][1..] == walk[i + 1..];
  }

  /** The cache when eviction has taken these entries. */
  ghost function EvictedSoFar(c: C.Cache, gone: seq<FileInfo>): C.Cache
    requires C.ContentNames(C.Names(gone))
  {
    c.(dir := C.RemoveEntries(c.dir, C.Names(gone)), size := c.size - Total(gone), items := c.items - |gone|)
  }

  lemma {:induction false} EvictNone(c: C.Cache, order: seq<FileInfo>)
    ensures C.Names(order[..0]) == {} && EvictedSoFar(c, order[..0]) == c
  {
    assert C.Names(order[..0]) == {};
    assert C.RemoveEntries(c.dir, {}) == c.dir;
  }

  lemma EvictOneMore(c: C.Cache, order: seq<FileInfo>, k: nat)
    requires k < |order| && C.ContentNames(C.Names(order))
    requires C.ContentNames(C.Names(order[..k]))
    ensures IsContent(order[k].path)
    ensures C.ContentNames(C.Names(order[..k + 1]))
    ensures Total(order[..k + 1]) == Total(order[..k]) + order[k].size
    ensures var f, s := order[k], EvictedSoFar(c, order[..k]);
            EvictedSoFar(c, order[..k + 1])
              == s.(dir := s.dir - {f.path} - {Sidecar(f.path)}, size := s.size - f.size, items := s.items - 1)
  {
    var f := order[k];
    assert f in order && f.path in C.Names(order);
    assert order[..k + 1] == order[..k] + [f];
    TotalSnoc(order[..k], f);
    assert C.Names(order[..k + 1]) == C.Names(order[..k]) + {f.path};
    RemoveOneMore(c.dir, C.Names(order[..k]), f.path);
  }

  lemma OrderedContents(dir: C.Dir, walk: seq<string>)
    requires C.Walks(dir, walk)
    ensures C.ContentNames(C.Names(StableSort(C.Entries(dir, walk))))
  {
    C.EntriesOfWalk(dir, walk);
    StableSortIsStableSort(C.Entries(dir, walk));
    StableIsPermutation(C.Entries(dir, walk), StableSort(C.Entries(dir, walk)));
  }

  /** Entries can be removed one at a time. */
  lemma {:induction false} RemoveOneMore(dir: C.Dir, s: set<string>, p: string)
    requires C.ContentNames(s) && IsContent(p)
    ensures C.RemoveEntries(dir, s + {p}) == C.RemoveEntries(dir, s) - {p} - {Sidecar(p)}
  {
    assert C.Sidecars(s + {p}) == C.Sidecars(s) + {Sidecar(p)};
  }

  /** Removing other entries does not remove a content file. */
  lemma {:induction false} StillThere(dir: C.Dir, s: set<string>, p: string)
    requires C.ContentNames(s) && p !in s && p in dir
    ensures IsContent(p) ==> p in C.RemoveEntries(dir, s)
  {
    if IsContent(p) {
      forall q | q in s ensures Sidecar(q) != p {
        SidecarSeparates(q, p);
      }
    }
  }
}
