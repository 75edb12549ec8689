/**
 The filesystem cache as a value: a directory of files beside the counters the cache keeps about it, and one
 function per operation.  The class in `FilesystemCache.dfy` is proved to compute these functions.

 Assumptions: file writes and removals succeed, nothing else writes into the directory, and a write stamps the
 file with the current time.
 */
module CacheModel {
  import opened Basics
  import opened CachePaths
  import opened EvictionOrder

  datatype Metadata = Metadata(
    filename: string, size: int, contentType: string, extension: string,
    hash: string, compressed: bool, encrypted: bool)

  /** What a hit carries when the metadata file is missing: the zero value. */
  const NO_METADATA := Metadata("", 0, "", "", "", false, false)

  datatype File = File(txid: string, chainID: string, content: Bytes, metadata: Option<Metadata>)

  datatype CacheError = Cancelled | CacheMiss | ReadFailed

  datatype Node = Node(bytes: Bytes, mtime: int)

  type Dir = map<string, Node>

  /** Limits and the two uninterpreted codecs: the key hash (inside `layout`) and the JSON form of metadata. */
  datatype Config = Config(
    layout: Layout, maxSize: int, ttl: int,
    encode: Metadata -> Bytes, decode: Bytes -> Metadata)

  /** Reading this metadata back yields what was written. */
  predicate RoundTrips(cfg: Config, m: Metadata) {
    cfg.decode(cfg.encode(m)) == m
  }

  datatype Cache = Cache(dir: Dir, size: int, items: int, hits: nat, misses: nat)

  // ----- the directory -----

  predicate Expired(cfg: Config, node: Node, now: int) {
    now - node.mtime > cfg.ttl
  }

  ghost predicate ContentNames(s: set<string>) {
    forall p :: p in s ==> IsContent(p)
  }

  ghost function Sidecars(s: set<string>): set<string>
    requires ContentNames(s)
  {
    set p | p in s :: Sidecar(p)
  }

  /** The directory without these content files and without their metadata files. */
  ghost function RemoveEntries(dir: Dir, s: set<string>): Dir
    requires ContentNames(s)
  {
    dir - (s + Sidecars(s))
  }

  /** The content files present. */
  ghost function Contents(dir: Dir): set<string>
    ensures ContentNames(Contents(dir))
  {
    set p | p in dir && IsContent(p)
  }

  /** `walk` lists every file once: what `filepath.Walk` visits, in whatever order it visits it. */
  ghost predicate Walks(dir: Dir, walk: seq<string>) {
    (forall p :: p in walk <==> p in dir)
    && forall i, j :: 0 <= i < j < |walk| ==> walk[i] != walk[j]
  }

  /** The entries eviction collects on its walk. */
  ghost function Entries(dir: Dir, walk: seq<string>): seq<FileInfo>
    requires forall p :: p in walk ==> p in dir
  {
    if walk == [] then []
    else
      var p := walk[0];
      (if IsContent(p) then [FileInfo(p, |dir[p].bytes|, dir[p].mtime)] else []) + Entries(dir, walk[1..])
  }

  ghost function Names(s: seq<FileInfo>): set<string> {
    set x | x in s :: x.path
  }

  // ----- the operations -----

  /** The entries eviction deletes to free `needed` bytes. */
  ghost function Evicted(dir: Dir, walk: seq<string>, needed: int): seq<FileInfo>
    requires Walks(dir, walk)
  {
    Victims(StableSort(Entries(dir, walk)), needed)
  }

  ghost function EvictOldest(c: Cache, walk: seq<string>, needed: int): Cache
    requires Walks(c.dir, walk)
  {
    var gone := Evicted(c.dir, walk, needed);
    EvictedAreContents(c.dir, walk, needed);
    c.(dir := RemoveEntries(c.dir, Names(gone)), size := c.size - Total(gone), items := c.items - |gone|)
  }

  /** The counter that triggers eviction: `size` as the cache keeps it, which is not the real size. */
  predicate NeedsRoom(cfg: Config, c: Cache, needed: int) {
    c.size + needed > cfg.maxSize
  }

  ghost function MakeRoom(cfg: Config, c: Cache, walk: seq<string>, needed: int): Cache
    requires NeedsRoom(cfg, c, needed) ==> Walks(c.dir, walk)
  {
    if NeedsRoom(cfg, c, needed) then EvictOldest(c, walk, needed) else c
  }

  ghost function Stored(cfg: Config, dir: Dir, key: string, file: File, now: int): Dir {
    var d := dir[ContentPath(cfg.layout, key) := Node(file.content, now)];
    if file.metadata.Some?
    then d[MetaPath(cfg.layout, key) := Node(cfg.encode(file.metadata.value), now)]
    else d
  }

  ghost function Set(cfg: Config, c: Cache, key: string, file: File, walk: seq<string>, now: int): Cache
    requires NeedsRoom(cfg, c, |file.content|) ==> Walks(c.dir, walk)
  {
    var room := MakeRoom(cfg, c, walk, |file.content|);
    room.(dir := Stored(cfg, room.dir, key, file, now),
          size := room.size + |file.content|,
          items := room.items + 1)
  }

  /** The metadata a read of the metadata file yields. */
  function MetadataAt(cfg: Config, dir: Dir, path: string): Metadata {
    if path in dir then cfg.decode(dir[path].bytes) else NO_METADATA
  }

  function Hit(content: Bytes, metadata: Metadata): File {
    File("", "", content, Some(metadata))
  }

  function GetAnswer(cfg: Config, c: Cache, key: string, now: int): Result<File, CacheError> {
    var p := ContentPath(cfg.layout, key);
    if p !in c.dir || Expired(cfg, c.dir[p], now) then Failure(CacheMiss)
    else Success(Hit(c.dir[p].bytes, MetadataAt(cfg, c.dir, MetaPath(cfg.layout, key))))
  }

  function Get(cfg: Config, c: Cache, key: string, now: int): Cache {
    var p := ContentPath(cfg.layout, key);
    if p !in c.dir then c.(misses := c.misses + 1)
    else if Expired(cfg, c.dir[p], now) then
      c.(dir := c.dir - {p, MetaPath(cfg.layout, key)}, misses := c.misses + 1)
    else c.(hits := c.hits + 1)
  }

  function Delete(cfg: Config, c: Cache, key: string): Cache {
    var p := ContentPath(cfg.layout, key);
    var d := c.dir - {p, MetaPath(cfg.layout, key)};
    if p in c.dir then c.(dir := d, size := c.size - |c.dir[p].bytes|, items := c.items - 1)
    else c.(dir := d)
  }

  function Clear(c: Cache): Cache {
    c.(dir := map[], size := 0, items := 0)
  }

  ghost function ExpiredContents(cfg: Config, dir: Dir, now: int): set<string>
    ensures ContentNames(ExpiredContents(cfg, dir, now))
  {
    set p | p in dir && IsContent(p) && Expired(cfg, dir[p], now)
  }

  ghost function Cleanup(cfg: Config, c: Cache, now: int): Cache {
    var gone := ExpiredContents(cfg, c.dir, now);
    c.(dir := RemoveEntries(c.dir, gone),
       size := c.size - TotalBytes(c.dir, gone),
       items := c.items - |gone|)
  }

  // ----- what is really on disk -----

  /** Total content bytes of these files. */
  ghost function TotalBytes(dir: Dir, s: set<string>): nat
    requires s <= dir.Keys
  {
    if s == {} then 0 else
      var p :| p in s;
      |dir[p].bytes| + TotalBytes(dir, s - {p})
  }

  ghost function RealBytes(dir: Dir): nat {
    TotalBytes(dir, Contents(dir))
  }

  ghost function RealItems(dir: Dir): nat {
    |Contents(dir)|
  }

  lemma {:induction false} BytesTake(dir: Dir, s: set<string>, p: string)
    requires s <= dir.Keys && p in s
    ensures TotalBytes(dir, s) == |dir[p].bytes| + TotalBytes(dir, s - {p})
  {
    var q :| q in s && TotalBytes(dir, s) == |dir[q].bytes| + TotalBytes(dir, s - {q});
    if q != p {
      BytesTake(dir, s - {q}, p);
      BytesTake(dir, s - {p}, q);
      assert s - {q} - {p} == s - {p} - {q};
    }
  }

  lemma {:induction false} BytesFrame(d: Dir, e: Dir, s: set<string>)
    requires s <= d.Keys && s <= e.Keys
    requires forall p :: p in s ==> d[p].bytes == e[p].bytes
    ensures TotalBytes(d, s) == TotalBytes(e, s)
  {
    if s != {} {
      var p :| p in s;
      BytesTake(d, s, p);
      BytesTake(e, s, p);
      BytesFrame(d, e, s - {p});
    }
  }

  lemma {:induction false} BytesSplit(dir: Dir, s: set<string>, t: set<string>)
    requires s <= t <= dir.Keys
    ensures TotalBytes(dir, t) == TotalBytes(dir, s) + TotalBytes(dir, t - s)
  {
    if s == {} {
      assert t - s == t;
    } else {
      var p :| p in s;
      BytesTake(dir, s, p);
      BytesTake(dir, t, p);
      BytesSplit(dir, s - {p}, t - {p});
      assert (t - {p}) - (s - {p}) == t - s;
    }
  }

  /** Removing entries takes exactly their content files, and their bytes, off the real totals. */
  lemma {:induction false} RemoveEntriesMeasure(dir: Dir, s: set<string>)
    requires s <= Contents(dir)
    ensures Contents(RemoveEntries(dir, s)) == Contents(dir) - s
    ensures RealBytes(RemoveEntries(dir, s)) == RealBytes(dir) - TotalBytes(dir, s)
    ensures RealItems(RemoveEntries(dir, s)) == RealItems(dir) - |s|
  {
    var d := RemoveEntries(dir, s);
    forall p | p in s ensures !IsContent(Sidecar(p)) {
      SidecarSeparates(p, p);
    }
    assert Contents(d) == Contents(dir) - s;
    BytesSplit(dir, s, Contents(dir));
    BytesFrame(dir, d, Contents(d));
    assert |Contents(dir)| == |Contents(dir) - s| + |s|;
  }

  ghost function SizeAt(dir: Dir, p: string): nat {
    if p in dir then |dir[p].bytes| else 0
  }

  /** Storing touches one content file and one metadata file. */
  lemma {:induction false} StoredContents(cfg: Config, dir: Dir, key: string, file: File, now: int)
    ensures var p := ContentPath(cfg.layout, key);
            var d := Stored(cfg, dir, key, file, now);
            && IsContent(p)
            && Contents(d) == Contents(dir) + {p}
            && d[p].bytes == file.content
            && forall q :: q in Contents(dir) && q != p ==> d[q] == dir[q]
  {
    var p := ContentPath(cfg.layout, key);
    SidecarOfContentPath(cfg.layout, key);
    SidecarSeparates(p, p);
    assert !IsContent(MetaPath(cfg.layout, key));
  }

  /** Replacing one content file changes the totals by the difference. */
  lemma {:induction false} ReplacedMeasure(dir: Dir, d: Dir, p: string)
    requires IsContent(p) && Contents(d) == Contents(dir) + {p}
    requires forall q :: q in Contents(dir) && q != p ==> d[q] == dir[q]
    ensures RealBytes(d) == RealBytes(dir) - SizeAt(dir, p) + |d[p].bytes|
    ensures RealItems(d) == RealItems(dir) + (if p in dir then 0 else 1)
  {
    assert p in Contents(d);
    var rest := Contents(dir) - {p};
    BytesTake(d, Contents(d), p);
    assert Contents(d) - {p} == rest;
    BytesFrame(dir, d, rest);
    if p in dir {
      BytesTake(dir, Contents(dir), p);
      assert Contents(d) == Contents(dir);
    } else {
      assert rest == Contents(dir);
    }
  }

  /** Storing an entry adds its bytes and takes off those it overwrites. */
  lemma StoredMeasure(cfg: Config, dir: Dir, key: string, file: File, now: int)
    ensures var p := ContentPath(cfg.layout, key);
            var d := Stored(cfg, dir, key, file, now);
            && RealBytes(d) == RealBytes(dir) - SizeAt(dir, p) + |file.content|
            && RealItems(d) == RealItems(dir) + (if p in dir then 0 else 1)
  {
    StoredContents(cfg, dir, key, file, now);
    ReplacedMeasure(dir, Stored(cfg, dir, key, file, now), ContentPath(cfg.layout, key));
  }

  /** What `Get` and `Delete` take away is the entry that eviction would take away. */
  lemma RemovePaths(cfg: Config, dir: Dir, key: string)
    ensures ContentNames({ContentPath(cfg.layout, key)})
    ensures dir - {ContentPath(cfg.layout, key), MetaPath(cfg.layout, key)}
         == RemoveEntries(dir, {ContentPath(cfg.layout, key)})
  {
    var p := ContentPath(cfg.layout, key);
    SidecarOfContentPath(cfg.layout, key);
    assert {p, MetaPath(cfg.layout, key)} == {p} + Sidecars({p});
  }

  // ----- what eviction collects -----

  lemma {:induction false} EntriesOfWalk(dir: Dir, walk: seq<string>)
    requires forall p :: p in walk ==> p in dir
    ensures forall x :: x in Entries(dir, walk) <==>
              x.path in walk && IsContent(x.path) && x == FileInfo(x.path, |dir[x.path].bytes|, dir[x.path].mtime)
  {
    if walk != [] {
      EntriesOfWalk(dir, walk[1..]);
      assert walk == [walk[0]] + walk[1..];
    }
  }

  ghost predicate DistinctPaths(s: seq<FileInfo>) {
    forall i, j :: 0 <= i < j < |s| ==> s[i].path != s[j].path
  }

  lemma {:induction false} EntriesDistinct(dir: Dir, walk: seq<string>)
    requires forall p :: p in walk ==> p in dir
    requires forall i, j :: 0 <= i < j < |walk| ==> walk[i] != walk[j]
    ensures DistinctPaths(Entries(dir, walk))
  {
    if walk != [] {
      EntriesDistinct(dir, walk[1..]);
      EntriesOfWalk(dir, walk[1..]);
      var rest := Entries(dir, walk[1..]);
      forall j | 0 <= j < |rest| ensures rest[j].path != walk[0] {
        assert rest[j] in rest;
      }
    }
  }

  lemma {:induction false} PermutationKeepsDistinct(s: seq<FileInfo>, r: seq<FileInfo>)
    requires multiset(s) == multiset(r) && DistinctPaths(s)
    ensures DistinctPaths(r)
  {
    forall i, j | 0 <= i < j < |r| ensures r[i].path != r[j].path {
      if r[i].path == r[j].path {
        assert r[i] in multiset(s) && r[j] in multiset(s);
        assert r[i] == r[j];
        assert r == r[..j] + [r[j]] + r[j + 1..];
        assert r[i] in r[..j];
        assert multiset(r)[r[j]] >= 2;
        OccursOnce(s, r[j]);
      }
    }
  }

  lemma {:induction false} OccursOnce(s: seq<FileInfo>, x: FileInfo)
    requires DistinctPaths(s)
    ensures multiset(s)[x] <= 1
  {
    if s != [] {
      OccursOnce(s[1..], x);
      assert s == [s[0]] + s[1..];
    }
  }

  lemma {:induction false} VictimsAmong(s: seq<FileInfo>, needed: int)
    requires DistinctPaths(s)
    ensures DistinctPaths(Victims(s, needed))
    ensures forall x :: x in Victims(s, needed) ==> x in s
  {
    VictimsAreShortestPrefix(s, needed);
    var gone := Victims(s, needed);
    assert forall i :: 0 <= i < |gone| ==> gone[i] == s[i];
  }

  lemma {:induction false} EvictedAreEntries(dir: Dir, walk: seq<string>, needed: int)
    requires Walks(dir, walk)
    ensures DistinctPaths(Evicted(dir, walk, needed))
    ensures forall x :: x in Evicted(dir, walk, needed) ==> x in Entries(dir, walk)
  {
    var all := Entries(dir, walk);
    var order := StableSort(all);
    EntriesDistinct(dir, walk);
    StableSortIsStableSort(all);
    StableIsPermutation(all, order);
    PermutationKeepsDistinct(all, order);
    VictimsAmong(order, needed);
    forall x | x in order ensures x in all {
      assert x in multiset(order);
    }
  }

  /** The victims are entries of the directory, each listed once, with the sizes it really has. */
  lemma {:induction false} EvictedAreContents(dir: Dir, walk: seq<string>, needed: int)
    requires Walks(dir, walk)
    ensures ContentNames(Names(Evicted(dir, walk, needed)))
    ensures Names(Evicted(dir, walk, needed)) <= Contents(dir)
    ensures DistinctPaths(Evicted(dir, walk, needed))
    ensures forall x :: x in Evicted(dir, walk, needed) ==> x.path in dir && x.size == |dir[x.path].bytes|
                                                             && x.modTime == dir[x.path].mtime
  {
    EntriesOfWalk(dir, walk);
    EvictedAreEntries(dir, walk, needed);
  }

  lemma {:induction false} TotalIsBytes(dir: Dir, s: seq<FileInfo>)
    requires DistinctPaths(s)
    requires forall x :: x in s ==> x.path in dir && x.size == |dir[x.path].bytes|
    ensures Names(s) <= dir.Keys
    ensures Total(s) == TotalBytes(dir, Names(s))
    ensures |s| == |Names(s)|
  {
    if s != [] {
      TotalIsBytes(dir, s[1..]);
      FirstName(s);
      BytesTake(dir, Names(s), s[0].path);
    }
  }

  lemma {:induction false} FirstName(s: seq<FileInfo>)
    requires s != [] && DistinctPaths(s)
    ensures s[0].path in Names(s) && Names(s) - {s[0].path} == Names(s[1..])
  {
    assert s == [s[0]] + s[1..];
    forall p ensures p in Names(s) - {s[0].path} <==> p in Names(s[1..]) {
      assert p in Names(s) <==> p == s[0].path || p in Names(s[1..]);
    }
  }

  /** Eviction lowers both counters by exactly what it takes off the disk. */
  lemma EvictMeasure(c: Cache, walk: seq<string>, needed: int)
    requires Walks(c.dir, walk)
    ensures var e := EvictOldest(c, walk, needed);
            && Contents(e.dir) == Contents(c.dir) - Names(Evicted(c.dir, walk, needed))
            && RealBytes(e.dir) - e.size == RealBytes(c.dir) - c.size
            && RealItems(e.dir) - e.items == RealItems(c.dir) - c.items
            && RealBytes(e.dir) <= RealBytes(c.dir)
  {
    var gone := Evicted(c.dir, walk, needed);
    EvictedAreContents(c.dir, walk, needed);
    RemoveEntriesMeasure(c.dir, Names(gone));
    TotalIsBytes(c.dir, gone);
  }

  /** Eviction frees what was asked for, or leaves no content file at all. */
  lemma EvictFrees(c: Cache, walk: seq<string>, needed: int)
    requires Walks(c.dir, walk)
    ensures var e := EvictOldest(c, walk, needed);
            RealBytes(e.dir) <= RealBytes(c.dir) - needed || Contents(e.dir) == {}
  {
    EvictMeasure(c, walk, needed);
    VictimsAreShortestPrefix(StableSort(Entries(c.dir, walk)), needed);
    if Evicted(c.dir, walk, needed) == StableSort(Entries(c.dir, walk)) {
      EvictedCoversAll(c.dir, walk, needed);
    }
  }

  ghost function InfoAt(dir: Dir, p: string): FileInfo
    requires p in dir
  {
    FileInfo(p, |dir[p].bytes|, dir[p].mtime)
  }

  /** Every content file is considered. */
  lemma ContentsAreConsidered(dir: Dir, walk: seq<string>, p: string)
    requires Walks(dir, walk) && p in Contents(dir)
    ensures Sorted(StableSort(Entries(dir, walk)))
    ensures InfoAt(dir, p) in StableSort(Entries(dir, walk))
  {
    EntriesOfWalk(dir, walk);
    StableSortIsStableSort(Entries(dir, walk));
    StableIsPermutation(Entries(dir, walk), StableSort(Entries(dir, walk)));
    assert InfoAt(dir, p) in Entries(dir, walk);
  }

  /** A content file is gone exactly when it is among the victims. */
  lemma GoneIsEvicted(c: Cache, walk: seq<string>, needed: int, p: string)
    requires Walks(c.dir, walk) && p in Contents(c.dir)
    ensures p !in EvictOldest(c, walk, needed).dir <==> InfoAt(c.dir, p) in Evicted(c.dir, walk, needed)
  {
    var gone := Evicted(c.dir, walk, needed);
    EvictMeasure(c, walk, needed);
    EvictedAreContents(c.dir, walk, needed);
    assert p in Contents(EvictOldest(c, walk, needed).dir) <==> p !in Names(gone);
    if p in Names(gone) {
      var x :| x in gone && x.path == p;
      assert x == InfoAt(c.dir, p);
    }
  }

  /** Eviction is oldest-first: every survivor is at least as new as every victim, and survives unchanged. */
  lemma EvictionIsOldestFirst(c: Cache, walk: seq<string>, needed: int, p: string, q: string)
    requires Walks(c.dir, walk)
    requires p in Contents(EvictOldest(c, walk, needed).dir)
    requires q in Contents(c.dir) && q !in EvictOldest(c, walk, needed).dir
    ensures p in c.dir && EvictOldest(c, walk, needed).dir[p] == c.dir[p]
    ensures c.dir[q].mtime <= c.dir[p].mtime
  {
    GoneIsEvicted(c, walk, needed, p);
    GoneIsEvicted(c, walk, needed, q);
    ContentsAreConsidered(c.dir, walk, p);
    VictimsAreOldest(StableSort(Entries(c.dir, walk)), needed, InfoAt(c.dir, p), InfoAt(c.dir, q));
  }

  /** Eviction is minimal: it stops as soon as enough is freed, and only an exhausted directory stops it earlier. */
  lemma EvictionIsMinimal(c: Cache, walk: seq<string>, needed: int)
    requires Walks(c.dir, walk)
    ensures var gone := Evicted(c.dir, walk, needed);
            && (forall k :: 0 <= k < |gone| ==> Total(gone[..k]) < needed)
            && (needed <= Total(gone) || Names(gone) == Contents(c.dir))
  {
    var all := Entries(c.dir, walk);
    var order := StableSort(all);
    var gone := Evicted(c.dir, walk, needed);
    VictimsAreShortestPrefix(order, needed);
    forall k | 0 <= k < |gone| ensures Total(gone[..k]) < needed {
      assert gone[..k] == order[..k];
    }
    if gone == order {
      EvictedCoversAll(c.dir, walk, needed);
    }
  }

  lemma EvictedCoversAll(dir: Dir, walk: seq<string>, needed: int)
    requires Walks(dir, walk)
    requires Evicted(dir, walk, needed) == StableSort(Entries(dir, walk))
    ensures Names(Evicted(dir, walk, needed)) == Contents(dir)
  {
    var gone := Evicted(dir, walk, needed);
    EvictedAreContents(dir, walk, needed);
    forall p | p in Contents(dir) ensures p in Names(gone) {
      ContentsAreConsidered(dir, walk, p);
    }
  }

  /** Cleanup keeps exactly the entries of age at most the time to live, and their metadata, untouched. */
  lemma CleanupKeepsTheFresh(cfg: Config, c: Cache, now: int)
    ensures var d := Cleanup(cfg, c, now).dir;
            && (forall p :: p in Contents(c.dir) ==> (p in d <==> now - c.dir[p].mtime <= cfg.ttl))
            && (forall p :: p in d ==> p in c.dir && d[p] == c.dir[p])
            && (forall p :: p in Contents(d) ==> (Sidecar(p) in d <==> Sidecar(p) in c.dir))
  {
    var gone := ExpiredContents(cfg, c.dir, now);
    RemoveEntriesMeasure(c.dir, gone);
    var d := Cleanup(cfg, c, now).dir;
    forall p | p in Contents(d) ensures Sidecar(p) in d <==> Sidecar(p) in c.dir {
      SidecarSeparates(p, p);
      forall q | q in gone ensures Sidecar(q) != Sidecar(p) {
        SidecarSeparates(p, q);
      }
    }
  }

  lemma CleanupMeasure(cfg: Config, c: Cache, now: int)
    ensures var e := Cleanup(cfg, c, now);
            && RealBytes(e.dir) - e.size == RealBytes(c.dir) - c.size
            && RealItems(e.dir) - e.items == RealItems(c.dir) - c.items
            && RealBytes(e.dir) <= RealBytes(c.dir)
  {
    RemoveEntriesMeasure(c.dir, ExpiredContents(cfg, c.dir, now));
  }
}
