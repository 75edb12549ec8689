/**
 The order in which eviction considers the content files, and how many of them it takes.

 The order is specified by a stable insertion sort on modification time; the hand-written bubble sort of
 `evictOldest` is proved to compute the same sequence.
 */
module EvictionOrder {
  datatype FileInfo = FileInfo(path: string, size: nat, modTime: int)

  ghost predicate Sorted(s: seq<FileInfo>) {
    forall i, j :: 0 <= i < j < |s| ==> s[i].modTime <= s[j].modTime
  }

  /** The entries with one modification time, in the order in which they occur. */
  function AtTime(s: seq<FileInfo>, t: int): seq<FileInfo> {
    if s == [] then []
    else (if s[0].modTime == t then [s[0]] else []) + AtTime(s[1..], t)
  }

  /** Same entries, and entries of equal age in the same order: what a stable sort may do to a sequence. */
  ghost predicate StablyRearranged(s: seq<FileInfo>, r: seq<FileInfo>) {
    forall t :: AtTime(r, t) == AtTime(s, t)
  }

  // ----- reference: insertion sort -----

  function Insert(x: FileInfo, s: seq<FileInfo>): seq<FileInfo> {
    if s == [] || x.modTime <= s[0].modTime then [x] + s
    else [s[0]] + Insert(x, s[1..])
  }

  function StableSort(s: seq<FileInfo>): seq<FileInfo> {
    if s == [] then [] else Insert(s[0], StableSort(s[1..]))
  }

  lemma {:induction false} AtTimeConcat(a: seq<FileInfo>, b: seq<FileInfo>, t: int)
    ensures AtTime(a + b, t) == AtTime(a, t) + AtTime(b, t)
  {
    if a == [] {
      assert a + b == b;
    } else {
      AtTimeConcat(a[1..], b, t);
      assert a + b == [a[0]] + (a[1..] + b) && a == [a[0]] + a[1..];
      AtTimeCons(a[0], a[1..] + b, t);
      AtTimeCons(a[0], a[1..], t);
    }
  }

  lemma {:induction false} AtTimeCons(x: FileInfo, s: seq<FileInfo>, t: int)
    ensures AtTime([x] + s, t) == if x.modTime == t then [x] + AtTime(s, t) else AtTime(s, t)
  {
    assert ([x] + s)[1..] == s;
  }

  lemma {:induction false} InsertIsStable(x: FileInfo, s: seq<FileInfo>, t: int)
    requires Sorted(s)
    ensures AtTime(Insert(x, s), t) == AtTime([x] + s, t)
  {
    if s != [] && s[0].modTime < x.modTime {
      var y, rest := s[0], s[1..];
      assert s == [y] + rest;
      InsertIsStable(x, rest, t);
      AtTimeCons(y, Insert(x, rest), t);
      AtTimeCons(x, rest, t);
      AtTimeCons(y, rest, t);
      AtTimeCons(x, s, t);
    }
  }

  lemma {:induction false} InsertSorts(x: FileInfo, s: seq<FileInfo>)
    requires Sorted(s)
    ensures Sorted(Insert(x, s))
    ensures forall y :: y in Insert(x, s) <==> y == x || y in s
  {
    if s != [] && s[0].modTime < x.modTime {
      InsertSorts(x, s[1..]);
      var r := Insert(x, s[1..]);
      assert s == [s[0]] + s[1..];
      forall j | 0 <= j < |r| ensures s[0].modTime <= r[j].modTime {
        assert r[j] in r;
      }
    }
  }

  /** The reference sort is a sort, and it is stable. */
  lemma {:induction false} StableSortIsStableSort(s: seq<FileInfo>)
    ensures Sorted(StableSort(s))
    ensures StablyRearranged(s, StableSort(s))
  {
    if s != [] {
      var r := StableSort(s[1..]);
      StableSortIsStableSort(s[1..]);
      InsertSorts(s[0], r);
      forall t ensures AtTime(StableSort(s), t) == AtTime(s, t) {
        InsertIsStable(s[0], r, t);
        AtTimeConcat([s[0]], r, t);
        AtTimeConcat([s[0]], s[1..], t);
        assert [s[0]] + s[1..] == s;
      }
    }
  }

  lemma {:induction false} AtTimeMembers(s: seq<FileInfo>, x: FileInfo)
    ensures x in AtTime(s, x.modTime) <==> x in s
    ensures multiset(AtTime(s, x.modTime))[x] == multiset(s)[x]
    ensures forall t :: t != x.modTime ==> x !in AtTime(s, t)
  {
    if s != [] {
      AtTimeMembers(s[1..], x);
      assert s == [s[0]] + s[1..];
    }
  }

  /** A stable rearrangement is a permutation. */
  lemma StableIsPermutation(s: seq<FileInfo>, r: seq<FileInfo>)
    requires StablyRearranged(s, r)
    ensures multiset(s) == multiset(r)
    ensures |s| == |r|
    ensures forall x :: x in s <==> x in r
  {
    forall x ensures multiset(s)[x] == multiset(r)[x] && (x in s <==> x in r) {
      AtTimeMembers(s, x);
      AtTimeMembers(r, x);
    }
    assert multiset(s) == multiset(r);
    assert |s| == |multiset(s)| && |r| == |multiset(r)|;
  }

  lemma {:induction false} HeadOfSorted(s: seq<FileInfo>)
    requires Sorted(s) && s != []
    ensures AtTime(s, s[0].modTime) != [] && AtTime(s, s[0].modTime)[0] == s[0]
  {
  }

  /** There is only one stable way to sort: any two stably sorted rearrangements are the same sequence. */
  lemma {:induction false} StableSortUnique(a: seq<FileInfo>, b: seq<FileInfo>)
    requires Sorted(a) && Sorted(b)
    requires StablyRearranged(a, b)
    ensures a == b
  {
    StableIsPermutation(a, b);
    if a != [] {
      HeadOfSorted(a);
      HeadOfSorted(b);
      assert a[0] in b && b[0] in a;
      assert a[0] == b[0] by {
        assert AtTime(a, a[0].modTime) == AtTime(b, a[0].modTime);
      }
      forall t ensures AtTime(b[1..], t) == AtTime(a[1..], t) {
        assert AtTime(a, t) == AtTime(b, t);
        var h := if a[0].modTime == t then [a[0]] else [];
        assert AtTime(a, t) == h + AtTime(a[1..], t);
        assert AtTime(b, t) == h + AtTime(b[1..], t);
        assert AtTime(a[1..], t) == AtTime(a, t)[|h|..];
        assert AtTime(b[1..], t) == AtTime(b, t)[|h|..];
      }
      StableSortUnique(a[1..], b[1..]);
    }
  }

  // ----- the bubble sort of evictOldest -----

  /** Exchanging neighbours of different age keeps the rearrangement stable. */
  lemma SwapIsStable(s: seq<FileInfo>, j: nat)
    requires j + 1 < |s| && s[j].modTime != s[j + 1].modTime
    ensures StablyRearranged(s, s[j := s[j + 1]][j + 1 := s[j]])
  {
    var r := s[j := s[j + 1]][j + 1 := s[j]];
    var x, y := s[j], s[j + 1];
    forall t ensures AtTime(r, t) == AtTime(s, t) {
      assert s == s[..j] + ([x, y] + s[j + 2..]);
      assert r == s[..j] + ([y, x] + s[j + 2..]);
      AtTimeConcat(s[..j], [x, y] + s[j + 2..], t);
      AtTimeConcat(s[..j], [y, x] + s[j + 2..], t);
      AtTimeConcat([x, y], s[j + 2..], t);
      AtTimeConcat([y, x], s[j + 2..], t);
      assert [x, y][1..] == [y] && [y, x][1..] == [x];
      assert AtTime([y], t) == (if y.modTime == t then [y] else []);
      assert AtTime([x], t) == (if x.modTime == t then [x] else []);
    }
  }

  /** One turn of the inner loop. */
  function CompareExchange(s: seq<FileInfo>, j: nat): seq<FileInfo>
    requires j + 1 < |s|
  {
    if s[j].modTime > s[j + 1].modTime then s[j := s[j + 1]][j + 1 := s[j]] else s
  }

  /** Everything from `k` on is in its final place: no earlier entry is younger. */
  ghost predicate Settled(s: seq<FileInfo>, k: int) {
    forall a, b :: 0 <= a < b < |s| && k <= b ==> s[a].modTime <= s[b].modTime
  }

  /** The youngest of the entries up to `j` has bubbled up to `j`. */
  ghost predicate Bubbled(s: seq<FileInfo>, j: int) {
    0 <= j < |s| ==> forall a :: 0 <= a < j ==> s[a].modTime <= s[j].modTime
  }

  lemma CompareExchangeProgress(s: seq<FileInfo>, j: nat, k: int)
    requires j + 1 < k <= |s|
    requires Settled(s, k) && Bubbled(s, j)
    ensures Settled(CompareExchange(s, j), k) && Bubbled(CompareExchange(s, j), j + 1)
    ensures StablyRearranged(s, CompareExchange(s, j))
  {
    var r := CompareExchange(s, j);
    if s[j].modTime > s[j + 1].modTime {
      SwapIsStable(s, j);
    }
    forall a, b | 0 <= a < b < |r| && k <= b ensures r[a].modTime <= r[b].modTime {
      var a' := if a == j then j + 1 else if a == j + 1 then j else a;
      assert r[b] == s[b];
      assert s[a'].modTime <= s[b].modTime && s[a].modTime <= s[b].modTime;
    }
  }

  /** Where the loops have got to: `s` rearranges `before`, is settled from `k` on, and has bubbled up to `j`. */
  ghost predicate Underway(before: seq<FileInfo>, s: seq<FileInfo>, k: int, j: int) {
    StablyRearranged(before, s) && |s| == |before| && Settled(s, k) && Bubbled(s, j)
  }

  lemma {:induction false} Turn(before: seq<FileInfo>, s: seq<FileInfo>, k: int, j: nat)
    requires j + 1 < k <= |s| && Underway(before, s, k, j)
    ensures Underway(before, CompareExchange(s, j), k, j + 1)
  {
    CompareExchangeProgress(s, j, k);
  }

  /** After a pass one more entry is in its final place. */
  lemma {:induction false} PassDone(before: seq<FileInfo>, s: seq<FileInfo>, k: int)
    requires 1 <= k && Underway(before, s, k, k - 1)
    ensures Underway(before, s, k - 1, 0)
  {
  }

  method BubbleSort(files: array<FileInfo>)
    modifies files
    ensures files[..] == StableSort(old(files[..]))
  {
    ghost var before := files[..];
    var i := 0;
    while i < files.Length - 1
      invariant 0 <= i && (i < files.Length || i == 0)
      invariant Underway(before, files[..], files.Length - i, 0)
    {
      var j := 0;
      while j < files.Length - i - 1
        invariant 0 <= j <= files.Length - i - 1
        invariant Underway(before, files[..], files.Length - i, j)
      {
        ghost var s := files[..];
        Turn(before, s, files.Length - i, j);
        if files[j].modTime > files[j + 1].modTime {
          files[j], files[j + 1] := files[j + 1], files[j];
        }
        assert files[..] == CompareExchange(s, j);
        j := j + 1;
      }
      PassDone(before, files[..], files.Length - i);
      i := i + 1;
    }
    SettledIsStableSort(before, files[..]);
  }

  lemma {:induction false} SettledIsStableSort(before: seq<FileInfo>, s: seq<FileInfo>)
    requires StablyRearranged(before, s) && Settled(s, if |s| == 0 then 0 else 1)
    ensures s == StableSort(before)
  {
    assert Sorted(s);
    StableSortIsStableSort(before);
    StableSortUnique(s, StableSort(before));
  }

  // ----- how many entries go -----

  function Total(s: seq<FileInfo>): nat {
    if s == [] then 0 else s[0].size + Total(s[1..])
  }

  /** The entries eviction takes off the front of the order to free `needed` bytes. */
  function Victims(s: seq<FileInfo>, needed: int): seq<FileInfo> {
    if s == [] || needed <= 0 then [] else [s[0]] + Victims(s[1..], needed - s[0].size)
  }

  lemma {:induction false} TotalSnoc(s: seq<FileInfo>, x: FileInfo)
    ensures Total(s + [x]) == Total(s) + x.size
  {
    if s == [] {
      assert s + [x] == [x];
    } else {
      TotalSnoc(s[1..], x);
      assert (s + [x])[1..] == s[1..] + [x];
    }
  }

  /** The victims are a prefix; they free enough unless they are everything; and no shorter prefix frees enough. */
  lemma {:induction false} VictimsAreShortestPrefix(s: seq<FileInfo>, needed: int)
    ensures Victims(s, needed) <= s
    ensures needed <= Total(Victims(s, needed)) || Victims(s, needed) == s
    ensures forall k :: 0 <= k < |Victims(s, needed)| ==> Total(s[..k]) < needed
  {
    if s != [] && 0 < needed {
      var rest := Victims(s[1..], needed - s[0].size);
      VictimsAreShortestPrefix(s[1..], needed - s[0].size);
      assert Victims(s, needed) == [s[0]] + rest;
      assert ([s[0]] + rest)[1..] == rest;
      forall k | 0 <= k < |Victims(s, needed)| ensures Total(s[..k]) < needed {
        if 0 < k {
          assert s[..k][1..] == s[1..][..k - 1];
        }
      }
    }
  }

  /** Of a sorted sequence, the victims are the oldest: nothing spared is older than a victim. */
  lemma {:induction false} VictimsAreOldest(s: seq<FileInfo>, needed: int, spared: FileInfo, victim: FileInfo)
    requires Sorted(s)
    requires spared in s && spared !in Victims(s, needed)
    requires victim in Victims(s, needed)
    ensures victim.modTime <= spared.modTime
  {
    var gone := Victims(s, needed);
    VictimsAreShortestPrefix(s, needed);
    var i :| 0 <= i < |s| && s[i] == spared;
    var j :| 0 <= j < |gone| && gone[j] == victim;
    assert s[j] == victim;
    assert forall k :: 0 <= k < |gone| ==> s[k] in gone;
  }

  /** The loop form: entry `k` is taken exactly while the entries before it have not freed enough. */
  lemma {:induction false} VictimsByIndex(s: seq<FileInfo>, needed: int, k: nat)
    requires k <= |s|
    requires forall i :: 0 <= i < k ==> Total(s[..i]) < needed
    requires k == |s| || needed <= Total(s[..k])
    ensures Victims(s, needed) == s[..k]
  {
    if k == 0 {
    } else {
      assert s[..0] == [];
      forall i | 0 <= i < k ensures Total(s[1..][..i]) == Total(s[..i + 1]) - s[0].size {
        assert s[..i + 1][1..] == s[1..][..i];
      }
      VictimsByIndex(s[1..], needed - s[0].size, k - 1);
      assert s[..k] == [s[0]] + s[1..][..k - 1];
    }
  }
}
