/**
 The names the filesystem cache gives its files.

 A key is hashed to a hexadecimal digest; the content lives in `<base>/<dd>/<digest>.bin` and the metadata in
 `<base>/<dd>/<digest>.meta`, where `dd` is the first two digits.  Eviction and cleanup never see a key: they
 find content files by extension and rebuild the metadata name by cutting the last four characters off.
 */
module CachePaths {
  predicate IsHex(c: char) {
    '0' <= c <= '9' || 'a' <= c <= 'f'
  }

  /** The text form of a SHA-256 digest. */
  type Digest = s: string | |s| == 64 && forall i :: 0 <= i < |s| ==> IsHex(s[i])
    witness seq(64, _ => '0')

  /** The base directory (already in the cleaned form `filepath.Join` produces) and the hash in use. */
  datatype Layout = Layout(base: string, digest: string -> Digest)

  function Join(base: string, subdir: string, name: string): string {
    base + "/" + subdir + "/" + name
  }

  function ContentPath(l: Layout, key: string): string {
    Join(l.base, l.digest(key)[..2], l.digest(key) + ".bin")
  }

  function MetaPath(l: Layout, key: string): string {
    Join(l.base, l.digest(key)[..2], l.digest(key) + ".meta")
  }

  /** `filepath.Ext`: what follows the last dot of the last path element, dot included. */
  function Ext(path: string): string {
    ExtFrom(path, |path|)
  }

  function ExtFrom(path: string, i: nat): string
    requires i <= |path|
  {
    if i == 0 || path[i - 1] == '/' then ""
    else if path[i - 1] == '.' then path[i - 1..]
    else ExtFrom(path, i - 1)
  }

  predicate EndsWith(s: string, suffix: string) {
    |suffix| <= |s| && s[|s| - |suffix|..] == suffix
  }

  /** The content files: the only ones the counters, eviction and cleanup look at. */
  predicate IsContent(path: string)
    ensures IsContent(path) <==> EndsWith(path, ".bin")
  {
    ExtIsSuffix(path);
    Ext(path) == ".bin"
  }

  /** The metadata name eviction and cleanup rebuild from a content name. */
  function Sidecar(path: string): string
    requires IsContent(path)
  {
    path[..|path| - 4] + ".meta"
  }

  lemma {:induction false} ExtFromIsTail(path: string, i: nat)
    requires i <= |path|
    ensures ExtFrom(path, i) == "" || exists k :: 0 <= k < i && ExtFrom(path, i) == path[k..] && path[k] == '.'
  {
    if i != 0 && path[i - 1] != '/' && path[i - 1] != '.' {
      ExtFromIsTail(path, i - 1);
    }
  }

  lemma {:induction false} ExtFromDot(path: string, k: nat, i: nat)
    requires k < i <= |path| && path[k] == '.' && forall j :: k < j < i ==> path[j] != '.' && path[j] != '/'
    ensures ExtFrom(path, i) == path[k..]
  {
    if i - 1 != k {
      ExtFromDot(path, k, i - 1);
    }
  }

  lemma {:induction false} DotOfExt(path: string, i: nat) returns (k: nat)
    requires i <= |path| && ExtFrom(path, i) != ""
    ensures k < i && path[k] == '.' && forall j :: k < j < i ==> path[j] != '.' && path[j] != '/'
  {
    k := i - 1;
    if path[i - 1] != '.' {
      k := DotOfExt(path, i - 1);
    }
  }

  /** The extension stops at the dot of `.bin`. */
  lemma {:induction false} ExtOfBin(path: string, n: nat)
    requires n == |path| && EndsWith(path, ".bin")
    ensures Ext(path) == ".bin"
  {
    var tail := path[n - 4..];
    assert path[n - 1] == tail[3] == 'n';
    assert path[n - 2] == tail[2] == 'i';
    assert path[n - 3] == tail[1] == 'b';
    assert path[n - 4] == tail[0] == '.';
    assert ExtFrom(path, n) == ExtFrom(path, n - 1) == ExtFrom(path, n - 2) == ExtFrom(path, n - 3);
  }

  /** Testing the extension is testing the last four characters. */
  lemma {:induction false} ExtIsSuffix(path: string)
    ensures Ext(path) == ".bin" <==> EndsWith(path, ".bin")
  {
    if Ext(path) == ".bin" {
      ExtFromIsTail(path, |path|);
      var k :| 0 <= k < |path| && Ext(path) == path[k..];
      assert k == |path| - 4;
    } else if EndsWith(path, ".bin") {
      ExtOfBin(path, |path|);
    }
  }

  /**
   Where a key's files are: under the base, in a directory named by the first two digits of the digest, the digest
   with `.bin` for the content and with `.meta` for the metadata.
   */
  lemma {:induction false} PathsSpelled(l: Layout, key: string)
    ensures var d := l.digest(key);
            && ContentPath(l, key) == l.base + ['/', d[0], d[1], '/'] + d + ['.', 'b', 'i', 'n']
            && MetaPath(l, key) == l.base + ['/', d[0], d[1], '/'] + d + ['.', 'm', 'e', 't', 'a']
  {
    assert l.digest(key)[..2] == [l.digest(key)[0], l.digest(key)[1]];
  }

  /** The suffix surgery of eviction and cleanup rebuilds exactly the name that `getPaths` gives the metadata. */
  lemma {:induction false} SidecarOfContentPath(l: Layout, key: string)
    ensures IsContent(ContentPath(l, key))
    ensures Sidecar(ContentPath(l, key)) == MetaPath(l, key)
  {
    var stem := l.base + "/" + l.digest(key)[..2] + "/" + l.digest(key);
    assert ContentPath(l, key) == stem + ".bin";
    assert MetaPath(l, key) == stem + ".meta";
    assert (stem + ".bin")[|stem|..] == ".bin";
    assert (stem + ".bin")[..|stem|] == stem;
  }

  /** A metadata name is never a content name, and different content files have different metadata files. */
  lemma SidecarSeparates(p: string, q: string)
    requires IsContent(p) && IsContent(q)
    ensures !IsContent(Sidecar(p))
    ensures Sidecar(p) == Sidecar(q) <==> p == q
  {
    var s := Sidecar(p);
    assert |s| >= 4 && s[|s| - 4..][3] == 'a';
    if Sidecar(p) == Sidecar(q) {
      assert |p| == |q|;
      assert s[..|p| - 4] == p[..|p| - 4];
      assert s[..|p| - 4] == q[..|q| - 4];
      assert p == p[..|p| - 4] + p[|p| - 4..];
      assert q == q[..|q| - 4] + q[|q| - 4..];
    }
  }

  /** Two keys share a file exactly when their digests collide; content never lands on metadata. */
  lemma PathsSeparateDigests(l: Layout, a: string, b: string)
    ensures ContentPath(l, a) == ContentPath(l, b) <==> l.digest(a) == l.digest(b)
    ensures MetaPath(l, a) == MetaPath(l, b) <==> l.digest(a) == l.digest(b)
    ensures ContentPath(l, a) != MetaPath(l, b)
  {
    SidecarOfContentPath(l, a);
    SidecarOfContentPath(l, b);
    SidecarSeparates(ContentPath(l, a), ContentPath(l, b));
    if ContentPath(l, a) == ContentPath(l, b) {
      var head := |l.base| + 4;
      assert ContentPath(l, a)[head..head + 64] == l.digest(a);
      assert ContentPath(l, b)[head..head + 64] == l.digest(b);
    }
  }
}
