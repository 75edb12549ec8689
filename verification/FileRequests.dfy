/**
 Requests for files: which ones are accepted, and the cache key of an accepted one.

 Strings stand for the byte strings of the source, one character per byte.
 */
module FileRequests {
  import opened Basics

  datatype FileRequest = FileRequest(txid: string, evk: string, chainID: string, filename: string, useCache: bool)

  datatype InvalidInput = TxidInput | ChainInput | FilenameInput | EvkInput

  predicate Digit(c: char) { '0' <= c <= '9' }
  predicate Lower(c: char) { 'a' <= c <= 'z' }
  predicate Alphanumeric(c: char) { Digit(c) || Lower(c) || 'A' <= c <= 'Z' }
  predicate HexDigit(c: char) { Digit(c) || 'a' <= c <= 'f' || 'A' <= c <= 'F' }
  predicate ChainChar(c: char) { Alphanumeric(c) || c == '_' || c == '-' }
  predicate FilenameChar(c: char) { Alphanumeric(c) || c in "._-() []" }

  predicate All(s: string, p: char -> bool) {
    forall i :: 0 <= i < |s| ==> p(s[i])
  }

  predicate OccursAt(s: string, part: string, i: nat) {
    i + |part| <= |s| && s[i..i + |part|] == part
  }

  predicate Contains(s: string, part: string) {
    exists i :: 0 <= i <= |s| && OccursAt(s, part, i)
  }

  const EVK_PREFIX := "zxviews"
  const ENCRYPTED_SUFFIX := ":encrypted"

  /** `^zxviews[a-zA-Z0-9]{90,}$` */
  predicate EvkPattern(s: string) {
    EVK_PREFIX <= s && |s| - |EVK_PREFIX| >= 90 && All(s[|EVK_PREFIX|..], c => Alphanumeric(c))
  }

  function Validate(r: FileRequest): Option<InvalidInput> {
    if r.txid == "" then Some(TxidInput)
    else if |r.txid| != 64 then Some(TxidInput)
    else if !All(r.txid, c => HexDigit(c)) then Some(TxidInput)
    else if r.chainID == "" then Some(ChainInput)
    else if |r.chainID| > 32 then Some(ChainInput)
    else if !All(r.chainID, c => ChainChar(c)) then Some(ChainInput)
    else if r.filename != "" && |r.filename| > 255 then Some(FilenameInput)
    else if r.filename != "" && (Contains(r.filename, "..") || '/' in r.filename || '\\' in r.filename) then
      Some(FilenameInput)
    else if r.filename != "" && !All(r.filename, c => FilenameChar(c)) then Some(FilenameInput)
    else if r.evk != "" && (|r.evk| < 95 || |r.evk| > 500) then Some(EvkInput)
    else if r.evk != "" && !EvkPattern(r.evk) then Some(EvkInput)
    else None
  }

  predicate Accepted(r: FileRequest) {
    Validate(r).None?
  }

  /** Acceptance and rejection by field: the first of the four that fails is the one named. */
  lemma {:induction false} RejectionsByField(r: FileRequest)
    ensures var txid :=
              |r.txid| == 64 && (forall i :: 0 <= i < 64 ==>
                '0' <= r.txid[i] <= '9' || 'a' <= r.txid[i] <= 'f' || 'A' <= r.txid[i] <= 'F');
            var chain :=
              1 <= |r.chainID| <= 32 && (forall i :: 0 <= i < |r.chainID| ==>
                '0' <= r.chainID[i] <= '9' || 'a' <= r.chainID[i] <= 'z' || 'A' <= r.chainID[i] <= 'Z'
                || r.chainID[i] == '_' || r.chainID[i] == '-');
            var filename :=
              |r.filename| <= 255
              && (forall i :: 0 <= i < |r.filename| ==>
                '0' <= r.filename[i] <= '9' || 'a' <= r.filename[i] <= 'z' || 'A' <= r.filename[i] <= 'Z'
                || r.filename[i] in ['.', '_', '-', '(', ')', ' ', '[', ']'])
              && (forall i :: 0 <= i < |r.filename| - 1 ==> r.filename[i] != '.' || r.filename[i + 1] != '.');
            var evk :=
              r.evk == ""
              || (97 <= |r.evk| <= 500 && r.evk[..7] == "zxviews" && (forall i :: 7 <= i < |r.evk| ==>
                '0' <= r.evk[i] <= '9' || 'a' <= r.evk[i] <= 'z' || 'A' <= r.evk[i] <= 'Z'));
            Validate(r) == if !txid then Some(TxidInput) else if !chain then Some(ChainInput)
                           else if !filename then Some(FilenameInput) else if !evk then Some(EvkInput) else None
  {
    TxidByCharacter(r.txid);
    ChainByCharacter(r.chainID);
    FilenameByCharacter(r.filename);
    EvkByCharacter(r.evk);
  }

  lemma {:induction false} TxidByCharacter(s: string)
    ensures All(s, c => HexDigit(c)) <==> forall i :: 0 <= i < |s| ==>
              '0' <= s[i] <= '9' || 'a' <= s[i] <= 'f' || 'A' <= s[i] <= 'F'
  {
  }

  lemma {:induction false} ChainByCharacter(s: string)
    ensures All(s, c => ChainChar(c)) <==> forall i :: 0 <= i < |s| ==>
              '0' <= s[i] <= '9' || 'a' <= s[i] <= 'z' || 'A' <= s[i] <= 'Z' || s[i] == '_' || s[i] == '-'
  {
  }

  lemma {:induction false} FilenameByCharacter(s: string)
    ensures !Contains(s, "..") && '/' !in s && '\\' !in s && All(s, c => FilenameChar(c)) <==>
              && (forall i :: 0 <= i < |s| ==>
                    '0' <= s[i] <= '9' || 'a' <= s[i] <= 'z' || 'A' <= s[i] <= 'Z'
                    || s[i] in ['.', '_', '-', '(', ')', ' ', '[', ']'])
              && (forall i :: 0 <= i < |s| - 1 ==> s[i] != '.' || s[i + 1] != '.')
  {
    DotsByCharacter(s);
    PermittedByCharacter(s);
  }

  lemma {:induction false} DotsByCharacter(s: string)
    ensures Contains(s, "..") <==> exists i :: 0 <= i < |s| - 1 && s[i] == '.' && s[i + 1] == '.'
  {
    if i :| 0 <= i <= |s| && OccursAt(s, "..", i) {
      assert s[i] == s[i..i + 2][0] && s[i + 1] == s[i..i + 2][1];
    }
    if i :| 0 <= i < |s| - 1 && s[i] == '.' && s[i + 1] == '.' {
      assert s[i..i + 2] == "..";
      assert OccursAt(s, "..", i);
    }
  }

  lemma {:induction false} PermittedByCharacter(s: string)
    ensures All(s, c => FilenameChar(c)) <==> forall i :: 0 <= i < |s| ==>
              '0' <= s[i] <= '9' || 'a' <= s[i] <= 'z' || 'A' <= s[i] <= 'Z'
              || s[i] in ['.', '_', '-', '(', ')', ' ', '[', ']']
    ensures All(s, c => FilenameChar(c)) ==> '/' !in s && '\\' !in s
  {
    assert "._-() []" == ['.', '_', '-', '(', ')', ' ', '[', ']'];
    forall i | 0 <= i < |s|
      ensures FilenameChar(s[i]) <==>
                '0' <= s[i] <= '9' || 'a' <= s[i] <= 'z' || 'A' <= s[i] <= 'Z'
                || s[i] in ['.', '_', '-', '(', ')', ' ', '[', ']']
      ensures FilenameChar(s[i]) ==> s[i] != '/' && s[i] != '\\'
    {
    }
  }

  lemma {:induction false} EvkByCharacter(s: string)
    ensures EvkPattern(s) <==> 97 <= |s| && s[..7] == "zxviews" && forall i :: 7 <= i < |s| ==>
              '0' <= s[i] <= '9' || 'a' <= s[i] <= 'z' || 'A' <= s[i] <= 'Z'
  {
    if 97 <= |s| {
      forall i | 7 <= i < |s| ensures s[i] == s[7..][i - 7] {}
      forall i | 0 <= i < |s[7..]| ensures s[7..][i] == s[i + 7] {}
    }
  }

  function CacheKey(r: FileRequest): string {
    if r.evk != "" then r.chainID + ":" + r.txid + ENCRYPTED_SUFFIX
    else r.chainID + ":" + r.txid
  }

  /** What a cache key says about a request. */
  datatype KeyParts = KeyParts(chainID: string, txid: string, hasEvk: bool)

  function PartsOf(r: FileRequest): KeyParts {
    KeyParts(r.chainID, r.txid, r.evk != "")
  }

  /** The text before the first colon. */
  function BeforeColon(s: string): (chain: string)
    ensures chain <= s
  {
    if s == "" || s[0] == ':' then "" else [s[0]] + BeforeColon(s[1..])
  }

  /** Reads a cache key back: the chain up to the first colon, 64 digits, and whether anything follows. */
  function ParseKey(key: string): Option<KeyParts> {
    var chain := BeforeColon(key);
    var rest := key[|chain|..];
    if |rest| < 65 then None
    else Some(KeyParts(chain, rest[1..65], rest[65..] == ENCRYPTED_SUFFIX))
  }

  lemma {:induction false} BeforeColonOf(chain: string, rest: string)
    requires ':' !in chain
    ensures BeforeColon(chain + ":" + rest) == chain
  {
    if chain == "" {
      assert (chain + ":" + rest)[0] == ':';
    } else {
      BeforeColonOf(chain[1..], rest);
      assert (chain + ":" + rest)[1..] == chain[1..] + ":" + rest;
      assert (chain + ":" + rest)[0] == chain[0] && chain[0] in chain;
    }
  }

  /** Accepted chain names contain no colon and accepted transaction ids are 64 characters. */
  lemma {:induction false} AcceptedShape(r: FileRequest)
    requires Accepted(r)
    ensures ':' !in r.chainID && r.chainID != "" && |r.txid| == 64
  {
    forall i | 0 <= i < |r.chainID| ensures r.chainID[i] != ':' {
      assert ChainChar(r.chainID[i]);
    }
  }

  /** Parsing the key of an accepted request recovers its chain, its transaction and whether it had a viewing key. */
  lemma ParseInvertsCacheKey(r: FileRequest)
    requires Accepted(r)
    ensures ParseKey(CacheKey(r)) == Some(PartsOf(r))
  {
    AcceptedShape(r);
    var tail := if r.evk != "" then ENCRYPTED_SUFFIX else "";
    assert CacheKey(r) == r.chainID + ":" + (r.txid + tail);
    BeforeColonOf(r.chainID, r.txid + tail);
    var rest := CacheKey(r)[|r.chainID|..];
    assert rest == ":" + (r.txid + tail);
    assert rest[1..65] == r.txid;
    assert rest[65..] == tail;
  }

  /** The key spelled out: chain, colon, transaction, and a fixed suffix in place of the viewing key. */
  lemma {:induction false} CacheKeySpelled(r: FileRequest)
    ensures r.evk == "" ==> CacheKey(r) == r.chainID + [':'] + r.txid
    ensures r.evk != "" ==>
              CacheKey(r) == r.chainID + [':'] + r.txid + [':', 'e', 'n', 'c', 'r', 'y', 'p', 't', 'e', 'd']
  {
  }

  /**
   Two accepted requests share a cache key exactly when chain, transaction and the presence of a viewing key agree;
   the viewing key itself and the filename play no part.
   */
  lemma CacheKeySeparates(r: FileRequest, q: FileRequest)
    requires Accepted(r) && Accepted(q)
    ensures CacheKey(r) == CacheKey(q) <==> r.chainID == q.chainID && r.txid == q.txid && (r.evk != "" <==> q.evk != "")
  {
    ParseInvertsCacheKey(r);
    ParseInvertsCacheKey(q);
  }

  // ----- the decryptor's own, narrower checks -----

  /** `^zxviews[0-9a-z]+$` */
  predicate DecryptorAcceptsEvk(s: string) {
    EVK_PREFIX <= s && |s| > |EVK_PREFIX| && All(s[|EVK_PREFIX|..], c => Digit(c) || Lower(c))
  }

  predicate DecryptorAcceptsTxid(s: string) {
    |s| == 64 && All(s, c => HexDigit(c))
  }

  predicate HasUpper(s: string) {
    exists i :: 0 <= i < |s| && 'A' <= s[i] <= 'Z'
  }

  /**
   Of the accepted requests the decryptor serves exactly those with a viewing key free of upper-case letters; in
   particular none without a viewing key.
   */
  lemma {:induction false} DecryptorAccepts(r: FileRequest)
    requires Accepted(r)
    ensures DecryptorAcceptsTxid(r.txid)
    ensures HasUpper(r.evk) <==> exists i :: 0 <= i < |r.evk| && 'A' <= r.evk[i] <= 'Z'
    ensures DecryptorAcceptsEvk(r.evk) <==> r.evk != "" && !HasUpper(r.evk)
  {
    var k := |EVK_PREFIX|;
    if r.evk != "" {
      assert r.evk[..k] == EVK_PREFIX;
      forall i | 0 <= i < |r.evk| ensures i < k ==> !('A' <= r.evk[i] <= 'Z') {
        assert i < k ==> r.evk[i] == EVK_PREFIX[i];
      }
      forall i | k <= i < |r.evk| ensures r.evk[i] == r.evk[k..][i - k] {}
      if !HasUpper(r.evk) {
        forall j | 0 <= j < |r.evk[k..]| ensures Digit(r.evk[k..][j]) || Lower(r.evk[k..][j]) {
          assert r.evk[k..][j] == r.evk[k + j];
          assert Alphanumeric(r.evk[k..][j]);
        }
      }
    }
  }
}
