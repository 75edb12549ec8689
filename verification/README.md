# Verified model of the Verus gateway's stateful core

The gateway serves files stored on a blockchain: it asks a node to decrypt them, decompresses them, detects their
type and keeps them in a size-bounded, expiring cache on disk, behind a per-client request limiter. This project
models the parts of it that carry state and proves what they keep over whole runs.

| file | models |
|---|---|
| `CachePaths.dfy` | file names of the cache: key digests, extensions, the suffix surgery that finds a metadata file |
| `EvictionOrder.dfy` | the bubble sort of eviction and the choice of victims |
| `CacheModel.dfy` | directory and counters as a value, one function per cache operation |
| `CacheEffects.dfy` | what each of these does to files and counters, path by path |
| `FilesystemCache.dfy` | the cache object; each method computes the function of `CacheModel` |
| `CacheRuns.dfy` | runs of cache operations: counter drift, disk bound, latest `Set` |
| `CleanupRuns.dfy`, `CleanupMatters.dfy` | on which runs cleanup cannot be noticed, and exactly when it never can |
| `CleanupCalls.dfy` | the same for callers, who do not choose the order of the eviction walk |
| `CacheConcurrency.dfy` | read-locked lookups interleaved statement by statement, with exclusive writers |
| `LookupRaces.dfy` | a lookup that runs alone, two that race, and exactly when metadata gets lost |
| `RateLimiting.dfy`, `RateLimiter.dfy` | the limiter and its sweeper: trace theorems, and the object |
| `RetryClient.dfy` | the retry loop of the RPC client and its counters |
| `Decompressor.dfy` | the bounded copy behind gzip decompression |
| `FileRequests.dfy` | request validation and cache keys |
| `FileService.dfy`, `ServiceRuns.dfy` | the service pipeline, and any interleaving of requests, stores and administration |
| `ServiceEffects.dfy` | a request handled alone, step by step, is answered as the service object answers it |
| `CachedAnswers.dfy` | exactly when a cached answer is as good as a fetch of one's own |

Each object of the source is a class whose methods are proved against specification functions; the theorems about
runs are lemmas over those functions.

## Assumptions

- The clock never goes back, and a written file carries the time of the write. Every operation takes `now`.
- File writes and removals succeed, and only the cache writes into its directory. The order in which
  `filepath.Walk` visits files is an arbitrary enumeration (`walk`).
- The key hash is uninterpreted. Where keys must not collide, a lemma asks it only of the keys in use
  (`DigestDistinct`, `Distinct`).
- The JSON form of metadata is uninterpreted. Go's encoder replaces invalid UTF-8, so decoding is asked to invert
  encoding only for the metadata that a run stores (`RoundTrips`, per value), and for the service only for ASCII
  metadata (`Plausible`): validation admits only ASCII filenames, and type names and extensions are ASCII.
- Gzip decoding, content sniffing, the type-to-extension table and the node's decryption are uninterpreted
  functions. What a node decrypts depends on chain, transaction and viewing key, and it may refuse a key; where it is
  assumed to decrypt the same bytes under every key it serves, a lemma says so (`KeysAgree`).
- Service runs start over any directory that earlier runs could have left: each content file has its metadata file,
  and the two are what some fetch would store (`Started`).
- Each stage of an HTTP exchange may succeed or fail, in any sequence of exchanges. Integers are unbounded.
- Strings are byte strings, one character per byte.

## Where code and documentation disagree

The model follows the code.

- `docs/architecture.md:697-703` promises eviction by access time and atomic writes. The code evicts by modification
  time, which is the time of the `Set`, and writes in place.
- `docs/architecture.md:288-292` promises exponential backoff; the code waits `retryDelay * attempt`. The comment
  at `pkg/verusrpc/client.go:131` speaks of HTTP 4xx; the code tests the JSON-RPC codes -32099 to -32000 and retries
  every HTTP error status.
- `docs/architecture.md:243-246` and the comment at `internal/domain/file.go:149` put a hash of the viewing key into
  the cache key; the code only records whether there is one.
- The message at `internal/storage/decompressor.go:81` says the size exceeds the limit; the code also refuses a
  stream that exactly meets it.
- The client test at `pkg/verusrpc/client_test.go:137` sets `MaxRetries: 0` to disable retries; the constructor
  turns zero into three.

## Results that turned out differently

- Cached does not always agree with fresh. The cache key ignores the viewing key's text, so a request is answered with
  what another key was served, also when its own key is refused: by the decryptor for an upper-case letter, which
  validation admits, or by the node. A request's answers are those of its own fetch, in every run, if and only if it
  does not use the cache, or has no viewing key, or nothing is ever kept, or the node serves nothing else for its
  transaction under any other key (`CachedAnswers.CachedAgreesWithFetch`). Where the node decrypts the same under all
  keys it serves, the exceptions are the refused requests (`CachedAgreesWhenKeysAgree`, `RefusedKeysBorrow`).
- A concurrent hit may lose its metadata: another lookup can delete both files between the two reads. A hit is sure to
  carry its stored metadata if and only if the entry is at most `ttl` old when the metadata is read
  (`LookupRaces.MetadataIsSafeExactlyWhileFresh`; for the service,
  `CachedAnswers.CachedFilesAreWholeExactlyWhileFresh`). For every greater age a run is exhibited.
- The sweeper is invisible exactly when the rate is at least one (`RateLimiting.SweeperIsInvisible`).
- Cleanup is not invisible in general: it never shows if and only if the time to live is negative, when nothing is
  ever kept. This holds for runs with fixed walks under every limit of at least one byte
  (`CleanupMatters.CleanupNeverShowsExactly`; a cleanup can turn a miss into a hit) and for what callers can observe,
  whatever the walks, under every limit (`CleanupCalls.CallersNeverNoticeExactly`; it can turn a hit into a miss).
- On runs without eviction cleanup changes no lookup's hit or miss and no content, and no answer at all when every
  `Set` carries metadata (`CleanupRuns.CleanupIsInvisible`); a `Set` without metadata inherits that of the entry it
  overwrites unless a cleanup came first (`CleanupMatters.MetadataCanMatter`).
- The most requests that a closed interval can see allowed is `MostIn`, slightly below `rate * (length / window + 2)`,
  and it is reached (`WindowBound`, `WindowBoundIsReached`).

## Model

| member | source | states |
|---|---|---|
| CachePaths.ExtIsSuffix | internal/cache/filesystem.go:297 | selecting files by extension `.bin` is selecting those whose last four characters are `.bin`, which makes the later suffix cut safe |
| CachePaths.SidecarOfContentPath | internal/cache/filesystem.go:354-355 | cutting four characters and appending `.meta` rebuilds exactly the metadata path that `getPaths` gives for the key |
| CachePaths.SidecarSeparates | internal/cache/filesystem.go:402-403 | a metadata name is never taken for a content name, and different content files have different metadata files |
| CachePaths.PathsSeparateDigests | internal/cache/filesystem.go:272-284 | two keys share a content or metadata file exactly when their digests agree; content and metadata paths never coincide |
| CachePaths.PathsSpelled | internal/cache/filesystem.go:272-284 | content and metadata lie under the base, in a directory named by the first two digits of the digest, as the digest with `.bin` and with `.meta` |
| EvictionOrder.BubbleSort | internal/cache/filesystem.go:336-344 | the nested loops, in place, produce the stable sort by modification time |
| EvictionOrder.StableSortIsStableSort | internal/cache/filesystem.go:336-337 | the reference order is sorted and keeps entries of equal age in walk order |
| EvictionOrder.StableSortUnique | internal/cache/filesystem.go:336-344 | there is only one such order, so the bubble sort's result is determined |
| EvictionOrder.StableIsPermutation | internal/cache/filesystem.go:336-344 | sorting neither loses nor duplicates an entry |
| EvictionOrder.VictimsAreShortestPrefix | internal/cache/filesystem.go:346-360 | the victims are a prefix of the order that frees enough or is everything, and no shorter prefix frees enough |
| EvictionOrder.VictimsAreOldest | internal/cache/filesystem.go:346-360 | nothing spared is older than a victim |
| CacheModel.EvictMeasure | internal/cache/filesystem.go:353-359 | eviction lowers size and item counter by exactly what it takes off the disk |
| CacheModel.EvictFrees | internal/cache/filesystem.go:153-160 | after eviction the real bytes have dropped by the needed size, or no content file is left |
| CacheModel.EvictionIsOldestFirst | internal/cache/filesystem.go:309-360 | every survivor is unchanged and at least as new as every evicted entry |
| CacheModel.EvictionIsMinimal | internal/cache/filesystem.go:346-351 | stopping one victim earlier would not free enough; falling short means the directory is exhausted |
| CacheModel.CleanupKeepsTheFresh | internal/cache/filesystem.go:383-410 | cleanup keeps exactly the entries of age at most the time to live, unchanged, with their metadata files |
| CacheModel.StoredMeasure | internal/cache/filesystem.go:171-186 | a `Set` changes the real bytes by the new size minus the overwritten size, which the counter does not subtract |
| CacheEffects.SetWithRoom | internal/cache/filesystem.go:154-186 | a `Set` for which counter plus size stays within the limit removes nothing: it adds its content file, its metadata file if any, and its size and one item |
| CacheEffects.SetWithoutRoom | internal/cache/filesystem.go:154-186 | any other `Set` first removes exactly the shortest prefix, in stable age order, of the content files whose sizes reach its own (or all of them), with their metadata files, then does the same |
| CacheEffects.GetEffect | internal/cache/filesystem.go:95-139 | a lookup hits exactly when the content file is there and at most `ttl` old, counts one hit or one miss, and removes both files of an expired entry and nothing else |
| CacheEffects.DeleteEffect | internal/cache/filesystem.go:203-212 | content and metadata file go, whether or not the other is there, and nothing else; the counters drop by the content file found |
| CacheEffects.ClearEffect | internal/cache/filesystem.go:218-243 | nothing is left, both size counters are zero, hits and misses stay |
| CacheEffects.CleanupEffect | internal/cache/filesystem.go:383-410 | exactly the content files older than `ttl` and their metadata files go, and the counters drop by what the disk loses |
| FilesystemCaches.FilesystemCache.constructor | internal/cache/filesystem.go:46-79 | a zero limit becomes 1 GiB and a zero time to live 24 hours, and the counters start equal to what is on disk |
| FilesystemCaches.FilesystemCache.CalculateSize | internal/cache/filesystem.go:286-307 | the walk counts the bytes and number of the content files |
| FilesystemCaches.FilesystemCache.Get | internal/cache/filesystem.go:82-140 | a cancelled lookup changes nothing; otherwise answer, removal of an expired entry and hit or miss counter are those of the specification |
| FilesystemCaches.FilesystemCache.Set | internal/cache/filesystem.go:143-189 | the object computes the specified `Set`, whose effect on files and counters `SetWithRoom` and `SetWithoutRoom` spell out; nothing when cancelled |
| FilesystemCaches.FilesystemCache.Delete | internal/cache/filesystem.go:192-215 | the object computes the specified `Delete`, spelled out by `DeleteEffect`; nothing when cancelled |
| FilesystemCaches.FilesystemCache.Clear | internal/cache/filesystem.go:218-243 | an empty directory and zero counters, hit and miss counts kept |
| FilesystemCaches.FilesystemCache.EvictOldest | internal/cache/filesystem.go:310-363 | the object's collect, sort and delete loops leave the directory and counters of the specification |
| FilesystemCaches.FilesystemCache.Cleanup | internal/cache/filesystem.go:383-411 | the walk deletes every expired entry and adjusts the counters, whatever the walk order |
| CacheRuns.DriftConservation | internal/cache/filesystem.go:108-113 | over every run the counters exceed the disk by exactly the overwritten and expired-on-lookup entries since the last `Clear` |
| CacheRuns.StepConservesDrift | internal/cache/filesystem.go:184-186 | every operation changes counter minus disk by exactly its own drift |
| CacheRuns.DiskStaysBounded | internal/cache/filesystem.go:153-186 | over every run the real bytes never exceed the starting bytes, the limit and the largest file, although the triggering counter drifts |
| CacheRuns.GetReturnsLatestSet | internal/cache/filesystem.go:82-140 | a lookup hits exactly when the latest `Set` of the key has not been undone and is not expired, and returns its content and, when the `Set` carried readable metadata, its metadata |
| CacheRuns.OtherStepsLeaveEntry | internal/cache/filesystem.go:205-212 | operations on other keys leave the content file and the metadata file of an entry as they are, unless they undo it |
| CacheRuns.CancelledStep | internal/cache/filesystem.go:83-87 | in a run a cancelled operation changes nothing; cleanup has no context to be cancelled |
| CleanupRuns.CleanupIsInvisible | internal/cache/filesystem.go:383-410 | inserting cleanups anywhere into a run that does not evict changes no lookup's hit or miss and no content; and no answer at all when every `Set` of the run carries metadata |
| CleanupMatters.CleanupCanMatter | internal/cache/filesystem.go:108-113 | under every limit of at least one byte and every non-negative time to live, one cleanup can turn a miss into a hit: without it a lookup leaves drift behind, and a later `Set` evicts |
| CleanupMatters.CleanupNeverShowsExactly | internal/cache/filesystem.go:153-160 | under a limit of at least one byte, dropping the cleanups of a run changes no hit, miss or content, on all runs legal both ways, if and only if the time to live is negative |
| CleanupCalls.Shield.CleanupCanCost | internal/cache/filesystem.go:346-360 | under every limit and every non-negative time to live, a cleanup can turn a hit into a miss: it takes the expired file whose eviction would have spared a live one |
| CleanupCalls.CallersNeverNoticeExactly | internal/cache/filesystem.go:383-410 | under every limit, each sequence of calls can be answered in the same ways with its cleanups and without them if and only if the time to live is negative |
| CleanupRuns.NegativeTtlOnlyMisses | internal/cache/filesystem.go:108-113 | with a negative time to live every lookup of every run misses |
| CleanupMatters.MetadataCanMatter | internal/cache/filesystem.go:171-182 | without eviction, a `Set` whose metadata is nil inherits the expired entry's metadata file, and a cleanup before it takes that away |
| CacheConcurrency.HitsAreCoherent | internal/cache/filesystem.go:89-139 | in every interleaving a hit returns a stored content with its own metadata, or, only if the metadata was read when the entry was older than `ttl`, with empty metadata |
| CacheConcurrency.DiskStaysPaired | internal/cache/filesystem.go:108-113 | in every interleaving a content file on disk has its own metadata file beside it: concurrent lookups never delete the metadata of a content that stays |
| CacheConcurrency.LookupsReturnLatestSet | internal/cache/filesystem.go:82-140 | in every interleaving a lookup misses when there is no latest `Set` of its key, hits when that is at most `ttl` old, and a hit has its content and metadata, the metadata empty only if read after expiry |
| CacheConcurrency.LatestSetStands | internal/cache/filesystem.go:89-90 | while a lookup is inside no writer runs, so the latest `Set` when it returns is the latest when it entered |
| LookupRaces.MetadataCanVanish | internal/cache/filesystem.go:108-129 | for every entry and every age past the time to live, an interleaving of two lookups returns the content without its metadata |
| LookupRaces.MetadataIsSafeExactlyWhileFresh | internal/cache/filesystem.go:108-129 | hits whose metadata is read at a given age carry their stored metadata in every interleaving if and only if that age is at most `ttl` (or `ttl` is negative and there are no hits) |
| LookupRaces.NegativeTtlNeverHits | internal/cache/filesystem.go:108-113 | with a negative time to live, which nothing rejects, no lookup ever hits in any interleaving |
| LookupRaces.AloneIsAtomic | internal/cache/filesystem.go:82-140 | an undisturbed lookup amounts to the single step of the sequential model |
| LookupRaces.OvertakenPath | internal/cache/filesystem.go:116-120 | a lookup whose entry is deleted between the expiry check and the read fails with a read error, counted as a miss |
| CacheConcurrency.OnlyExpiredEntriesAreRemoved | internal/cache/filesystem.go:108-113 | in every reachable state, whatever was written, a lookup deletes only the very file it found expired, and metadata only after its content |
| CacheConcurrency.HitsAndMisses | internal/cache/filesystem.go:96-131 | in every interleaving hits is the number of lookups that returned with a file and misses that of the others, once nobody is inside; before, plus those that have counted themselves |
| CacheConcurrency.DiskStaysBounded | internal/cache/filesystem.go:150-186 | the disk bound and the never-short counters also hold over interleavings of concurrent lookups |
| CacheConcurrency.DriftConservation | internal/cache/filesystem.go:108-113 | over every interleaving the counters exceed the disk by exactly the overwritten entries and the content files that lookups actually removed, each once, since the last `Clear` |
| RateLimiting.LimiterMeetsSpec | internal/http/middleware/ratelimit.go:71-104 | in every trace a client is answered as its own request times dictate: the first `rate` requests of each epoch |
| RateLimiting.ClientsAreIndependent | internal/http/middleware/ratelimit.go:75-103 | traces in which a client makes the same requests give it the same answers |
| RateLimiting.TokensStayInRange | internal/http/middleware/ratelimit.go:91-101 | tokens stay between zero and the rate |
| RateLimiting.SweeperIsInvisible | internal/http/middleware/ratelimit.go:111-121 | deleting idle visitors never changes an answer on any trace, exactly when the rate is at least one |
| RateLimiting.SweepShowsWithoutRate | internal/http/middleware/ratelimit.go:78-86 | with a lower rate a new visitor is still let in once, so a sweep shows |
| RateLimiting.SweepForgetsTheIdle | internal/http/middleware/ratelimit.go:112-120 | after a sweep, in every trace, a client is remembered if and only if it was before and its last request is at most two windows old |
| RateLimiting.RequestsAreRemembered | internal/http/middleware/ratelimit.go:78-91 | a request leaves its client remembered with that time, whatever the answer, and nobody else changed |
| RateLimiting.OnlyStrangersWithoutRate | internal/http/middleware/ratelimit.go:78-103 | with no positive rate a request is allowed exactly when its client is not remembered |
| RateLimiting.WindowBound | internal/http/middleware/ratelimit.go:78-103 | no closed interval sees more than `MostIn` requests of a client allowed, also across deletion and re-creation |
| RateLimiting.WindowBoundIsReached | internal/http/middleware/ratelimit.go:91-101 | for every limit, start and length some trace reaches that number |
| RateLimiters.RateLimiter.Allow | internal/http/middleware/ratelimit.go:71-104 | the object's in-place update is the step of the machine, and clients keep separate records |
| RateLimiters.RateLimiter.CleanupVisitors | internal/http/middleware/ratelimit.go:112-120 | one sweep keeps exactly the visitors last seen at most two windows ago, each with its own record, whatever the walk order |
| RetryClient.Client.constructor | pkg/verusrpc/client.go:43-76 | a zero timeout becomes 30 s, a zero retry limit 3 and a zero retry delay 500 ms |
| RetryClient.Client.CallOnce | pkg/verusrpc/client.go:146-216 | one exchange and its deferred `recordMetrics` add one request, and one error exactly when some stage of the exchange fails |
| RetryClient.Client.Exchanged | pkg/verusrpc/client.go:153-216 | each of the seven failing exits is taken when its stage is the first to fail, and adds exactly one error |
| RetryClient.Client.RecordMetrics | pkg/verusrpc/client.go:293-298 | adds the duration, and an error only when it is passed one |
| RetryClient.FirstFailureIsReported | pkg/verusrpc/client.go:164-213 | an exchange reports the first of its stages that fails, and answers exactly when none does |
| RetryClient.RepliesByField | pkg/verusrpc/client.go:164-216 | each reply, with its status code, its RPC error or its result, exactly for the exchanges whose fields say so |
| RetryClient.Client.Call | pkg/verusrpc/client.go:106-143 | the retry loop returns what the first decisive attempt dictates and moves the counters by the attempts made and failed |
| RetryClient.FirstDecisive | pkg/verusrpc/client.go:109-140 | the first attempt that ends the call: none before it does, and it does if it is within the limit |
| RetryClient.SucceedsWithFirstAnswer | pkg/verusrpc/client.go:109-140 | a result is returned exactly when an uncut attempt within the limit answers with it and no earlier one is cut, answers, is ended after, or is refused with a code from -32099 to -32000 |
| RetryClient.RefusedByServerError | pkg/verusrpc/client.go:131-137 | an RPC error is passed on at once exactly when its code lies in -32099 to -32000, the context has not ended, and no earlier attempt ends the call |
| RetryClient.EndedByContext | pkg/verusrpc/client.go:110-129 | the context's end is reported exactly when it cuts the wait before a retry short, the first included, or follows a failed attempt, and no earlier attempt ends the call |
| RetryClient.AttemptsAndWaits | pkg/verusrpc/client.go:109-129 | a call ended at attempt `i` has made `i + 1` attempts and `i` whole waits, or, cut in the wait before it, `i` attempts and part of the last wait |
| RetryClient.MicrosAddUp | pkg/verusrpc/client.go:147-151 | the recorded duration is the sum over the attempts |
| RetryClient.SuccessCounts | pkg/verusrpc/client.go:153-216 | success after `k` failures adds `k + 1` requests and `k` errors |
| RetryClient.FailureCounts | pkg/verusrpc/client.go:153-212 | a failed call counts every attempt as an error |
| RetryClient.GivesUpAfterAllAttempts | pkg/verusrpc/client.go:142 | the call gives up exactly when no permitted attempt is decisive, after all of them, with the last error |
| RetryClient.TotalWaitClosedForm | pkg/verusrpc/client.go:110-116 | `k` retries wait `retryDelay * k * (k + 1) / 2`, and not at all when the delay is negative |
| RetryClient.WaitIsBounded | pkg/verusrpc/client.go:110-116 | however a call ends, its waits, a last one cut short included, stay within those of all permitted retries |
| RetryClient.ValidatedWaitIsBounded | internal/config/config.go:315-317 | every validated configuration waits at most 55 retry delays per call |
| RetryClient.RequestsMinusErrors | pkg/verusrpc/client.go:301-303 | over any sequence of calls requests minus errors is the number of successful calls |
| RetryClient.CountersAddUp | pkg/verusrpc/client.go:153-216 | counters of consecutive calls add up, each call counting its own attempts and failures |
| Decompression.LimitedWriter.Write | internal/storage/decompressor.go:98-117 | accepts the bytes that fit, counts them off, and reports an error exactly when the limit is reached |
| Decompression.CopyLimited | internal/storage/decompressor.go:78-85 | however the stream is chunked, the copy succeeds exactly when the total is below the limit and the stream clean, and has written exactly the first bytes up to the limit |
| Decompression.FlattenIsConcatenation | internal/storage/decompressor.go:78 | the stream is the chunks in a row |
| Decompression.Decompressor.constructor | internal/storage/decompressor.go:23-32 | a zero limit becomes 100 MiB |
| Decompression.Decompressor.DecompressGzip | internal/storage/decompressor.go:60-88 | the whole stream when it is clean and below the limit, else the limit error before the decoding error |
| Decompression.Decompressor.Decompress | internal/storage/decompressor.go:37-57 | content that begins with 0x1F, 0x8B is decompressed, any other returned as it is |
| Decompression.Decompressor.MustDecompress | internal/storage/decompressor.go:121-127 | content that begins with 0x1F, 0x8B comes back decompressed when its stream is clean and below the limit, and any other content unchanged |
| FileRequests.RejectionsByField | internal/domain/file.go:87-143 | a request is accepted exactly when all four fields meet their rules, spelled out by character, and otherwise rejected for the first that does not |
| FileRequests.CacheKeySpelled | internal/domain/file.go:146-153 | the key is chain, colon and transaction, with `:encrypted` after it when there is a viewing key |
| FileRequests.ParseInvertsCacheKey | internal/domain/file.go:146-153 | the cache key of an accepted request can be parsed back into chain, transaction and whether a key was given |
| FileRequests.CacheKeySeparates | internal/domain/file.go:87-153 | two accepted requests share a cache key exactly when those three agree |
| FileRequests.DecryptorAccepts | internal/crypto/decrypt.go:36-44 | the decryptor serves exactly the accepted requests with a viewing key free of upper-case letters |
| FileServices.FetchedWhenServed | internal/crypto/decrypt.go:35-58 | an accepted request is ever fetched exactly when it has a viewing key without upper-case letters that the node serves for its transaction, and then whenever nothing goes wrong on the way |
| FileServices.FetchFailures | internal/service/file_service.go:51-66 | the chain error, the decryptor's refusal of a missing or upper-case key, and the failed decryption are each returned exactly when they come first |
| FileServices.FetchYields | internal/service/file_service.go:62-87 | a fetch yields the decompressed stream if the decrypted bytes begin with 0x1F, 0x8B, decode cleanly and stay below 100 MiB, else the raw bytes, with size, type, compression flag, filename and extension that go with them |
| FileServices.ExtensionFollowsLastDot | internal/storage/detector.go:31-42 | the extension is what follows the last dot of the filename, or the one for the detected type when nothing does |
| FileServices.FileService.GetFile | internal/service/file_service.go:38-105 | validation, cache hit, fetch and background store happen in this order with these effects on cache and pending stores, where acceptance is spelled out by `RejectionsByField`; with a viewing key that is served and nothing going wrong on the way it succeeds |
| FileServices.DetectedIsAscii | internal/domain/file.go:113-129 | all metadata that the service detects and stores is ASCII |
| FileServices.FileService.RunPending | internal/service/file_service.go:89-102 | a background store is one cache `Set`, or nothing once its context is over |
| ServiceRuns.AnswersAreFresh | internal/service/file_service.go:44-104 | in every interleaving, over a persisted cache too, each answer has the content, size, type and compression flag of a fetch for its chain and transaction under some served viewing key, and under every served one where the node decrypts the same under all; a fetched answer is that of its own fetch; metadata is empty only on a cached answer read past `ttl` |
| ServiceRuns.StoredEntriesAreFresh | internal/service/file_service.go:89-102 | in every interleaving each stored content belongs to the key of a request whose fetch succeeds, holds what that fetch yields, and has agreeing metadata beside it |
| ServiceRuns.NoFileWithoutEvk | internal/service/file_service.go:44-65 | a request without a viewing key is never answered with a file, not even a cached one |
| ServiceEffects.Visit.AloneIsGetFile | internal/service/file_service.go:38-105 | a request handled alone by the step-by-step service ends with the answer, cache and pending store that the contract of `GetFile` states |
| ServiceEffects.StoresAreSets | internal/service/file_service.go:89-102 | a background store of the step-by-step service is one `Set` at that time, and a lost one changes no cache |
| CachedAnswers.UpperCaseKeysBorrow | internal/domain/file.go:77 | every accepted request with the cache on and an upper-case letter in its key is in some run answered with the file that any served key gives access to, although every fetch for it fails |
| CachedAnswers.RefusedKeysBorrow | internal/domain/file.go:146-151 | the same for every request whose key the decryptor or the node refuses |
| CachedAnswers.CachedAgreesWithFetch | internal/domain/file.go:146-151 | in every run a request's answers are those of its own fetch, if and only if not: it uses a cache with non-negative time to live, has a viewing key, and the node serves something else for its transaction under some other key |
| CachedAnswers.CachedAgreesWhenKeysAgree | internal/crypto/decrypt.go:47-50 | where the node decrypts the same under every key it serves, the exceptions are the requests whose own key is refused while some other key is served |
| CachedAnswers.MetadataCanVanish | internal/service/file_service.go:44-49 | for every fetchable request and every age past the time to live some run of the service hands out the content without metadata |
| CachedAnswers.CachedFilesAreWholeExactlyWhileFresh | internal/service/file_service.go:44-49 | cached files whose metadata is read at a given age are handed out whole in every run if and only if that age is at most `ttl` (or `ttl` is negative and nothing is cached) |

## Left out

- HTTP handlers, routing, CORS, API keys, audit, logging, Prometheus metrics: plumbing over libraries.
- Redis cache: storage and expiry happen in another program.
- Failed file operations: the code ignores most of them, and its accounting does not try to handle them.
- The `ttl` argument of `Set`: the code ignores it in favour of the cache-wide time to live.
- `Stats` of cache, limiter and client: they only read counters and divide.
- The ticker loops around cleanup and sweeping, and `Close`: cleanup and sweep may happen at any moment in the model.
- `RetrievedAt` and `CreatedAt` of a file: the first is the clock, the second is never set.
- `detectBySignature`, `IsTextLike` and the type-to-extension table: look-ups, kept uninterpreted.
- Chain manager and configuration loading: choosing a client is one outcome of a fetch.
- Error messages: a rejected request names the offending field only, and failures of an exchange their kind.
- `DecryptData` and `GetInfo` of the RPC client beyond `Call`: parsing of results.
- Integer overflow of sizes, durations and counters.
- FileServices.FileService.GetFile: calls the cache as one step; the interleaving of its lookup is modelled in `ServiceRuns` on values.
- ServiceRuns.AnswersAreFresh: leaves out filename and extension, which come from the storing request, and the transaction and chain names, which a cached answer leaves empty (`internal/cache/filesystem.go:133-137`).
- CacheConcurrency.HitsAreCoherent: assumes that every `Set` carries metadata, as the file service's do; `LookupsReturnLatestSet` does not.
