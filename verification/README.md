# Verified models of the formatter's stateful algorithms

The backend is mostly web plumbing around a set of small algorithms whose guarantees only
show over whole runs. This project models them in Dafny, in the form the source has: objects
that update their fields are classes whose methods are proved against a specification step,
and the guarantees are lemmas over all runs of those steps.

| module | models |
|---|---|
| `TokenBucket` | the token-bucket middleware: one bucket per client, shared by paths with different limits |
| `ApiKeyLimiter` | the three-tier fixed-window limiter, over Redis counters and over dictionaries |
| `SlidingLog` | the sliding-window middleware |
| `MemoryCache` | the bounded TTL cache with lazy expiry, cleanup and eviction |
| `StatusCache` | fresh and stale reads of the document status cache, and its purge |
| `CrossRef`, `Retry` | the CrossRef client's cache and retry schedule; the transient-retry loop |
| `Sanitizer`, `SizeChecks`, `SanitizeInPlace` | the sanitizer's stages, the manuscript size checks, and sanitizing section objects in place |
| `Citations` | citation extraction and the three renumbering passes |
| `ChunkedUpload` | chunks arriving in any order, and their assembly |
| `PubSub` | the in-memory fallback of the pub/sub broker |
| `Manuscripts` | the conversion between API and domain manuscripts |
| `Telemetry`, `Timing` | counters and histograms; the trimmed timing samples and their percentiles |
| `Versioning` | version parsing, printing, ordering and negotiation |
| `BodyLimit` | the streaming request body limit |
| `Text`, `Decimal`, `Arithmetic`, `Finite` | stripping, decimal notation, small numeric functions, cardinalities and sums, used by the others |

Conventions: every operation or locked section is one atomic step that reads the clock once,
and run lemmas take a non-decreasing clock; floats are reals; hashing and remote services are
parameters.

Where the documentation and the code differ the model follows the code:

- `backend/app/services/api_key_rate_limiter.py:25-36` speaks of a sliding window; the code counts fixed windows. No limits that admit anything make all three tiers sliding (`ApiKeyLimiter.SlidingClaim`); the minute limit alone is one exactly when it admits nothing or the hour or day limit is at most half of it (`ApiKeyLimiter.MinuteSlides`).
- `backend/app/services/crossref_client.py:125` says "keep last 2000", which is true of insertions (`CrossRef.CacheIsNewest`) and not of uses: a hit does not refresh its key (`CrossRef.HitDoesNotRefresh`).
- `backend/app/middleware/security_headers.py:80-87` says that bodies beyond the limit are stopped; after the 413 further messages still reach an application that goes on reading (`BodyLimit.AfterTheDisconnect`).

Other behaviours that are proved as they are: `delete` of the cache reports expired keys
(`MemoryCache.DeleteSeesExpired`), a status TTL above 90 seconds loses fresh entries
(`StatusCache.LongTtlLosesFresh`), mixed citation styles can be renumbered twice
(`Citations.MixedDocumentFails`), and chunk indices are not checked against the total
(`ChunkedUpload.IncompleteAssembly`). When each of these does come out right is stated by
`MemoryCache.BoundedIsUnbounded`, `StatusCache.ExactUpToMaxStale`, `Citations.MarkersPointToOwn` and
`ChunkedUpload.CountIsNotEnough`.

## Model

| member | source | states |
|---|---|---|
| `TokenBucket.RateLimiter.Dispatch` | backend/app/core/middleware.py:39-81 | One request: exempt paths change nothing; otherwise the client's bucket is refilled for the limit of the first matching path pattern, one token is taken if there is one, and the response carries limit, remaining tokens, reset time or `Retry-After` |
| `TokenBucket.PotentialKept` | backend/app/core/middleware.py:59-70 | The step behind the bound: tokens plus admissions, less what the largest rate refills, never grows, whichever path's cap and rate the step uses |
| `TokenBucket.PotentialHolds` | backend/app/core/middleware.py:39-81 | The same over every run of mixed clients and paths with a non-decreasing clock |
| `TokenBucket.AdmissionsOfPaths` | backend/app/core/middleware.py:29-81 | A client that calls only paths with limits of at most l is admitted in any interval [s, t] of any run at most burst capacity of l + rate of l * (t - s) times |
| `TokenBucket.AdmissionsAreBounded` | backend/app/core/middleware.py:29-81 | In any interval [s, t] of any run a client is admitted at most largest burst capacity + largest rate * (t - s) times, although all paths share one bucket; the initial fill does not count, since the first refill caps it |
| `TokenBucket.DefaultMinute` | backend/app/core/middleware.py:18-37 | With the default configuration at most 250 requests of a client are admitted in any 60 seconds |
| `TokenBucket.TokensStayInRange` | backend/app/core/middleware.py:56-70 | A bucket never goes below zero or above the largest burst capacity |
| `TokenBucket.TokensOfPaths` | backend/app/core/middleware.py:56-70 | The bucket of a client that calls only paths with limits of at most l stays between zero and the burst capacity of l |
| `TokenBucket.ClientsAreIndependent` | backend/app/core/middleware.py:53-70 | A client's bucket and admissions are those of the run with every other client's requests left out |
| `TokenBucket.RetryAfterSuffices` | backend/app/core/middleware.py:59-81 | A client that waits the advertised `Retry-After` has a token if and only if the path's burst capacity is at least one |
| `TokenBucket.LimitIsFirstMatch` | backend/app/core/middleware.py:46-50 | The limit of a path is that of the first pattern that is a prefix of it, the default if none is |
| `TokenBucket.DefaultLimits` | backend/app/core/middleware.py:32-37 | With the configured patterns the limits are 10, 30, 20 and 100 for the four path families |
| `TokenBucket.CapacityIsFloor` | backend/app/core/middleware.py:53 | The burst capacity is the largest integer up to limit times burst factor |
| `TokenBucket.FirstVolley` | backend/app/core/middleware.py:29-70 | A lower bound that is exact: of k simultaneous requests of a new client for one path min(k, burst capacity, default limit) are admitted, and the bucket then holds the rest |
| `TokenBucket.SpacedIsServed` | backend/app/core/middleware.py:52-70 | A client whose requests come at least window / limit seconds apart is always served, on paths of one limit whose burst capacity is at least one |
| `ApiKeyLimiter.Limiter.CheckRedis` | backend/app/services/api_key_rate_limiter.py:68-128 | The three counters are incremented and given their expiry; the verdict is that of the new counts, the minute tier first |
| `ApiKeyLimiter.Limiter.CheckMemory` | backend/app/services/api_key_rate_limiter.py:130-184 | The same verdict from the in-memory counts; only the key's own dictionaries change |
| `ApiKeyLimiter.Limiter.CleanupMemory` | backend/app/services/api_key_rate_limiter.py:186-192 | Exactly the windows before the current ones are dropped, for this key alone |
| `ApiKeyLimiter.RedisCounts` | backend/app/services/api_key_rate_limiter.py:68-90 | Over every run each live Redis counter holds the number of calls of its window, since its expiry outlives the window |
| `ApiKeyLimiter.OneLiveWindow` | backend/app/services/api_key_rate_limiter.py:130-192 | After any run each in-memory tier of a key holds exactly one window, that of the key's last call, with that window's number of calls |
| `ApiKeyLimiter.MemoryCounts` | backend/app/services/api_key_rate_limiter.py:130-192 | From the last call on, the in-memory count of the current window is the number of calls made in it |
| `ApiKeyLimiter.MemoryRefinesRedis` | backend/app/services/api_key_rate_limiter.py:68-192 | For every run with a non-decreasing clock both backends give the same verdict, limit, remaining, reset time and retry time, namely those computed from the call history |
| `ApiKeyLimiter.WindowsAre` | backend/app/services/api_key_rate_limiter.py:69-72 | Windows are whole minutes, hours and days of the clock |
| `ApiKeyLimiter.VerdictIsExact` | backend/app/services/api_key_rate_limiter.py:91-128 | The first tier whose limit is exceeded rejects, with its limit, nothing remaining, the next multiple of 60, 3600 or 86400 seconds as reset time and the time until then as retry time; an admitted call gets the least limit, the least remainder and the next minute |
| `ApiKeyLimiter.ResetIsFresh` | backend/app/services/api_key_rate_limiter.py:91-128 | On every run, at a tier's reset time none of the calls so far counts in that tier's window nor in a shorter one |
| `ApiKeyLimiter.ResetSuffices` | backend/app/services/api_key_rate_limiter.py:91-184 | A client that comes back at the day's reset time is admitted, and at that of another tier it is not rejected by that tier again, for limits of at least one |
| `ApiKeyLimiter.WindowAdmitsAtMostLimit` | backend/app/services/api_key_rate_limiter.py:130-184 | With fixed limits every minute, hour and day window admits at most its limit |
| `ApiKeyLimiter.AdmittedArePrefix` | backend/app/services/api_key_rate_limiter.py:130-184 | Within a minute window the admitted calls of a key come before the rejected ones |
| `ApiKeyLimiter.TwiceTheLimit` | backend/app/services/api_key_rate_limiter.py:130-184 | For every tier, any half-open interval as long as its window admits at most twice its limit |
| `ApiKeyLimiter.SixtySeconds` | backend/app/services/api_key_rate_limiter.py:130-184 | Any half-open 60 seconds admit at most twice the least of the three limits, since an admitted call of a minute is one of its hour and its day |
| `ApiKeyLimiter.SixtySecondsIsTight` | backend/app/services/api_key_rate_limiter.py:130-184 | That bound is met: for all limits some run has twice the least limit admitted within two seconds |
| `ApiKeyLimiter.MinuteSlides` | backend/app/services/api_key_rate_limiter.py:130-184 | The minute limit is kept over every 60 seconds of every run if and only if it is not positive or the hour or day limit is at most half of it |
| `ApiKeyLimiter.SlidingClaim` | backend/app/services/api_key_rate_limiter.py:25-36 | The documented sliding window, all three limits of it: no interval of any run that is as long as a tier's window admits more than the tier's limit, for every tier, if and only if some limit is not positive, so that nothing is ever admitted |
| `SlidingLog.RateLimiter.InMemoryCount` | backend/app/middleware/rate_limit.py:88-95 | The subject's list, upload or general, becomes its entries of the last 60 seconds and the new one; the count is its length; the other store is untouched |
| `SlidingLog.RateLimiter.Dispatch` | backend/app/middleware/rate_limit.py:127-171 | Health checks pass unlogged; any other request is logged in the store and under the subject of its kind, and is rejected with 429 exactly when the larger of both counts exceeds the limit |
| `SlidingLog.SubjectsAreIndependent` | backend/app/middleware/rate_limit.py:88-95 | A subject's log in a run of many subjects is the log of its own requests |
| `SlidingLog.StoresAreApart` | backend/app/middleware/rate_limit.py:127-153 | Over every run the upload store sees exactly the posts to the upload path and the general store all else but health checks |
| `SlidingLog.SubjectsMeet` | backend/app/middleware/rate_limit.py:136-150 | Uploads are counted together if and only if address and token agree, other requests if and only if the address does |
| `SlidingLog.StoredLogIsTail` | backend/app/middleware/rate_limit.py:88-95 | After a subject's request its stored list is the end of its whole history, rejected requests included, that is later than 60 seconds before |
| `SlidingLog.AtMostLimit` | backend/app/middleware/rate_limit.py:153-171 | Whatever Redis counts, at most `limit` requests of a subject are admitted in any 60-second window, open at either end |
| `SlidingLog.VerdictFromHistory` | backend/app/middleware/rate_limit.py:153-171 | A request is admitted if and only if fewer than `limit` requests of its subject came less than 60 seconds before and Redis, if it answered, counted at most `limit`; so Redis only makes a verdict stricter |
| `MemoryCache.Cache.Get` | backend/app/core/cache.py:74-84 | Due cleanup, then the value of a live key; an expired key is removed and missed |
| `MemoryCache.Cache.Set` | backend/app/core/cache.py:86-94 | Due cleanup, then one eviction if a new key meets a full store, then the entry with its expiry |
| `MemoryCache.Cache.Evict` | backend/app/core/cache.py:96-100 | Removes one entry of least expiry, if there is one |
| `MemoryCache.Cache.Exists` | backend/app/core/cache.py:109-115 | Due cleanup, then whether the key is live; nothing else changes |
| `MemoryCache.Cache.Delete` | backend/app/core/cache.py:102-107 | Removes the key and tells whether it was stored, expired or not |
| `MemoryCache.Cache.Clear` | backend/app/core/cache.py:117-121 | Empties the store |
| `MemoryCache.Cache.Cleanup` | backend/app/core/cache.py:62-72 | Once the interval has passed, removes exactly the expired entries |
| `MemoryCache.Cache.Invalidate` | backend/app/core/cache.py:385-397 | Removes exactly the keys with the given prefix |
| `MemoryCache.StepSize` | backend/app/core/cache.py:86-100 | No operation makes the store larger than `max_items` |
| `MemoryCache.StepAgreement` | backend/app/core/cache.py:62-121 | A step keeps the bounded store and the unbounded map in agreement on all live keys if and only if the live keys, counting the one being set, fit |
| `MemoryCache.StepResult` | backend/app/core/cache.py:74-121 | A step's answer is that of the unbounded map if and only if it is not the `delete` of an expired entry that is still stored |
| `MemoryCache.OverflowLosesLiveEntry` | backend/app/core/cache.py:86-100 | When they do not fit, a key that the unbounded map holds live is gone from the store |
| `MemoryCache.RunAgrees` | backend/app/core/cache.py:62-121 | At every point of every run in which the live keys fit, store and map agree and the size bound holds |
| `MemoryCache.BoundedIsUnbounded` | backend/app/core/cache.py:62-121 | On every such run an operation is answered as the unbounded TTL map would if and only if it is not the `delete` of an expired entry that is still stored, and the size never exceeds `max_items`: eviction and cleanup are invisible |
| `MemoryCache.AnswersFromLog` | backend/app/core/cache.py:74-121 | On every such run, from the log of operations alone: a `get` answers the value last set, and `exists` true, exactly until the set's time plus its TTL or the default one, unless the key was deleted, cleared or invalidated by prefix since |
| `MemoryCache.SetThenGet` | backend/app/core/cache.py:74-94 | The `get` after a `set` finds the value exactly until the set's time plus the TTL, whatever the size |
| `MemoryCache.GarbageIsBounded` | backend/app/core/cache.py:62-94 | After every get, set and exists an entry that is still stored expired less than a cleanup interval ago, if at all; a get leaves no expired entry under its key |
| `MemoryCache.DeleteSeesExpired` | backend/app/core/cache.py:102-107 | A run in which `delete` returns true for a key that has expired |
| `StatusCache.Cache.GetFresh` | backend/app/services/document_pipeline_service.py:137-152 | The payload if the TTL is positive and the entry has not expired |
| `StatusCache.Cache.GetStale` | backend/app/services/document_pipeline_service.py:155-174 | The payload up to 90 seconds past its expiry; an older entry is removed |
| `StatusCache.Cache.Set` | backend/app/services/document_pipeline_service.py:177-193 | Stores the payload, then purges what was written more than 90 seconds ago; a TTL of zero or less removes the key |
| `StatusCache.RunMirrorsWrites` | backend/app/services/document_pipeline_service.py:137-193 | After every run an entry is stored if and only if the key's last write was neither purged by a later write nor found too old by a stale read, and it is that write |
| `StatusCache.ReadsFromLog` | backend/app/services/document_pipeline_service.py:137-193 | What both reads return, computed from the log of operations alone, for every positive TTL |
| `StatusCache.FreshIsExact` | backend/app/services/document_pipeline_service.py:137-152 | For 0 < TTL <= 90 a fresh read hits if and only if the last write is less than the TTL old, and returns that write |
| `StatusCache.LongTtlLosesFresh` | backend/app/services/document_pipeline_service.py:177-193 | For every TTL above 90 that fails: a run in which another key's write purges a fresh entry |
| `StatusCache.ExactUpToMaxStale` | backend/app/services/document_pipeline_service.py:137-193 | Fresh reads are exact on all runs if and only if the TTL is at most 90 seconds |
| `StatusCache.StaleBounds` | backend/app/services/document_pipeline_service.py:155-174 | A write of the last 90 seconds is available stale, nothing older than TTL + 90 is returned, and a fresh hit is also a stale hit with the same payload |
| `StatusCache.PurgeSparesFresh` | backend/app/services/document_pipeline_service.py:188-193 | For 0 < TTL <= 90 the write of one key changes no fresh read of another |
| `ChunkedUpload.UploadDir.UploadChunk` | backend/app/services/document_pipeline_service.py:620-641 | One chunk: rejected over 5 MB; stored; when the number of parts is the announced one, either the size check removes all parts or the file is assembled |
| `ChunkedUpload.UploadDir.Reassemble` | backend/app/services/document_pipeline_service.py:73-84 | The index-order concatenation of the parts below the count; the incrementally fed hash is the hash of that content; exactly those parts are removed |
| `ChunkedUpload.UploadDir.Measure` | backend/app/services/document_pipeline_service.py:631 | The checked size is the sum of all part sizes, whatever order the directory lists them in |
| `ChunkedUpload.FeedAppend` | backend/app/services/document_pipeline_service.py:74-83 | Feeding a hash piece by piece is feeding it the concatenation |
| `ChunkedUpload.HashIsFold` | backend/app/services/document_pipeline_service.py:74-84 | The hash of a file is built byte by byte from the start value |
| `ChunkedUpload.PartsAreLatest` | backend/app/services/document_pipeline_service.py:620-630 | While an index is missing, the stored parts are the latest contents of each index that arrived |
| `ChunkedUpload.CountTellsMissing` | backend/app/services/document_pipeline_service.py:629-630 | With indices in range the count test is exact: the number of parts is the total if and only if no index is missing |
| `ChunkedUpload.AssemblyOnLastMissing` | backend/app/services/document_pipeline_service.py:620-641 | For every arrival order with re-sends, assembly is triggered by exactly the request that brings the last missing index; the result is the concatenation of the latest contents with the hash of the whole file, or a rejection if and only if it is larger than allowed, and no part remains |
| `ChunkedUpload.CountIsNotEnough` | backend/app/services/document_pipeline_service.py:629-641 | Indices are not checked against the total: after any run, an assembled file lacks no part, and no part is left over, if and only if no stored index is out of range; then its length is the size that was checked |
| `ChunkedUpload.FirstAssembly` | backend/app/services/document_pipeline_service.py:620-641 | The first assembly of an upload, whatever the indices: it consists of the latest contents, and misses no index and leaves no part if and only if every accepted chunk had an index in range |
| `ChunkedUpload.IncompleteAssembly` | backend/app/services/document_pipeline_service.py:629-641 | Indices 0 and 5 for a total of two: the file is assembled from chunk 0 alone, index 1 is missing and part 5 stays |
| `ChunkedUpload.ConcatSize` | backend/app/services/document_pipeline_service.py:631-633 | The checked size is the size of the assembled file |
| `ChunkedUpload.ConcatPlaces` | backend/app/services/document_pipeline_service.py:76-83 | Each part's bytes stand in the file where the parts before it end |
| `CrossRef.Client.FetchApi` | backend/app/services/crossref_client.py:64-129 | A cached query is answered from the cache without a request; any other makes 1 to 4 requests, sleeps at most 7 seconds, and its answer is cached and the cache trimmed; a cache faithful to the service stays so and the result is the service's answer |
| `CrossRef.Client.Request` | backend/app/services/crossref_client.py:73-123 | The number of requests is exact: those before the last were rate-limited, the last was not or was the fourth and gives the result; 2^(n-1) - 1 seconds of sleep for n requests |
| `CrossRef.AnswerIsSettled` | backend/app/services/crossref_client.py:73-123 | The answer is that of the first of four requests that is not rate-limited, nothing if all are |
| `CrossRef.Client.TrimCache` | backend/app/services/crossref_client.py:124-129 | Exactly the oldest keys beyond 2000 are deleted |
| `CrossRef.CacheIsNewest` | backend/app/services/crossref_client.py:64-129 | Over every run the cached keys are the newest 2000 successful fetches, in insertion order |
| `CrossRef.CachedOnce` | backend/app/services/crossref_client.py:64-129 | Keys are distinct, at most 2000, and each was asked for and has an answer |
| `CrossRef.NothingDroppedWithinCapacity` | backend/app/services/crossref_client.py:124-129 | Every answered query of a run is still cached at its end if and only if there are at most 2000 different ones; queries without an answer take no place |
| `CrossRef.HitDoesNotRefresh` | backend/app/services/crossref_client.py:70-71 | The cache is first in, first out: a key of a full cache that is asked for again survives the next insertion if and only if it was not the oldest |
| `Retry.ExecuteWithTransientRetry` | backend/app/services/document_crud_service.py:122-150 | The result is that of the first call that is not a transient failure, or of the last attempt; at most max(1, max_attempts) calls; a refresh and a doubled delay between two calls, 0.15 * (2^(n-1) - 1) seconds after n calls |
| `Sanitizer.DropControlKeeps` | backend/app/core/validator_ext.py:12 | The control stage leaves no control character and changes a string if and only if it has one |
| `Sanitizer.DropControlIsLocal` | backend/app/core/validator_ext.py:12 | It works character by character |
| `Sanitizer.TagPassIsOutsideTags` | backend/app/core/validator_ext.py:11 | The tag stage keeps exactly the characters that lie in no tag |
| `Sanitizer.ScriptPassRemovesElement` | backend/app/core/validator_ext.py:10 | The script stage removes the leftmost script element, keeps what precedes it and goes on behind it |
| `Sanitizer.ScriptPassIsOutsideElements` | backend/app/core/validator_ext.py:10 | The script stage keeps exactly the characters that lie in no script element, elements being taken leftmost first and without overlap |
| `Sanitizer.ControlCodes` | backend/app/core/validator_ext.py:12 | Of the ASCII control codes only tab, line feed and carriage return are kept; every other character is |
| `Sanitizer.SanitizedOutput` | backend/app/core/validator_ext.py:33-42 | The whole output: of the characters that are no control codes those outside script elements, of these those outside tags, stripped, and cut at the bound as Python slices |
| `Sanitizer.ScriptTextIsRemoved` | backend/app/core/validator_ext.py:33-42 | A script element in any case and with any attributes is removed with its text |
| `Sanitizer.CleanFixpoints` | backend/app/core/validator_ext.py:33-41 | The stages together return their input if and only if it has no control character, no `<` later followed by `>`, and no whitespace at its ends |
| `Sanitizer.SanitizedIsSafe` | backend/app/core/validator_ext.py:33-42 | For every input and bound: no control character, no `<` later followed by `>`, so no tag re-forms; a positive bound is respected; truncation is a prefix of the unbounded result |
| `Sanitizer.SanitizeFixpoints` | backend/app/core/validator_ext.py:33-42 | Exactly which strings are left alone, with and without a bound |
| `Sanitizer.UnboundedIsIdempotent` | backend/app/core/validator_ext.py:33-42 | Without a bound the sanitizer is idempotent |
| `Sanitizer.BoundedSettlesInTwo` | backend/app/core/validator_ext.py:33-42 | With a positive bound two applications reach a fixpoint, one does if and only if truncation does not cut just behind whitespace |
| `Sanitizer.BoundedIsNotIdempotent` | backend/app/core/validator_ext.py:33-42 | For every bound above 1 a string on which one application is not enough |
| `Sanitizer.BoundOneIsIdempotent` | backend/app/core/validator_ext.py:33-42 | The bound 1 is idempotent |
| `SanitizeInPlace.Section.Sanitize` | backend/app/core/validator_ext.py:100-109 | On section objects with disjoint footprints: heading, paragraphs and subsections are overwritten in place with the sanitized values, at any nesting; the objects and lists stay the same |
| `SanitizeInPlace.Section.SanitizeContent` | backend/app/core/validator_ext.py:102-107 | The paragraph loop |
| `SanitizeInPlace.Section.SanitizeSubsections` | backend/app/core/validator_ext.py:108-109 | The recursive loop; the section's own fields and paragraphs are untouched |
| `SanitizeInPlace.Paragraph.Sanitize` | backend/app/core/validator_ext.py:103-107 | One paragraph's text, style and alignment |
| `SanitizeInPlace.SanitizeSections` | backend/app/core/validator_ext.py:68-69 | The section loop changes every section to its sanitized value and no other object |
| `SanitizeInPlace.SanitizeKeywords` | backend/app/core/validator_ext.py:51-56 | The keyword loop keeps the non-empty sanitized keywords in order |
| `SizeChecks.CheckSectionDepth` | backend/app/core/validator_ext.py:193-199 | For all trees the accumulator started at d ends at d - 1 + max(1, height of the forest) |
| `SizeChecks.CountTotalParagraphs` | backend/app/core/validator_ext.py:202-207 | The number of paragraphs of the flattened forest |
| `SizeChecks.ValidateManuscriptSize` | backend/app/core/validator_ext.py:112-190 | Errors and warnings are exactly the issues that apply, and the manuscript is valid if and only if there is no error |
| `SizeChecks.ValidManuscripts` | backend/app/core/validator_ext.py:112-190 | Valid are exactly the manuscripts with at most 1000 characters of title, 50 authors, 100 sections and height 10, and without warning those within the other four limits |
| `SizeChecks.SanitizeKeepsShape` | backend/app/core/validator_ext.py:100-109 | Sanitizing keeps height and paragraph count of every forest |
| `SizeChecks.SanitizeThenCheck` | backend/app/core/validator_ext.py:45-190 | After sanitizing no title or abstract length issue can occur, the keyword issue can only vanish, and every other verdict is unchanged |
| `SizeChecks.SanitizedManuscriptIsGood` | backend/app/core/validator_ext.py:45-109 | After sanitizing every text field is within its own bound and free of control characters and tags, styles and alignments are allowed ones and no keyword is empty |
| `SizeChecks.ManuscriptFixpoints` | backend/app/core/validator_ext.py:45-109 | Sanitizing changes a manuscript if and only if some field is not like that or has whitespace at its ends |
| `Citations.ExtractCitations` | backend/app/services/citation_assembly_service.py:28-49 | The three loops yield the keys of all markers, kind by kind, without duplicates |
| `Citations.NormalizeKeepsInitial` | backend/app/services/citation_assembly_service.py:110-112 | A normalized author-year key is not empty and keeps its capital initial |
| `Citations.NormalizeIsExact` | backend/app/services/citation_assembly_service.py:110-112 | Of a text with given words, however spaced, normalizing makes the one with single blanks between them and no other whitespace |
| `Citations.NormalizeKeepsText` | backend/app/services/citation_assembly_service.py:110-112 | Nothing but whitespace is lost or added |
| `Citations.SameCitation` | backend/app/services/citation_assembly_service.py:110-112 | Two texts are one citation if and only if they differ in nothing but whitespace around and between their words |
| `Citations.DedupeExact` | backend/app/services/citation_assembly_service.py:33-47 | Extraction is duplicate-free, complete and in order of first occurrence |
| `Citations.ExtractionOrder` | backend/app/services/citation_assembly_service.py:33-47 | Citations of parenthesised markers come first, then bracketed ones, then numbers, each in the order of the text |
| `Citations.MergeGrows` | backend/app/services/citation_assembly_service.py:100 | Sections are merged in their order |
| `Citations.MappingIsBijection` | backend/app/services/citation_assembly_service.py:105 | The mapping is a bijection from the citations onto 1..n, by position |
| `Citations.SharedMappingIsBijection` | backend/app/services/citation_assembly_service.py:95-106 | The keys of all markers of all sections, and only those, are numbered, each by its position in the one reference list |
| `Citations.SharedNumber` | backend/app/services/citation_assembly_service.py:95-131 | Two author-year markers of a document get one number if and only if their texts differ in whitespace alone |
| `Citations.PassesAreSimultaneous` | backend/app/services/citation_assembly_service.py:114-131 | The three passes equal one simultaneous substitution if and only if no number written for an author-year marker is itself a citation with another number |
| `Citations.SimultaneousPointsToOwn` | backend/app/services/citation_assembly_service.py:95-131 | Under the simultaneous substitution every marker of every section points to its own references |
| `Citations.UniformDocuments` | backend/app/services/citation_assembly_service.py:95-131 | In documents with only author-year or only numeric citations the passes are the simultaneous substitution, so every marker points to its own references |
| `Citations.MarkersPointToOwn` | backend/app/services/citation_assembly_service.py:95-131 | For every document: after the three passes each marker of a section points to its own references if and only if no number written for an author-year marker is itself a citation with another number |
| `Citations.MixedDocumentFails` | backend/app/services/citation_assembly_service.py:114-131 | In a mixed document the last pass re-maps what the first wrote: for every author-year text followed by `[1]` both markers end at reference 2 |
| `PubSub.Broker.GetRedis` | backend/app/realtime/pubsub.py:32-57 | A client is returned if and only if Redis is enabled, fallback is not forced and this loop's client exists or answers; then this loop holds a client from now on, and no other loop's changes; a failed ping forces fallback for good |
| `PubSub.Broker.Publish` | backend/app/realtime/pubsub.py:59-81 | The event goes over Redis if and only if a client is had and the send works, and never while a local queue is registered; in every case each queue of the channel, and no other, gets it; a failure forces fallback, and once forced it stays |
| `PubSub.Broker.Deliver` | backend/app/realtime/pubsub.py:76-81 | Every member queue gets the event at its end, once |
| `PubSub.Broker.Subscribe` | backend/app/realtime/pubsub.py:83-87 | Without a Redis client, and only then, a fresh empty queue is registered on the channel; an empty channel name ends at once |
| `PubSub.Broker.Receive` | backend/app/realtime/pubsub.py:122-125 | The oldest event of the subscriber's own queue is taken; no other queue changes |
| `PubSub.Broker.Unsubscribe` | backend/app/realtime/pubsub.py:126-127 | The queue leaves its channel; all else stays |
| `PubSub.RunIsConsistent` | backend/app/realtime/pubsub.py:59-127 | Over every interleaving of publish, subscribe, receive and unsubscribe a queue is registered exactly on the channel its subscriber listens to, and holds what is outstanding |
| `PubSub.ExactDelivery` | backend/app/realtime/pubsub.py:59-127 | For every interleaving: received events followed by the queue are exactly the events published on the channel since the subscription, in order |
| `PubSub.ReceivedIsPrefix` | backend/app/realtime/pubsub.py:59-127 | What was received is a prefix of what was published since, and all of it once the queue is empty |
| `Manuscripts.SplitThenJoin` | backend/app/domain/models.py:16-24 | A full name is split at its last blank, and joining the parts gives the name up to surrounding whitespace |
| `Manuscripts.AuthorRoundTrip` | backend/app/domain/models.py:26-59 | API to domain to API is the identity on authors, blank names included |
| `Manuscripts.NameSurvives` | backend/app/domain/models.py:16-59 | A domain author built from a name alone keeps it through the API model up to surrounding whitespace |
| `Manuscripts.DomainAuthorRoundTrip` | backend/app/domain/models.py:16-59 | A domain author survives if and only if it was built without a name, from a name alone with no whitespace around it, or with the name that its first and last names make |
| `Manuscripts.SectionRoundTrip` | backend/app/domain/models.py:104-172 | Sections survive at any nesting, empty headings included |
| `Manuscripts.ReferenceRoundTrip` | backend/app/domain/models.py:192-244 | References survive |
| `Manuscripts.ManuscriptRoundTrip` | backend/app/domain/models.py:261-323 | to_pydantic(from_pydantic(m)) = m for every API manuscript, empty-string declarations included |
| `Manuscripts.AuthorFields` | backend/app/domain/models.py:26-39 | No author field changes its place on the way to the domain object |
| `Manuscripts.SectionFields` | backend/app/domain/models.py:132-150 | Nor a section's, nor a paragraph's |
| `Manuscripts.ReferenceFields` | backend/app/domain/models.py:203-225 | Nor a reference's |
| `Manuscripts.ManuscriptFields` | backend/app/domain/models.py:272-307 | Nor a manuscript's; the three declarations are in the metadata too |
| `Manuscripts.HeadingOrTitle` | backend/app/domain/models.py:104-172 | Title and heading stand in for each other, the heading counting where they differ |
| `Manuscripts.MetadataSuffices` | backend/app/domain/models.py:309-323 | A domain manuscript that loses the three declarations still gives the same API manuscript, from its metadata |
| `Telemetry.Counter.Inc` | backend/app/core/telemetry.py:20-23 | One label's count grows by one, created at zero if absent |
| `Telemetry.Counter.Reset` | backend/app/core/telemetry.py:30-32 | All counts are dropped |
| `Telemetry.Histogram.Observe` | backend/app/core/telemetry.py:71-79 | Sum, count and every bucket whose bound is not below the value are updated in the entry of the series |
| `Telemetry.MetricsCollector.ObserveRequest` | backend/app/core/telemetry.py:268-275 | Counter and histogram of the series change by one step each |
| `Telemetry.MetricsCollector.Reset` | backend/app/core/telemetry.py:290-297 | Both are emptied |
| `Telemetry.CountersAreExact` | backend/app/core/telemetry.py:20-32 | Over every run each counter is the number of its increments since the counters were cleared, and summed over status groups that of its series |
| `Telemetry.HistogramIsExact` | backend/app/core/telemetry.py:71-79 | Over every run the entry of a series holds count, sum and buckets of exactly the values observed since the histograms were cleared |
| `Telemetry.CounterEqualsHistogram` | backend/app/core/telemetry.py:268-297 | Conservation over all runs of requests and resets: the request counter summed over status groups equals the histogram count |
| `Telemetry.InFlightDifference` | backend/app/core/telemetry.py:268-297 | With sections interleaved, those of a reset included, the two differ by the increments since the counters were cleared less the observations since the histograms were |
| `Telemetry.BucketIsExact` | backend/app/core/telemetry.py:67-79 | A bucket equals the number of observations at or below its bound if and only if the bound is listed once or there is nothing to count |
| `Telemetry.BucketsAreCumulative` | backend/app/core/telemetry.py:71-99 | Buckets of distinct bounds are monotone and capped by +Inf, the count |
| `Timing.TimingMiddleware.Dispatch` | backend/app/core/middleware.py:218-233 | The elapsed time is appended to the log of method and path, which is cut to its newest half when it exceeds 10000; exempt paths are not logged |
| `Timing.TimingMiddleware.MetricsOf` | backend/app/core/middleware.py:191-206 | Count, sum and mean of the samples, with least, greatest and percentile values at their places in the sorted samples |
| `Timing.LengthStep` | backend/app/core/middleware.py:189-231 | How many samples are kept, as a function of the number of observations alone: it grows by one and falls to half the maximum, and never exceeds the maximum |
| `Timing.SamplesAreSuffix` | backend/app/core/middleware.py:226-231 | Across all trims the samples are a suffix of everything observed, of that length |
| `Timing.LogsAreIndependent` | backend/app/core/middleware.py:226-230 | In a run over many paths each log is that of its own observations, and exists if and only if there were any |
| `Timing.KeysDiffer` | backend/app/core/middleware.py:226 | Different methods or paths have different logs, methods being without blanks |
| `Timing.SortIsSorted` | backend/app/core/middleware.py:202 | The sorted samples are in order |
| `Timing.SortPermutes` | backend/app/core/middleware.py:202 | The sorted samples are a permutation of the samples |
| `Timing.SortedEnds` | backend/app/core/middleware.py:200-202 | `min` and `max` are the first and last sorted sample |
| `Timing.PercentilesAreOrdered` | backend/app/core/middleware.py:195-206 | min <= p50 <= p95 <= p99 <= max for all non-empty samples |
| `Timing.PercentileRank` | backend/app/core/middleware.py:202-204 | The value at sorted index k has at most k samples below it and more than k at or below it |
| `Timing.PercentilesAreExact` | backend/app/core/middleware.py:195-206 | At most half, 95 and 99 percent of the samples lie below the reported p50, p95 and p99, and more than that at or below |
| `Versioning.ParseIsExact` | backend/app/core/versioning.py:45-52 | Parsing accepts exactly two or three decimal numerals of at most 4300 digits with dots between and at most one trailing newline, and returns their values, patch zero if there are two |
| `Versioning.PartsAreNumerals` | backend/app/core/versioning.py:49-51 | Past the pattern the split has two or three parts and each is a numeral, a newline aside, so only its length can make `int` raise |
| `Versioning.ParsePrinted` | backend/app/core/versioning.py:25-52 | parse(str(v)) = v for all triples of naturals that `str` prints; with a field of more than 4300 digits both raise |
| `Decimal.ValueIsPositional` | backend/app/core/versioning.py:50-51 | Numerals are decimal: digits count ten times as much one place further left, leading zeros nothing |
| `Versioning.ParsedIsPrintable` | backend/app/core/versioning.py:25-52 | Whatever parses can be printed, leading zeros or not |
| `Versioning.CanonicalForm` | backend/app/core/versioning.py:25-52 | str after parse is a canonicalisation: idempotent, and equal for two texts if and only if they parse to the same version |
| `Versioning.DefaultPatch` | backend/app/core/versioning.py:49-52 | `a.b`, `a.b.0` and `a.b` with a trailing newline parse alike |
| `Versioning.VersionsAreOrdered` | backend/app/core/versioning.py:28-43 | The comparisons are one strict total lexicographic order, its reflexive form and their inverses |
| `Versioning.AcceptParses` | backend/app/core/versioning.py:92-97 | Whatever the Accept pattern captures matches the version pattern, and its `except` branch is taken if and only if a numeral has more than 4300 digits |
| `Versioning.AcceptIsRead` | backend/app/core/versioning.py:91-93 | What follows the first `version=` of an Accept header is captured, two numerals unless a third follows |
| `Versioning.AcceptThreeIsRead` | backend/app/core/versioning.py:91-93 | Three numerals are captured where they are there |
| `Versioning.AcceptIsSilent` | backend/app/core/versioning.py:91-93 | A header without `version=` gives nothing |
| `Versioning.Precedence` | backend/app/core/versioning.py:90-106 | The Accept header wins where its numerals convert, then a custom header that parses, then the path; an error comes only from the path |
| `Versioning.PathVersionIsRead` | backend/app/core/versioning.py:54-61 | The first `/v` and numeral of a path are read as that version unless a dot and a digit follow, or raise beyond 4300 digits; an earlier `/v` without a digit does not matter |
| `Versioning.PathMinorIsRead` | backend/app/core/versioning.py:54-61 | The first `/v`, numeral, dot and numeral of a path are read as major and minor version, or raise beyond 4300 digits |
| `Versioning.PathVersionExists` | backend/app/core/versioning.py:54-61 | A path has a version, or raises, if and only if a digit follows `/v` somewhere in it |
| `Versioning.SupportedIsMember` | backend/app/core/versioning.py:71-72 | Support is membership in the list |
| `Versioning.NegotiationIsExact` | backend/app/core/versioning.py:218-225 | The result is the requested version if and only if that is supported or current, the current one if it is not supported, 1.0.0 if none was requested, and an error if and only if reading the request raises |
| `Versioning.HeaderRoundTrip` | backend/app/core/versioning.py:90-225 | A supported version printed into the custom header is negotiated unchanged |
| `BodyLimit.Receiver.CustomReceive` | backend/app/middleware/security_headers.py:112-131 | One message: body bytes are counted; the first message beyond the limit sends a 413 and is replaced by a disconnect; every other is passed on |
| `BodyLimit.OnlyTheFirstOverIsReplaced` | backend/app/middleware/security_headers.py:112-131 | Over every stream exactly the first message beyond the limit is replaced, and only that one sends a 413 |
| `BodyLimit.FirstOverIsTight` | backend/app/middleware/security_headers.py:118-121 | What precedes it fits, it itself would not have |
| `BodyLimit.LimitIsExact` | backend/app/middleware/security_headers.py:112-133 | Exactly one 413 if the body exceeds the limit and none otherwise; before it a prefix of at most max_size bytes is passed on, without it the whole stream |
| `BodyLimit.AfterTheDisconnect` | backend/app/middleware/security_headers.py:118-131 | After the 413 messages are passed on again: an application that reads on gets every byte but the replaced message's, which stays within the limit if and only if the rest of the stream does |
| `BodyLimit.LimitCanBePassed` | backend/app/middleware/security_headers.py:118-131 | A stream of which the application receives more than the limit |
| `BodyLimit.DeclaredLength` | backend/app/middleware/security_headers.py:92-110 | An honest Content-Length decides before the application is called; a false one lets through nothing that its absence would not |

## Left out

- Redis, Supabase, SQLAlchemy, Celery, HTTP and WebSocket I/O: only the state they carry is modelled (counters with expiry, a map, a queue).
- JWT, HMAC, Fernet, CSRF, security headers, Pydantic schemas, ORM models, settings, logging, frontend and scripts: declarations or wrappers with only easy facts.
- One operation that reads the clock several times, as `dispatch` of the sliding limiter does for its Redis key: the Redis count is a parameter there, and so are the token fingerprint and Redis failures.
- Float rounding: times, tokens, delays, samples and sums are reals; `int(len * 0.95)` is the exact floor.
- ApiKeyLimiter: a limiter that switches between Redis and memory within a run, `get_usage`, and Redis counters that a restart loses.
- MemoryCache: `increment` (it inserts without evicting), `get_many`, `set_many`, `size`, `stats`, the `cache` decorator and `RedisCache`; a stored `None` is not told from a miss by the source's callers and is an ordinary value here. `invalidate_cache` is modelled for this backend only.
- StatusCache: a TTL that changes during a run, and the deep copies of payloads (payloads are values).
- CrossRef: the Redis layer and `validate_citation`; the service is a function from query and attempt to outcome.
- Sanitizer: non-string arguments; the case folding of the script tag pattern is written out for its letters (ASCII case, long s, dotted and dotless i).
- SanitizeInPlace: the manuscript's own fields, authors and references are sanitized on values (`SizeChecks.SanitizeManuscript`), so a corresponding author that is the same object as an author is not captured; section objects are taken to be a forest without sharing.
- SizeChecks: `_check_duplicate_headings`, whose nested counts are not propagated, and the other validators; issue messages are reduced to their kinds.
- Citations: character-level regular expressions (texts are sequences of plain text and markers), markers that nest or span the join of two sections, CrossRef lookup and CSL formatting.
- ChunkedUpload: the checks on file name, quota, extension, magic bytes and scanning, what follows assembly, and races between threads.
- PubSub: what happens inside Redis, the bounded-queue `QueueFull` branch (the source's queues are unbounded), and events in flight while a task is suspended between two steps.
- Manuscripts: content items that are plain strings or of other types, and the type-dispatching module functions.
- Telemetry: gauges, the other metrics, text output, the sorting of histogram bounds and their string keys (bounds are their own keys), and labels that are left out.
- Timing: the Prometheus text output and the response header.
- Versioning: digits other than ASCII, negative version fields, an interpreter started with another limit than 4300 digits, deprecation and sunset headers, `require_min_version`.
- BodyLimit: the integer reading of the Content-Length header (its value, if it is an integer, is a parameter) and events whose type is missing.
- Retry: which exceptions are transient (an attempt's outcome is a parameter).
