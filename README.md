# Modrinth downloader: the cache and the route decisions, in Dafny

The service is a small HTTP proxy in front of the Modrinth API. It resolves a project's latest
version, or a specific version, to a download URL. It answers with a 303 redirect, or with the
version document as JSON. Upstream answers are memoised in `CachingMap`, a read-through cache
whose entries expire after a fixed period without access.

This project models two things:

- **The cache (`caching.dfy`, module `Caching`).**
  - On values: `Entry`, `Cache`, the sweep `Sweep`, the countdown `Countdown`, and one `get`
    call as `GetStep`.
  - As objects: the classes `CachedEntry` and `CachingMap`. Their methods update their fields
    in place, as `src/CachingMap.ts` does. They are proved against `GetStep` through the ghost
    abstraction `Abstract()`.
  - The clock is explicit. `now` is the instant a `get` starts. `loadTime` is the instant the
    loader has returned.
  - The loader is represented by its result `loaded`, which only the miss path looks at.
  - Keys are the JSON fingerprints of the logical keys, taken as opaque strings.
- **The route decisions of `src/index.ts` (`routes.dfy`, module `Routes`):**
  - the choice of the file to serve and the answer of `respondVersion`;
  - the JSON test;
  - the project and version validators;
  - the loop that builds the latest route's cache key and upstream query, with its `cancel` flag;
  - the conditions under which the two loaders return nothing, so that nothing is cached.

`wrappers.dfy` holds `Option` and `Result`.

Three behaviours of the cache code are easy to misread, and the model keeps them as written:

- **Expired refresh.** A refreshed expired entry receives the loaded value but is not put back
  under its key (see Findings).
- **Sweep timing.** The counter is checked before the decrement, so the first sweep comes on the
  31st call, and then one every 31 calls.
- **Timestamp of a new entry.** A new entry is stamped when it is constructed, after the loader
  has returned, not at the instant of the lookup.

The same code is split into methods in the model:

- `get` is `CachingMap.Get`. It calls `CountDown` for lines 48-51, then `LookupOrRefresh` for
  lines 54-59.
- `LookupOrRefresh` hands the refresh at lines 62-75 to `Refresh`.
- `Refresh` uses `Delete` for line 62, `Insert` for lines 70-71 and `AssignDetached` for line 73.
- The statements are the source's, in the source's order.

## Model

| member | source | states |
|---|---|---|
| Caching.CachedEntry.constructor | src/CachingMap.ts:8-12 | A new entry holds the given value and parent, and its last access is the construction instant. |
| Caching.CachedEntry.Check | src/CachingMap.ts:14-17 | The entry is live at `now` exactly when `now < lastAccess + expireMillis`. As a function it cannot change `lastAccess`. |
| Caching.CachedEntry.CheckAndTouch | src/CachingMap.ts:19-25 | Returns the same verdict `Check` gives at the same instant, and sets `lastAccess` to that instant even when the entry had expired. |
| Caching.CachingMap.constructor | src/CachingMap.ts:33-37 | An empty store, the given expiry period and a countdown of 30. The cache invariant holds with zero calls served. The cache owns no entry objects yet (its footprint is fresh), so a caller can go on to call `Get` on it. |
| Caching.CachingMap.Clean | src/CachingMap.ts:39-45 | Afterwards the store is exactly the entries live at `now`. The kept entries are the same objects with the same last access. The invariant is preserved. |
| Caching.CachingMap.CountDown | src/CachingMap.ts:48-51 | Sweeps exactly when the countdown was at most 0 before the call, which is exactly when the call's number is a multiple of 31. The new abstract state is `Countdown` of the old one. Kept entries are the same objects. |
| Caching.CachingMap.Refresh | src/CachingMap.ts:62-75 | Returns the loaded result. The key is removed from the store. A present result is stored under a newly allocated entry object only when there was no entry. An expired entry receives the value but stays out of the map, with its last access untouched. |
| Caching.CachingMap.Delete | src/CachingMap.ts:62 | The key leaves the store and the map. Every other key keeps its entry object. The invariant is preserved. |
| Caching.CachingMap.Insert | src/CachingMap.ts:70-71 | A key absent from the map gets a newly allocated entry holding the value, touched at the load instant. Other keys keep their entry objects. The invariant is preserved. |
| Caching.CachingMap.AssignDetached | src/CachingMap.ts:73 | An entry whose key is no longer in the map receives the value, with its last access untouched. The store and the invariant do not change. |
| Caching.CachingMap.LookupOrRefresh | src/CachingMap.ts:54-75 | Result and new store are those of `Serve` on the old abstract state. A live entry stays the same object. An expired entry that gets a value is left out of the map, holding the value and touched at `now`. |
| Caching.CachingMap.Get | src/CachingMap.ts:47-76 | Result and new abstract state are those of `GetStep`. The call count goes up by one. The call sweeps exactly when its number is a multiple of 31, so the countdown stays in 0..30. Kept entries keep their identity. The expired-refresh quirk holds on the objects. |
| Caching.SweepKeepsExactlyLive | src/CachingMap.ts:39-45 | A key survives the sweep exactly when its entry is live, and its entry is unchanged. |
| Caching.SweepIdempotent | src/CachingMap.ts:39-45 | Sweeping again at the same instant removes nothing more. |
| Caching.SweepLaterRemovesMore | src/CachingMap.ts:14-17 | A later sweep keeps a subset of what an earlier sweep keeps: liveness only runs out as time passes. |
| Caching.CountdownKeepsHit | src/CachingMap.ts:48-57 | The countdown's sweep never removes or changes the entry a call is about to hit. It only ever removes keys, and it leaves the expiry period alone. |
| Caching.HitPath | src/CachingMap.ts:56-59 | On a live entry the result is the stored value, whatever the loader would produce. The entry's last access becomes `now`. The key set is what the countdown left, so it is unchanged when no sweep is due. |
| Caching.MissUsesLoader | src/CachingMap.ts:62-75 | Without a live entry, `get` returns exactly the loader's result. |
| Caching.AbsentNotCached | src/CachingMap.ts:62-67 | An absent load returns absent and leaves no entry for the key. |
| Caching.AbsentThenReload | src/CachingMap.ts:62-67 | After an absent load, the next call on the key returns whatever its loader produces. |
| Caching.ColdMissStores | src/CachingMap.ts:69-71 | With no entry, a present load is returned and stored as a new entry stamped with the post-load instant. |
| Caching.ExpiredRefreshDropped | src/CachingMap.ts:62-74 | With an expired entry, a present load and no sweep due, the value is returned but the key is gone from the store. Nothing else changes. |
| Caching.ExampleClient | src/CachingMap.ts:47-76 | A client builds a cache with expiry 1000 ms and asks for `a` at 0, 0 and 1100 ms. It gets 1, then the cached 1 again, then the reloaded 3. |
| Caching.ExpiredRefreshReloads | src/CachingMap.ts:62-74 | Concrete run: an entry refreshed at 1500 ms is not found at 1600 ms, so the loader runs again there. |
| Caching.FixedRefreshRetained | src/CachingMap.ts:72-74 | In the corrected step, every present load on a miss stays in the store with the loaded value. |
| Caching.FixedAgreesOnResult | src/CachingMap.ts:72-74 | The correction never changes what `get` returns. It only adds the key back when the load was present. |
| Caching.SweepInvisibleToResult | src/CachingMap.ts:48-51 | Whether a call sweeps never changes what it returns. |
| Caching.TickStaysInRange | src/CachingMap.ts:48-50 | One countdown step keeps the counter within 0..30. |
| Caching.Cadence | src/CachingMap.ts:48-51 | After n calls the countdown is 30 - n mod 31. It is in 0..30. Call n + 1 sweeps exactly when n + 1 is a multiple of 31. |
| Caching.SlidingWindow | src/CachingMap.ts:56-59 | Calls that each come less than the expiry period after the previous one keep an entry alive indefinitely. Each returns the stored value, and the entry ends last accessed at the last call. |
| Caching.ExampleScenario | src/CachingMap.ts:47-76 | An example run with expiry 1000 ms: loads of 1, 2, 3 at 0, 0 and 1100 ms return 1, 1 and 3. |
| Routes.FindPrimary | src/index.ts:63 | Finds the first file marked primary, or none exactly when no file is primary. |
| Routes.ChooseFile | src/index.ts:62-66 | No file is chosen exactly when the list is empty. Otherwise the chosen index is the first primary file, or index 0 when no file is primary. |
| Routes.ChosenUnique | src/index.ts:62-66 | The chosen file is unique. |
| Routes.PrimaryPreferred | src/index.ts:63-66 | When some file is primary, the chosen file is primary and comes no later than it. |
| Routes.RespondVersion | src/index.ts:67-80 | A 404 "no primary file found" exactly when no JSON was asked for and there are no files. With JSON, the document with 200 when a file was chosen and 404 otherwise. Otherwise a 303 redirect to the chosen file's URL. |
| Routes.WantsJsonCases | src/index.ts:59-60 | A present `json` parameter asks for JSON whatever its value. Without an Accept header only the parameter decides. "application/json" asks for JSON; "text/html" and "" do not. |
| Routes.NoJNoJson | src/index.ts:60 | A header without the letter 'j' does not contain "json". |
| Routes.Base62IsUrlSafe | src/index.ts:17-20 | Every base62 digit is in the url-safe set. |
| Routes.ProjectIdIsOneSegment | src/index.ts:17-19 | An accepted project id has no '/', '?', '#', '%' or backslash and is not a dot segment, so it stays one path segment of the upstream URL. |
| Routes.ProjectIdAcceptsBase62 | src/index.ts:19 | Base62 strings of 3 to 64 characters are accepted project ids. |
| Routes.CheckProject | src/index.ts:96-98 | The latest route rejects with 400 "invalid project specified" exactly when the id is not 3 to 64 url-safe characters. |
| Routes.VersionIdWithRun | src/index.ts:20 | The version regex as written accepts any string that holds eight base62 digits in a row, whatever surrounds them. |
| Routes.VersionIdTooShort | src/index.ts:20 | Strings of fewer than eight characters are rejected. |
| Routes.VersionIdTraversal | src/index.ts:20 | The written regex accepts "../project/AAAAAAAA", which contains '/'. |
| Routes.CheckVersion | src/index.ts:144-146 | The version route rejects with 400 "invalid version specified" exactly when no run of eight base62 digits occurs. |
| Routes.AnchoredVersionIdIsOneSegment | src/index.ts:20 | The anchored check accepts only single base62 segments, without '/', '.', '?', '#', '%' or backslash. It accepts nothing the written regex rejects, and it rejects "../project/AAAAAAAA". |
| Routes.CheckVersionAnchored | src/index.ts:144-146 | The corrected version check rejects with the same 400 exactly when the id is not eight base62 digits. |
| Routes.AnchoredCheckIsStricter | src/index.ts:144-146 | Every id the corrected check lets through, the written one does too. The traversal id passes the written check and fails the corrected one. |
| Routes.SetField | src/index.ts:115 | Setting a parameter of the cache key changes that parameter only, and keeps the project. |
| Routes.Present | src/index.ts:104-107 | The present parameters are exactly the names that are given in the raw query, both directions, and they keep the order of the names (a subsequence of them). |
| Routes.PresentSnoc | src/index.ts:104-107 | Reading one more parameter appends it to the present ones exactly when it is present. |
| Routes.CollectCancels | src/index.ts:104-119 | Building cancels exactly when some parameter is the first present one that fails to parse, and the failure names that parameter. Later parameters are never looked at. |
| Routes.FirstFailureExists | src/index.ts:104-113 | Any present parameter that fails to parse has a first failing parameter at or before it. |
| Routes.CollectBuilds | src/index.ts:104-118 | Without a failure, every present parameter parses. The query lists exactly the present parameters in the fixed order, each with its parsed value serialised again. The key holds the project and the parsed value of each present parameter, and nothing for absent ones. |
| Routes.BuildLatestKey | src/index.ts:100-119 | The loop with the `cancel` flag: `cancel` is set exactly when building fails, with the 400 "invalid query parameter for" answer naming the failed parameter. Otherwise the cache key and query are exactly the built ones. |
| Routes.LatestRequest | src/index.ts:95-119 | An invalid project gives 400 before any parameter is read. Otherwise the first failing parameter gives its 400. Otherwise the key to look up carries the project. A failure carries no key, so there is nothing to look up. |
| Routes.LatestKeyFields | src/index.ts:84-89 | With a valid project and parsable parameters, the request passes. The key's loaders, game_versions and featured are exactly the given parameters' parsed values. The query has one pair per present parameter. |
| Routes.LatestLoader | src/index.ts:121-133 | The loader hands a value to the cache exactly when the status is 200 and the list is non-empty. A non-200 status is passed on in the error; an empty list gives 404 "no version found for query". |
| Routes.VersionLoader | src/index.ts:148-155 | The loader hands the document to the cache exactly when the status is 200. Otherwise it sends the upstream status as an error. |
| Routes.LatestCachePeriod | src/index.ts:90-91 | In the latest route's cache, a call less than five minutes after the entry's last access is answered from the cache; from five minutes on, by the loader. |
| Routes.VersionCachePeriod | src/index.ts:139-140 | In the version route's cache, a call less than one hour after the entry's last access is answered from the cache; from one hour on, by the loader. |
| Routes.FailedUpstreamNeverCached | src/index.ts:121-133 | When the latest route's upstream fails or lists no version and there is no live entry, `get` answers absent and leaves no entry for the key. |
| Routes.FailedVersionNeverCached | src/index.ts:148-155 | Same for the version route: a non-200 answer is never cached. |
| Routes.LatestAnswer | src/index.ts:134-136 | A present lookup is answered by `respondVersion` on the first version. An absent one adds no answer, since the loader already sent its error. |

## Left out

- Express routing, CORS, the `slowDown` middleware, the error handler, the root redirect and
  `app.listen` (src/index.ts:38-55, 161-173): framework plumbing, no decision of the core.
- `fetch`, the `X-Version` / `X-File-*` headers, `console` logging and the environment
  configuration: network and side-effect calls into libraries that are not part of this model.
  The upstream answer enters the model only as a status and a parsed body.
- `Date.now()`: the instant is a parameter. In `get`, the countdown's sweep and the liveness
  test use the same `now`. The source reads the clock separately for each, in one synchronous
  stretch. A new entry is stamped with `loadTime`, the instant after the loader.
- `JSON.stringify` of the key: fingerprints are opaque strings. The field-order sensitivity of
  the fingerprint is therefore not modelled.
- `JSON.parse` and `JSON.stringify` of query values: `parse` (None when it throws) and
  `stringify` are parameters of the key-building functions.
- Repeated query parameters, which Express delivers as arrays: a raw parameter is one string.
- `URLSearchParams.set` is modelled as appending: the three parameter names are distinct, so
  each is set at most once.
- Async interleaving: two `get` calls on one key can overlap across the loader's `await` and
  load twice. Each `get` is one sequential step with the loader's result supplied.
- A loader that throws: the exception propagates out of `get`, after the key was already
  deleted. The model's loader returns a result or absent.
- Caching.CachingMap.Get: `if (!value)` treats every falsy value as absent (`0`, `""`, `false`,
  `null`). The model's `None` stands for all of them, and a `Some` value is assumed truthy.
  The loaders here only return objects and arrays.
- Lengths are counted in Dafny characters: JavaScript counts UTF-16 code units, and the regexes
  (no `u` flag) match code units. The two agree on the BMP characters the validators accept.
- Routes.ErrorReply: the error body of both routes also echoes the requested project or
  version id (src/index.ts:93, 142). The model keeps only the status and the message.
- General regular-expression semantics: the two validators are written as character-set and
  length predicates.
- Routes.LatestAnswer: it requires a non-empty list when the lookup is present. That holds
  because `LatestLoader` only hands non-empty lists to the cache. That the cache keeps holding
  only what the loader returned is not proved as a separate invariant.

## Findings

| source | as written | input that shows it | evidently intended | confidence | as-written member | corrected member |
|---|---|---|---|---|---|---|
| src/CachingMap.ts:62-74 | An expired entry is deleted at line 62. Its `value` is then updated at line 73 but the entry is never set back, so a successful refresh of an expired key is not cached. | An entry at 0 ms with expiry 1000 ms, `get` at 1500 ms loading 2, then `get` at 1600 ms: the second call loads again. | Put the refreshed entry back under its key, touched at the lookup instant: the assignment at line 73 only makes sense for an entry meant to stay cached. | not executed; follows from the code as read | Caching.ExpiredRefreshDropped | Caching.FixedRefreshRetained |
| src/index.ts:20 | The version regex is not anchored, so it accepts any id that merely contains eight base62 digits. The id then goes into the upstream URL `/v2/version/<id>`. | The id `../project/AAAAAAAA`, sent as `..%2Fproject%2FAAAAAAAA` and decoded by the router: it passes the check, and the upstream path resolves to `/v2/project/AAAAAAAA`. | Accept exactly eight base62 digits, which the comment "only allow base62 ids" describes. | not executed; the URL resolution is by reading, the regex behaviour is proved | Routes.VersionIdTraversal | Routes.AnchoredVersionIdIsOneSegment |
