# Image watcher: a verified model

The image watcher sits between an image-serving front end and the collectors
(`ImgDB`s) that fetch new images. It keeps two tiers of image records:

- a volatile **cache**, keyed by (category, id), whose score counts how often
  an image was served;
- the durable **img_infos table**, whose `uses` column mirrors that score.

This project models the core of `watcher.go`:

- the bounded `retry` helper with doubling back-off (module `Retry`);
- the three table reads, the row operations of the cache-to-table
  transaction, and the empty-file sweep (module `Store`);
- the cache interface, with the semantics the watcher relies on (module
  `ImgCache`);
- the `ImgWatcher` itself (module `Watcher`):
  - the retrievals with their fallback from the cache to the table;
  - one pass of the `WatchImages` replenishment loop;
  - `syncDbToCache`, `syncCacheToDb` and the fail-fast `Sync`;
  - `RemoveEmptyFiles`.

Module `Records` holds the shared `ImgInfo` record, the `Option`, `Result`
and `Error` types, and two helpers: enumerating a set, and the existence of a
minimum.

## How the model treats the environment

- **Failures of the cache backend and of the database** are nondeterministic
  choices inside the methods. The error branches the model keeps stay
  reachable, and every contract holds whichever way each call goes. The
  failures it does not model are listed under "Left out".
- **A failed table query.** The three table reads drop the error of their
  query, so a failed query returns the zero record without an error. The
  retrievals then answer "No aviable images", even when the category has
  rows. Each read returns a flag `answered` that tells whether the query went
  through; the retrievals keep it in their ghost `Source`.
- **The table is keyed by its ID column.** `Valid()` says every row is stored
  under its own ID. The constructor requires it and every method that
  changes the table keeps it.
- **Ghost out-parameters** record which way a call went:
  - the `Source` of a retrieval;
  - which cache writes succeeded (`oks`);
  - what `syncCacheToDb` read from the cache;
  - the prefixes `Sync` visited, and the table after each of them.
- **Transactions** are staged on a copy of the table. The copy becomes the
  table only when the commit succeeds.
- **`retry`** is a recursive function. `f(n)` is what the n-th call of the
  operation returns, and the sleeps are returned rather than performed.
  `attempts` is a 64-bit integer whose decrement wraps around, as Go's `int`
  does.
- **The collector** of `WatchImages` is a function parameter, `collect`.

## Behaviour of the code that the model keeps

Each of these is behaviour of `watcher.go` as written.

- **The literal `"url"` guard.** `RemoveEmptyFiles` compares the collecting
  mode with the literal `"url"`, while the recognised modes are `"urls"` and
  `"files"`. So in mode `"urls"` the sweep does run, and the model keeps that.
- **The empty id is still looked up.** When `GetActualId` or `GetRandomId`
  fails, the cache read `GetById` is still made, with the empty id. Only the
  failure of that read leads to the table.
- **Find-or-create matches on ID only.** In `syncCacheToDb`, find-or-create
  looks rows up by ID alone, while the uses update matches both ID and Type.
  A row of another category with the same ID is therefore neither replaced
  nor updated. This holds for every non-empty ID; the empty ID is listed
  under "Left out".
- **Missing score or record.** An id whose score could not be read gets
  uses 0. An id whose record could not be read is created from the zero
  record.
- **The deferred commit's error is dropped.** `RemoveEmptyFiles` ignores the
  error of its deferred commit. The method can therefore report success while
  the table is left unchanged.

## Model

| member | source | states |
|---|---|---|
| `Retry.RetryCalls` | watcher.go:29-47 | f is called at least once and at most max(attempts, 1) times (MaxInt + 1 times when attempts is the smallest int, whose decrement wraps), with one sleep between consecutive calls; every call but the last failed with a retryable error |
| `Retry.RetryResult` | watcher.go:30-44 | the result is nil exactly when the last call succeeded or was a `stop` wrapping nil; a stopped call yields the error it wraps; a plain failure is returned only once all allowed calls are used up |
| `Retry.WrappedAttemptsKeepRetrying` | watcher.go:36-41 | with attempts at the smallest int, `attempts--` wraps to the largest, so an always-failing operation is called MaxInt + 1 times |
| `Retry.RetrySleeps` | watcher.go:36-41 | the i-th wait is sleep * 2^i (the back-off doubles) |
| `ImgCache.Cache.GetActualId` | watcher.go:192 | an id of the category with a score no other id of it undercuts; NotFound only when the category is empty, otherwise only a backend failure |
| `ImgCache.Cache.GetRandomId` | watcher.go:225 | some id cached under the category; NotFound only when the category is empty |
| `ImgCache.Cache.GetById` | watcher.go:196 | the cached record; with incrUses its score goes up by one and nothing else changes; a failed read changes nothing; an absent key always fails, and only an absent key gives NotFound |
| `ImgCache.Cache.GetAllIds` | watcher.go:51 | every id of the category, once each, and no other |
| `ImgCache.Cache.GetScore` | watcher.go:59 | the score of the key; NotFound only for an absent key |
| `ImgCache.Cache.GetIdsInRange` | watcher.go:307 | exactly the ids of the category whose score lies in [lo, hi], once each |
| `ImgCache.Cache.Set` | watcher.go:204 | on success the key (category, info.id) holds info with its uses as score and nothing else changes; on failure nothing changes |
| `ImgCache.SetAllUntouched` | watcher.go:293-302 | after a series of Sets, a key that no successful Set wrote keeps what it had |
| `ImgCache.SetAllLastWins` | watcher.go:293-302 | after a series of Sets, an item whose Set succeeded and was not overwritten later is cached as given |
| `Store.GetFromDB` | watcher.go:110-121 | when the query goes through, a row of the category with no row of it used fewer times, or the zero record when the category has no row; a failed query gives the zero record and no error; a failed begin gives the error and the zero record |
| `Store.GetRandomFromDB` | watcher.go:123-134 | when the query goes through, some row of the category, or the zero record when there is none; a failed query gives the zero record and no error; a failed begin gives the error and the zero record |
| `Store.GetFromDbById` | watcher.go:136-147 | when the query goes through, the row with that ID exactly when its Type is the prefix, the zero record otherwise; a failed query gives the zero record and no error; a failed begin gives the error |
| `Store.ReconcileOneAt` | watcher.go:82-85 | one row operation touches only its own id, which afterwards holds the existing row (or the record created from the cache) with uses overwritten only when its Type is the prefix |
| `Store.ReconciledAt` | watcher.go:81-86 | after the transaction loop the table holds the old rows plus the covered ids; each covered id ends as the reference definition `Settled` says, and every other row is as it was |
| `Store.ReconciledUses` | watcher.go:81-86 | every covered id has a row; a row of the category carries the cache's score as uses (0 when the score could not be read) |
| `Store.ReconciledKeepsOthers` | watcher.go:84-85 | a row whose Type is not the prefix, or whose id was not covered, is left untouched |
| `Store.ReconciledIdempotent` | watcher.go:81-86 | running the transaction again with the same scores and records, over the same ids in any order, changes nothing |
| `Store.ReconciledKeyedById` | watcher.go:84 | the transaction keeps every row stored under its own ID |
| `Store.PurgedExactly` | watcher.go:378 | the sweep deletes exactly the rows with an empty path or file size and leaves the others unchanged |
| `Watcher.SyncIdempotent` | watcher.go:49-94 | two runs of syncCacheToDb over an unchanged cache that read the same scores and records leave the table as the first run did, whatever order each lists the ids in |
| `Watcher.CompleteSyncIdempotent` | watcher.go:49-94 | when every cache read of both runs succeeded, a second syncCacheToDb over an unchanged cache changes nothing |
| `Watcher.SeededCache` | watcher.go:96-108 | when every Set succeeds, seeding caches every row under its own Type with its uses as score |
| `Watcher.NormaliseItems` | watcher.go:324-330 | the items keep the collected records' order and length, with uses reset to 0 and Type set to the prefix |
| `Watcher.ImgWatcher.constructor` | watcher.go:173-181 | given a table keyed by its ID column, the watcher starts valid, with the given cache, table and limits, and an empty registry |
| `Watcher.ImgWatcher.Register` | watcher.go:279-281 | the prefix joins the registry |
| `Watcher.ImgWatcher.WriteBack` | watcher.go:198-211 | an empty table record is "No aviable images" and leaves the cache alone; otherwise the record is returned and the cache either gains it under the prefix or, when the write fails, is unchanged |
| `Watcher.ImgWatcher.GetActualImg` | watcher.go:187-218 | a success has a non-empty ID; an empty category falls back to the table; a cache hit is a least-scored entry (or the empty id's entry) and is counted once with incrUses; a fallback whose query goes through returns the least-used row of the category and attempts to write it back (a failed write leaves the cache unchanged); a failed begin or query ends in "No aviable images" |
| `Watcher.ImgWatcher.GetRandomImg` | watcher.go:220-251 | the same as GetActualImg, with any entry of the category, or any row of it in a fallback whose query goes through |
| `Watcher.ImgWatcher.GetImgById` | watcher.go:253-275 | a cache hit is exactly (prefix, id); an absent key falls back to the row with that ID and Type, else "No aviable images"; so does a failed begin or query |
| `Watcher.ImgWatcher.WatchStep` | watcher.go:304-334 | counts the ids with score in [0, MaximalUses-1]; requests exactly MinimalAviable - count when that count is short; on a successful collection the normalised items are Set in order; otherwise the cache is unchanged; a failed count is fatal |
| `Watcher.ImgWatcher.SyncDbToCache` | watcher.go:96-108 | every row read (all of them, or none when the read fails) is Set under its own Type, in turn, skipping failed Sets |
| `Watcher.ImgWatcher.SyncCacheToDb` | watcher.go:49-94 | a committed run leaves the table reconciled with exactly what was read from the cache; any error (cache or database) leaves the table unchanged; the cache is never changed; rows stay keyed by their ID |
| `Watcher.ImgWatcher.Sync` | watcher.go:339-352 | each registered prefix is synced at most once, in some order; success means all were synced; the first error stops the loop, and that prefix's sync changed nothing; the table stays keyed by its ID column |
| `Watcher.ImgWatcher.RemoveEmptyFiles` | watcher.go:363-388 | mode "url" is a no-op; otherwise the table is either unchanged or exactly purged of its empty-file rows, and an error always leaves it unchanged; the table stays keyed by its ID column |

## Left out

- Retry.RetrySleeps: durations are unbounded integers, so the int64 overflow of `2*sleep` after many attempts is not modelled; `attempts` itself is a wrapping 64-bit integer.
- `time.Sleep`, the infinite loops of `WatchImages` and `StartSync`, and `StartSync` itself: the model covers one pass of each loop body.
- The collector chosen by the collecting mode (watcher.go:283-291) is the `collect` parameter of `WatchStep`; the `log.Fatalf` for an unknown mode is not modelled.
- The `log.Fatalf` when `GetIdsInRange` fails ends the pass as the `Fatal` tick; process exit is not modelled.
- `ImgDbsMutex` and all locking are left out; the model is sequential. On its error path `Sync` returns while still holding the read lock (watcher.go:345-346), and the model does not capture that.
- The order in which `Sync` visits the registered prefixes follows Go map iteration and is left unspecified.
- The registry holds only the prefixes of the registered `ImgDB`s; the collectors themselves (`googleapi.go`, `imgdb.go`) are not part of this model.
- `NewImgWatcher`'s choice between the in-memory and the Redis cache, the debug switch, and `ConnectDB` are not part of this model. The cache backends themselves are not part of this model either; the `Cache` class states the semantics the watcher relies on.
- Watcher.ImgWatcher.SyncCacheToDb: the errors of the individual `FirstOrCreate` and `UPDATE` statements inside the transaction are not modelled; only the begin and the commit can fail. `FirstOrCreate` is modelled as a lookup by ID, including for the empty ID. The source differs there: for the empty ID the condition `ImgInfo{ID: ""}` is all blank, so gorm adds no condition. It then finds the first row of the whole table and creates nothing when the table is non-empty. The model instead inserts a row under the empty ID, or keeps the one already there.
- Watcher.ImgWatcher.SyncDbToCache: the error of the table read is ignored in the source; the model treats a failed read as reading no rows and does not model a partial read.
- The `renew` interval is left out, since it only feeds the sleeps.
- Logging is left out.
- The declaration of `ImgInfo` is not part of this model. ID, Type and Uses are the fields `watcher.go` uses, and path and filesize are the columns its delete matches (watcher.go:378). Origin, width and height come from the record the search collector builds (googleapi.go:119).
- `FileSize` is an integer, so the source's `filesize = ''` and `filesize = '0'` cases collapse into size 0.
