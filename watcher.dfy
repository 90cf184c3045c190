/** The image watcher (ImgWatcher in watcher.go): a cache in front of the
    img_infos table, the registry of watched prefixes, the retrievals that fall
    back from the cache to the table, one pass of the replenishment loop, and
    the synchronisations between the two tiers. Database transactions are
    staged on a copy of the table that is committed or discarded; whether a
    begin, delete or commit succeeds is decided by the database, outside the
    model. */
module Watcher {
  import opened Records
  import opened ImgCache
  import opened Store

  /** What one pass of the WatchImages loop body did. */
  datatype Tick =
    | Fatal                 // GetIdsInRange failed: the process stops (log.Fatalf)
    | Enough(count: nat)    // enough available ids: nothing collected
    | Refill(count: nat, need: int, outcome: Result<seq<ImgInfo>, Error>)

  /** Where a retrieval took its record from: the cache entry it read, or,
      after the cache read failed, the record the table read returned, with
      the read's error and whether its query went through. */
  datatype Source = FromCache(key: Key) | FromDb(img: ImgInfo, dbErr: Option<Error>, answered: bool)

  /** The final check of every retrieval: an empty ID means nothing was found. */
  function Checked(img: ImgInfo): (r: Result<ImgInfo, Error>) {
    if img.id == "" then Err(NoAvailableImages) else Ok(img)
  }

  /** What syncCacheToDb read from the cache: all ids of the category, and
      the scores and records of those ids whose reads succeeded. */
  ghost predicate Collected(entries: map<Key, Entry>, prefix: string, ids: seq<string>,
                      states: map<string, int>, infos: map<string, ImgInfo>)
  {
    && Distinct(ids)
    && (forall id :: id in ids <==> Key(prefix, id) in entries)
    && (forall id :: id in states ==> Key(prefix, id) in entries && states[id] == entries[Key(prefix, id)].score)
    && (forall id :: id in infos ==> Key(prefix, id) in entries && infos[id] == entries[Key(prefix, id)].info)
  }

  /** `after` is the table a committed syncCacheToDb(prefix) leaves behind `before`. */
  ghost predicate SyncedStep(before: Table, after: Table, entries: map<Key, Entry>, prefix: string) {
    exists ids, states, infos ::
      Collected(entries, prefix, ids, states, infos) && after == Reconciled(before, prefix, ids, states, infos)
  }

  /** Two runs of syncCacheToDb over an unchanged cache that read the same
      scores and records leave the table as the first run left it, even though
      each run may list the ids in a different order. */
  lemma SyncIdempotent(entries: map<Key, Entry>, prefix: string, db: Table, ids: seq<string>, ids2: seq<string>,
                       states: map<string, int>, infos: map<string, ImgInfo>)
    requires Collected(entries, prefix, ids, states, infos) && Collected(entries, prefix, ids2, states, infos)
    ensures var r := Reconciled(db, prefix, ids, states, infos);
      Reconciled(r, prefix, ids2, states, infos) == r
  {
    ReconciledIdempotent(db, prefix, ids, ids2, states, infos);
  }

  /** When every cache read of both runs succeeded, the second run of
      syncCacheToDb over an unchanged cache changes nothing. */
  lemma CompleteSyncIdempotent(entries: map<Key, Entry>, prefix: string, db: Table,
                               ids: seq<string>, states: map<string, int>, infos: map<string, ImgInfo>,
                               ids2: seq<string>, states2: map<string, int>, infos2: map<string, ImgInfo>)
    requires Collected(entries, prefix, ids, states, infos) && Collected(entries, prefix, ids2, states2, infos2)
    requires forall id :: id in ids ==> id in states && id in infos
    requires forall id :: id in ids2 ==> id in states2 && id in infos2
    ensures var r := Reconciled(db, prefix, ids, states, infos);
      Reconciled(r, prefix, ids2, states2, infos2) == r
  {
    assert states == states2 by {
      assert states.Keys == states2.Keys;
    }
    assert infos == infos2 by {
      assert infos.Keys == infos2.Keys;
    }
    SyncIdempotent(entries, prefix, db, ids, ids2, states, infos);
  }

  /** The rows under `ids`, in that order. */
  function RowsAt(db: Table, ids: seq<string>): (rows: seq<ImgInfo>)
    requires forall id :: id in ids ==> id in db
    ensures |rows| == |ids|
  {
    seq(|ids|, i requires 0 <= i < |ids| => db[ids[i]])
  }

  /** Seeding the cache from a table whose rows are stored under their own
      IDs, with every Set succeeding, caches every row under its Type with
      its uses as score. */
  lemma SeededCache(entries: map<Key, Entry>, db: Table, ids: seq<string>, oks: seq<bool>)
    requires KeyedById(db) && Distinct(ids) && (forall id :: id in ids ==> id in db)
    requires |oks| == |ids| && forall i :: 0 <= i < |oks| ==> oks[i]
    ensures forall id :: id in ids ==>
      var c := SetAll(entries, RowsAt(db, ids), oks);
      Key(db[id].category, id) in c && c[Key(db[id].category, id)] == Entry(db[id], db[id].uses)
  {
    var rows := RowsAt(db, ids);
    forall id | id in ids
      ensures var c := SetAll(entries, rows, oks);
        Key(db[id].category, id) in c && c[Key(db[id].category, id)] == Entry(db[id], db[id].uses)
    {
      var i :| 0 <= i < |ids| && ids[i] == id;
      forall j | i < j < |rows| && oks[j]
        ensures KeyOf(rows[j]) != KeyOf(rows[i])
      {
        assert rows[j].id == ids[j] != ids[i] == rows[i].id;
      }
      SetAllLastWins(entries, rows, oks, i);
    }
  }

  /** The `items` slice of the loop body: each collected record with Uses
      reset to 0 and Type set to the prefix, same length, same order. */
  method NormaliseItems(collected: seq<ImgInfo>, prefix: string) returns (items: seq<ImgInfo>)
    ensures |items| == |collected|
    ensures forall i :: 0 <= i < |items| ==> items[i] == collected[i].(uses := 0, category := prefix)
  {
    var a := new ImgInfo[|collected|];
    for idx := 0 to |collected|
      invariant forall i :: 0 <= i < idx ==> a[i] == collected[i].(uses := 0, category := prefix)
    {
      a[idx] := collected[idx];
      a[idx] := a[idx].(uses := 0);
      a[idx] := a[idx].(category := prefix);
    }
    items := a[..];
  }

  class ImgWatcher {
    const cache: Cache
    var db: Table
    const minimalAviable: int
    const maximalUses: int
    const collectingMode: string
    /** The prefixes of the registered ImgDBs. */
    var registry: set<string>

    /** The table keeps every row under its own ID. */
    predicate Valid()
      reads this
    {
      KeyedById(db)
    }

    constructor (cache: Cache, db: Table, minimalAviable: int, maximalUses: int, collectingMode: string)
      requires KeyedById(db)
      ensures Valid()
      ensures this.cache == cache && this.db == db && registry == {}
      ensures this.minimalAviable == minimalAviable && this.maximalUses == maximalUses
      ensures this.collectingMode == collectingMode
    {
      this.cache := cache;
      this.db := db;
      this.minimalAviable := minimalAviable;
      this.maximalUses := maximalUses;
      this.collectingMode := collectingMode;
      this.registry := {};
    }

    /** The registration at the start of WatchImages. */
    method Register(prefix: string)
      modifies this`registry
      ensures registry == old(registry) + {prefix}
    {
      registry := registry + {prefix};
    }

    /** The tail of a retrieval whose cache read failed: an empty record from
        the table is "No aviable images"; any other is written back into the
        cache under the prefix, and a failure of that write is ignored. */
    method WriteBack(prefix: string, img: ImgInfo) returns (r: Result<ImgInfo, Error>)
      modifies cache
      ensures r == Checked(img)
      ensures img.id == "" ==> cache.entries == old(cache.entries)
      ensures img.id != "" ==>
        || cache.entries == old(cache.entries)
        || cache.entries == old(cache.entries)[Key(prefix, img.id) := Entry(img, img.uses)]
    {
      if img.id == "" {
        return Err(NoAvailableImages);
      }
      var _ := cache.Set(prefix, img);
      return Ok(img);
    }

    /** GetActualImg: the least-used record of the category, from the cache,
        or from the table when the cache read fails. */
    method GetActualImg(prefix: string, incrUses: bool) returns (r: Result<ImgInfo, Error>, ghost src: Source)
      requires Valid()
      modifies cache
      ensures r.Ok? ==> r.value.id != ""
      ensures IdsOf(old(cache.entries), prefix) == {} ==> src.FromDb?
      ensures src.FromCache? ==>
        && src.key.category == prefix
        && src.key in old(cache.entries)
        && (src.key.id == "" || IsMinScore(old(cache.entries), prefix, src.key.id))
        && r == Checked(old(cache.entries)[src.key].info)
        && cache.entries == Touched(old(cache.entries), src.key, incrUses)
      ensures src.FromDb? ==>
        && (src.dbErr.Some? ==> src.dbErr.value == DbFailure && !src.answered)
        && (!src.answered ==> src.img == Zero())
        && (src.answered && RowsOf(db, prefix) == {} ==> src.img == Zero())
        && (src.answered && RowsOf(db, prefix) != {} ==> LeastUsedRow(db, prefix, src.img))
        && r == Checked(src.img)
        && (r.Err? ==> cache.entries == old(cache.entries))
        && (r.Ok? ==> || cache.entries == old(cache.entries)
                      || cache.entries == old(cache.entries)[Key(prefix, src.img.id) := Entry(src.img, src.img.uses)])
    {
      var actual := cache.GetActualId(prefix);
      // on failure the id is the empty string, and it is still looked up
      var imgId := if actual.Ok? then actual.value else "";
      var hit := cache.GetById(prefix, imgId, incrUses);
      if hit.Ok? {
        assert imgId in IdsOf(old(cache.entries), prefix);
        src := FromCache(Key(prefix, imgId));
        return Checked(hit.value), src;
      }
      var img, err;
      ghost var answered;
      img, err, answered := GetFromDB(db, prefix);
      src := FromDb(img, err, answered);
      r := WriteBack(prefix, img);
    }

    /** GetRandomImg: any record of the category, from the cache, or from the
        table when the cache read fails. */
    method GetRandomImg(prefix: string, incrUses: bool) returns (r: Result<ImgInfo, Error>, ghost src: Source)
      requires Valid()
      modifies cache
      ensures r.Ok? ==> r.value.id != ""
      ensures IdsOf(old(cache.entries), prefix) == {} ==> src.FromDb?
      ensures src.FromCache? ==>
        && src.key.category == prefix
        && src.key in old(cache.entries)
        && r == Checked(old(cache.entries)[src.key].info)
        && cache.entries == Touched(old(cache.entries), src.key, incrUses)
      ensures src.FromDb? ==>
        && (src.dbErr.Some? ==> src.dbErr.value == DbFailure && !src.answered)
        && (!src.answered ==> src.img == Zero())
        && (src.answered && RowsOf(db, prefix) == {} ==> src.img == Zero())
        && (src.answered && RowsOf(db, prefix) != {} ==> src.img in db.Values && src.img.category == prefix)
        && r == Checked(src.img)
        && (r.Err? ==> cache.entries == old(cache.entries))
        && (r.Ok? ==> || cache.entries == old(cache.entries)
                      || cache.entries == old(cache.entries)[Key(prefix, src.img.id) := Entry(src.img, src.img.uses)])
    {
      var random := cache.GetRandomId(prefix);
      // on failure the id is the empty string, and it is still looked up
      var imgId := if random.Ok? then random.value else "";
      var hit := cache.GetById(prefix, imgId, incrUses);
      if hit.Ok? {
        assert imgId in IdsOf(old(cache.entries), prefix);
        src := FromCache(Key(prefix, imgId));
        return Checked(hit.value), src;
      }
      var img, err;
      ghost var answered;
      img, err, answered := GetRandomFromDB(db, prefix);
      src := FromDb(img, err, answered);
      r := WriteBack(prefix, img);
    }

    /** GetImgById: the record (prefix, id), from the cache, or from the table
        when the cache read fails. */
    method GetImgById(prefix: string, id: string, incrUses: bool) returns (r: Result<ImgInfo, Error>, ghost src: Source)
      requires Valid()
      modifies cache
      ensures r.Ok? ==> r.value.id != ""
      ensures Key(prefix, id) !in old(cache.entries) ==> src.FromDb?
      ensures src.FromCache? ==>
        && src.key == Key(prefix, id)
        && src.key in old(cache.entries)
        && r == Checked(old(cache.entries)[src.key].info)
        && cache.entries == Touched(old(cache.entries), src.key, incrUses)
      ensures src.FromDb? ==>
        && (src.dbErr.Some? ==> src.dbErr.value == DbFailure && !src.answered)
        && (!src.answered ==> src.img == Zero())
        && (src.answered && id in db && db[id].category == prefix ==> src.img == db[id] && src.img.id == id)
        && (src.answered && !(id in db && db[id].category == prefix) ==> src.img == Zero())
        && r == Checked(src.img)
        && (r.Err? ==> cache.entries == old(cache.entries))
        && (r.Ok? ==> || cache.entries == old(cache.entries)
                      || cache.entries == old(cache.entries)[Key(prefix, src.img.id) := Entry(src.img, src.img.uses)])
    {
      var hit := cache.GetById(prefix, id, incrUses);
      if hit.Ok? {
        src := FromCache(Key(prefix, id));
        return Checked(hit.value), src;
      }
      var img, err;
      ghost var answered;
      img, err, answered := GetFromDbById(db, prefix, id);
      src := FromDb(img, err, answered);
      r := WriteBack(prefix, img);
    }

    /** One pass of the WatchImages loop for `prefix`, with `collect` the
        collector chosen by the collecting mode. The ids with a score in
        [0, MaximalUses-1] are counted; below MinimalAviable, the shortfall is
        requested, and on success every collected record is normalised and
        Set into the cache in order (failed Sets are skipped, as `oks` records). */
    method WatchStep(prefix: string, collect: int -> Result<seq<ImgInfo>, Error>)
      returns (t: Tick, ghost items: seq<ImgInfo>, ghost oks: seq<bool>)
      modifies cache
      ensures !t.Fatal? ==> t.count == |InRange(old(cache.entries), prefix, 0, maximalUses - 1)|
      ensures t.Refill? <==> !t.Fatal? && t.count < minimalAviable
      ensures t.Refill? ==> t.need == minimalAviable - t.count && t.outcome == collect(t.need)
      ensures t.Refill? && t.outcome.Ok? ==>
        && |items| == |t.outcome.value| == |oks|
        && (forall i :: 0 <= i < |items| ==> items[i] == t.outcome.value[i].(uses := 0, category := prefix))
        && cache.entries == SetAll(old(cache.entries), items, oks)
      ensures !(t.Refill? && t.outcome.Ok?) ==> cache.entries == old(cache.entries)
    {
      items, oks := [], [];
      var available := cache.GetIdsInRange(prefix, 0, maximalUses - 1);
      if available.Err? {
        return Fatal, items, oks;
      }
      var count := |available.value|;
      if !(count < minimalAviable) {
        return Enough(count), items, oks;
      }
      var collected := collect(minimalAviable - count);
      t := Refill(count, minimalAviable - count, collected);
      if collected.Err? {
        return;
      }
      var batch := NormaliseItems(collected.value, prefix);
      items := batch;
      // cacheUpdater
      for i := 0 to |batch|
        invariant |oks| == i
        invariant cache.entries == SetAll(old(cache.entries), batch[..i], oks)
      {
        var err := cache.Set(prefix, batch[i]);
        assert batch[..i + 1][..i] == batch[..i];
        oks := oks + [err.None?];
      }
      assert batch[..|batch|] == batch;
    }

    /** syncDbToCache: every row the table read returns is Set into the cache
        under its own Type; a failed Set is skipped. The read itself may fail,
        and then nothing is seeded. */
    method SyncDbToCache() returns (ghost ids: seq<string>, ghost oks: seq<bool>)
      requires Valid()
      modifies cache
      ensures Distinct(ids) && |oks| == |ids|
      ensures forall id :: id in ids ==> id in db
      ensures ids == [] || forall id :: id in db ==> id in ids
      ensures cache.entries == SetAll(old(cache.entries), RowsAt(db, ids), oks)
    {
      var found: bool := *;
      var keys: seq<string> := [];
      if found {
        keys := Enumerate(db.Keys);
      }
      ids, oks := keys, [];
      for i := 0 to |keys|
        invariant |oks| == i
        invariant cache.entries == SetAll(old(cache.entries), RowsAt(db, keys[..i]), oks)
      {
        var item := db[keys[i]];
        var err := cache.Set(item.category, item);
        assert RowsAt(db, keys[..i + 1])[..i] == RowsAt(db, keys[..i]);
        oks := oks + [err.None?];
      }
      assert keys[..|keys|] == keys;
    }

    /** syncCacheToDb(prefix): reads every id of the category with its score
        and record from the cache, then runs one transaction of find-or-create
        and update of uses per id. Nothing of the table changes unless the
        transaction commits. */
    method SyncCacheToDb(prefix: string)
      returns (err: Option<Error>, ghost knownIds: seq<string>,
               ghost states: map<string, int>, ghost infos: map<string, ImgInfo>)
      requires Valid()
      modifies this`db, cache
      ensures Valid()
      ensures cache.entries == old(cache.entries)
      ensures err.Some? ==> db == old(db) && (err.value == CacheDown || err.value == DbFailure)
      ensures err.None? ==>
        && Collected(cache.entries, prefix, knownIds, states, infos)
        && db == Reconciled(old(db), prefix, knownIds, states, infos)
    {
      knownIds, states, infos := [], map[], map[];
      var all := cache.GetAllIds(prefix);
      if all.Err? {
        return Some(all.error), knownIds, states, infos;
      }
      var ids := all.value;
      var st: map<string, int> := map[];
      for i := 0 to |ids|
        invariant cache.entries == old(cache.entries) && db == old(db)
        invariant forall id :: id in st ==> Key(prefix, id) in cache.entries && st[id] == cache.entries[Key(prefix, id)].score
      {
        var views := cache.GetScore(prefix, ids[i]);
        if views.Ok? {
          st := st[ids[i] := views.value];
        }
      }
      var inf: map<string, ImgInfo> := map[];
      for i := 0 to |ids|
        invariant cache.entries == old(cache.entries) && db == old(db)
        invariant forall id :: id in inf ==> Key(prefix, id) in cache.entries && inf[id] == cache.entries[Key(prefix, id)].info
      {
        var data := cache.GetById(prefix, ids[i], false);
        if data.Ok? {
          inf := inf[ids[i] := data.value];
        }
      }
      knownIds, states, infos := ids, st, inf;
      var began: bool := *;
      if !began {
        return Some(DbFailure), knownIds, states, infos;
      }
      var staged := db;
      for i := 0 to |ids|
        invariant db == old(db)
        invariant staged == Reconciled(db, prefix, ids[..i], st, inf)
      {
        var id := ids[i];
        var item := InfoOf(inf, id).(uses := StateOf(st, id));
        staged := FirstOrCreate(staged, id, item);
        staged := UpdateUses(staged, prefix, id, StateOf(st, id));
        assert ids[..i + 1][..i] == ids[..i];
      }
      assert ids[..|ids|] == ids;
      var committed: bool := *;
      if !committed {
        // Rollback: the staged copy is dropped
        return Some(DbFailure), knownIds, states, infos;
      }
      ReconciledKeyedById(db, prefix, ids, st, inf);
      db := staged;
      return None, knownIds, states, infos;
    }

    /** Sync: syncCacheToDb for each registered prefix in turn, in an
        unspecified order, stopping at the first error. `visited` lists the
        prefixes processed and `dbs` the table before and after each of them. */
    method Sync() returns (err: Option<Error>, ghost visited: seq<string>, ghost dbs: seq<Table>)
      requires Valid()
      modifies this`db, cache
      ensures Valid()
      ensures cache.entries == old(cache.entries)
      ensures Distinct(visited) && forall p :: p in visited ==> p in registry
      ensures err.None? ==> forall p :: p in registry ==> p in visited
      ensures err.Some? ==> visited != []
      ensures |dbs| == |visited| + 1 && dbs[0] == old(db) && dbs[|visited|] == db
      ensures forall i :: 0 <= i < |visited| - 1 ==> SyncedStep(dbs[i], dbs[i + 1], cache.entries, visited[i])
      ensures visited != [] ==>
        var n := |visited| - 1;
        if err.None? then SyncedStep(dbs[n], dbs[n + 1], cache.entries, visited[n]) else dbs[n + 1] == dbs[n]
    {
      var remaining := registry;
      visited, dbs := [], [db];
      while remaining != {}
        invariant remaining <= registry
        invariant forall p :: p in registry ==> (p in visited <==> p !in remaining)
        invariant Distinct(visited) && forall p :: p in visited ==> p in registry
        invariant |dbs| == |visited| + 1 && dbs[0] == old(db) && dbs[|visited|] == db
        invariant forall i :: 0 <= i < |visited| ==> SyncedStep(dbs[i], dbs[i + 1], cache.entries, visited[i])
        invariant cache.entries == old(cache.entries)
        invariant Valid()
        decreases remaining
      {
        var p :| p in remaining;
        var e;
        ghost var ids, states, infos;
        e, ids, states, infos := SyncCacheToDb(p);
        visited, dbs := visited + [p], dbs + [db];
        if e.Some? {
          return e, visited, dbs;
        }
        assert Collected(cache.entries, p, ids, states, infos) && db == Reconciled(dbs[|visited| - 1], p, ids, states, infos);
        remaining := remaining - {p};
      }
      err := None;
    }

    /** RemoveEmptyFiles: outside mode "url", one transaction deletes the
        rows with an empty path or file size. A failed begin or delete
        returns the error; a failed commit (deferred) goes unnoticed and
        leaves the table as it was. */
    method RemoveEmptyFiles() returns (err: Option<Error>)
      requires Valid()
      modifies this`db
      ensures Valid()
      ensures collectingMode == "url" ==> err.None? && db == old(db)
      ensures err.Some? ==> err.value == DbFailure && db == old(db)
      ensures db == old(db) || (collectingMode != "url" && err.None? && db == Purged(old(db)))
    {
      if collectingMode == "url" {
        return None;
      }
      var began: bool := *;
      if !began {
        return Some(DbFailure);
      }
      var staged := Purged(db);
      var deleted: bool := *;
      if !deleted {
        // Rollback
        return Some(DbFailure);
      }
      var committed: bool := *;
      if committed {
        db := staged;
      }
      return None;
    }
  }
}
