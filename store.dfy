/** The durable tier: the img_infos table, as a map from the ID column to the
    row. The three read functions of watcher.go, the row operations of the
    cache-to-database transaction, and the empty-file sweep. A read that
    matches nothing yields the zero record, never an error. A read reports an
    error only when its transaction cannot begin; when the query itself fails,
    its error is dropped and the zero record comes back as if nothing matched.
    The flag `answered` of each read tells whether the query went through. */
module Store {
  import opened Records

  type Table = map<string, ImgInfo>

  /** Every row is stored under its own ID. */
  predicate KeyedById(db: Table) {
    forall id :: id in db ==> db[id].id == id
  }

  /** The IDs of the rows whose Type is `prefix`. */
  function RowsOf(db: Table, prefix: string): (r: set<string>) {
    set id | id in db && db[id].category == prefix
  }

  function UsesAt(db: Table, id: string): (r: int) {
    if id in db then db[id].uses else 0
  }

  /** `img` is a row of the category with no row of it used fewer times. */
  predicate LeastUsedRow(db: Table, prefix: string, img: ImgInfo) {
    && img in db.Values
    && img.category == prefix
    && forall r :: r in db.Values && r.category == prefix ==> img.uses <= r.uses
  }

  /** GetFromDB: the first row of the category ordered by uses ascending. */
  method GetFromDB(db: Table, prefix: string) returns (img: ImgInfo, err: Option<Error>, answered: bool)
    ensures err.Some? ==> err.value == DbFailure && img == Zero() && !answered
    ensures !answered ==> img == Zero()
    ensures answered && RowsOf(db, prefix) == {} ==> err.None? && img == Zero()
    ensures answered && RowsOf(db, prefix) != {} ==> err.None? && LeastUsedRow(db, prefix, img)
  {
    var began: bool := *;
    if !began {
      return Zero(), Some(DbFailure), false;
    }
    var queried: bool := *;
    if !queried {
      // the error of First is not checked
      return Zero(), None, false;
    }
    var rows := RowsOf(db, prefix);
    if rows == {} {
      return Zero(), None, true;
    }
    MinExists(rows, x => UsesAt(db, x));
    var id :| id in rows && forall x :: x in rows ==> UsesAt(db, id) <= UsesAt(db, x);
    forall r | r in db.Values && r.category == prefix
      ensures db[id].uses <= r.uses
    {
      var x :| x in db && db[x] == r;
      assert x in rows;
    }
    return db[id], None, true;
  }

  /** GetRandomFromDB: some row of the category (ORDER BY RANDOM()). */
  method GetRandomFromDB(db: Table, prefix: string) returns (img: ImgInfo, err: Option<Error>, answered: bool)
    ensures err.Some? ==> err.value == DbFailure && img == Zero() && !answered
    ensures !answered ==> img == Zero()
    ensures answered && RowsOf(db, prefix) == {} ==> err.None? && img == Zero()
    ensures answered && RowsOf(db, prefix) != {} ==> err.None? && img in db.Values && img.category == prefix
  {
    var began: bool := *;
    if !began {
      return Zero(), Some(DbFailure), false;
    }
    var queried: bool := *;
    if !queried {
      // the error of First is not checked
      return Zero(), None, false;
    }
    var rows := RowsOf(db, prefix);
    if rows == {} {
      return Zero(), None, true;
    }
    var id :| id in rows;
    return db[id], None, true;
  }

  /** GetFromDbById: the row matching both the ID and the Type. The table is
      keyed by the ID column, so the row with ID `id` is `db[id]`. */
  method GetFromDbById(db: Table, prefix: string, id: string) returns (img: ImgInfo, err: Option<Error>, answered: bool)
    requires KeyedById(db)
    ensures err.Some? ==> err.value == DbFailure && img == Zero() && !answered
    ensures !answered ==> img == Zero()
    ensures answered && id in db && db[id].category == prefix ==> err.None? && img == db[id] && img.id == id
    ensures answered && !(id in db && db[id].category == prefix) ==> err.None? && img == Zero()
  {
    var began: bool := *;
    if !began {
      return Zero(), Some(DbFailure), false;
    }
    var queried: bool := *;
    if !queried {
      // the error of First is not checked
      return Zero(), None, false;
    }
    if id in db && db[id].category == prefix {
      return db[id], None, true;
    }
    return Zero(), None, true;
  }

  // The cache-to-database transaction, one row operation at a time.

  /** `FirstOrCreate(&item, ImgInfo{ID: id})`: the lookup is by ID only; an
      existing row is kept as it is, otherwise `item` is inserted under `id`. */
  function FirstOrCreate(db: Table, id: string, item: ImgInfo): (r: Table) {
    if id in db then db else db[id := item.(id := id)]
  }

  /** `UPDATE img_infos SET uses = ? WHERE id = ? AND type = ?`: unlike the
      lookup above, the update also matches on the Type. */
  function UpdateUses(db: Table, prefix: string, id: string, uses: int): (r: Table) {
    if id in db && db[id].category == prefix then db[id := db[id].(uses := uses)] else db
  }

  /** `states[id]`, 0 when GetScore failed for `id`. */
  function StateOf(states: map<string, int>, id: string): (r: int) {
    if id in states then states[id] else 0
  }

  /** `infos[id]`, the zero record when GetById failed for `id`. */
  function InfoOf(infos: map<string, ImgInfo>, id: string): (r: ImgInfo) {
    if id in infos then infos[id] else Zero()
  }

  /** The loop body of the transaction for one id. */
  function ReconcileOne(db: Table, prefix: string, id: string, states: map<string, int>, infos: map<string, ImgInfo>): (r: Table) {
    var item := InfoOf(infos, id).(uses := StateOf(states, id));
    UpdateUses(FirstOrCreate(db, id, item), prefix, id, StateOf(states, id))
  }

  /** The staged table after the loop has run over `ids`. */
  function Reconciled(db: Table, prefix: string, ids: seq<string>, states: map<string, int>, infos: map<string, ImgInfo>): (r: Table) {
    if ids == [] then db
    else
      var n := |ids| - 1;
      ReconcileOne(Reconciled(db, prefix, ids[..n], states, infos), prefix, ids[n], states, infos)
  }

  /** Reference definition of the row an id of the transaction ends with: the
      existing row, or the one created from the cached record; either way its
      uses are overwritten with the cache's score only when its Type is `prefix`. */
  function Settled(db: Table, prefix: string, id: string, states: map<string, int>, infos: map<string, ImgInfo>): (r: ImgInfo) {
    var base := if id in db then db[id] else InfoOf(infos, id).(id := id, uses := StateOf(states, id));
    if base.category == prefix then base.(uses := StateOf(states, id)) else base
  }

  /** One row operation touches only its own id, which ends as `Settled`. */
  lemma ReconcileOneAt(db: Table, prefix: string, id: string, states: map<string, int>, infos: map<string, ImgInfo>)
    ensures var r := ReconcileOne(db, prefix, id, states, infos);
      && r.Keys == db.Keys + {id}
      && r[id] == Settled(db, prefix, id, states, infos)
      && forall x :: x in db && x != id ==> r[x] == db[x]
  {
  }

  /** A row that is already settled stays settled. */
  lemma SettledStable(db: Table, db': Table, prefix: string, id: string, states: map<string, int>, infos: map<string, ImgInfo>)
    requires id in db' && db'[id] == Settled(db, prefix, id, states, infos)
    ensures Settled(db', prefix, id, states, infos) == db'[id]
  {
  }

  /** The transaction, row by row, agrees with the reference definition: the
      ids it touched end as `Settled`, every other row is left as it was. */
  lemma {:induction false} ReconciledAt(db: Table, prefix: string, ids: seq<string>, states: map<string, int>, infos: map<string, ImgInfo>)
    ensures var r := Reconciled(db, prefix, ids, states, infos);
      && (forall id :: id in r <==> id in db || id in ids)
      && (forall id :: id in r ==> r[id] == if id in ids then Settled(db, prefix, id, states, infos) else db[id])
  {
    if ids != [] {
      var n := |ids| - 1;
      var last := ids[n];
      ReconciledAt(db, prefix, ids[..n], states, infos);
      var before := Reconciled(db, prefix, ids[..n], states, infos);
      ReconcileOneAt(before, prefix, last, states, infos);
      var r := Reconciled(db, prefix, ids, states, infos);
      assert r == ReconcileOne(before, prefix, last, states, infos);
      forall id
        ensures id in ids <==> id in ids[..n] || id == last
      {
        assert ids == ids[..n] + [last];
      }
      forall id | id in r
        ensures r[id] == if id in ids then Settled(db, prefix, id, states, infos) else db[id]
      {
        if id == last {
          if last in ids[..n] {
            SettledStable(db, before, prefix, last, states, infos);
          }
        } else {
          assert r[id] == before[id];
        }
      }
    }
  }

  /** After the transaction every id it covered has a row, and a row of the
      category carries the cache's score as uses (0 when the score could not
      be read). */
  lemma {:induction false} ReconciledUses(db: Table, prefix: string, ids: seq<string>, states: map<string, int>, infos: map<string, ImgInfo>)
    ensures var r := Reconciled(db, prefix, ids, states, infos);
      forall id :: id in ids ==> id in r && (r[id].category == prefix ==> r[id].uses == StateOf(states, id))
  {
    ReconciledAt(db, prefix, ids, states, infos);
  }

  /** The asymmetry of the transaction: a row whose Type is not `prefix`, or
      whose id was not covered, is left untouched, even when the cache holds
      an entry with its id under `prefix`. */
  lemma {:induction false} ReconciledKeepsOthers(db: Table, prefix: string, ids: seq<string>, states: map<string, int>, infos: map<string, ImgInfo>)
    ensures var r := Reconciled(db, prefix, ids, states, infos);
      forall id :: id in db && (id !in ids || db[id].category != prefix) ==> id in r && r[id] == db[id]
  {
    ReconciledAt(db, prefix, ids, states, infos);
  }

  /** Running the transaction a second time with the same cache data changes
      nothing, whatever order the second run takes the same ids in. */
  lemma {:induction false} ReconciledIdempotent(db: Table, prefix: string, ids: seq<string>, ids2: seq<string>,
                                                states: map<string, int>, infos: map<string, ImgInfo>)
    requires forall id :: id in ids2 <==> id in ids
    ensures var r := Reconciled(db, prefix, ids, states, infos);
      Reconciled(r, prefix, ids2, states, infos) == r
  {
    var r := Reconciled(db, prefix, ids, states, infos);
    ReconciledAt(db, prefix, ids, states, infos);
    ReconciledAt(r, prefix, ids2, states, infos);
    var r2 := Reconciled(r, prefix, ids2, states, infos);
    assert r2.Keys == r.Keys;
    forall id | id in r
      ensures r2[id] == r[id]
    {
      if id in ids {
        assert r2[id] == Settled(r, prefix, id, states, infos);
      }
    }
  }

  /** The transaction keeps every row stored under its own ID. */
  lemma {:induction false} ReconciledKeyedById(db: Table, prefix: string, ids: seq<string>, states: map<string, int>, infos: map<string, ImgInfo>)
    ensures KeyedById(db) ==> KeyedById(Reconciled(db, prefix, ids, states, infos))
  {
    ReconciledAt(db, prefix, ids, states, infos);
  }

  // The sweep of RemoveEmptyFiles.

  /** `path = '' OR filesize = '0' OR filesize = ''` */
  predicate IsEmptyFile(img: ImgInfo) {
    img.path == "" || img.fileSize == 0
  }

  /** The table after the DELETE of the empty-file rows. */
  function Purged(db: Table): (r: Table) {
    map id | id in db && !IsEmptyFile(db[id]) :: db[id]
  }

  /** The sweep deletes exactly the empty-file rows and leaves the others as they were. */
  lemma PurgedExactly(db: Table)
    ensures forall id :: id in Purged(db) <==> id in db && !IsEmptyFile(db[id])
    ensures forall id :: id in Purged(db) ==> Purged(db)[id] == db[id]
  {
  }
}
