/** The volatile tier: a cache of image records with a usage score, keyed by
    (category, id). The watcher sees it only through the `Cache` interface
    whose in-memory and Redis backends are not part of this model; the class
    below gives that interface the semantics the watcher relies on, and any
    call may also fail because the backend is unreachable. */
module ImgCache {
  import opened Records

  datatype Key = Key(category: string, id: string)

  /** A cached record snapshot and its score, which mirrors `uses`. */
  datatype Entry = Entry(info: ImgInfo, score: int)

  function KeyOf(info: ImgInfo): (r: Key) {
    Key(info.category, info.id)
  }

  /** The ids cached under a category. */
  function IdsOf(entries: map<Key, Entry>, category: string): (r: set<string>) {
    set k | k in entries && k.category == category :: k.id
  }

  /** The ids of a category whose score lies in [lo, hi]. */
  function InRange(entries: map<Key, Entry>, category: string, lo: int, hi: int): (r: set<string>) {
    set k | k in entries && k.category == category && lo <= entries[k].score <= hi :: k.id
  }

  function Score(entries: map<Key, Entry>, category: string, id: string): (r: int) {
    if Key(category, id) in entries then entries[Key(category, id)].score else 0
  }

  /** `id` is cached under `category` with a score no other id there undercuts. */
  predicate IsMinScore(entries: map<Key, Entry>, category: string, id: string) {
    && Key(category, id) in entries
    && forall x :: x in IdsOf(entries, category) ==> Score(entries, category, id) <= Score(entries, category, x)
  }

  /** The entries after a successful read of `k`: its score goes up by one
      when the read asks for it. */
  function Touched(entries: map<Key, Entry>, k: Key, incr: bool): (r: map<Key, Entry>)
    requires k in entries
  {
    if incr then entries[k := entries[k].(score := entries[k].score + 1)] else entries
  }

  /** The entries after a successful `Set(info.category, info)`. */
  function Stored(entries: map<Key, Entry>, info: ImgInfo): (r: map<Key, Entry>) {
    entries[KeyOf(info) := Entry(info, info.uses)]
  }

  /** The entries after `Set(item.category, item)` for each item in turn, where
      `oks[i]` tells whether the i-th Set succeeded (a failed Set changes nothing). */
  function SetAll(entries: map<Key, Entry>, items: seq<ImgInfo>, oks: seq<bool>): (r: map<Key, Entry>)
    requires |oks| == |items|
  {
    if items == [] then entries
    else
      var n := |items| - 1;
      var before := SetAll(entries, items[..n], oks[..n]);
      if oks[n] then Stored(before, items[n]) else before
  }

  /** A key no successful Set wrote keeps what it had. */
  lemma {:induction false} SetAllUntouched(entries: map<Key, Entry>, items: seq<ImgInfo>, oks: seq<bool>, k: Key)
    requires |oks| == |items|
    requires forall i :: 0 <= i < |items| && oks[i] ==> KeyOf(items[i]) != k
    ensures k in SetAll(entries, items, oks) <==> k in entries
    ensures k in entries ==> SetAll(entries, items, oks)[k] == entries[k]
  {
    if items != [] {
      var n := |items| - 1;
      SetAllUntouched(entries, items[..n], oks[..n], k);
    }
  }

  /** An item whose Set succeeded and that no later successful Set overwrote
      is cached as it was given, with its `uses` as score. */
  lemma {:induction false} SetAllLastWins(entries: map<Key, Entry>, items: seq<ImgInfo>, oks: seq<bool>, i: nat)
    requires |oks| == |items| && i < |items| && oks[i]
    requires forall j :: i < j < |items| && oks[j] ==> KeyOf(items[j]) != KeyOf(items[i])
    ensures KeyOf(items[i]) in SetAll(entries, items, oks)
    ensures SetAll(entries, items, oks)[KeyOf(items[i])] == Entry(items[i], items[i].uses)
  {
    var n := |items| - 1;
    if i < n {
      SetAllLastWins(entries, items[..n], oks[..n], i);
    }
  }

  class Cache {
    var entries: map<Key, Entry>

    constructor ()
      ensures entries == map[]
    {
      entries := map[];
    }

    /** An id of the category with the lowest score (ties broken arbitrarily). */
    method GetActualId(category: string) returns (r: Result<string, Error>)
      ensures r.Ok? ==> IsMinScore(entries, category, r.value)
      ensures IdsOf(entries, category) == {} ==> r.Err?
      ensures r.Err? ==> r.error == CacheDown || (r.error == NotFound && IdsOf(entries, category) == {})
    {
      var reachable: bool := *;
      if !reachable {
        return Err(CacheDown);
      }
      var ids := IdsOf(entries, category);
      if ids == {} {
        return Err(NotFound);
      }
      var es := entries;
      MinExists(ids, x => Score(es, category, x));
      var id :| id in ids && forall x :: x in ids ==> Score(es, category, id) <= Score(es, category, x);
      return Ok(id);
    }

    /** Any id of the category. */
    method GetRandomId(category: string) returns (r: Result<string, Error>)
      ensures r.Ok? ==> Key(category, r.value) in entries
      ensures IdsOf(entries, category) == {} ==> r.Err?
      ensures r.Err? ==> r.error == CacheDown || (r.error == NotFound && IdsOf(entries, category) == {})
    {
      var reachable: bool := *;
      if !reachable {
        return Err(CacheDown);
      }
      var ids := IdsOf(entries, category);
      if ids == {} {
        return Err(NotFound);
      }
      var id :| id in ids;
      return Ok(id);
    }

    /** The cached record under (category, id); with `incr` its score goes up by one. */
    method GetById(category: string, id: string, incr: bool) returns (r: Result<ImgInfo, Error>)
      modifies this
      ensures r.Ok? ==>
        && Key(category, id) in old(entries)
        && r.value == old(entries)[Key(category, id)].info
        && entries == Touched(old(entries), Key(category, id), incr)
      ensures r.Err? ==> entries == old(entries)
      ensures Key(category, id) !in old(entries) ==> r.Err?
      ensures r.Err? ==> r.error == CacheDown || (r.error == NotFound && Key(category, id) !in old(entries))
    {
      var reachable: bool := *;
      if !reachable {
        return Err(CacheDown);
      }
      var k := Key(category, id);
      if k !in entries {
        return Err(NotFound);
      }
      r := Ok(entries[k].info);
      entries := Touched(entries, k, incr);
    }

    /** Every id cached under the category, once each. */
    method GetAllIds(category: string) returns (r: Result<seq<string>, Error>)
      ensures r.Ok? ==> Distinct(r.value) && forall id :: id in r.value <==> Key(category, id) in entries
      ensures r.Err? ==> r.error == CacheDown
    {
      var reachable: bool := *;
      if !reachable {
        return Err(CacheDown);
      }
      var ids := Enumerate(IdsOf(entries, category));
      return Ok(ids);
    }

    /** The score of (category, id). */
    method GetScore(category: string, id: string) returns (r: Result<int, Error>)
      ensures r.Ok? ==> Key(category, id) in entries && r.value == entries[Key(category, id)].score
      ensures Key(category, id) !in entries ==> r.Err?
      ensures r.Err? ==> r.error == CacheDown || (r.error == NotFound && Key(category, id) !in entries)
    {
      var reachable: bool := *;
      if !reachable {
        return Err(CacheDown);
      }
      var k := Key(category, id);
      if k !in entries {
        return Err(NotFound);
      }
      return Ok(entries[k].score);
    }

    /** The ids of the category whose score lies in [lo, hi], once each. */
    method GetIdsInRange(category: string, lo: int, hi: int) returns (r: Result<seq<string>, Error>)
      ensures r.Ok? ==> Distinct(r.value) && |r.value| == |InRange(entries, category, lo, hi)|
      ensures r.Ok? ==> forall id :: id in r.value <==> id in InRange(entries, category, lo, hi)
      ensures r.Err? ==> r.error == CacheDown
    {
      var reachable: bool := *;
      if !reachable {
        return Err(CacheDown);
      }
      var ids := Enumerate(InRange(entries, category, lo, hi));
      return Ok(ids);
    }

    /** Upserts `info` under (category, info.id) with its `uses` as score. */
    method Set(category: string, info: ImgInfo) returns (err: Option<Error>)
      modifies this
      ensures err.None? ==> entries == old(entries)[Key(category, info.id) := Entry(info, info.uses)]
      ensures err.Some? ==> err.value == CacheDown && entries == old(entries)
    {
      var reachable: bool := *;
      if !reachable {
        return Some(CacheDown);
      }
      entries := entries[Key(category, info.id) := Entry(info, info.uses)];
      return None;
    }
  }
}
