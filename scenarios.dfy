/** Client checks of the watcher's contracts on small concrete stores: what a
    caller can conclude from the specifications alone. */
module Scenarios {
  import opened Records
  import opened ImgCache
  import opened Store
  import opened Watcher

  function Cat(id: string, uses: int): (r: ImgInfo) {
    ImgInfo(id, "x", "https://example.org/" + id, "", 10, 10, 0, uses)
  }

  /** MinimalAviable = 5 with two available ids in "x": exactly 3 are requested. */
  method RefillRequestsShortfall() {
    var c := new Cache();
    c.entries := map[Key("x", "a") := Entry(Cat("a", 0), 0), Key("x", "b") := Entry(Cat("b", 4), 4)];
    var w := new ImgWatcher(c, map[], 5, 10, "urls");
    assert InRange(c.entries, "x", 0, 9) == {"a", "b"};
    var t;
    ghost var items, oks;
    t, items, oks := w.WatchStep("x", n => Ok([]));
    assert t.Fatal? || (t.Refill? && t.need == 3);
  }

  /** The same shortfall with a collector that fails: the pass requests 3
      images, reports the collector's error and leaves the cache as it was. */
  method FailedCollectionLeavesCache() {
    var c := new Cache();
    c.entries := map[Key("x", "a") := Entry(Cat("a", 0), 0), Key("x", "b") := Entry(Cat("b", 4), 4)];
    var w := new ImgWatcher(c, map[], 5, 10, "urls");
    assert InRange(c.entries, "x", 0, 9) == {"a", "b"};
    var before := c.entries;
    var t;
    ghost var items, oks;
    t, items, oks := w.WatchStep("x", n => Err(CollectorFailure));
    assert t.Fatal? || (t.Refill? && t.need == 3 && t.outcome == Err(CollectorFailure));
    assert c.entries == before;
  }

  /** Empty cache and empty table: GetActualImg reports "No aviable images". */
  method BothTiersEmpty() {
    var c := new Cache();
    var w := new ImgWatcher(c, map[], 5, 10, "urls");
    var r;
    ghost var src;
    r, src := w.GetActualImg("x", true);
    assert r == Err(NoAvailableImages);
    assert c.entries == map[];
  }

  /** Empty cache, one row {id: "a", uses: 3} of "x": GetActualImg returns
      that row, unless the table read fails, and writes it back into the
      cache, unless that write fails. */
  method TableFallbackRepopulates() {
    var c := new Cache();
    var row := Cat("a", 3);
    var w := new ImgWatcher(c, map["a" := row], 5, 10, "urls");
    var r;
    ghost var src;
    r, src := w.GetActualImg("x", false);
    assert r.Ok? ==> r.value == row;
    assert r.Ok? ==> c.entries == map[] || c.entries == map[Key("x", "a") := Entry(row, 3)];
  }

  /** The sweep in mode "files" over one row with an empty path and one with
      a file: only the first can go. */
  method SweepRemovesOnlyEmptyFile() {
    var c := new Cache();
    var stale := Cat("a", 0);
    var kept := Cat("b", 0).(path := "/img/x/b.jpg", fileSize := 2048);
    var w := new ImgWatcher(c, map["a" := stale, "b" := kept], 5, 10, "files");
    var err := w.RemoveEmptyFiles();
    assert Purged(map["a" := stale, "b" := kept]) == map["b" := kept];
    assert w.db == map["a" := stale, "b" := kept] || w.db == map["b" := kept];
  }
}
