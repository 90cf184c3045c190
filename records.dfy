/** Values shared by the whole model: the image record, the error kinds of the
    watcher, and two small collection helpers used by the cache and the store. */
module Records {

  datatype Option<+T> = None | Some(value: T)

  datatype Result<+T, +E> = Ok(value: T) | Err(error: E)

  /** The error conditions the watcher distinguishes. */
  datatype Error =
    | NotFound           // the cache holds no entry for the key or category
    | CacheDown          // any other failure of the cache backend
    | DbFailure          // a transaction could not begin, commit or delete
    | NoAvailableImages  // "No aviable images": both tiers came up empty
    | CollectorFailure   // the collector (search provider, file saver) failed

  /** One image record (the ImgInfo row). `category` is the Type column, the
      prefix the record belongs to; `uses` is the usage counter. */
  datatype ImgInfo = ImgInfo(
    id: string,
    category: string,
    origin: string,
    path: string,
    width: int,
    height: int,
    fileSize: int,
    uses: int)

  /** The zero value `ImgInfo{}`: what a read that matched nothing yields. */
  function Zero(): (r: ImgInfo) {
    ImgInfo("", "", "", "", 0, 0, 0, 0)
  }

  predicate Distinct<T(==)>(s: seq<T>) {
    forall i, j :: 0 <= i < j < |s| ==> s[i] != s[j]
  }

  /** Lists the elements of a finite set once each, in an unspecified order
      (how a backend hands out all ids of a category, or all rows of a table). */
  method Enumerate<T(==)>(s: set<T>) returns (r: seq<T>)
    ensures forall x :: x in r <==> x in s
    ensures Distinct(r)
    ensures |r| == |s|
  {
    r := [];
    var rest := s;
    while rest != {}
      invariant rest <= s
      invariant forall x :: x in r <==> x in s && x !in rest
      invariant Distinct(r)
      invariant |r| + |rest| == |s|
      decreases rest
    {
      var x :| x in rest;
      r := r + [x];
      rest := rest - {x};
    }
  }

  /** A non-empty finite set has an element on which `f` is least. */
  lemma MinExists<T>(s: set<T>, f: T -> int)
    requires s != {}
    ensures exists m :: m in s && forall x :: x in s ==> f(m) <= f(x)
  {
    var y :| y in s;
    if s - {y} != {} {
      MinExists(s - {y}, f);
      var m :| m in s - {y} && forall x :: x in s - {y} ==> f(m) <= f(x);
      if f(y) < f(m) {
        assert forall x :: x in s ==> f(y) <= f(x);
      } else {
        assert forall x :: x in s ==> f(m) <= f(x);
      }
    } else {
      assert s == {y};
    }
  }
}
