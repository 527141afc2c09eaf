// The in-memory cursor paginators. Every copy in the repository stores a map
// from the page's creation time to the page's items and the index of the
// next unread item, and they differ only in whether an empty read is an
// error and in the age after which a page is purged:
//   samplr/samplrd/samplrapi: snippetPaginator, snippetVersionPaginator
//     (an empty read succeeds), gitCommitPaginator,
//     trackedRepositoryPaginator (an empty read is an error);
//   drghs-worker/maintnerd/api/v1beta1: commentPaginator (an empty read
//     succeeds; pages go stale after nHoursStale hours);
//   leif/leifd/leifapi: sloPaginator, repositoryPaginator (an empty read is
//     an error) and pagination.Strings, which must be initialised first
//     (StringPages below).
// Times are nanoseconds since the Unix epoch; the caller passes "now".
module Paginators {
  import opened Wrappers

  /** One hour, in nanoseconds. */
  const Hour: int := 3600 * 1000000000

  /** time.Unix(0, 0), the key returned with an error. */
  const ErrorKey: int := 0

  const KeyExists := "Key already exists"
  const KeyNotFound := "Page key not found"
  const GetZero := "Get 0 from page"
  const AlreadyInitialized := "Paginator already initialized"
  const NotInitialized := "Paginator not initialized"

  /** The items of one page and the index of the next item to hand out. */
  datatype Page<T> = Page(items: seq<T>, idx: nat)

  type Pages<T> = map<int, Page<T>>

  /** No stored index runs past its page. */
  ghost predicate ValidPages<T>(pages: Pages<T>) {
    forall k | k in pages :: pages[k].idx <= |pages[k].items|
  }

  function Min(a: int, b: int): int { if a < b then a else b }

  /** The outcome of CreatePage: the key handed back, the error, the new map. */
  datatype Created<T> = Created(key: int, err: Option<string>, pages: Pages<T>)

  /** The outcome of GetPage: the items, the next index (-1 when done), the error, the new map. */
  datatype Read<T> = Read(items: seq<T>, next: int, err: Option<string>, pages: Pages<T>)

  /** CreatePage at time now: a fresh page at index 0, unless the key is taken. */
  function CreatePageSpec<T>(pages: Pages<T>, now: int, items: seq<T>): (r: Created<T>)
    ensures now in pages ==> r.err == Some(KeyExists) && r.key == ErrorKey && r.pages == pages
    ensures now !in pages ==>
      (r.err.None? && r.key == now && r.pages.Keys == pages.Keys + {now}
       && r.pages[now] == Page(items, 0) && forall k :: k in pages ==> r.pages[k] == pages[k])
    ensures ValidPages(pages) ==> ValidPages(r.pages)
  {
    if now in pages then Created(ErrorKey, Some(KeyExists), pages)
    else Created(now, None, pages[now := Page(items, 0)])
  }

  /**
   * GetPage(key, n): at most n items from the page's index on. An empty read
   * is an error when strictEmpty holds and an empty success (-1) otherwise;
   * a page read to its end is deleted and -1 is returned.
   */
  function GetPageSpec<T>(pages: Pages<T>, key: int, n: nat, strictEmpty: bool): (r: Read<T>)
    requires ValidPages(pages)
    ensures ValidPages(r.pages)
    ensures key !in pages ==> r.err == Some(KeyNotFound) && r.items == [] && r.pages == pages
    ensures key in pages ==>
      var p := pages[key];
      |r.items| <= n && p.idx + |r.items| <= |p.items|
      && r.items == p.items[p.idx..p.idx + |r.items|]
      && (r.err.None? ==> |r.items| == Min(n, |p.items| - p.idx))
      && (r.err.Some? ==> strictEmpty && r.items == [] && r.pages == pages)
      && (r.err.None? && r.next == -1 && r.items != [] ==>
            p.idx + |r.items| == |p.items| && r.pages == pages - {key})
      && (r.err.None? && r.next != -1 ==>
            r.items != [] && r.next == p.idx + |r.items| < |p.items|
            && r.pages == pages[key := Page(p.items, r.next)])
  {
    if key !in pages then Read([], 0, Some(KeyNotFound), pages)
    else
      var p := pages[key];
      var m := Min(n, |p.items| - p.idx);
      if m == 0 then
        if strictEmpty then Read([], 0, Some(GetZero), pages) else Read([], -1, None, pages)
      else if p.idx + m == |p.items| then
        Read(p.items[p.idx..p.idx + m], -1, None, pages - {key})
      else
        Read(p.items[p.idx..p.idx + m], p.idx + m, None, pages[key := Page(p.items, p.idx + m)])
  }

  /** A page is stale when it is more than staleHours old. */
  predicate IsStale(now: int, t: int, staleHours: nat) { now - t > staleHours * Hour }

  /** PurgeOldRecords at time now: exactly the pages that are not stale remain, unchanged. */
  function PurgeSpec<T>(pages: Pages<T>, now: int, staleHours: nat): (r: Pages<T>)
    ensures forall k :: k in r <==> k in pages && !IsStale(now, k, staleHours)
    ensures forall k :: k in r ==> r[k] == pages[k]
    ensures ValidPages(pages) ==> ValidPages(r)
  {
    map k | k in pages && !IsStale(now, k, staleHours) :: pages[k]
  }

  /** Purging twice at the same time removes nothing more. */
  lemma PurgeIdempotent<T>(pages: Pages<T>, now: int, staleHours: nat)
    ensures PurgeSpec(PurgeSpec(pages, now, staleHours), now, staleHours) == PurgeSpec(pages, now, staleHours)
  {
  }

  /** An empty remainder: strict paginators fail, the others succeed with nothing and keep the page. */
  lemma EmptyReadPolicy<T>(pages: Pages<T>, key: int, n: nat, strictEmpty: bool)
    requires ValidPages(pages) && key in pages
    requires n == 0 || pages[key].idx == |pages[key].items|
    ensures var r := GetPageSpec(pages, key, n, strictEmpty);
      r.items == [] && r.pages == pages
      && (strictEmpty ==> r.err == Some(GetZero))
      && (!strictEmpty ==> r.err.None? && r.next == -1)
  {
  }

  /**
   * Two successive reads of one page hand out adjacent slices: the second
   * starts where the first ended, and together they are the items from the
   * page's original index on.
   */
  lemma ReadsAreAdjacent<T>(pages: Pages<T>, key: int, n1: nat, n2: nat, strictEmpty: bool)
    requires ValidPages(pages) && key in pages
    requires GetPageSpec(pages, key, n1, strictEmpty).err.None?
    requires GetPageSpec(pages, key, n1, strictEmpty).next != -1
    ensures var r1 := GetPageSpec(pages, key, n1, strictEmpty);
      var r2 := GetPageSpec(r1.pages, key, n2, strictEmpty);
      var p := pages[key];
      p.idx + |r1.items| + |r2.items| <= |p.items|
      && r1.items + r2.items == p.items[p.idx..p.idx + |r1.items| + |r2.items|]
  {
    var p := pages[key];
    var r1 := GetPageSpec(pages, key, n1, strictEmpty);
    var r2 := GetPageSpec(r1.pages, key, n2, strictEmpty);
    var a, b := p.idx, p.idx + |r1.items|;
    assert r2.items == p.items[b..b + |r2.items|];
    assert p.items[a..b] + p.items[b..b + |r2.items|] == p.items[a..b + |r2.items|];
  }

  /** Everything a client gets by reading a page n items at a time until it reports -1 or fails. */
  function Drain<T>(pages: Pages<T>, key: int, n: nat, strictEmpty: bool): seq<T>
    requires ValidPages(pages)
    decreases if key in pages then |pages[key].items| - pages[key].idx else 0
  {
    var r := GetPageSpec(pages, key, n, strictEmpty);
    if r.err.Some? || r.next == -1 then r.items
    else r.items + Drain(r.pages, key, n, strictEmpty)
  }

  /** Reading a page to its end, any positive number of items at a time, yields all its unread items in order. */
  lemma {:induction false} DrainReturnsAll<T>(pages: Pages<T>, key: int, n: nat, strictEmpty: bool)
    requires ValidPages(pages) && key in pages && n > 0
    ensures Drain(pages, key, n, strictEmpty) == pages[key].items[pages[key].idx..]
    decreases |pages[key].items| - pages[key].idx
  {
    var p := pages[key];
    var r := GetPageSpec(pages, key, n, strictEmpty);
    if r.err.Some? || r.next == -1 {
    } else {
      DrainReturnsAll(r.pages, key, n, strictEmpty);
      assert p.items[p.idx..] == r.items + p.items[r.next..];
    }
  }

  /** One paginator: its empty-read policy, its stale age and its pages. */
  class Paginator<T> {
    const strictEmpty: bool
    const staleHours: nat
    var pages: Pages<T>

    ghost predicate Valid()
      reads this
    {
      ValidPages(pages)
    }

    constructor (strictEmpty: bool, staleHours: nat)
      ensures Valid() && pages == map[]
      ensures this.strictEmpty == strictEmpty && this.staleHours == staleHours
    {
      this.strictEmpty := strictEmpty;
      this.staleHours := staleHours;
      pages := map[];
    }

    /** CreatePage: store the items at index 0 under the time now, unless that key exists. */
    method CreatePage(now: int, items: seq<T>) returns (key: int, err: Option<string>)
      requires Valid()
      modifies this
      ensures Valid()
      ensures Created(key, err, pages) == CreatePageSpec(old(pages), now, items)
    {
      if now in pages {
        return ErrorKey, Some(KeyExists);
      }
      pages := pages[now := Page(items, 0)];
      return now, None;
    }

    /** GetPage: hand out up to n items and advance or delete the page. */
    method GetPage(key: int, n: int) returns (items: seq<T>, next: int, err: Option<string>)
      requires Valid() && n >= 0
      modifies this
      ensures Valid()
      ensures Read(items, next, err, pages) == GetPageSpec(old(pages), key, n, strictEmpty)
    {
      if key !in pages {
        return [], 0, Some(KeyNotFound);
      }
      var val := pages[key];
      var nremain := |val.items| - val.idx;
      var m := n;
      if m > nremain {
        m := nremain;
      }
      if m == 0 {
        if strictEmpty {
          return [], 0, Some(GetZero);
        }
        return [], -1, None;
      }
      items := val.items[val.idx..val.idx + m];
      val := val.(idx := val.idx + m);
      next := val.idx;
      if val.idx == |val.items| {
        pages := pages - {key};
        next := -1;
      } else {
        pages := pages[key := val];
      }
      err := None;
    }

    /** PurgeOldRecords: delete, one key at a time, every page more than staleHours old. */
    method PurgeOldRecords(now: int)
      requires Valid()
      modifies this
      ensures Valid()
      ensures pages == PurgeSpec(old(pages), now, staleHours)
    {
      var keys := pages.Keys;
      while keys != {}
        invariant keys <= old(pages).Keys
        invariant pages == map k | k in old(pages) && (k in keys || !IsStale(now, k, staleHours)) :: old(pages)[k]
        decreases keys
      {
        ghost var any := SomeElement(keys);  // the choice below has a candidate
        var t :| t in keys;
        if IsStale(now, t, staleHours) {
          pages := pages - {t};
        }
        keys := keys - {t};
      }
    }
  }

  /** snippetPaginator: empty reads succeed, pages go stale after 2 hours. */
  method NewSnippetPaginator<T>() returns (p: Paginator<T>)
    ensures fresh(p) && p.Valid() && p.pages == map[] && !p.strictEmpty && p.staleHours == 2
  {
    p := new Paginator(false, 2);
  }

  /** snippetVersionPaginator: empty reads succeed, pages go stale after 2 hours. */
  method NewSnippetVersionPaginator<T>() returns (p: Paginator<T>)
    ensures fresh(p) && p.Valid() && p.pages == map[] && !p.strictEmpty && p.staleHours == 2
  {
    p := new Paginator(false, 2);
  }

  /** gitCommitPaginator: an empty read is an error, pages go stale after 2 hours. */
  method NewGitCommitPaginator<T>() returns (p: Paginator<T>)
    ensures fresh(p) && p.Valid() && p.pages == map[] && p.strictEmpty && p.staleHours == 2
  {
    p := new Paginator(true, 2);
  }

  /** trackedRepositoryPaginator: an empty read is an error, pages go stale after 2 hours. */
  method NewTrackedRepositoryPaginator<T>() returns (p: Paginator<T>)
    ensures fresh(p) && p.Valid() && p.pages == map[] && p.strictEmpty && p.staleHours == 2
  {
    p := new Paginator(true, 2);
  }

  /** commentPaginator: empty reads succeed, pages go stale after nHoursStale hours. */
  method NewCommentPaginator<T>(nHoursStale: nat) returns (p: Paginator<T>)
    ensures fresh(p) && p.Valid() && p.pages == map[] && !p.strictEmpty && p.staleHours == nHoursStale
  {
    p := new Paginator(false, nHoursStale);
  }

  /** sloPaginator: an empty read is an error, pages go stale after 2 hours. */
  method NewSloPaginator<T>() returns (p: Paginator<T>)
    ensures fresh(p) && p.Valid() && p.pages == map[] && p.strictEmpty && p.staleHours == 2
  {
    p := new Paginator(true, 2);
  }

  /** repositoryPaginator: an empty read is an error, pages go stale after 2 hours. */
  method NewRepositoryPaginator<T>() returns (p: Paginator<T>)
    ensures fresh(p) && p.Valid() && p.pages == map[] && p.strictEmpty && p.staleHours == 2
  {
    p := new Paginator(true, 2);
  }

  /**
   * pagination.Strings: a strict two-hour paginator of strings that refuses
   * CreatePage and GetPage until Init has run, and Init after the first time.
   */
  class StringPages {
    var didInit: bool
    var pages: Pages<string>

    ghost predicate Valid()
      reads this
    {
      ValidPages(pages) && (!didInit ==> pages == map[])
    }

    constructor ()
      ensures Valid() && !didInit
    {
      didInit := false;
      pages := map[];
    }

    /** Init: succeeds the first time, with an empty map, and fails ever after. */
    method Init() returns (err: Option<string>)
      requires Valid()
      modifies this
      ensures Valid() && didInit
      ensures old(didInit) ==> err == Some(AlreadyInitialized) && pages == old(pages)
      ensures !old(didInit) ==> err.None? && pages == map[]
    {
      if didInit {
        return Some(AlreadyInitialized);
      }
      pages := map[];
      didInit := true;
      return None;
    }

    method PurgeOldRecords(now: int)
      requires Valid()
      modifies this
      ensures Valid() && didInit == old(didInit)
      ensures pages == PurgeSpec(old(pages), now, 2)
    {
      var keys := pages.Keys;
      while keys != {}
        invariant keys <= old(pages).Keys
        invariant pages == map k | k in old(pages) && (k in keys || !IsStale(now, k, 2)) :: old(pages)[k]
        invariant didInit == old(didInit)
        decreases keys
      {
        ghost var any := SomeElement(keys);  // the choice below has a candidate
        var t :| t in keys;
        if IsStale(now, t, 2) {
          pages := pages - {t};
        }
        keys := keys - {t};
      }
    }

    method CreatePage(now: int, withItems: seq<string>) returns (key: int, err: Option<string>)
      requires Valid()
      modifies this
      ensures Valid() && didInit == old(didInit)
      ensures !didInit ==> key == ErrorKey && err == Some(NotInitialized) && pages == old(pages)
      ensures didInit ==> Created(key, err, pages) == CreatePageSpec(old(pages), now, withItems)
    {
      if !didInit {
        return ErrorKey, Some(NotInitialized);
      }
      if now in pages {
        return ErrorKey, Some(KeyExists);
      }
      pages := pages[now := Page(withItems, 0)];
      return now, None;
    }

    method GetPage(key: int, numItems: int) returns (items: seq<string>, next: int, err: Option<string>)
      requires Valid() && numItems >= 0
      modifies this
      ensures Valid() && didInit == old(didInit)
      ensures !didInit ==> items == [] && next == 0 && err == Some(NotInitialized) && pages == old(pages)
      ensures didInit ==> Read(items, next, err, pages) == GetPageSpec(old(pages), key, numItems, true)
    {
      if !didInit {
        return [], 0, Some(NotInitialized);
      }
      if key !in pages {
        return [], 0, Some(KeyNotFound);
      }
      var val := pages[key];
      var remaining := |val.items| - val.idx;
      var m := numItems;
      if m > remaining {
        m := remaining;
      }
      if m == 0 {
        return [], 0, Some(GetZero);
      }
      items := val.items[val.idx..val.idx + m];
      val := val.(idx := val.idx + m);
      next := val.idx;
      if val.idx == |val.items| {
        pages := pages - {key};
        next := -1;
      } else {
        pages := pages[key := val];
      }
      err := None;
    }
  }
}
