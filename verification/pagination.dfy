/** The paginated listing used for repositories, tags and branches alike: ask for
    pages 1, 2, 3, ... of fifty items each, keep every item in request order, and
    stop at the first page that holds fewer than fifty items (an empty page
    included). The remote gives no other end-of-listing signal. */
module Pagination {
  import opened Wrappers
  import opened Errors

  /** Items asked for per page: the largest limit the Gitea API accepts. */
  const PageSize: nat := 50

  /** One GET of one page of one endpoint, with its `limit` and `page` parameters. */
  datatype Request = Request(endpoint: string, limit: nat, page: nat)

  /** The remote's answer to one page request. */
  datatype Response<T> = Page(items: seq<T>) | HttpError(status: int)

  /** One endpoint of the remote: its answers to pages 1 .. |src|. Every later
      page is answered with an empty page, so the remote holds finitely many items. */
  type PageSource<T> = seq<Response<T>>

  function Fetch<T>(src: PageSource<T>, page: nat): Response<T> {
    if 1 <= page <= |src| then src[page - 1] else Page([])
  }

  /** A page after which the loop asks for the next one. */
  predicate Full<T>(resp: Response<T>) {
    resp.Page? && |resp.items| >= PageSize
  }

  /** A page at which the loop stops. */
  predicate Short<T>(resp: Response<T>) {
    resp.Page? && |resp.items| < PageSize
  }

  function ItemsOf<T>(resp: Response<T>): seq<T> {
    if resp.Page? then resp.items else []
  }

  /** The items of pages `first` .. `first + count - 1`, concatenated in request order. */
  function Collected<T>(src: PageSource<T>, first: nat, count: nat): seq<T>
    decreases count
  {
    if count == 0 then [] else ItemsOf(Fetch(src, first)) + Collected(src, first + 1, count - 1)
  }

  /** What a finished listing hands back: the items, and the requests that fetched them. */
  datatype Listing<T> = Listing(items: seq<T>, requests: seq<Request>)

  /** The requests ask for pages `first`, `first + 1`, ... of `endpoint`, in that
      order, without gaps, each with limit `PageSize`. */
  predicate Numbered(reqs: seq<Request>, endpoint: string, first: nat) {
    forall i | 0 <= i < |reqs| :: reqs[i] == Request(endpoint, PageSize, first + i)
  }

  /** The listing loop, entered at page `first`. */
  function ListFrom<T>(endpoint: string, src: PageSource<T>, first: nat): (r: Result<Listing<T>, Error>)
    decreases |src| + 1 - first
    ensures r.Success? ==>
      && |r.value.requests| >= 1
      && Numbered(r.value.requests, endpoint, first)
      && (forall j | first <= j < first + |r.value.requests| - 1 :: Full(Fetch(src, j)))
      && Short(Fetch(src, first + |r.value.requests| - 1))
      && r.value.items == Collected(src, first, |r.value.requests|)
    ensures r.Failure? ==>
      && r.error.RequestFailed?
      && r.error.endpoint == endpoint
      && first <= r.error.page
      && Fetch(src, r.error.page) == HttpError(r.error.status)
      && (forall j | first <= j < r.error.page :: Full(Fetch(src, j)))
  {
    var req := Request(endpoint, PageSize, first);
    match Fetch(src, first)
    case HttpError(status) => Failure(RequestFailed(status, endpoint, first))
    case Page(items) =>
      if |items| < PageSize then Success(Listing(items, [req]))
      else
        var rest :- ListFrom(endpoint, src, first + 1);
        Success(Listing(items + rest.items, [req] + rest.requests))
  }

  /** `_list_all_pages`: the listing loop from page 1. */
  function ListAllPages<T>(endpoint: string, src: PageSource<T>): Result<Listing<T>, Error> {
    ListFrom(endpoint, src, 1)
  }

  /** Puts the pages already fetched in front of the outcome of the remaining loop. */
  function Prepend<T>(items: seq<T>, reqs: seq<Request>, r: Result<Listing<T>, Error>): Result<Listing<T>, Error> {
    match r
    case Failure(e) => Failure(e)
    case Success(l) => Success(Listing(items + l.items, reqs + l.requests))
  }

  lemma PrependTwice<T>(a: seq<T>, qa: seq<Request>, b: seq<T>, qb: seq<Request>, r: Result<Listing<T>, Error>)
    ensures Prepend(a, qa, Prepend(b, qb, r)) == Prepend(a + b, qa + qb, r)
  {
    if r.Success? {
      assert a + (b + r.value.items) == (a + b) + r.value.items;
      assert qa + (qb + r.value.requests) == (qa + qb) + r.value.requests;
    }
  }

  lemma PrependNothing<T>(r: Result<Listing<T>, Error>)
    ensures Prepend([], [], r) == r
  {
    if r.Success? {
      assert [] + r.value.items == r.value.items;
      assert [] + r.value.requests == r.value.requests;
    }
  }

  /** The `while True` loop of `_list_all_pages` as written: extend the items with
      each page, stop on a short page, otherwise ask for the next page. */
  method ListAllPagesLoop<T>(endpoint: string, src: PageSource<T>) returns (r: Result<Listing<T>, Error>)
    ensures r == ListAllPages(endpoint, src)
  {
    var items: seq<T> := [];
    var requests: seq<Request> := [];
    var page: nat := 1;
    PrependNothing(ListFrom(endpoint, src, page));
    while true
      invariant 1 <= page <= |src| + 1
      invariant ListAllPages(endpoint, src) == Prepend(items, requests, ListFrom(endpoint, src, page))
      decreases |src| + 1 - page
    {
      var req := Request(endpoint, PageSize, page);
      var response := Fetch(src, page);
      if response.HttpError? {
        return Failure(RequestFailed(response.status, endpoint, page));
      }
      PrependTwice(items, requests, response.items, [req], ListFrom(endpoint, src, page + 1));
      items := items + response.items;
      requests := requests + [req];
      if |response.items| < PageSize {
        return Success(Listing(items, requests));
      }
      page := page + 1;
    }
  }

  /** How Gitea serves a collection of items: consecutive pages of `PageSize`
      items, the last one possibly shorter; past them, empty pages. */
  function GiteaPages<T>(all: seq<T>): (src: PageSource<T>)
    decreases |all|
    ensures forall i | 0 <= i < |src| :: src[i].Page? && 0 < |src[i].items| <= PageSize
    ensures Collected(src, 1, |src|) == all
  {
    if |all| == 0 then []
    else if |all| <= PageSize then [Page(all)]
    else
      var rest := GiteaPages(all[PageSize..]);
      CollectedShift(Page(all[..PageSize]), rest, 1, |rest|);
      [Page(all[..PageSize])] + rest
  }

  /** Putting a page in front of a source shifts every later page number by one. */
  lemma {:induction false} CollectedShift<T>(head: Response<T>, src: PageSource<T>, first: nat, count: nat)
    requires first >= 1
    ensures Collected([head] + src, first + 1, count) == Collected(src, first, count)
    decreases count
  {
    if count > 0 {
      assert Fetch([head] + src, first + 1) == Fetch(src, first);
      CollectedShift(head, src, first + 1, count - 1);
    }
  }

  /** The listing loop entered at a page from which on the source serves `rest` the
      Gitea way, where `rest` holds `k` full pages' worth of items and `extra` more. */
  lemma {:induction false} GiteaListingFrom<T>(endpoint: string, src: PageSource<T>, first: nat, rest: seq<T>, k: nat, extra: nat)
    requires 1 <= first <= |src| + 1
    requires src[first - 1..] == GiteaPages(rest)
    requires extra < PageSize && |rest| == k * PageSize + extra
    ensures ListFrom(endpoint, src, first).Success?
    ensures ListFrom(endpoint, src, first).value.items == rest
    ensures |ListFrom(endpoint, src, first).value.requests| == k + 1
    ensures |Fetch(src, first + k).items| == extra
    decreases k
  {
    if k == 0 {
      if |rest| != 0 {
        assert src[first - 1] == Page(rest);
      }
    } else {
      assert src[first - 1] == Page(rest[..PageSize]);
      var tail := rest[PageSize..];
      assert src[first..] == src[first - 1..][1..];
      assert |tail| == (k - 1) * PageSize + extra;
      GiteaListingFrom(endpoint, src, first + 1, tail, k - 1, extra);
      assert rest[..PageSize] + tail == rest;
    }
  }

  /** A collection of `k * PageSize + extra` items (`extra < PageSize`) comes back
      whole and in order after exactly `k + 1` requests, the last of which answers
      `extra` items, none at all when the size is a multiple of the page size. */
  lemma GiteaRequestCount<T>(endpoint: string, all: seq<T>, k: nat, extra: nat)
    requires extra < PageSize && |all| == k * PageSize + extra
    ensures ListAllPages(endpoint, GiteaPages(all)).Success?
    ensures ListAllPages(endpoint, GiteaPages(all)).value.items == all
    ensures |ListAllPages(endpoint, GiteaPages(all)).value.requests| == k + 1
    ensures |Fetch(GiteaPages(all), k + 1).items| == extra
  {
    GiteaListingFrom(endpoint, GiteaPages(all), 1, all, k, extra);
  }
}
