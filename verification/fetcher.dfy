/**
 `KenmeiClient.fetch_manga_data`: the reading list is paged; the first response
 tells how many pages there are, then every page is requested in order and the
 entries of the pages that answered are concatenated. HTTP is replaced by the
 replies the server gives, passed in as values.
 */
module Fetcher {
  import opened Wrappers
  import opened Reconciler

  /** The reply to a request for one page inside the page loop. `PageFailed` is a request
      that raised (transport error, error status or undecodable body); a page whose
      body has no `entries` is `PageOk([])`. */
  datatype PageReply = PageFailed | PageOk(entries: seq<Entry>)

  /** The reply to the first request, the one that only reads the page count.
      `pages` is the `pagy.pages` field (`None` when missing or null). */
  datatype FirstReply = FirstFailed | FirstInvalidJson | FirstOk(pages: Option<int>)

  /** What `fetch_manga_data` returns: the empty dict `{}`, or `{"entries": entries}`. */
  datatype FetchResult = NoData | Fetched(entries: seq<Entry>)

  /** A token is usable when it is present and not the empty string; any other token
      makes the fetch give up before sending a request. */
  predicate HasToken(token: Option<string>) {
    token.Some? && token.value != ""
  }

  /** The number of pages to request: the count the first reply gives, or one page when
      that count is missing or zero. */
  function PageCount(pages: Option<int>): int {
    if pages.None? || pages.value == 0 then 1 else pages.value
  }

  /** Reference view: the entries of pages 1..n, page by page, failed pages contributing nothing. */
  function Gathered(server: int -> PageReply, n: int): seq<Entry>
    decreases n
  {
    if n <= 0 then []
    else Gathered(server, n - 1) + (if server(n).PageOk? then server(n).entries else [])
  }

  /** An entry is gathered exactly when some page in 1..n answered with it. */
  lemma {:induction false} GatheredMembers(server: int -> PageReply, n: int, e: Entry)
    ensures e in Gathered(server, n) <==>
            exists p :: 1 <= p <= n && server(p).PageOk? && e in server(p).entries
    decreases n
  {
    if n > 0 {
      GatheredMembers(server, n - 1, e);
    }
  }

  /** Pages keep their order: what pages 1..m give comes first in what pages 1..n give. */
  lemma {:induction false} GatheredPrefix(server: int -> PageReply, m: int, n: int)
    requires m <= n
    ensures Gathered(server, m) <= Gathered(server, n)
    decreases n
  {
    if m < n && n > 0 {
      GatheredPrefix(server, m, n - 1);
    }
  }

  /** The fetch. Without a usable token it returns `{}` and sends nothing. A failed or
      undecodable first request gives an empty entry list, not `{}`. Otherwise pages
      1..count are requested in order (none when the count is negative) and the entries
      of those that answered are concatenated in page order. */
  method FetchMangaData(token: Option<string>, first: FirstReply, server: int -> PageReply)
    returns (r: FetchResult)
    ensures r.NoData? <==> !HasToken(token)
    ensures HasToken(token) && !first.FirstOk? ==> r == Fetched([])
    ensures HasToken(token) && first.FirstOk? ==>
              r == Fetched(Gathered(server, PageCount(first.pages)))
  {
    if !HasToken(token) {
      return NoData;
    }
    match first {
      case FirstFailed =>
        return Fetched([]);
      case FirstInvalidJson =>
        return Fetched([]);
      case FirstOk(pagesField) =>
        var pages := PageCount(pagesField);
        var all: seq<Entry> := [];
        var page := 1;
        while page <= pages
          invariant 1 <= page
          invariant page <= pages + 1 || page == 1
          invariant all == Gathered(server, page - 1)
        {
          var reply := server(page);
          if reply.PageOk? && reply.entries != [] {
            all := all + reply.entries;
          }
          page := page + 1;
        }
        assert Gathered(server, pages) == Gathered(server, page - 1);
        return Fetched(all);
    }
  }
}
