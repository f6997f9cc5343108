/** The result-harvesting loop of search_app.py (`scrape_duckduckgo`): up to
    five result pages are read in order, each page's result anchors become
    numbered (rank, title, url) results, and harvesting stops at the first
    failed or empty page or once fifty results are collected. The HTTP
    requests and the HTML parsing are outside the model: each page arrives
    as the anchors the parser found on it. */
module Fetcher {
  import opened Text

  const MaxPages := 5
  const MaxResults := 50

  /** The marker of a DuckDuckGo redirect link. */
  const RedirectMarker := "uddg="

  /** One `<a>` element: its text and its `href` attribute ("" when absent). */
  datatype Anchor = Anchor(text: string, href: string)

  /** The answer to the request for one result page: the request raised,
      or the page parsed, giving its `result__a` anchors and its
      `result__url` anchors. */
  datatype PageResponse =
    | RequestFailed
    | Page(resultLinks: seq<Anchor>, resultUrls: seq<Anchor>)

  /** One harvested result before numbering. */
  datatype Entry = Entry(title: string, url: string)

  datatype SearchResult = SearchResult(rank: nat, title: string, url: string)

  /** What `scrape_duckduckgo` ends with: the `RuntimeError` raised when the
      first page cannot be fetched, or the result list. */
  datatype SearchOutcome =
    | FirstPageFailed
    | Results(results: seq<SearchResult>)

  /** The response for page `page`; a page beyond the given ones is an empty page. */
  function PageAt(pages: seq<PageResponse>, page: nat): PageResponse
  {
    if page < |pages| then pages[page] else Page([], [])
  }

  /** The `result__a` anchors, or the `result__url` anchors when there are none. */
  function AnchorsOf(response: PageResponse): seq<Anchor>
    requires response.Page?
  {
    if response.resultLinks != [] then response.resultLinks else response.resultUrls
  }

  /** A page after which nothing more is read: its request failed or it has no anchors. */
  predicate Stops(response: PageResponse)
  {
    response.RequestFailed? || AnchorsOf(response) == []
  }

  /** The link target: the stripped `href`, replaced by what `unwrap` extracts
      when it carries the redirect marker. `unwrap` stands for reading the
      `uddg` query parameter, including its fall-backs. */
  function ResolveUrl(href: string, unwrap: string -> string): string
  {
    var url := Strip(href);
    if Contains(url, RedirectMarker) then unwrap(url) else url
  }

  /** The result an anchor gives: its stripped text, or the url when that is empty. */
  function EntryOf(a: Anchor, unwrap: string -> string): (e: Entry)
    ensures e.title == [] ==> e.url == []
    ensures Strip(a.text) != [] ==> e.title == Strip(a.text)
    ensures Strip(a.text) == [] ==> e.title == e.url
    ensures e.url == ResolveUrl(a.href, unwrap)
  {
    var url := ResolveUrl(a.href, unwrap);
    var title := Strip(a.text);
    Entry(if title == [] then url else title, url)
  }

  /** The entries of a page's anchors, in anchor order. */
  function EntriesOf(anchors: seq<Anchor>, unwrap: string -> string): (es: seq<Entry>)
    ensures |es| == |anchors|
    ensures forall i :: 0 <= i < |anchors| ==> es[i] == EntryOf(anchors[i], unwrap)
    decreases |anchors|
  {
    if anchors == [] then []
    else
      var n := |anchors|;
      EntriesOf(anchors[..n - 1], unwrap) + [EntryOf(anchors[n - 1], unwrap)]
  }

  /** Every entry of pages `page`, `page + 1`, ... up to the fifth, stopping
      before the first page that fails or has no anchors. */
  function Harvest(pages: seq<PageResponse>, page: nat, unwrap: string -> string): seq<Entry>
    decreases MaxPages - page
  {
    if page >= MaxPages || Stops(PageAt(pages, page)) then []
    else EntriesOf(AnchorsOf(PageAt(pages, page)), unwrap) + Harvest(pages, page + 1, unwrap)
  }

  /** The results list `all_results` grows into: `(i + 1, title, url)` for the `i`-th entry. */
  function Numbered(entries: seq<Entry>): (rs: seq<SearchResult>)
    ensures |rs| == |entries|
  {
    seq(|entries|, i requires 0 <= i < |entries| => SearchResult(i + 1, entries[i].title, entries[i].url))
  }

  /** What `scrape_duckduckgo(query)` returns or raises. */
  function Expected(query: string, pages: seq<PageResponse>, unwrap: string -> string): SearchOutcome
  {
    if query == [] then Results([])
    else if PageAt(pages, 0).RequestFailed? then FirstPageFailed
    else Results(Numbered(Take(Harvest(pages, 0, unwrap), MaxResults)))
  }

  /** The page loop and the anchor loop of `scrape_duckduckgo`. */
  method Scrape(query: string, pages: seq<PageResponse>, unwrap: string -> string)
    returns (outcome: SearchOutcome)
    ensures outcome == Expected(query, pages, unwrap)
  {
    if query == [] {
      return Results([]);
    }
    var results: seq<SearchResult> := [];
    ghost var done: seq<Entry> := [];
    var page := 0;
    while page < MaxPages
      invariant 0 <= page <= MaxPages
      invariant done + Harvest(pages, page, unwrap) == Harvest(pages, 0, unwrap)
      invariant results == Numbered(done)
      invariant |done| < MaxResults
      invariant page > 0 ==> !PageAt(pages, 0).RequestFailed?
    {
      var response := PageAt(pages, page);
      if response.RequestFailed? {
        if page == 0 {
          return FirstPageFailed;
        }
        break;
      }
      var anchors := AnchorsOf(response);
      if anchors == [] {
        break;
      }
      ghost var entries := EntriesOf(anchors, unwrap);
      ghost var later := Harvest(pages, page + 1, unwrap);
      assert Harvest(pages, page, unwrap) == entries + later;
      AppendAssoc(done, entries, later);
      assert (done + entries) + later == Harvest(pages, 0, unwrap);
      var j;
      results, j := ReadAnchors(results, done, anchors, unwrap);
      EntriesOfPrefix(anchors, j, unwrap);
      if |results| >= MaxResults {
        TakeAtLimit(done, entries, j, later);
        assert results == Numbered(Take(Harvest(pages, 0, unwrap), MaxResults));
        return Results(results);
      }
      assert anchors[..j] == anchors;
      done := done + entries;
      page := page + 1;
    }
    assert Harvest(pages, page, unwrap) == [];
    assert done == Harvest(pages, 0, unwrap);
    return Results(results);
  }

  /** The body of the anchor loop: the title and the url of one anchor. */
  method ReadAnchor(a: Anchor, unwrap: string -> string) returns (title: string, url: string)
    ensures Entry(title, url) == EntryOf(a, unwrap)
  {
    title := Strip(a.text);
    url := Strip(a.href);
    if Contains(url, RedirectMarker) {
      url := unwrap(url);
    }
    if title == [] {
      title := url;
    }
  }

  /** The anchor loop: appends the numbered results of `anchors` to `results`
      until all are read or fifty results are reached. */
  method ReadAnchors(results: seq<SearchResult>, ghost done: seq<Entry>, anchors: seq<Anchor>, unwrap: string -> string)
    returns (out: seq<SearchResult>, taken: nat)
    requires results == Numbered(done) && |done| < MaxResults
    ensures taken <= |anchors|
    ensures out == Numbered(done + EntriesOf(anchors[..taken], unwrap))
    ensures |out| <= MaxResults
    ensures taken < |anchors| ==> |out| == MaxResults
  {
    out := results;
    taken := 0;
    assert done + EntriesOf(anchors[..0], unwrap) == done;
    while taken < |anchors|
      invariant taken <= |anchors|
      invariant out == Numbered(done + EntriesOf(anchors[..taken], unwrap))
      invariant |out| == |done| + taken <= MaxResults
      invariant taken < |anchors| ==> |done| + taken < MaxResults
    {
      var title, url := ReadAnchor(anchors[taken], unwrap);
      ghost var e := Entry(title, url);
      ghost var prefix := EntriesOf(anchors[..taken], unwrap);
      ghost var next := EntriesOf(anchors[..taken + 1], unwrap);
      EntriesOfSnoc(anchors, taken, unwrap);
      assert next == prefix + [e];
      AppendAssoc(done, prefix, [e]);
      assert done + next == (done + prefix) + [e];
      NumberedAppend(out, done + prefix, title, url);
      out := out + [SearchResult(|out| + 1, title, url)];
      taken := taken + 1;
      if |out| >= MaxResults {
        break;
      }
    }
  }

  lemma EntriesOfSnoc(anchors: seq<Anchor>, j: nat, unwrap: string -> string)
    requires j < |anchors|
    ensures EntriesOf(anchors[..j + 1], unwrap) == EntriesOf(anchors[..j], unwrap) + [EntryOf(anchors[j], unwrap)]
  {
    assert anchors[..j + 1][..j] == anchors[..j];
  }

  /** The entries of the first `j` anchors are the first `j` entries. */
  lemma {:induction false} EntriesOfPrefix(anchors: seq<Anchor>, j: nat, unwrap: string -> string)
    requires j <= |anchors|
    ensures EntriesOf(anchors[..j], unwrap) == EntriesOf(anchors, unwrap)[..j]
    decreases |anchors|
  {
    if j < |anchors| {
      var n := |anchors|;
      assert anchors[..n - 1][..j] == anchors[..j];
      EntriesOfPrefix(anchors[..n - 1], j, unwrap);
    } else {
      assert anchors[..j] == anchors;
    }
  }

  /** Cutting the harvest at the limit inside a page's entries. */
  lemma TakeAtLimit(done: seq<Entry>, entries: seq<Entry>, j: nat, later: seq<Entry>)
    requires j <= |entries| && |done| + j == MaxResults
    ensures Take(done + entries + later, MaxResults) == done + entries[..j]
  {
    assert (done + entries + later)[..MaxResults] == done + entries[..j];
  }

  /** Appending the next numbered result keeps the list numbered. */
  lemma NumberedAppend(results: seq<SearchResult>, es: seq<Entry>, title: string, url: string)
    requires results == Numbered(es)
    ensures results + [SearchResult(|results| + 1, title, url)] == Numbered(es + [Entry(title, url)])
  {
    NumberedSnoc(es, Entry(title, url));
  }

  lemma NumberedSnoc(es: seq<Entry>, e: Entry)
    ensures Numbered(es + [e]) == Numbered(es) + [SearchResult(|es| + 1, e.title, e.url)]
  {
    var l := Numbered(es + [e]);
    var r := Numbered(es) + [SearchResult(|es| + 1, e.title, e.url)];
    forall i | 0 <= i < |l|
      ensures l[i] == r[i]
    {
      if i < |es| { assert (es + [e])[i] == es[i]; }
    }
  }

  // ---------------------------------------------------------------------------
  // Properties of the harvest
  // ---------------------------------------------------------------------------

  /** No entry has an empty title unless its url is empty too. */
  predicate Titled(entries: seq<Entry>)
  {
    forall i :: 0 <= i < |entries| ==> (entries[i].title == [] ==> entries[i].url == [])
  }

  lemma {:induction false} EntriesOfTitled(anchors: seq<Anchor>, unwrap: string -> string)
    ensures Titled(EntriesOf(anchors, unwrap))
    decreases |anchors|
  {
    if anchors != [] {
      var n := |anchors|;
      EntriesOfTitled(anchors[..n - 1], unwrap);
      var es := EntriesOf(anchors, unwrap);
      var init := EntriesOf(anchors[..n - 1], unwrap);
      forall i | 0 <= i < |es|
        ensures es[i].title == [] ==> es[i].url == []
      {
        if i < n - 1 { assert es[i] == init[i]; }
      }
    }
  }

  lemma {:induction false} HarvestTitled(pages: seq<PageResponse>, page: nat, unwrap: string -> string)
    ensures Titled(Harvest(pages, page, unwrap))
    decreases MaxPages - page
  {
    if page < MaxPages && !Stops(PageAt(pages, page)) {
      var es := EntriesOf(AnchorsOf(PageAt(pages, page)), unwrap);
      var rest := Harvest(pages, page + 1, unwrap);
      EntriesOfTitled(AnchorsOf(PageAt(pages, page)), unwrap);
      HarvestTitled(pages, page + 1, unwrap);
      var h := es + rest;
      forall i | 0 <= i < |h|
        ensures h[i].title == [] ==> h[i].url == []
      {
        if i >= |es| { assert h[i] == rest[i - |es|]; }
      }
    }
  }

  /** What `scrape_duckduckgo` promises: an empty query gives no results
      without a request; the error is raised exactly when the query is
      non-empty and the first request fails; otherwise there are at most
      fifty results, ranked 1, 2, 3, ... in order, each titled unless its
      url is empty too, and they are the first fifty harvested entries. */
  lemma ExpectedFacts(query: string, pages: seq<PageResponse>, unwrap: string -> string)
    ensures query == [] ==> Expected(query, pages, unwrap) == Results([])
    ensures Expected(query, pages, unwrap) == FirstPageFailed <==>
      query != [] && PageAt(pages, 0).RequestFailed?
    ensures Expected(query, pages, unwrap).Results? ==>
      var rs := Expected(query, pages, unwrap).results;
      && |rs| <= MaxResults
      && (forall i :: 0 <= i < |rs| ==> rs[i].rank == i + 1)
      && (forall i :: 0 <= i < |rs| ==> (rs[i].title == [] ==> rs[i].url == []))
    ensures query != [] && !PageAt(pages, 0).RequestFailed? ==>
      var rs := Expected(query, pages, unwrap).results;
      var h := Harvest(pages, 0, unwrap);
      && |rs| == (if |h| < MaxResults then |h| else MaxResults)
      && forall i :: 0 <= i < |rs| ==> rs[i].title == h[i].title && rs[i].url == h[i].url
  {
    var h := Harvest(pages, 0, unwrap);
    HarvestTitled(pages, 0, unwrap);
    var t := Take(h, MaxResults);
    assert forall i :: 0 <= i < |t| ==> t[i] == h[i];
  }

  /** Pages after the first failed or empty one are never read: replacing
      everything from that page on changes nothing. */
  lemma {:induction false} LaterPagesIgnored(pages: seq<PageResponse>, stop: nat, page: nat, unwrap: string -> string)
    requires page <= stop < |pages| && Stops(pages[stop])
    ensures Harvest(pages, page, unwrap) == Harvest(pages[..stop], page, unwrap)
    decreases MaxPages - page
  {
    if page < MaxPages && page < stop {
      assert PageAt(pages, page) == PageAt(pages[..stop], page);
      LaterPagesIgnored(pages, stop, page + 1, unwrap);
    }
  }

  /** Only the first five pages are read. */
  lemma {:induction false} OnlyFivePages(pages: seq<PageResponse>, page: nat, unwrap: string -> string)
    requires MaxPages <= |pages|
    ensures Harvest(pages, page, unwrap) == Harvest(pages[..MaxPages], page, unwrap)
    decreases MaxPages - page
  {
    if page < MaxPages {
      assert PageAt(pages, page) == PageAt(pages[..MaxPages], page);
      OnlyFivePages(pages, page + 1, unwrap);
    }
  }
}
