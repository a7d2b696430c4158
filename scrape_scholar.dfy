/** The single-query scraper: a page loop over one search URL that stops at
    the page cap, at an optional article cap checked between pages, or at
    the first empty page; and a shorter loop that also stops at the first
    request error. */
module ScrapeScholar {
  import opened Common
  import opened ScrapeAsync
  import opened ScrapeContinuous

  /** Google Scholar's page limit, hard-coded in get_all_articles. */
  const SCHOLAR_MAX_PAGES: nat := 100

  // ---------------------------------------------------------------------
  // Page URLs
  // ---------------------------------------------------------------------

  /** URL of 0-based page `page`: the query itself for page 0; otherwise
      `start=` and the offset, joined with `&` when the query already has a
      `?` and with `?` when it has none. */
  function ScholarUrl(query: string, page: nat): string {
    if page == 0 then query
    else
      var separator := if '?' in query then "&" else "?";
      query + separator + "start=" + NatToString(page * RESULTS_PER_PAGE)
  }

  /** Every page after the first carries a query string, its offset reads
      back as ten times the page number, and different pages get different
      URLs. */
  lemma ScholarUrlShape(query: string, page: nat)
    requires page > 0
    ensures '?' in ScholarUrl(query, page)
    ensures var prefix := query + (if '?' in query then "&" else "?") + "start=";
      StartsWith(ScholarUrl(query, page), prefix) &&
      PyInt(ScholarUrl(query, page)[|prefix|..]) == Some(page * RESULTS_PER_PAGE)
  {
    var separator := if '?' in query then "&" else "?";
    var prefix := query + separator + "start=";
    var s := NatToString(page * RESULTS_PER_PAGE);
    assert ScholarUrl(query, page) == prefix + s;
    assert (prefix + s)[|prefix|..] == s;
    assert (prefix + s)[..|prefix|] == prefix;
    if '?' !in query {
      assert (prefix + s)[|query|] == '?';
    }
    PyIntOfNat(page * RESULTS_PER_PAGE);
  }

  lemma ScholarUrlsDistinct(query: string, p: nat, q: nat)
    requires p != q
    ensures ScholarUrl(query, p) != ScholarUrl(query, q)
  {
    if p > 0 && q > 0 {
      if ScholarUrl(query, p) == ScholarUrl(query, q) {
        var prefix := query + (if '?' in query then "&" else "?") + "start=";
        var sp := NatToString(p * RESULTS_PER_PAGE);
        var sq := NatToString(q * RESULTS_PER_PAGE);
        assert prefix + sp == prefix + sq;
        assert sp == (prefix + sp)[|prefix|..];
        assert sq == (prefix + sq)[|prefix|..];
        NatToStringInjective(p * RESULTS_PER_PAGE, q * RESULTS_PER_PAGE);
      }
    } else {
      assert |ScholarUrl(query, p)| != |ScholarUrl(query, q)|;
    }
  }

  // ---------------------------------------------------------------------
  // get_all_articles
  // ---------------------------------------------------------------------

  /** What a page loop produced: the articles and the pages requested. */
  datatype Collected = Collected(articles: seq<Article>, requested: nat)

  /** `max_articles and len(all_articles) >= max_articles`: the cap applies
      only when it is truthy, so neither None nor 0 caps anything. */
  predicate Capped(cap: Option<int>, have: int) {
    cap.Some? && cap.value != 0 && have >= cap.value
  }

  /** The loop of get_all_articles from `page` on, with `have` articles
      already collected and page limit `maxPages`: stop at the page limit,
      or when the cap is reached; otherwise request the page, stop if it is
      empty, and keep it. */
  function CollectFrom(pageAt: nat -> seq<Article>, cap: Option<int>, maxPages: int, page: nat, have: int): Collected
    decreases maxPages - page
  {
    if page >= maxPages || Capped(cap, have) then Collected([], 0)
    else
      var arts := pageAt(page);
      if arts == [] then Collected([], 1)
      else
        var r := CollectFrom(pageAt, cap, maxPages, page + 1, have + |arts|);
        Collected(arts + r.articles, r.requested + 1)
  }

  /** The loop requests no page past the limit, returns the requested
      pages' articles in page order, and stops at the first empty page:
      every page before the last one requested had articles. */
  lemma {:induction false} CollectPages(pageAt: nat -> seq<Article>, cap: Option<int>, maxPages: int, page: nat, have: int)
    ensures var r := CollectFrom(pageAt, cap, maxPages, page, have);
      && page + r.requested <= Max(page, maxPages)
      && r.articles == Flat(PagesFrom(pageAt, page, r.requested))
      && (forall k :: page <= k < page + r.requested - 1 ==> pageAt(k) != [])
    decreases maxPages - page
  {
    if page < maxPages && !Capped(cap, have) {
      var arts := pageAt(page);
      if arts == [] {
        assert PagesFrom(pageAt, page, 1) == [arts];
        assert Flat([arts]) == arts + Flat([]);
      } else {
        CollectPages(pageAt, cap, maxPages, page + 1, have + |arts|);
        var r := CollectFrom(pageAt, cap, maxPages, page + 1, have + |arts|);
        var ps := PagesFrom(pageAt, page, r.requested + 1);
        assert ps == [arts] + PagesFrom(pageAt, page + 1, r.requested);
        assert ps[1..] == PagesFrom(pageAt, page + 1, r.requested);
      }
    }
  }

  /** A loop that stops before the page limit without having reached the
      cap stopped on an empty page. */
  lemma {:induction false} CollectStopsOnEmpty(pageAt: nat -> seq<Article>, cap: Option<int>, maxPages: int, page: nat, have: int)
    ensures var r := CollectFrom(pageAt, cap, maxPages, page, have);
      r.requested > 0 && page + r.requested < maxPages && !Capped(cap, have + |r.articles|) ==>
        pageAt(page + r.requested - 1) == []
    decreases maxPages - page
  {
    if page < maxPages && !Capped(cap, have) && pageAt(page) != [] {
      var arts := pageAt(page);
      CollectStopsOnEmpty(pageAt, cap, maxPages, page + 1, have + |arts|);
      var r := CollectFrom(pageAt, cap, maxPages, page + 1, have + |arts|);
      assert CollectFrom(pageAt, cap, maxPages, page, have) == Collected(arts + r.articles, r.requested + 1);
      if r.requested == 0 && page + 1 < maxPages {
        assert Capped(cap, have + |arts|);
      }
    }
  }

  /** The cap is only checked between pages: the articles collected before
      the last page requested are still under it, so the last page may take
      the total past the cap by at most one page. */
  lemma {:induction false} CollectUnderCap(pageAt: nat -> seq<Article>, cap: Option<int>, maxPages: int, page: nat, have: int)
    requires cap.Some? && cap.value != 0
    ensures var r := CollectFrom(pageAt, cap, maxPages, page, have);
      r.requested > 0 ==> have + |Flat(PagesFrom(pageAt, page, r.requested - 1))| < cap.value
    decreases maxPages - page
  {
    if page < maxPages && !Capped(cap, have) {
      var arts := pageAt(page);
      if arts != [] {
        CollectUnderCap(pageAt, cap, maxPages, page + 1, have + |arts|);
        var r := CollectFrom(pageAt, cap, maxPages, page + 1, have + |arts|);
        if r.requested > 0 {
          var ps := PagesFrom(pageAt, page, r.requested);
          assert ps[1..] == PagesFrom(pageAt, page + 1, r.requested - 1);
          assert Flat(ps) == arts + Flat(ps[1..]);
        }
      }
    }
  }

  /** One round of the loop that keeps a page, with `done` collected
      before it. */
  lemma CollectStep(pageAt: nat -> seq<Article>, cap: Option<int>, maxPages: int, page: nat, done: seq<Article>)
    requires page < maxPages && !Capped(cap, |done|) && pageAt(page) != []
    ensures var r := CollectFrom(pageAt, cap, maxPages, page, |done|);
      var rest := CollectFrom(pageAt, cap, maxPages, page + 1, |done + pageAt(page)|);
      done + r.articles == (done + pageAt(page)) + rest.articles && r.requested == rest.requested + 1
  {
  }

  /** The articles each 0-based page of the query gives. */
  function QueryListing(query: string, server: string -> Response): nat -> seq<Article> {
    (p: nat) => SyncPage(server(ScholarUrl(query, p)), p)
  }

  /** get_all_articles(query_url, max_articles), with its page limit of 100. */
  method GetAllArticles(query: string, maxArticles: Option<int>, server: string -> Response)
    returns (allArticles: seq<Article>, ghost requested: nat)
    ensures CollectFrom(QueryListing(query, server), maxArticles, SCHOLAR_MAX_PAGES, 0, 0) ==
      Collected(allArticles, requested)
  {
    allArticles, requested := CollectPagesUpTo(QueryListing(query, server), maxArticles, SCHOLAR_MAX_PAGES);
  }

  /** The loop of get_all_articles for a page limit `maxPages`, where
      `scrapePage(p)` is what scrape_single_page gives for page p. */
  method CollectPagesUpTo(scrapePage: nat -> seq<Article>, maxArticles: Option<int>, maxPages: nat)
    returns (allArticles: seq<Article>, ghost requested: nat)
    ensures CollectFrom(scrapePage, maxArticles, maxPages, 0, 0) == Collected(allArticles, requested)
  {
    allArticles := [];
    requested := 0;
    var page: nat := 0;
    while true
      invariant var r := CollectFrom(scrapePage, maxArticles, maxPages, page, |allArticles|);
        CollectFrom(scrapePage, maxArticles, maxPages, 0, 0) ==
          Collected(allArticles + r.articles, requested + r.requested)
      decreases maxPages - page
    {
      if page >= maxPages {
        break;
      }
      if maxArticles.Some? && maxArticles.value != 0 && |allArticles| >= maxArticles.value {
        break;
      }
      var pageArticles := scrapePage(page);
      requested := requested + 1;
      if pageArticles == [] {
        break;
      }
      CollectStep(scrapePage, maxArticles, maxPages, page, allArticles);
      allArticles := allArticles + pageArticles;
      page := page + 1;
    }
  }

  // ---------------------------------------------------------------------
  // scrape_google_scholar
  // ---------------------------------------------------------------------

  /** What scrape_google_scholar produced: the articles, the pages
      requested, and the waits taken between pages. */
  datatype Gathered = Gathered(articles: seq<Article>, requested: nat, waits: nat)

  /** A request that raised: an error status (raise_for_status), a timeout
      or a network error. */
  predicate RequestFailed(resp: Response) {
    !resp.Response? || 400 <= resp.status < 600
  }

  /** A page that ends the loop: the request failed or the page holds no
      result entry at all. */
  predicate EndsLoop(resp: Response) {
    RequestFailed(resp) || resp.results == []
  }

  /** The response to each 0-based page of the query. */
  function QueryResponses(query: string, server: string -> Response): nat -> Response {
    (p: nat) => server(ScholarUrl(query, p))
  }

  /** The articles a response gives: its parsable results, each of which
      needs the footer block. */
  function Kept(resp: Response, page: nat): seq<Article> {
    if resp.Response? then PageArticles(resp.results, page, true) else []
  }

  /** The articles each 0-based page gives when it is kept. */
  function KeptFrom(respAt: nat -> Response): nat -> seq<Article> {
    (p: nat) => Kept(respAt(p), p)
  }

  /** The loop `for page in range(max_pages)` from `page` on: a failed
      request or a page without any result entry ends the loop; otherwise
      the parsed results are kept (entries that fail to parse are dropped,
      so a page can add nothing and the loop still goes on), and a wait
      follows unless it was the last page of the range. */
  function GoogleFrom(respAt: nat -> Response, keptAt: nat -> seq<Article>, maxPages: int, page: nat): Gathered
    decreases maxPages - page
  {
    if page >= maxPages then Gathered([], 0, 0)
    else
      if EndsLoop(respAt(page)) then Gathered([], 1, 0)
      else
        var r := GoogleFrom(respAt, keptAt, maxPages, page + 1);
        Gathered(keptAt(page) + r.articles, r.requested + 1,
                 if page < maxPages - 1 then r.waits + 1 else r.waits)
  }

  /** At most `max_pages` pages are requested, and a wait separates each
      page from the next: none follows the last page requested. */
  lemma {:induction false} GoogleWaits(respAt: nat -> Response, keptAt: nat -> seq<Article>, maxPages: int, page: nat)
    ensures var r := GoogleFrom(respAt, keptAt, maxPages, page);
      page + r.requested <= Max(page, maxPages) && r.waits == Max(r.requested - 1, 0)
    decreases maxPages - page
  {
    if page < maxPages && !EndsLoop(respAt(page)) {
      GoogleWaits(respAt, keptAt, maxPages, page + 1);
    }
  }

  /** Every page before the last one requested answered with results. */
  lemma {:induction false} GoogleAnswered(respAt: nat -> Response, keptAt: nat -> seq<Article>, maxPages: int, page: nat)
    ensures var r := GoogleFrom(respAt, keptAt, maxPages, page);
      forall k: nat :: page <= k < page + r.requested - 1 ==> !EndsLoop(respAt(k))
    decreases maxPages - page
  {
    if page < maxPages && !EndsLoop(respAt(page)) {
      GoogleAnswered(respAt, keptAt, maxPages, page + 1);
    }
  }

  /** A loop that stops before `max_pages` stopped on a failed or empty
      page. */
  lemma {:induction false} GoogleStops(respAt: nat -> Response, keptAt: nat -> seq<Article>, maxPages: int, page: nat)
    ensures var r := GoogleFrom(respAt, keptAt, maxPages, page);
      r.requested > 0 && page + r.requested < maxPages ==> EndsLoop(respAt(page + r.requested - 1))
    decreases maxPages - page
  {
    if page < maxPages && !EndsLoop(respAt(page)) {
      GoogleStops(respAt, keptAt, maxPages, page + 1);
      var r := GoogleFrom(respAt, keptAt, maxPages, page + 1);
      assert GoogleFrom(respAt, keptAt, maxPages, page).requested == r.requested + 1;
      if r.requested > 0 && page + 1 + r.requested < maxPages {
        var last: nat := page + 1 + r.requested - 1;
        assert EndsLoop(respAt(last));
        assert last == page + (r.requested + 1) - 1;
      }
    }
  }

  /** `a` is the numbering of result `idx` of page `p`, a result that had
      its footer block. */
  predicate FromResult(a: Article, resp: Response, p: nat, idx: int) {
    resp.Response? && 0 <= idx < |resp.results| && resp.results[idx].footer.Some? &&
    a == NumberResult(ResultFields(resp.results[idx]), p, idx)
  }

  /** Every kept article is the numbering of a result with a footer on a
      page of the range: page p + 1 and position 10·p + idx + 1. */
  lemma {:induction false} GoogleNumbering(query: string, server: string -> Response, maxPages: int, page: nat, a: Article)
    requires a in GoogleFrom(QueryResponses(query, server), KeptFrom(QueryResponses(query, server)), maxPages, page).articles
    ensures exists p: nat, idx :: page <= p < maxPages && FromResult(a, server(ScholarUrl(query, p)), p, idx)
    decreases maxPages - page
  {
    var respAt := QueryResponses(query, server);
    var keptAt := KeptFrom(respAt);
    GoogleFromSplit(respAt, keptAt, maxPages, page, a);
    var resp := server(ScholarUrl(query, page));
    assert respAt(page) == resp;
    assert keptAt(page) == Kept(resp, page);
    if a in keptAt(page) {
      StrictPageNeedsFooter(resp.results, page, a);
      var idx :| 0 <= idx < |resp.results| && resp.results[idx].footer.Some? &&
        a == NumberResult(ResultFields(resp.results[idx]), page, idx);
      assert FromResult(a, resp, page, idx);
    } else {
      GoogleNumbering(query, server, maxPages, page + 1, a);
    }
  }

  /** A kept article comes from the page the loop is on or from a later one. */
  lemma GoogleFromSplit(respAt: nat -> Response, keptAt: nat -> seq<Article>, maxPages: int, page: nat, a: Article)
    requires a in GoogleFrom(respAt, keptAt, maxPages, page).articles
    ensures page < maxPages && !EndsLoop(respAt(page))
    ensures a in keptAt(page) || a in GoogleFrom(respAt, keptAt, maxPages, page + 1).articles
  {
  }

  /** One round of the loop that keeps a page, with `done` collected
      before it. */
  lemma GoogleStep(respAt: nat -> Response, keptAt: nat -> seq<Article>, maxPages: int, page: nat, done: seq<Article>)
    requires page < maxPages && !EndsLoop(respAt(page))
    ensures var r := GoogleFrom(respAt, keptAt, maxPages, page);
      var rest := GoogleFrom(respAt, keptAt, maxPages, page + 1);
      && done + r.articles == (done + keptAt(page)) + rest.articles
      && r.requested == rest.requested + 1
      && r.waits == rest.waits + (if page < maxPages - 1 then 1 else 0)
  {
  }

  /** scrape_google_scholar(query_url, max_pages) */
  method ScrapeGoogleScholar(query: string, maxPages: int, server: string -> Response)
    returns (articles: seq<Article>, ghost requested: nat, ghost waits: nat)
    ensures GoogleFrom(QueryResponses(query, server), KeptFrom(QueryResponses(query, server)), maxPages, 0) ==
      Gathered(articles, requested, waits)
  {
    articles, requested, waits := GooglePageLoop(QueryResponses(query, server), maxPages);
  }

  /** The page loop of scrape_google_scholar, where `fetch(p)` is the
      response to the request for page p. */
  method GooglePageLoop(fetch: nat -> Response, maxPages: int)
    returns (articles: seq<Article>, ghost requested: nat, ghost waits: nat)
    ensures GoogleFrom(fetch, KeptFrom(fetch), maxPages, 0) == Gathered(articles, requested, waits)
  {
    articles := [];
    requested, waits := 0, 0;
    var page: nat := 0;
    while page < maxPages
      invariant var r := GoogleFrom(fetch, KeptFrom(fetch), maxPages, page);
        GoogleFrom(fetch, KeptFrom(fetch), maxPages, 0) ==
          Gathered(articles + r.articles, requested + r.requested, waits + r.waits)
      decreases maxPages - page
    {
      var resp := fetch(page);
      requested := requested + 1;
      if EndsLoop(resp) {
        break;
      }
      var pageArticles := Kept(resp, page);
      assert pageArticles == KeptFrom(fetch)(page);
      GoogleStep(fetch, KeptFrom(fetch), maxPages, page, articles);
      articles := articles + pageArticles;
      if page < maxPages - 1 {
        waits := waits + 1;
      }
      page := page + 1;
    }
  }

  // ---------------------------------------------------------------------
  // save_results
  // ---------------------------------------------------------------------

  /** save_results: nothing is written and None returned for an empty
      list; otherwise the articles are written and returned as the table. */
  function SaveResults(articles: seq<Article>): (table: Option<seq<Article>>)
    ensures table.None? <==> articles == []
    ensures table.Some? ==> table.value == articles
  {
    if articles == [] then None else Some(articles)
  }
}
