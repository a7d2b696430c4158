/** The synchronous continuous scraper: a per-year page loop that stops
    after two consecutive empty pages while counting every request in a
    shared counter, and a session loop whose budget is that counter. */
module ScrapeContinuous {
  import opened Common
  import opened ScrapeAsync

  /** The page cap scrape_continuous passes to scrape_year (its default). */
  const MAX_PAGES: nat := 100

  // ---------------------------------------------------------------------
  // One page (scrape_single_page)
  // ---------------------------------------------------------------------

  /** scrape_single_page: an HTTP error status, a timeout or any other
      request error gives no articles. The footer block is looked up
      without a check, so a result without one raises and is dropped. */
  function SyncPage(resp: Response, pageNum: nat): (arts: seq<Article>)
    ensures resp.Response? && !(400 <= resp.status < 600) ==>
      arts == PageArticles(resp.results, pageNum, true)
    ensures !resp.Response? ==> arts == []
  {
    match resp
    case Response(status, results) =>
      if 400 <= status < 600 then [] else PageArticles(results, pageNum, true)
    case TimedOut => []
    case NetworkError => []
  }

  /** A kept article always comes from a result that had a footer, so no
      article is recorded with the 0 citations of a missing footer. */
  lemma StrictPageNeedsFooter(results: seq<RawResult>, pageNum: nat, a: Article)
    requires a in PageArticles(results, pageNum, true)
    ensures exists idx :: (0 <= idx < |results| && results[idx].footer.Some? &&
                            a == NumberResult(ResultFields(results[idx]), pageNum, idx))
  {
    var parsed := ParseAll(results, true);
    NumberedPositions(parsed, pageNum);
    var k :| 0 <= k < |Numbered(parsed, pageNum)| && Numbered(parsed, pageNum)[k] == a;
    assert FromSlot(a, parsed, pageNum);
    var idx := a.position.value - pageNum * RESULTS_PER_PAGE - 1;
    assert parsed[idx] == ParseResult(results[idx], true);
  }

  // ---------------------------------------------------------------------
  // The page loop (scrape_year)
  // ---------------------------------------------------------------------

  /** What the page loop produces: the collected articles and the number
      of pages it requested. */
  datatype YearCrawl = YearCrawl(articles: seq<Article>, attempted: nat)

  /** The page loop from `page` on, with `empty` consecutive empty pages
      seen so far: request the page; an empty page ends the loop if it is
      the second in a row, a non-empty one resets the run and is kept. */
  function CrawlFrom(pageAt: nat -> seq<Article>, maxPages: int, page: nat, empty: nat): YearCrawl
    decreases maxPages - page
  {
    if page >= maxPages then YearCrawl([], 0)
    else
      var arts := pageAt(page);
      if arts == [] then
        if empty + 1 >= 2 then YearCrawl([], 1)
        else
          var r := CrawlFrom(pageAt, maxPages, page + 1, empty + 1);
          YearCrawl(r.articles, r.attempted + 1)
      else
        var r := CrawlFrom(pageAt, maxPages, page + 1, 0);
        YearCrawl(arts + r.articles, r.attempted + 1)
  }

  /** The articles each 0-based page of a year's listing gives. */
  function YearListing(base: string, server: string -> Response): nat -> seq<Article> {
    (p: nat) => SyncPage(server(PageUrl(base, p)), p)
  }

  /** The listing of every year, from its first-page URL and its server. */
  function Listings(urlFor: int -> string, server: int -> (string -> Response)): int -> (nat -> seq<Article>) {
    y => YearListing(urlFor(y), server(y))
  }

  /** The pages `page .. page + n - 1`, in page order. */
  function PagesFrom(pageAt: nat -> seq<Article>, page: nat, n: nat): (ps: seq<seq<Article>>)
    ensures |ps| == n
    ensures forall k :: 0 <= k < n ==> ps[k] == pageAt(page + k)
    decreases n
  {
    if n == 0 then [] else [pageAt(page)] + PagesFrom(pageAt, page + 1, n - 1)
  }

  /** Concatenation from the front. */
  function Flat(xss: seq<seq<Article>>): seq<Article> {
    if xss == [] then [] else xss[0] + Flat(xss[1..])
  }

  /** The loop requests at most the pages left before `max_pages` (and at
      least one when any is left), and returns exactly the articles of the
      pages it requested, in page order: empty pages add nothing. */
  lemma {:induction false} CrawlPages(pageAt: nat -> seq<Article>, maxPages: int, page: nat, empty: nat)
    ensures var r := CrawlFrom(pageAt, maxPages, page, empty);
      && (page < maxPages ==> 1 <= r.attempted <= maxPages - page)
      && (page >= maxPages ==> r.attempted == 0)
      && r.articles == Flat(PagesFrom(pageAt, page, r.attempted))
    decreases maxPages - page
  {
    if page < maxPages {
      var arts := pageAt(page);
      if arts == [] && empty + 1 >= 2 {
        assert PagesFrom(pageAt, page, 1) == [arts];
        assert Flat([arts]) == arts + Flat([]);
      } else {
        var e := if arts == [] then empty + 1 else 0;
        CrawlPages(pageAt, maxPages, page + 1, e);
        var r := CrawlFrom(pageAt, maxPages, page + 1, e);
        var ps := PagesFrom(pageAt, page, r.attempted + 1);
        assert ps == [arts] + PagesFrom(pageAt, page + 1, r.attempted);
        assert ps[1..] == PagesFrom(pageAt, page + 1, r.attempted);
      }
    }
  }

  /** Two empty pages in a row are where the loop stops: no pair of
      consecutive empty pages occurs before the last page requested, and a
      loop that ends before `max_pages` ended on such a pair (or, coming in
      with one empty page already counted, on one more). */
  lemma {:induction false} CrawlStopsAtEmptyPair(pageAt: nat -> seq<Article>, maxPages: int,
                                                 page: nat, empty: nat)
    requires empty <= 1
    requires empty == 1 ==> page > 0 && pageAt(page - 1) == []
    ensures var r := CrawlFrom(pageAt, maxPages, page, empty);
      && (forall k :: page <= k && k + 2 < page + r.attempted ==>
            !(pageAt(k) == [] && pageAt(k + 1) == []))
      && (r.attempted > 0 && page + r.attempted < maxPages ==>
            pageAt(page + r.attempted - 1) == [] &&
            page + r.attempted >= 2 &&
            pageAt(page + r.attempted - 2) == [])
    decreases maxPages - page
  {
    if page < maxPages {
      var arts := pageAt(page);
      if !(arts == [] && empty + 1 >= 2) {
        var e := if arts == [] then empty + 1 else 0;
        CrawlStopsAtEmptyPair(pageAt, maxPages, page + 1, e);
      }
    }
  }

  /** `request_counter = {'count': 0}`, shared with every scrape_year call
      of a session. */
  class RequestCounter {
    var count: int

    constructor()
      ensures count == 0
    {
      count := 0;
    }
  }

  /** scrape_year: the page loop, adding one to the shared counter per
      page requested. */
  method ScrapeYear(base: string, counter: RequestCounter, maxPages: int, server: string -> Response)
    returns (yearArticles: seq<Article>)
    modifies counter
    ensures var r := CrawlFrom(YearListing(base, server), maxPages, 0, 0);
      yearArticles == r.articles && counter.count == old(counter.count) + r.attempted
  {
    yearArticles := PageLoop(YearListing(base, server), counter, maxPages);
  }

  /** The page loop of scrape_year, where `fetch(p)` is what the request
      for page p gives; each request adds one to the shared counter. */
  method PageLoop(fetch: nat -> seq<Article>, counter: RequestCounter, maxPages: int)
    returns (yearArticles: seq<Article>)
    modifies counter
    ensures var r := CrawlFrom(fetch, maxPages, 0, 0);
      yearArticles == r.articles && counter.count == old(counter.count) + r.attempted
  {
    yearArticles := [];
    var page: nat := 0;
    var consecutiveEmpty: nat := 0;
    ghost var attempted: nat := 0;
    while page < maxPages
      invariant consecutiveEmpty <= 1
      invariant counter.count == old(counter.count) + attempted
      invariant var r := CrawlFrom(fetch, maxPages, page, consecutiveEmpty);
        CrawlFrom(fetch, maxPages, 0, 0) == YearCrawl(yearArticles + r.articles, attempted + r.attempted)
      decreases maxPages - page
    {
      counter.count := counter.count + 1;
      attempted := attempted + 1;
      var stop;
      yearArticles, consecutiveEmpty, stop := CrawlPage(fetch, maxPages, page, consecutiveEmpty, yearArticles);
      if stop {
        break;
      }
      page := page + 1;
    }
    assert yearArticles + [] == yearArticles;
  }

  /** One round of the page loop: request page `page` and keep its
      articles, or stop on the second empty page in a row. */
  method CrawlPage(fetch: nat -> seq<Article>, maxPages: int, page: nat, empty: nat, done: seq<Article>)
    returns (done': seq<Article>, empty': nat, stop: bool)
    requires page < maxPages && empty <= 1
    ensures var r := CrawlFrom(fetch, maxPages, page, empty);
      stop ==> done' == done + r.articles && r.attempted == 1
    ensures !stop ==> (
      var r := CrawlFrom(fetch, maxPages, page, empty);
      var rest := CrawlFrom(fetch, maxPages, page + 1, empty');
      empty' <= 1 && done + r.articles == done' + rest.articles && r.attempted == rest.attempted + 1)
  {
    var pageArticles := fetch(page);
    CrawlAdvance(fetch, maxPages, page, empty, pageArticles);
    if pageArticles == [] && empty + 1 >= 2 {
      done', empty', stop := done, empty + 1, true;
      assert done + [] == done;
    } else if pageArticles == [] {
      done', empty', stop := done, empty + 1, false;
    } else {
      ghost var rest := CrawlFrom(fetch, maxPages, page + 1, 0).articles;
      assert done + (pageArticles + rest) == (done + pageArticles) + rest;
      done', empty', stop := done + pageArticles, 0, false;
    }
  }

  /** One step of the page loop, for the page's articles `arts`. */
  lemma CrawlAdvance(pageAt: nat -> seq<Article>, maxPages: int, page: nat, empty: nat, arts: seq<Article>)
    requires page < maxPages && arts == pageAt(page)
    ensures arts == [] && empty + 1 >= 2 ==> CrawlFrom(pageAt, maxPages, page, empty) == YearCrawl([], 1)
    ensures arts == [] && empty + 1 < 2 ==>
      var r := CrawlFrom(pageAt, maxPages, page + 1, empty + 1);
      CrawlFrom(pageAt, maxPages, page, empty) == YearCrawl(r.articles, r.attempted + 1)
    ensures arts != [] ==>
      var r := CrawlFrom(pageAt, maxPages, page + 1, 0);
      CrawlFrom(pageAt, maxPages, page, empty) == YearCrawl(arts + r.articles, r.attempted + 1)
  {
  }

  // ---------------------------------------------------------------------
  // The session loop (scrape_continuous)
  // ---------------------------------------------------------------------

  /** The page loop of each year, from its first page with no empty page
      seen, capped at MAX_PAGES pages. */
  function YearCrawls(listing: int -> (nat -> seq<Article>)): int -> YearCrawl {
    y => CrawlFrom(listing(y), MAX_PAGES, 0, 0)
  }

  /** How the call of scrape_year for a year goes, apart from its pages:
      it runs, raises an ordinary exception, or is interrupted. `Raises`
      stands for an exception raised before the year's first request: each
      page's fetch catches its own errors, and a raise after a request would
      already have charged that page to the counter, which the `Raises`
      branches here never do. */
  datatype Fault = Runs | Raises | Interrupts

  /** What a session has done so far: the crawl state, the shared counter,
      how many years returned and how many inter-year waits were taken. */
  datatype Tally = Tally(crawl: Crawl, requests: int, returned: nat, waits: nat)

  /** A year whose scrape runs: its pages are requested and counted, the
      year is recorded and saved, and a wait follows only while years
      remain and the counter is under the limit. */
  ghost function RunYear(t: Tally, y: int, limit: int, listing: int -> (nat -> seq<Article>)): Tally {
    var r := YearCrawls(listing)(y);
    var c := RecordYear(t.crawl, y, r.articles);
    var requests := t.requests + r.attempted;
    Tally(c, requests, t.returned + 1, if c.pending != [] && requests < limit then t.waits + 1 else t.waits)
  }

  /** The effect of one year that runs. */
  lemma RunYearFacts(t: Tally, y: int, limit: int, listing: int -> (nat -> seq<Article>))
    ensures var t' := RunYear(t, y, limit, listing);
      && t.requests + 1 <= t'.requests <= t.requests + MAX_PAGES
      && t'.returned == t.returned + 1
      && t'.crawl.pending == RemoveFirst(t.crawl.pending, y)
      && (t'.crawl.pending != [] && t'.requests < limit ==> t'.waits == t.waits + 1)
      && (t'.crawl.pending == [] || t'.requests >= limit ==> t'.waits == t.waits)
  {
    CrawlPages(listing(y), MAX_PAGES, 0, 0);
  }

  /** How a session ends. */
  datatype SyncEnd = SyncEnd(tally: Tally, interrupted: bool)

  /** One session over the worklist copy `years`: before each year, stop
      if the counter has reached the limit; a raising year is skipped; an
      interruption saves the final results and ends everything. */
  ghost function SyncSession(t: Tally, years: seq<int>, limit: int,
                             listing: int -> (nat -> seq<Article>), fault: int -> Fault): SyncEnd
    decreases |years|
  {
    if years == [] || t.requests >= limit then SyncEnd(t, false)
    else
      match fault(years[0])
      case Raises => SyncSession(t, years[1..], limit, listing, fault)
      case Interrupts => SyncEnd(t.(crawl := AfterSaveFinal(t.crawl)), true)
      case Runs => SyncSession(RunYear(t, years[0], limit, listing), years[1..], limit, listing, fault)
  }

  /** The budget is checked before each year, so a session that starts
      under the limit overshoots it by less than one year's page cap. */
  lemma {:induction false} SyncSessionBudget(t: Tally, years: seq<int>, limit: int,
                                             listing: int -> (nat -> seq<Article>), fault: int -> Fault)
    requires t.requests < limit
    ensures var e := SyncSession(t, years, limit, listing, fault);
      t.requests <= e.tally.requests < limit + MAX_PAGES
    decreases |years|
  {
    if years != [] {
      match fault(years[0])
      case Raises =>
        SyncSessionBudget(t, years[1..], limit, listing, fault);
      case Interrupts =>
      case Runs =>
        var t' := RunYear(t, years[0], limit, listing);
        RunYearFacts(t, years[0], limit, listing);
        if t'.requests < limit {
          SyncSessionBudget(t', years[1..], limit, listing, fault);
        }
    }
  }

  /** A year leaves the worklist only if its scrape ran, no year joins it,
      and a year whose scrape raises stays pending. */
  lemma {:induction false} SyncSessionWorklist(t: Tally, years: seq<int>, limit: int,
                                               listing: int -> (nat -> seq<Article>), fault: int -> Fault)
    ensures var e := SyncSession(t, years, limit, listing, fault);
      && (forall y :: y in e.tally.crawl.pending ==> y in t.crawl.pending)
      && (forall y :: y in t.crawl.pending && fault(y) == Raises ==> y in e.tally.crawl.pending)
      && (forall y :: y in t.crawl.pending && y !in e.tally.crawl.pending ==> y in years && fault(y) == Runs)
    decreases |years|
  {
    if years != [] && t.requests < limit {
      match fault(years[0])
      case Raises =>
        SyncSessionWorklist(t, years[1..], limit, listing, fault);
        assert forall z :: z in years[1..] ==> z in years;
      case Interrupts =>
      case Runs =>
        var t' := RunYear(t, years[0], limit, listing);
        RunYearFacts(t, years[0], limit, listing);
        SyncSessionWorklist(t', years[1..], limit, listing, fault);
        assert forall z :: z in years[1..] ==> z in years;
    }
  }

  /** The wait between years is taken only after a year that ran, never
      after the last year of the worklist, and never once the counter has
      reached the limit: a session that ends with the worklist empty or the
      budget spent took fewer waits than years it completed. */
  lemma {:induction false} SyncSessionWaits(t: Tally, years: seq<int>, limit: int,
                                            listing: int -> (nat -> seq<Article>), fault: int -> Fault)
    ensures var e := SyncSession(t, years, limit, listing, fault).tally;
      && e.returned >= t.returned && e.waits >= t.waits
      && e.waits - t.waits <= e.returned - t.returned
      && (e.returned == t.returned ==> e.waits == t.waits)
      && (!SyncSession(t, years, limit, listing, fault).interrupted && e.returned > t.returned &&
          (e.crawl.pending == [] || e.requests >= limit) ==>
            e.waits - t.waits < e.returned - t.returned)
    decreases |years|
  {
    if years != [] && t.requests < limit {
      match fault(years[0])
      case Raises =>
        SyncSessionWaits(t, years[1..], limit, listing, fault);
      case Interrupts =>
      case Runs =>
        var t' := RunYear(t, years[0], limit, listing);
        RunYearFacts(t, years[0], limit, listing);
        SyncSessionWaits(t', years[1..], limit, listing, fault);
        SyncSessionIdle(t', years[1..], limit, listing, fault);
    }
  }

  /** A session that completes no year changes neither the state nor the
      counter. */
  lemma {:induction false} SyncSessionIdle(t: Tally, years: seq<int>, limit: int,
                                           listing: int -> (nat -> seq<Article>), fault: int -> Fault)
    ensures var e := SyncSession(t, years, limit, listing, fault);
      e.tally.returned == t.returned && !e.interrupted ==> e.tally == t
    decreases |years|
  {
    if years != [] && t.requests < limit {
      match fault(years[0])
      case Raises =>
        SyncSessionIdle(t, years[1..], limit, listing, fault);
      case Interrupts =>
      case Runs =>
        var t' := RunYear(t, years[0], limit, listing);
        RunYearFacts(t, years[0], limit, listing);
        SyncSessionWaits(t', years[1..], limit, listing, fault);
    }
  }

  /** The body of the session loop for a year whose scrape runs. */
  method RunYearOn(cr: Crawler, counter: RequestCounter, year: int, limit: int, urlFor: int -> string,
                   server: int -> (string -> Response), ghost returned: nat, ghost waits: nat)
    returns (ghost returned': nat, ghost waits': nat)
    modifies cr, counter
    ensures Tally(cr.State(), counter.count, returned', waits') ==
      RunYear(Tally(old(cr.State()), old(counter.count), returned, waits), year, limit, Listings(urlFor, server))
  {
    var articles := ScrapeYear(urlFor(year), counter, MAX_PAGES, server(year));
    cr.Record(year, articles);
    returned' := returned + 1;
    waits' := waits;
    if cr.pending != [] && counter.count < limit {
      waits' := waits + 1;
    }
    assert Listings(urlFor, server)(year) == YearListing(urlFor(year), server(year));
  }

  /** One session of scrape_continuous on the crawler's state. */
  method Session(cr: Crawler, limit: int, urlFor: int -> string,
                 server: int -> (string -> Response), fault: int -> Fault)
    returns (requests: int, interrupted: bool, ghost returned: nat, ghost waits: nat)
    modifies cr
    ensures SyncSession(Tally(old(cr.State()), 0, 0, 0), old(cr.pending), limit, Listings(urlFor, server), fault) ==
      SyncEnd(Tally(cr.State(), requests, returned, waits), interrupted)
  {
    var counter := new RequestCounter();
    interrupted := false;
    returned, waits := 0, 0;
    var years := cr.pending;
    var i := 0;
    while i < |years|
      invariant 0 <= i <= |years|
      invariant SyncSession(Tally(old(cr.State()), 0, 0, 0), years, limit, Listings(urlFor, server), fault) ==
        SyncSession(Tally(cr.State(), counter.count, returned, waits), years[i..], limit,
                    Listings(urlFor, server), fault)
    {
      if counter.count >= limit {
        break;
      }
      var year := years[i];
      assert years[i..][0] == year && years[i..][1..] == years[i + 1..];
      match fault(year) {
        case Runs =>
          returned, waits := RunYearOn(cr, counter, year, limit, urlFor, server, returned, waits);
        case Raises =>
        case Interrupts =>
          cr.SaveFinal();
          requests := counter.count;
          interrupted := true;
          return;
      }
      i := i + 1;
    }
    requests := counter.count;
  }

  // ---------------------------------------------------------------------
  // The crawl across sessions (scrape_continuous)
  // ---------------------------------------------------------------------

  /** The `while years_to_scrape` loop, for at most `fuel` sessions. Each
      session gets a fresh counter and works through a copy of the
      worklist; the server and the faults may differ from one session to
      the next. An interruption ends the crawl; an empty worklist after a
      session saves the final results. */
  ghost function SyncContinuous(c: Crawl, session: nat, fuel: nat, limit: int, urlFor: int -> string,
                                server: nat -> int -> (string -> Response), fault: (nat, int) -> Fault): (Crawl, Stop)
    decreases fuel
  {
    if c.pending == [] then (c, AllDone)
    else if fuel == 0 then (c, SessionsUsed)
    else
      var e := SyncSession(Tally(c, 0, 0, 0), c.pending, limit, Listings(urlFor, server(session)),
                           y => fault(session, y));
      if e.interrupted then (e.tally.crawl, Stopped)
      else if e.tally.crawl.pending == [] then (AfterSaveFinal(e.tally.crawl), AllDone)
      else SyncContinuous(e.tally.crawl, session + 1, fuel - 1, limit, urlFor, server, fault)
  }

  /** The worklist only shrinks; a year that raises in every session is
      never dropped, so the crawl cannot finish; a crawl that finishes
      with work done has written the complete dataset (when it holds any
      article) and removed the progress file. */
  lemma {:induction false} SyncContinuousWorklist(c: Crawl, session: nat, fuel: nat, limit: int,
                                                  urlFor: int -> string,
                                                  server: nat -> int -> (string -> Response),
                                                  fault: (nat, int) -> Fault)
    ensures var (r, stop) := SyncContinuous(c, session, fuel, limit, urlFor, server, fault);
      && (forall y :: y in r.pending ==> y in c.pending)
      && (forall y :: y in c.pending && (forall s: nat :: s >= session ==> fault(s, y) == Raises) ==>
            y in r.pending && stop != AllDone)
      && (stop == AllDone ==> r.pending == [])
      && (stop == AllDone && c.pending != [] && Flatten(r.byYear) != [] ==>
            r.final == Some(Flatten(r.byYear)) && r.progress == None)
    decreases fuel
  {
    if c.pending != [] && fuel > 0 {
      var f := y => fault(session, y);
      var t := Tally(c, 0, 0, 0);
      var e := SyncSession(t, c.pending, limit, Listings(urlFor, server(session)), f);
      SyncSessionWorklist(t, c.pending, limit, Listings(urlFor, server(session)), f);
      if !e.interrupted && e.tally.crawl.pending != [] {
        SyncContinuousWorklist(e.tally.crawl, session + 1, fuel - 1, limit, urlFor, server, fault);
      }
    }
  }

  /** The session loop of scrape_continuous, for at most `maxSessions`
      sessions; the break of `break_hours` between sessions is left out. */
  method Run(cr: Crawler, maxSessions: nat, limit: int, urlFor: int -> string,
             server: nat -> int -> (string -> Response), fault: (nat, int) -> Fault)
    returns (stop: Stop)
    modifies cr
    ensures (cr.State(), stop) == SyncContinuous(old(cr.State()), 1, maxSessions, limit, urlFor, server, fault)
  {
    var session: nat := 1;
    var fuel := maxSessions;
    while cr.pending != []
      invariant session + fuel == 1 + maxSessions
      invariant SyncContinuous(old(cr.State()), 1, maxSessions, limit, urlFor, server, fault) ==
        SyncContinuous(cr.State(), session, fuel, limit, urlFor, server, fault)
      decreases fuel
    {
      if fuel == 0 {
        return SessionsUsed;
      }
      var requests, interrupted, returned, waits := Session(cr, limit, urlFor, server(session), y => fault(session, y));
      if interrupted {
        return Stopped;
      }
      if cr.pending == [] {
        cr.SaveFinal();
        return AllDone;
      }
      session := session + 1;
      fuel := fuel - 1;
    }
    return AllDone;
  }

  /** scrape_continuous: resume from the progress file, then run the
      sessions. */
  method Continue(startYear: int, endYear: int, saved: Option<Progress>, maxSessions: nat, limit: int,
                  urlFor: int -> string, server: nat -> int -> (string -> Response),
                  fault: (nat, int) -> Fault)
    returns (cr: Crawler, stop: Stop)
    ensures (cr.State(), stop) ==
      SyncContinuous(Resumed(startYear, endYear, saved), 1, maxSessions, limit, urlFor, server, fault)
  {
    cr := new Crawler.Resume(startYear, endYear, saved);
    stop := Run(cr, maxSessions, limit, urlFor, server, fault);
  }
}
