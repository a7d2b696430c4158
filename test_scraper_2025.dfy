/** test/test_scraper_2025.py: the trial run that collects the last ten
    result pages of one year. It detects the total, caps the page count,
    picks the window of the last ten 1-based pages and scrapes them in
    order. The HTTP layer is an oracle from URL to response, the total probe
    is the text its regular expressions captured, and the random delay is a
    drawn value passed in. */
module TestScraper2025 {
  import opened Common
  import opened ScrapeAsync
  import UpdateCurrentYear

  /** Number of trailing pages the trial collects. */
  const WINDOW: nat := 10
  const TEST_DELAY_MIN: nat := 30
  const TEST_DELAY_MAX: nat := 50

  // ---------------------------------------------------------------------
  // Total and page count
  // ---------------------------------------------------------------------

  /** get_total_results: 429 and every other status than 200 give None, as
      do a timeout and any other request error; otherwise the "Page X of Y
      results" group, failing that the "About X results" group with commas
      removed, read with int(). */
  function TestTotal(p: UpdateCurrentYear.TotalProbe): (t: Option<int>)
    ensures t.Some? ==> p.Probe? && p.status == 200
    ensures p.Probe? && p.status == 200 && p.pageGroup.Some? && AllDigits(p.pageGroup.value) ==>
      t == Some(DigitsValue(p.pageGroup.value))
  {
    match p
    case ProbeFailed => None
    case Probe(status, pageGroup, aboutGroup) =>
      if status != 200 then None
      else
        if pageGroup.Some? && AllDigits(pageGroup.value) then
          TotalFromPageGroup(pageGroup.value);
          TotalFromCaptures(pageGroup, aboutGroup)
        else TotalFromCaptures(pageGroup, aboutGroup)
  }

  /** `if not total_results`: None and 0 both abort the run. */
  predicate Detected(total: Option<int>) {
    total.Some? && total.value != 0
  }

  /** `min((total_results + 9) // 10, 100)`. For a positive total this is
      the number of 10-result pages needed to hold it, unless that exceeds
      the engine's 100-page limit. */
  function TotalPages(total: int): (tp: int)
    ensures tp <= PAGE_CAP
    ensures total > 0 ==> 1 <= tp
    ensures total > 0 && tp < PAGE_CAP ==>
      (tp - 1) * RESULTS_PER_PAGE < total <= tp * RESULTS_PER_PAGE
    ensures total > 0 && tp == PAGE_CAP ==> total > (PAGE_CAP - 1) * RESULTS_PER_PAGE
  {
    // Python's floor division and Dafny's division agree for the positive divisor 10.
    Min((total + 9) / 10, PAGE_CAP)
  }

  // ---------------------------------------------------------------------
  // The last-ten-page window
  // ---------------------------------------------------------------------

  /** `list(range(lo, hi))`. */
  function Range(lo: int, hi: int): (r: seq<int>)
    ensures |r| == Max(hi - lo, 0)
    ensures forall i :: 0 <= i < |r| ==> r[i] == lo + i
    decreases hi - lo
  {
    if lo >= hi then [] else [lo] + Range(lo + 1, hi)
  }

  /** The pages to scrape: all of 1 .. total_pages when there are at most
      ten, else the last ten, total_pages - 9 .. total_pages. Either way the
      window is min(10, total_pages) consecutive 1-based pages ending at
      total_pages. */
  function Window(tp: int): (w: seq<int>)
    ensures |w| == Max(Min(WINDOW, tp), 0)
    ensures forall i :: 0 <= i < |w| ==> w[i] == w[0] + i
    ensures forall i :: 0 <= i < |w| ==> 1 <= w[i] <= tp
    ensures tp >= 1 ==> w[|w| - 1] == tp
    ensures 1 <= tp <= WINDOW ==> w[0] == 1
  {
    if tp <= WINDOW then Range(1, tp + 1) else Range(tp - 9, tp + 1)
  }

  // ---------------------------------------------------------------------
  // Page URLs
  // ---------------------------------------------------------------------

  /** URL of 1-based page `k`: the result offset is 10(k - 1); offset 0 is
      the base URL, any other offset appends `&start=`. */
  function OffsetUrl(base: string, k: int): string
    requires k >= 1
  {
    var start := (k - 1) * RESULTS_PER_PAGE;
    if start == 0 then base else base + "&start=" + NatToString(start)
  }

  /** Page k of this scraper is page k - 1 of the 0-based scrapers: the
      first page is the base URL, later pages carry the offset 10(k - 1),
      which reads back as a number, and different pages get different URLs. */
  lemma OffsetUrls(base: string, j: int, k: int)
    requires j >= 1 && k >= 1
    ensures OffsetUrl(base, k) == PageUrl(base, k - 1)
    ensures k == 1 ==> OffsetUrl(base, k) == base
    ensures k > 1 ==>
      var prefix := base + "&start=";
      StartsWith(OffsetUrl(base, k), prefix) &&
      PyInt(OffsetUrl(base, k)[|prefix|..]) == Some((k - 1) * RESULTS_PER_PAGE)
    ensures j != k ==> OffsetUrl(base, j) != OffsetUrl(base, k)
  {
    OffsetIsPageUrl(base, k);
    if k > 1 {
      PageUrlOffset(base, k - 1);
    }
    if j != k {
      OffsetUrlsDistinct(base, j, k);
    }
  }

  lemma OffsetUrlsDistinct(base: string, j: int, k: int)
    requires j >= 1 && k >= 1 && j != k
    ensures OffsetUrl(base, j) != OffsetUrl(base, k)
  {
    OffsetIsPageUrl(base, j);
    OffsetIsPageUrl(base, k);
    PageUrlsDistinct(base, j - 1, k - 1);
  }

  lemma OffsetIsPageUrl(base: string, k: int)
    requires k >= 1
    ensures OffsetUrl(base, k) == PageUrl(base, k - 1)
  {
  }

  // ---------------------------------------------------------------------
  // One page (scrape_page)
  // ---------------------------------------------------------------------

  /** One result as this scraper records it: the same fields as the other
      scrapers except that no related-articles URL is written, the 1-based
      page number, and no position. A result without a footer block counts
      0 citations, so no result raises and none is skipped. */
  function TestArticle(raw: RawResult, pageNum: int): Article {
    Article(ResultFields(raw).(relatedUrl := None), pageNum, None, None)
  }

  /** The recording of a result on page `pageNum`. */
  function TestArticleOn(pageNum: int): RawResult -> Article {
    raw => TestArticle(raw, pageNum)
  }

  /** The articles of a page's results, in order. */
  function TestArticles(results: seq<RawResult>, pageNum: int): (arts: seq<Article>)
    ensures |arts| == |results|
  {
    MapEach(TestArticleOn(pageNum), results)
  }

  /** Each result becomes one article, in result order. */
  lemma TestArticlesInOrder(results: seq<RawResult>, pageNum: int)
    ensures forall i :: 0 <= i < |results| ==>
      TestArticles(results, pageNum)[i] == TestArticle(results[i], pageNum)
  {
    MapEachAt(TestArticleOn(pageNum), results);
  }

  /** scrape_page's outcome: any status other than 200 (429 included), a
      timeout or a request error gives no articles; a 200 page gives one
      article per result. */
  function TestPage(resp: Response, pageNum: int): (arts: seq<Article>)
    ensures resp.Response? && resp.status == 200 ==> |arts| == |resp.results|
    ensures !(resp.Response? && resp.status == 200) ==> arts == []
  {
    if resp.Response? && resp.status == 200 then TestArticles(resp.results, pageNum) else []
  }

  /** Every article of a page carries that page's 1-based number, no
      position, no year stamp and no related-articles URL. */
  lemma TestPageNumbering(resp: Response, pageNum: int)
    ensures forall a :: a in TestPage(resp, pageNum) ==>
      a.page == pageNum && a.position.None? && a.searchYear.None? && a.fields.relatedUrl.None?
  {
    if resp.Response? && resp.status == 200 {
      TestArticlesInOrder(resp.results, pageNum);
    }
  }

  /** scrape_page: the parse loop, then the random wait of 30 + randbelow(21)
      seconds for drawn value `draw`. The early returns for a bad status and
      for a page without results skip the wait. */
  method ScrapeTestPage(resp: Response, pageNum: int, draw: nat) returns (articles: seq<Article>, delay: Option<nat>)
    requires draw < TEST_DELAY_MAX - TEST_DELAY_MIN + 1
    ensures articles == TestPage(resp, pageNum)
    ensures delay.Some? <==> resp.Response? && resp.status == 200 && resp.results != []
    ensures delay.Some? ==> TEST_DELAY_MIN <= delay.value <= TEST_DELAY_MAX
  {
    articles := [];
    delay := None;
    if !resp.Response? || resp.status != 200 {
      return;
    }
    var results := resp.results;
    if results == [] {
      return;
    }
    for idx := 0 to |results|
      invariant articles == TestArticles(results[..idx], pageNum)
    {
      assert results[..idx + 1][..idx] == results[..idx];
      articles := articles + [TestArticle(results[idx], pageNum)];
    }
    assert results[..|results|] == results;
    delay := Some(TEST_DELAY_MIN + draw);
  }

  // ---------------------------------------------------------------------
  // The run (test_last_10_pages)
  // ---------------------------------------------------------------------

  /** scrape_page's articles for 1-based page `k` of the window. */
  function PageAt(base: string, server: string -> Response): int -> seq<Article> {
    k => if k >= 1 then TestPage(server(OffsetUrl(base, k)), k) else []
  }

  /** The page results of the window's pages, in window order. */
  function WindowResults(base: string, pages: seq<int>, server: string -> Response): seq<seq<Article>> {
    MapEach(PageAt(base, server), pages)
  }

  /** The URLs of `pages`, in the order given. */
  function WindowUrls(base: string, pages: seq<int>): (urls: seq<string>)
    requires forall i :: 0 <= i < |pages| ==> pages[i] >= 1
    ensures |urls| == |pages|
  {
    if pages == [] then [] else WindowUrls(base, pages[..|pages| - 1]) + [OffsetUrl(base, pages[|pages| - 1])]
  }

  /** The i-th URL is the i-th page's offset URL. */
  lemma {:induction false} WindowUrlsAt(base: string, pages: seq<int>)
    requires forall i :: 0 <= i < |pages| ==> pages[i] >= 1
    ensures forall i :: 0 <= i < |pages| ==> WindowUrls(base, pages)[i] == OffsetUrl(base, pages[i])
  {
    if pages != [] {
      WindowUrlsAt(base, pages[..|pages| - 1]);
    }
  }

  /** Appending the next page's URL and result to the window's prefix. */
  lemma WindowStep(base: string, pages: seq<int>, i: nat, server: string -> Response)
    requires i < |pages| && forall j :: 0 <= j < |pages| ==> pages[j] >= 1
    ensures Concat(WindowResults(base, pages[..i + 1], server)) ==
      Concat(WindowResults(base, pages[..i], server)) + TestPage(server(OffsetUrl(base, pages[i])), pages[i])
    ensures WindowUrls(base, pages[..i + 1]) == WindowUrls(base, pages[..i]) + [OffsetUrl(base, pages[i])]
  {
    assert pages[..i + 1][..i] == pages[..i];
  }

  /** Step 3 of test_last_10_pages: request the window's pages in order and
      extend the article list with each page's articles. `requested` lists
      the URLs requested; `waits` the delays slept after pages that had
      results. */
  method ScrapeWindow(base: string, pages: seq<int>, server: string -> Response, draw: nat -> nat)
    returns (allArticles: seq<Article>, requested: seq<string>, waits: seq<nat>)
    requires forall j :: 0 <= j < |pages| ==> pages[j] >= 1
    requires forall k :: draw(k) < TEST_DELAY_MAX - TEST_DELAY_MIN + 1
    ensures allArticles == Concat(WindowResults(base, pages, server))
    ensures requested == WindowUrls(base, pages)
    ensures |waits| <= |pages|
    ensures forall i :: 0 <= i < |waits| ==> TEST_DELAY_MIN <= waits[i] <= TEST_DELAY_MAX
  {
    allArticles := [];
    requested := [];
    waits := [];
    for i := 0 to |pages|
      invariant |waits| <= i
      invariant requested == WindowUrls(base, pages[..i])
      invariant allArticles == Concat(WindowResults(base, pages[..i], server))
      invariant forall j :: 0 <= j < |waits| ==> TEST_DELAY_MIN <= waits[j] <= TEST_DELAY_MAX
    {
      allArticles, requested, waits := VisitPage(base, pages, i, server, draw(i), allArticles, requested, waits);
    }
    assert pages[..|pages|] == pages;
  }

  /** One turn of the window loop: request page `pages[i]`, record its
      URL, extend the articles and note the wait, if any. */
  method VisitPage(base: string, pages: seq<int>, i: nat, server: string -> Response, d: nat,
                   allArticles: seq<Article>, requested: seq<string>, waits: seq<nat>)
    returns (allArticles': seq<Article>, requested': seq<string>, waits': seq<nat>)
    requires i < |pages| && forall j :: 0 <= j < |pages| ==> pages[j] >= 1
    requires d < TEST_DELAY_MAX - TEST_DELAY_MIN + 1
    requires requested == WindowUrls(base, pages[..i])
    requires allArticles == Concat(WindowResults(base, pages[..i], server))
    ensures requested' == WindowUrls(base, pages[..i + 1])
    ensures allArticles' == Concat(WindowResults(base, pages[..i + 1], server))
    requires forall j :: 0 <= j < |waits| ==> TEST_DELAY_MIN <= waits[j] <= TEST_DELAY_MAX
    ensures |waits'| <= |waits| + 1
    ensures forall j :: 0 <= j < |waits'| ==> TEST_DELAY_MIN <= waits'[j] <= TEST_DELAY_MAX
  {
    var url := OffsetUrl(base, pages[i]);
    requested' := requested + [url];
    var articles, delay := ScrapeTestPage(server(url), pages[i], d);
    waits' := waits;
    if delay.Some? {
      waits' := waits + [delay.value];
    }
    WindowStep(base, pages, i, server);
    allArticles' := allArticles + articles;
  }

  datatype TestOutcome =
    | Aborted
    | Finished(totalPages: int, window: seq<int>, articles: seq<Article>, waits: seq<nat>)

  /** test_last_10_pages: detect the total (the probe stands for that first
      request), abort with no page request when none was found, otherwise
      scrape the window's pages in order and concatenate their articles.
      `requested` lists the page URLs requested, in order. */
  method TestLastTenPages(probe: UpdateCurrentYear.TotalProbe, base: string, server: string -> Response,
                          draw: nat -> nat)
    returns (outcome: TestOutcome, requested: seq<string>)
    requires forall k :: draw(k) < TEST_DELAY_MAX - TEST_DELAY_MIN + 1
    ensures outcome.Aborted? <==> !Detected(TestTotal(probe))
    ensures outcome.Aborted? ==> requested == []
    ensures outcome.Finished? ==>
      outcome.totalPages == TotalPages(TestTotal(probe).value) &&
      outcome.window == Window(outcome.totalPages) &&
      |requested| == |outcome.window| &&
      (forall i :: 0 <= i < |requested| ==> requested[i] == OffsetUrl(base, outcome.window[i])) &&
      outcome.articles == Concat(WindowResults(base, outcome.window, server)) &&
      (forall i :: 0 <= i < |outcome.waits| ==> TEST_DELAY_MIN <= outcome.waits[i] <= TEST_DELAY_MAX)
  {
    var totalResults := TestTotal(probe);
    if totalResults.None? || totalResults.value == 0 {
      return Aborted, [];
    }
    var totalPages := Min((totalResults.value + 9) / 10, PAGE_CAP);
    var pages := Window(totalPages);
    var allArticles, waits;
    allArticles, requested, waits := ScrapeWindow(base, pages, server, draw);
    WindowUrlsAt(base, pages);
    outcome := Finished(totalPages, pages, allArticles, waits);
  }

  /** Every article of a run comes from a page of the window and carries
      that page's number, when each page's articles carry their own. */
  lemma {:induction false} WindowArticlesFrom(pageAt: int -> seq<Article>, pages: seq<int>)
    requires forall k, a :: a in pageAt(k) ==> a.page == k && a.position.None?
    ensures forall a :: a in Concat(MapEach(pageAt, pages)) ==> a.page in pages && a.position.None?
  {
    if pages != [] {
      var n := |pages| - 1;
      WindowArticlesFrom(pageAt, pages[..n]);
      var r := MapEach(pageAt, pages);
      assert r[..n] == MapEach(pageAt, pages[..n]);
      assert Concat(r) == Concat(r[..n]) + r[n];
      forall a | a in Concat(r) ensures a.page in pages && a.position.None? {
        if a in Concat(r[..n]) {
          assert a.page in pages[..n];
        }
      }
    }
  }

  /** The articles of a finished run carry the 1-based number of a window
      page and no position. */
  lemma WindowArticlesNumbered(base: string, pages: seq<int>, server: string -> Response)
    ensures forall a :: a in Concat(WindowResults(base, pages, server)) ==> a.page in pages && a.position.None?
  {
    var pageAt := PageAt(base, server);
    forall k, a | a in pageAt(k) ensures a.page == k && a.position.None? {
      if k >= 1 {
        TestPageNumbering(server(OffsetUrl(base, k)), k);
      }
    }
    WindowArticlesFrom(pageAt, pages);
  }
}
