/** scripts/scrape_async.py: page arithmetic, the per-result field parsers,
    the progress checkpoint and the session loop of the asynchronous
    year-by-year scraper. The HTTP layer is an oracle from URL to response;
    the HTML layer is replaced by the text each parser is handed. The record
    types, parsers and checkpoint defined here are shared by the other
    scrapers, whose copies of the same code are identical. */
module ScrapeAsync {
  import opened Common

  const REQUEST_DELAY_MIN: nat := 30
  const REQUEST_DELAY_MAX: nat := 50
  const MAX_REQUESTS_PER_SESSION: nat := 900
  const RESULTS_PER_PAGE: nat := 10
  /** The search engine serves at most 100 pages (999 results) per query. */
  const PAGE_CAP: nat := 100

  // ---------------------------------------------------------------------
  // Records
  // ---------------------------------------------------------------------

  /** The fields parsed from one search result. `relatedUrl` is None where
      a scraper does not write that key. */
  datatype Fields = Fields(
    title: string,
    url: string,
    authors: string,
    publication: string,
    year: string,
    snippet: string,
    citations: nat,
    relatedUrl: Option<string>)

  /** An article record as the scrapers emit it: the parsed fields, the
      1-based page, the position (None where a scraper does not write it),
      and the `search_year` stamp (None until a save or merge stamps it). */
  datatype Article = Article(fields: Fields, page: int, position: Option<int>, searchYear: Option<int>)

  /** The text already pulled out of one `div.gs_ri` result: the title
      heading (its text with spans removed, and the link's href if any), the
      `gs_a` info line, the `gs_rs` snippet, and the `gs_fl` footer. */
  datatype TitleTag = TitleTag(text: string, href: Option<string>)
  /** `citedBy`: text of the first footer link containing "Cited by";
      `relatedHref`: href of the "Related articles" link when it has one. */
  datatype FooterBlock = FooterBlock(citedBy: Option<string>, relatedHref: Option<string>)
  datatype RawResult = RawResult(
    heading: Option<TitleTag>,
    info: Option<string>,
    snippet: Option<string>,
    footer: Option<FooterBlock>)

  /** What an HTTP request produced. */
  datatype Response = Response(status: int, results: seq<RawResult>) | TimedOut | NetworkError

  // ---------------------------------------------------------------------
  // Pagination arithmetic (scrape_year_async)
  // ---------------------------------------------------------------------

  /** Pages to request for one year: enough pages for a detected, non-zero
      total, capped by `max_pages` and by the engine's 100-page limit;
      `max_pages` itself when no total was detected. */
  function PagesNeeded(total: Option<nat>, maxPages: int): (n: int)
    ensures total.Some? && total.value > 0 ==>
      n <= PAGE_CAP && n <= maxPages &&
      (n == maxPages || n == PAGE_CAP || n == CeilDiv(total.value, RESULTS_PER_PAGE))
    ensures total.Some? && total.value > 0 && n == CeilDiv(total.value, RESULTS_PER_PAGE) ==>
      n * RESULTS_PER_PAGE >= total.value && (n - 1) * RESULTS_PER_PAGE < total.value
    ensures (total.Some? && total.value > 0 && CeilDiv(total.value, RESULTS_PER_PAGE) <= maxPages
             && CeilDiv(total.value, RESULTS_PER_PAGE) <= PAGE_CAP) ==> n == CeilDiv(total.value, RESULTS_PER_PAGE)
    ensures !(total.Some? && total.value > 0) ==> n == maxPages
  {
    if total.Some? && total.value > 0 then
      Min(Min(CeilDiv(total.value, RESULTS_PER_PAGE), maxPages), PAGE_CAP)
    else maxPages
  }

  /** URL of 0-based page `page`: the query itself for page 0, the query
      with `&start=` and the result offset otherwise. */
  function PageUrl(base: string, page: nat): string {
    var start := page * RESULTS_PER_PAGE;
    if start == 0 then base else base + "&start=" + NatToString(start)
  }

  /** Different pages are requested with different URLs, and the offset in
      the URL reads back as ten times the page number. */
  lemma PageUrlsDistinct(base: string, p: nat, q: nat)
    requires p != q
    ensures PageUrl(base, p) != PageUrl(base, q)
  {
    if p > 0 && q > 0 {
      if PageUrl(base, p) == PageUrl(base, q) {
        var prefix := base + "&start=";
        var sp := NatToString(p * RESULTS_PER_PAGE);
        var sq := NatToString(q * RESULTS_PER_PAGE);
        assert prefix + sp == prefix + sq;
        assert sp == (prefix + sp)[|prefix|..];
        assert sq == (prefix + sq)[|prefix|..];
        NatToStringInjective(p * RESULTS_PER_PAGE, q * RESULTS_PER_PAGE);
      }
    } else {
      assert |PageUrl(base, p)| != |PageUrl(base, q)|;
    }
  }

  lemma PageUrlOffset(base: string, page: nat)
    requires page > 0
    ensures var prefix := base + "&start=";
      StartsWith(PageUrl(base, page), prefix) &&
      PyInt(PageUrl(base, page)[|prefix|..]) == Some(page * RESULTS_PER_PAGE)
  {
    var prefix := base + "&start=";
    var s := NatToString(page * RESULTS_PER_PAGE);
    assert PageUrl(base, page) == prefix + s;
    assert (prefix + s)[|prefix|..] == s;
    assert (prefix + s)[..|prefix|] == prefix;
    PyIntOfNat(page * RESULTS_PER_PAGE);
  }

  /** The asyncio tasks of scrape_year_async: one URL per page, in page order. */
  method PageUrls(base: string, pagesNeeded: int) returns (urls: seq<string>)
    ensures |urls| == Max(pagesNeeded, 0)
    ensures forall p :: 0 <= p < |urls| ==> urls[p] == PageUrl(base, p)
    ensures forall p, q :: 0 <= p < q < |urls| ==> urls[p] != urls[q]
  {
    urls := [];
    var page := 0;
    while page < pagesNeeded
      invariant 0 <= page == |urls|
      invariant page <= Max(pagesNeeded, 0)
      invariant forall p :: 0 <= p < |urls| ==> urls[p] == PageUrl(base, p)
    {
      var start := page * RESULTS_PER_PAGE;
      var url := if start == 0 then base else base + "&start=" + NatToString(start);
      urls := urls + [url];
      page := page + 1;
    }
    forall p, q | 0 <= p < q < |urls| ensures urls[p] != urls[q] {
      PageUrlsDistinct(base, p, q);
    }
  }

  // ---------------------------------------------------------------------
  // Field parsers
  // ---------------------------------------------------------------------

  const INFO_SEPARATOR := " - "
  const NA := "N/A"

  /** A publication-year token: exactly four digits. */
  predicate IsYearToken(w: string) {
    |w| == 4 && IsDigit(w[0]) && IsDigit(w[1]) && IsDigit(w[2]) && IsDigit(w[3])
  }

  /** The quantifier-free form agrees with `w.isdigit() and len(w) == 4`. */
  lemma YearTokenIsFourDigits(w: string)
    ensures IsYearToken(w) <==> AllDigits(w) && |w| == 4
  {
    if IsYearToken(w) {
      forall i | 0 <= i < |w| ensures IsDigit(w[i]) {
        assert i == 0 || i == 1 || i == 2 || i == 3;
      }
    }
  }

  /** Index of the first year token. */
  function FirstYearToken(tokens: seq<string>): (k: Option<nat>)
    ensures k.Some? ==>
              k.value < |tokens| && IsYearToken(tokens[k.value]) &&
              forall j :: 0 <= j < k.value ==> !IsYearToken(tokens[j])
    ensures k.None? ==> forall j :: 0 <= j < |tokens| ==> !IsYearToken(tokens[j])
  {
    if tokens == [] then None
    else if IsYearToken(tokens[0]) then Some(0)
    else
      var rest := FirstYearToken(tokens[1..]);
      assert forall j :: 1 <= j < |tokens| ==> tokens[j] == tokens[1..][j - 1];
      if rest.Some? then Some(rest.value + 1) else None
  }

  /** A year token with none before it is the first one. */
  lemma FirstYearTokenAt(tokens: seq<string>, i: nat)
    requires i < |tokens| && IsYearToken(tokens[i])
    requires forall j :: 0 <= j < i ==> !IsYearToken(tokens[j])
    ensures FirstYearToken(tokens) == Some(i)
  {
  }

  /** The year of a venue segment split at commas: the first word that
      strips to four digits, stripped; "N/A" when there is none. */
  function YearOf(words: seq<string>): (y: string)
    ensures y == NA || IsYearToken(y)
  {
    var tokens := StripAll(words);
    match FirstYearToken(tokens)
    case None => NA
    case Some(k) => tokens[k]
  }

  /** The year loop over the comma-separated words of the venue segment:
      `for word in year_part.split(','): ... break`. */
  method FindYear(words: seq<string>) returns (year: string)
    ensures year == YearOf(words)
  {
    year := NA;
    var i := 0;
    while i < |words|
      invariant 0 <= i <= |words|
      invariant forall j :: 0 <= j < i ==> !IsYearToken(Strip(words[j]))
    {
      var word := Strip(words[i]);
      // `word.isdigit() and len(word) == 4`, by YearTokenIsFourDigits
      if IsYearToken(word) {
        year := word;
        YearOfAt(words, i);
        return;
      }
      i := i + 1;
    }
    YearOfNone(words);
  }

  /** The first word that strips to a year token gives the year. */
  lemma YearOfAt(words: seq<string>, i: nat)
    requires i < |words| && IsYearToken(Strip(words[i]))
    requires forall j :: 0 <= j < i ==> !IsYearToken(Strip(words[j]))
    ensures YearOf(words) == Strip(words[i])
  {
    FirstYearTokenAt(StripAll(words), i);
  }

  /** Without such a word the year is "N/A". */
  lemma YearOfNone(words: seq<string>)
    requires forall j :: 0 <= j < |words| ==> !IsYearToken(Strip(words[j]))
    ensures YearOf(words) == NA
  {
    assert FirstYearToken(StripAll(words)).None?;
  }

  datatype InfoFields = InfoFields(authors: string, publication: string, year: string)

  /** The `authors - venue, year - host` line: authors from the first
      " - " segment, the venue from the second, and the year from the venue
      segment's comma-separated words. */
  function ParseInfo(info: string): (f: InfoFields)
    ensures f.year == NA || IsYearToken(f.year)
  {
    var parts := Split(info, INFO_SEPARATOR);
    var authors := Strip(parts[0]);
    var publication := if |parts| > 1 then Strip(parts[1]) else NA;
    var yearPart := if |parts| > 1 then parts[1] else "";
    InfoFields(authors, publication, YearOf(Split(yearPart, ",")))
  }

  /** The text up to the first " - ", or all of it. */
  function FirstSegment(s: string): string {
    match Find(s, INFO_SEPARATOR)
    case None => s
    case Some(j) => s[..j]
  }

  /** Authors are the text before the first separator; the venue is the
      text between the first and the second separator (or the end); the year
      is read from that venue text. Without a separator only the authors
      field is filled. */
  lemma ParseInfoSegments(info: string)
    ensures Find(info, INFO_SEPARATOR).None? ==>
      ParseInfo(info) == InfoFields(Strip(info), NA, NA)
    ensures Find(info, INFO_SEPARATOR).Some? ==>
      var i := Find(info, INFO_SEPARATOR).value;
      var venue := FirstSegment(info[i + |INFO_SEPARATOR|..]);
      ParseInfo(info) == InfoFields(Strip(info[..i]), Strip(venue), YearOf(Split(venue, ",")))
  {
    match Find(info, INFO_SEPARATOR)
    case None => InfoWithoutSeparator(info);
    case Some(i) => InfoWithSeparator(info, i);
  }

  lemma InfoWithoutSeparator(info: string)
    requires Find(info, INFO_SEPARATOR).None?
    ensures ParseInfo(info) == InfoFields(Strip(info), NA, NA)
  {
    SplitHead(info, INFO_SEPARATOR);
  }

  lemma InfoWithSeparator(info: string, i: nat)
    requires Find(info, INFO_SEPARATOR) == Some(i)
    ensures var venue := FirstSegment(info[i + |INFO_SEPARATOR|..]);
      ParseInfo(info) == InfoFields(Strip(info[..i]), Strip(venue), YearOf(Split(venue, ",")))
  {
    InfoParts(info, i);
  }

  /** The first two pieces of an info line with a separator at `i`. */
  lemma InfoParts(info: string, i: nat)
    requires Find(info, INFO_SEPARATOR) == Some(i)
    ensures var parts := Split(info, INFO_SEPARATOR);
      |parts| > 1 && parts[0] == info[..i] &&
      parts[1] == FirstSegment(info[i + |INFO_SEPARATOR|..])
  {
    var rest := info[i + |INFO_SEPARATOR|..];
    var parts := Split(info, INFO_SEPARATOR);
    assert parts == [info[..i]] + Split(rest, INFO_SEPARATOR);
    SplitHead(rest, INFO_SEPARATOR);
  }

  const CITED_BY := "Cited by "

  /** `Cited by N` link text to a count: the text with every "Cited by "
      removed and stripped, read as a number when it is all digits, else 0. */
  function CitationCount(linkText: string): nat {
    var c := Strip(ReplaceAll(linkText, CITED_BY, ""));
    if AllDigits(c) then DigitsValue(c) else 0
  }

  /** The count printed by the engine is the count read back. */
  lemma CitationCountRoundTrip(n: nat)
    ensures CitationCount(CITED_BY + NatToString(n)) == n
  {
    var s := NatToString(n);
    assert ReplaceAll(s, CITED_BY, "") == s by { ReplaceNoOccurrence(s); }
    ReplacePrefix(CITED_BY, s);
    assert IsDigit(s[0]) && IsDigit(s[|s| - 1]);
    StripFixed(s);
    NatToStringRoundTrip(n);
  }

  /** Digits never contain the letters of "Cited by ", so nothing is removed. */
  lemma {:induction false} ReplaceNoOccurrence(s: string)
    requires forall i :: 0 <= i < |s| ==> IsDigit(s[i])
    ensures ReplaceAll(s, CITED_BY, "") == s
    decreases |s|
  {
    if |s| >= |CITED_BY| {
      assert !StartsWith(s, CITED_BY) by { assert s[0] != CITED_BY[0]; }
      ReplaceNoOccurrence(s[1..]);
      assert s == [s[0]] + s[1..];
    }
  }

  /** Citation count of a result whose footer is optional: no footer, or no
      "Cited by" link in it, counts 0. */
  function FooterCitations(footer: Option<FooterBlock>): nat {
    match footer
    case None => 0
    case Some(b) => if b.citedBy.Some? then CitationCount(b.citedBy.value) else 0
  }

  /** The fields of one result, before numbering. */
  function ResultFields(raw: RawResult): (f: Fields)
    ensures f.citations == FooterCitations(raw.footer)
    ensures f.relatedUrl.Some?
  {
    var title := if raw.heading.Some? then Strip(raw.heading.value.text) else NA;
    var url := if raw.heading.Some? && raw.heading.value.href.Some? then raw.heading.value.href.value else NA;
    var info := if raw.info.Some? then ParseInfo(raw.info.value) else InfoFields(NA, NA, NA);
    var snippet := if raw.snippet.Some? then Strip(raw.snippet.value) else NA;
    var related := if raw.footer.Some? && raw.footer.value.relatedHref.Some? then raw.footer.value.relatedHref.value else NA;
    Fields(title, url, info.authors, info.publication, info.year, snippet, FooterCitations(raw.footer), Some(related))
  }

  /** One result's fields, or None when parsing it raises. With
      `requireFooter` (the synchronous scrapers, which call `.find` on the
      footer without checking it) a result without a footer raises;
      otherwise (this file) it is recorded with 0 citations. */
  function ParseResult(raw: RawResult, requireFooter: bool): (f: Option<Fields>)
    ensures f.None? <==> requireFooter && raw.footer.None?
  {
    if requireFooter && raw.footer.None? then None else Some(ResultFields(raw))
  }

  /** The parse of each result of a page, in order. */
  function ParseAll(results: seq<RawResult>, requireFooter: bool): (parsed: seq<Option<Fields>>)
    ensures |parsed| == |results|
    ensures forall i :: 0 <= i < |results| ==> parsed[i] == ParseResult(results[i], requireFooter)
  {
    MapEachAt(ParseWith(requireFooter), results);
    MapEach(ParseWith(requireFooter), results)
  }

  function ParseWith(requireFooter: bool): RawResult -> Option<Fields> {
    raw => ParseResult(raw, requireFooter)
  }

  /** Result `idx` of 0-based page `pageNum` as an article: page numbers are
      1-based and positions count results from 1 across pages. */
  function NumberResult(f: Fields, pageNum: nat, idx: nat): Article {
    Article(f, pageNum + 1, Some(pageNum * RESULTS_PER_PAGE + idx + 1), None)
  }

  /** Number the parsed results of a page, skipping the ones that raised. */
  function Numbered(parsed: seq<Option<Fields>>, pageNum: nat): seq<Article> {
    if parsed == [] then []
    else
      var n := |parsed| - 1;
      Numbered(parsed[..n], pageNum) +
        (if parsed[n].Some? then [NumberResult(parsed[n].value, pageNum, n)] else [])
  }

  /** Articles of one result page, in result order. */
  function PageArticles(results: seq<RawResult>, pageNum: nat, requireFooter: bool): seq<Article> {
    Numbered(ParseAll(results, requireFooter), pageNum)
  }

  /** `a` is the numbering of the parsed result in the slot its position names. */
  predicate FromSlot(a: Article, parsed: seq<Option<Fields>>, pageNum: nat) {
    a.position.Some? &&
    var idx := a.position.value - pageNum * RESULTS_PER_PAGE - 1;
    0 <= idx < |parsed| && parsed[idx].Some? && a == NumberResult(parsed[idx].value, pageNum, idx)
  }

  lemma FromSlotExtend(a: Article, parsed: seq<Option<Fields>>, n: nat, pageNum: nat)
    requires n <= |parsed| && FromSlot(a, parsed[..n], pageNum)
    ensures FromSlot(a, parsed, pageNum)
    ensures a.position.value <= pageNum * RESULTS_PER_PAGE + n
  {
    var idx := a.position.value - pageNum * RESULTS_PER_PAGE - 1;
    assert parsed[..n][idx] == parsed[idx];
  }

  /** Every numbered article of a page is the numbering of the parsed result
      its position names (so it carries the 1-based page number), and
      positions strictly increase: no renumbering closes the gap that a
      dropped result leaves. */
  lemma {:induction false} NumberedPositions(parsed: seq<Option<Fields>>, pageNum: nat)
    ensures var out := Numbered(parsed, pageNum);
      |out| <= |parsed| &&
      (forall k :: 0 <= k < |out| ==> FromSlot(out[k], parsed, pageNum) && out[k].page == pageNum + 1) &&
      (forall k, l :: 0 <= k < l < |out| ==>
         out[k].position.Some? && out[l].position.Some? && out[k].position.value < out[l].position.value)
  {
    if parsed != [] {
      var n := |parsed| - 1;
      NumberedPositions(parsed[..n], pageNum);
      var prev := Numbered(parsed[..n], pageNum);
      var tail := if parsed[n].Some? then [NumberResult(parsed[n].value, pageNum, n)] else [];
      var out := prev + tail;
      assert Numbered(parsed, pageNum) == out;
      forall k | 0 <= k < |out|
        ensures FromSlot(out[k], parsed, pageNum) && out[k].page == pageNum + 1
        ensures k < |prev| ==> out[k].position.value <= pageNum * RESULTS_PER_PAGE + n
        ensures k >= |prev| ==> out[k].position.value == pageNum * RESULTS_PER_PAGE + n + 1
      {
        if k < |prev| {
          assert out[k] == prev[k];
          FromSlotExtend(prev[k], parsed, n, pageNum);
        } else {
          assert out[k] == tail[0];
        }
      }
    }
  }

  /** A page keeps exactly its parsable results: all of them without the
      footer requirement, the ones with a footer with it. */
  function CountWithFooter(results: seq<RawResult>): nat {
    if results == [] then 0
    else CountWithFooter(results[..|results| - 1]) + (if results[|results| - 1].footer.Some? then 1 else 0)
  }

  lemma {:induction false} PageKeeps(results: seq<RawResult>, pageNum: nat, requireFooter: bool)
    ensures |PageArticles(results, pageNum, requireFooter)| ==
      if requireFooter then CountWithFooter(results) else |results|
  {
    if results != [] {
      var n := |results| - 1;
      PageKeeps(results[..n], pageNum, requireFooter);
      assert ParseAll(results, requireFooter)[..n] == ParseAll(results[..n], requireFooter);
    }
  }

  /** The parsing loop of scrape_single_page. */
  method ParsePage(results: seq<RawResult>, pageNum: nat, requireFooter: bool) returns (articles: seq<Article>)
    ensures articles == PageArticles(results, pageNum, requireFooter)
  {
    articles := [];
    for idx := 0 to |results|
      invariant articles == PageArticles(results[..idx], pageNum, requireFooter)
    {
      var parsed := ParseResult(results[idx], requireFooter);
      PageArticlesSnoc(results, idx, pageNum, requireFooter);
      if parsed.Some? {
        articles := articles + [NumberResult(parsed.value, pageNum, idx)];
      }
    }
    assert results[..|results|] == results;
  }

  /** One more result adds its article, if it parses, at the end. */
  lemma PageArticlesSnoc(results: seq<RawResult>, idx: nat, pageNum: nat, requireFooter: bool)
    requires idx < |results|
    ensures var parsed := ParseResult(results[idx], requireFooter);
      PageArticles(results[..idx + 1], pageNum, requireFooter) ==
        PageArticles(results[..idx], pageNum, requireFooter) +
        (if parsed.Some? then [NumberResult(parsed.value, pageNum, idx)] else [])
  {
    var upto := results[..idx + 1];
    assert upto[..idx] == results[..idx];
    var parsed := ParseAll(upto, requireFooter);
    assert parsed[..idx] == ParseAll(results[..idx], requireFooter);
    assert parsed[idx] == ParseResult(results[idx], requireFooter);
  }

  /** scrape_single_page: 429, an HTTP error status (aiohttp's
      `raise_for_status` raises for every status from 400 up), a timeout or
      any other request error gives no articles; otherwise the page's parsed
      results. */
  function SinglePage(resp: Response, pageNum: nat): seq<Article> {
    match resp
    case Response(status, results) =>
      if status == 429 || 400 <= status then [] else PageArticles(results, pageNum, false)
    case TimedOut => []
    case NetworkError => []
  }

  /** The page results of pages 0 .. n-1, in page order. */
  function YearPages(base: string, n: nat, server: string -> Response): (pages: seq<seq<Article>>)
    ensures |pages| == n
  {
    if n == 0 then [] else YearPages(base, n - 1, server) + [SinglePage(server(PageUrl(base, n - 1)), n - 1)]
  }

  /** scrape_year_async after the total is known: one request per page,
      results flattened in page order. */
  method ScrapeYear(base: string, maxPages: int, total: Option<nat>, server: string -> Response)
    returns (yearArticles: seq<Article>)
    ensures yearArticles == Concat(YearPages(base, Max(PagesNeeded(total, maxPages), 0), server))
  {
    var pagesNeeded := PagesNeeded(total, maxPages);
    var urls := PageUrls(base, pagesNeeded);
    yearArticles := [];
    for page := 0 to |urls|
      invariant yearArticles == Concat(YearPages(base, page, server))
    {
      var resp := server(urls[page]);
      var pageArticles := [];
      if resp.Response? && !(resp.status == 429 || 400 <= resp.status) {
        pageArticles := ParsePage(resp.results, page, false);
      }
      ghost var pages := YearPages(base, page, server);
      assert pageArticles == SinglePage(resp, page);
      assert YearPages(base, page + 1, server) == pages + [pageArticles];
      assert (pages + [pageArticles])[..page] == pages;
      yearArticles := yearArticles + pageArticles;
    }
  }

  // ---------------------------------------------------------------------
  // Total detection (get_total_results)
  // ---------------------------------------------------------------------

  /** What get_total_results does with the group the regular expressions
      captured: the "Page X of Y results" group is read with int(); failing
      that, the "About X results" group with its commas removed. A raising
      int() is caught and gives None. */
  function TotalFromCaptures(pageGroup: Option<string>, aboutGroup: Option<string>): Option<int> {
    if pageGroup.Some? then PyInt(pageGroup.value)
    else if aboutGroup.Some? then PyInt(ReplaceAll(aboutGroup.value, ",", ""))
    else None
  }

  /** The pattern `(\d+)` captures digits, so the detected total is their value. */
  lemma TotalFromPageGroup(digits: string)
    requires AllDigits(digits)
    ensures TotalFromCaptures(Some(digits), None) == Some(DigitsValue(digits))
  {
    PyIntOfDigitString(digits);
  }

  // ---------------------------------------------------------------------
  // Delay choice
  // ---------------------------------------------------------------------

  /** `REQUEST_DELAY_MIN + secrets.randbelow(MAX - MIN + 1)` for a drawn value `r`. */
  function SessionDelay(r: nat): (d: nat)
    requires r < REQUEST_DELAY_MAX - REQUEST_DELAY_MIN + 1
    ensures REQUEST_DELAY_MIN <= d <= REQUEST_DELAY_MAX
  {
    REQUEST_DELAY_MIN + r
  }

  /** The spacing part of RateLimiter (the semaphore and lock are left
      out). Clock readings are passed in. */
  class RateLimiter {
    const delay: int
    var lastRequestTime: int

    constructor(delay: int)
      ensures this.delay == delay && lastRequestTime == 0
    {
      this.delay := delay;
      lastRequestTime := 0;
    }

    /** acquire at clock reading `now`: sleep out the rest of the delay,
        then record the time. Consecutive requests are at least `delay`
        apart, and nobody waits longer than needed. */
    method Acquire(now: int) returns (wait: int)
      modifies this
      ensures wait >= 0 && lastRequestTime == now + wait
      ensures lastRequestTime >= old(lastRequestTime) + delay
      ensures wait > 0 ==> lastRequestTime == old(lastRequestTime) + delay
    {
      var sinceLast := now - lastRequestTime;
      wait := 0;
      if sinceLast < delay {
        wait := delay - sinceLast;
      }
      lastRequestTime := now + wait;
    }
  }

  // ---------------------------------------------------------------------
  // Progress checkpoint (save_progress / load_progress / resume)
  // ---------------------------------------------------------------------

  /** The contents of `data/scraping_progress.json`. `yearsCompleted` is the
      list of the map's keys; only membership in it is ever read, so it is a
      set here. The timestamp is left out. */
  datatype Progress = Progress(totalArticles: int, yearsCompleted: set<int>, articles: seq<Article>)

  /** `article['search_year'] = year` on each article of a list. */
  function Stamp(arts: seq<Article>, year: int): (r: seq<Article>)
    ensures |r| == |arts|
    ensures forall i :: 0 <= i < |arts| ==> r[i] == arts[i].(searchYear := Some(year))
  {
    if arts == [] then []
    else Stamp(arts[..|arts| - 1], year) + [arts[|arts| - 1].(searchYear := Some(year))]
  }

  lemma StampIdempotent(arts: seq<Article>, year: int)
    ensures Stamp(Stamp(arts, year), year) == Stamp(arts, year)
  {
  }

  /** A non-empty finite set of years has a largest element. */
  lemma {:induction false} MaxExists(s: set<int>)
    requires s != {}
    ensures exists m :: m in s && forall z :: z in s ==> z <= m
    decreases |s|
  {
    NonEmptyHasElement(s);
    var x :| x in s;
    if s != {x} {
      MaxExists(s - {x});
      var m :| m in s - {x} && forall z :: z in s - {x} ==> z <= m;
      assert forall z :: z in s ==> z == x || z in s - {x};
      if x > m {
        assert forall z :: z in s ==> z <= x;
      } else {
        assert forall z :: z in s ==> z <= m;
      }
    } else {
      assert forall z :: z in s ==> z <= x;
    }
  }

  /** The largest element of a non-empty set of years. */
  ghost function MaxOf(s: set<int>): (m: int)
    requires s != {}
    ensures m in s && forall z :: z in s ==> z <= m
  {
    MaxExists(s);
    var m :| m in s && forall z :: z in s ==> z <= m;
    m
  }

  /** `sorted(keys, reverse=True)`: the largest year first, then the rest. */
  ghost function YearsDesc(s: set<int>): seq<int>
    decreases |s|
  {
    if s == {} then [] else [MaxOf(s)] + YearsDesc(s - {MaxOf(s)})
  }

  /** The sorted keys are exactly the set's members, each once. */
  lemma {:induction false} YearsDescMembers(s: set<int>)
    ensures |YearsDesc(s)| == |s|
    ensures forall y :: y in s <==> y in YearsDesc(s)
    ensures forall i :: 0 <= i < |YearsDesc(s)| ==> YearsDesc(s)[i] in s
    decreases |s|
  {
    if s != {} {
      var y := MaxOf(s);
      YearsDescMembers(s - {y});
      assert YearsDesc(s) == [y] + YearsDesc(s - {y});
      assert forall z :: z in s <==> z == y || z in s - {y};
    }
  }

  /** The sorted keys are strictly descending. */
  lemma {:induction false} YearsDescSorted(s: set<int>)
    ensures forall i, j :: 0 <= i < j < |YearsDesc(s)| ==> YearsDesc(s)[i] > YearsDesc(s)[j]
    decreases |s|
  {
    if s != {} {
      var y := MaxOf(s);
      YearsDescSorted(s - {y});
      YearsDescMembers(s - {y});
      var rest := YearsDesc(s - {y});
      var ys := [y] + rest;
      assert YearsDesc(s) == ys;
      forall i, j | 0 <= i < j < |ys| ensures ys[i] > ys[j] {
        assert ys[j] == rest[j - 1];
        assert rest[j - 1] in s - {y};
        if i > 0 {
          assert ys[i] == rest[i - 1];
        }
      }
    }
  }

  /** The articles of years `ys`, in that order, each stamped with its year
      (a year without an entry contributes nothing). */
  function FlattenYears(m: map<int, seq<Article>>, ys: seq<int>): (all: seq<Article>)
  {
    if ys == [] then []
    else
      var y := ys[|ys| - 1];
      FlattenYears(m, ys[..|ys| - 1]) + Stamp(if y in m then m[y] else [], y)
  }

  /** The `all_articles` list of save_progress and save_final_results. */
  ghost function Flatten(m: map<int, seq<Article>>): seq<Article> {
    FlattenYears(m, YearsDesc(m.Keys))
  }

  /** `a` carries the stamp of one of the years `ys`. */
  predicate StampedFrom(a: Article, ys: seq<int>) {
    exists k :: 0 <= k < |ys| && a.searchYear == Some(ys[k])
  }

  /** `a` is stamped no earlier than `b`. */
  predicate StampOrder(a: Article, b: Article) {
    a.searchYear.Some? && b.searchYear.Some? && a.searchYear.value >= b.searchYear.value
  }

  /** Every flattened article is stamped with a year of `ys`, and along
      strictly descending `ys` the stamps never increase. */
  lemma {:induction false} FlattenYearsStamps(m: map<int, seq<Article>>, ys: seq<int>)
    requires forall i :: 0 <= i < |ys| ==> ys[i] in m
    requires forall i, j :: 0 <= i < j < |ys| ==> ys[i] > ys[j]
    ensures forall i :: 0 <= i < |FlattenYears(m, ys)| ==> StampedFrom(FlattenYears(m, ys)[i], ys)
    ensures forall i, j :: 0 <= i < j < |FlattenYears(m, ys)| ==>
      StampOrder(FlattenYears(m, ys)[i], FlattenYears(m, ys)[j])
  {
    if ys != [] {
      var n := |ys| - 1;
      FlattenYearsStamps(m, ys[..n]);
      var prev := FlattenYears(m, ys[..n]);
      var block := Stamp(m[ys[n]], ys[n]);
      var all := prev + block;
      assert FlattenYears(m, ys) == all;
      forall i | 0 <= i < |all|
        ensures StampedFrom(all[i], ys) && all[i].searchYear.Some?
        ensures i >= |prev| ==> all[i].searchYear.value == ys[n]
        ensures i < |prev| ==> all[i].searchYear.value > ys[n]
      {
        if i < |prev| {
          assert all[i] == prev[i];
          assert StampedFrom(prev[i], ys[..n]);
          var k :| 0 <= k < |ys[..n]| && prev[i].searchYear == Some(ys[..n][k]);
          assert ys[k] == ys[..n][k];
        } else {
          assert all[i] == block[i - |prev|];
          assert all[i].searchYear == Some(ys[n]);
        }
      }
      forall i, j | 0 <= i < j < |all|
        ensures StampOrder(all[i], all[j])
      {
        if j < |prev| {
          assert all[i] == prev[i] && all[j] == prev[j];
        }
      }
    }
  }

  /** The flattened list is empty exactly when every year has no articles. */
  lemma {:induction false} FlattenYearsEmpty(m: map<int, seq<Article>>, ys: seq<int>)
    requires forall i :: 0 <= i < |ys| ==> ys[i] in m
    ensures FlattenYears(m, ys) == [] <==> forall y :: y in ys ==> m[y] == []
  {
    if ys != [] {
      var n := |ys| - 1;
      FlattenYearsEmpty(m, ys[..n]);
      assert forall y :: y in ys ==> y in ys[..n] || y == ys[n];
    }
  }

  /** save_progress: the record written, or None when there are no
      articles at all and nothing is written. */
  ghost function ProgressRecord(m: map<int, seq<Article>>, total: int): Option<Progress> {
    var all := Flatten(m);
    if all == [] then None else Some(Progress(total, m.Keys, all))
  }

  /** save_progress lists every key as completed, including years without
      articles, and writes nothing exactly when no year has an article. */
  lemma ProgressRecordWritten(m: map<int, seq<Article>>, total: int)
    ensures var p := ProgressRecord(m, total);
      && (p.Some? ==> p.value.yearsCompleted == m.Keys && p.value.totalArticles == total &&
                      p.value.articles == Flatten(m))
      && (p.None? <==> forall y :: y in m ==> m[y] == [])
  {
    YearsDescMembers(m.Keys);
    FlattenYearsEmpty(m, YearsDesc(m.Keys));
  }

  /** The inner loop of save_progress: append one year's articles, each
      stamped with the year. */
  method AppendStamped(all: seq<Article>, articles: seq<Article>, year: int) returns (out: seq<Article>)
    ensures out == all + Stamp(articles, year)
  {
    out := all;
    var i := 0;
    while i < |articles|
      invariant 0 <= i <= |articles|
      invariant out == all + Stamp(articles[..i], year)
    {
      assert articles[..i + 1][..i] == articles[..i];
      out := out + [articles[i].(searchYear := Some(year))];
      i := i + 1;
    }
    assert articles[..|articles|] == articles;
  }

  /** Flattening one more year appends that year's stamped articles. */
  lemma FlattenYearsSnoc(m: map<int, seq<Article>>, years: seq<int>, k: nat)
    requires k < |years| && years[k] in m
    ensures FlattenYears(m, years[..k + 1]) == FlattenYears(m, years[..k]) + Stamp(m[years[k]], years[k])
  {
    assert years[..k + 1][..k] == years[..k];
  }

  /** The largest remaining year heads the descending order of the rest. */
  lemma YearsDescHead(s: set<int>, year: int)
    requires year in s && forall z :: z in s ==> z <= year
    ensures YearsDesc(s) == [year] + YearsDesc(s - {year})
  {
    assert year == MaxOf(s);
  }

  /** The year `sorted(..., reverse=True)` puts first. */
  method Newest(years: set<int>) returns (year: int)
    requires years != {}
    ensures year in years && forall z :: z in years ==> z <= year
  {
    year :| year in years && forall z :: z in years ==> z <= year by {
      var top := MaxOf(years);
    }
  }

  /** `sorted(articles_by_year, reverse=True)`: pick the newest remaining
      year until none is left. */
  method SortYearsDesc(years: set<int>) returns (sorted: seq<int>)
    ensures sorted == YearsDesc(years)
  {
    var remaining := years;
    sorted := [];
    while remaining != {}
      invariant YearsDesc(years) == sorted + YearsDesc(remaining)
      decreases |remaining|
    {
      var year := Newest(remaining);
      YearsDescHead(remaining, year);
      ghost var rest := YearsDesc(remaining - {year});
      assert sorted + ([year] + rest) == (sorted + [year]) + rest;
      sorted := sorted + [year];
      remaining := remaining - {year};
    }
    assert sorted + [] == sorted;
  }

  /** The outer loop of save_progress over years already sorted. */
  method FlattenInOrder(m: map<int, seq<Article>>, years: seq<int>) returns (all: seq<Article>)
    requires forall i :: 0 <= i < |years| ==> years[i] in m
    ensures all == FlattenYears(m, years)
  {
    all := [];
    for k := 0 to |years|
      invariant all == FlattenYears(m, years[..k])
    {
      FlattenYearsSnoc(m, years, k);
      all := AppendStamped(all, m[years[k]], years[k]);
    }
    assert years[..|years|] == years;
  }

  /** The flattening loops of save_progress: years newest first, each
      article stamped with its year as it is appended. */
  method FlattenByYear(m: map<int, seq<Article>>) returns (all: seq<Article>)
    ensures all == Flatten(m)
  {
    var years := SortYearsDesc(m.Keys);
    YearsDescMembers(m.Keys);
    all := FlattenInOrder(m, years);
  }

  /** `if year:` — the stamp of an article that regrouping keeps. */
  predicate HasYear(a: Article) {
    a.searchYear.Some? && a.searchYear.value != 0
  }

  /** Rebuild the year→articles map from the saved articles (resume):
      append each article with a truthy `search_year` to its year's list. */
  function Regroup(arts: seq<Article>): map<int, seq<Article>> {
    if arts == [] then map[]
    else
      var m := Regroup(arts[..|arts| - 1]);
      var a := arts[|arts| - 1];
      if HasYear(a) then
        var y := a.searchYear.value;
        m[y := (if y in m then m[y] else []) + [a]]
      else m
  }

  /** The regrouping loop of scrape_continuous_async. */
  method RegroupArticles(arts: seq<Article>) returns (m: map<int, seq<Article>>)
    ensures m == Regroup(arts)
  {
    m := map[];
    for i := 0 to |arts|
      invariant m == Regroup(arts[..i])
    {
      assert arts[..i + 1][..i] == arts[..i];
      var a := arts[i];
      if a.searchYear.Some? && a.searchYear.value != 0 {
        var year := a.searchYear.value;
        if year !in m {
          m := m[year := []];
        }
        m := m[year := m[year] + [a]];
      }
    }
    assert arts[..|arts|] == arts;
  }

  /** Appending a block of articles all stamped `y`, for a year not yet in
      the map, adds exactly that block under `y` (nothing when `y` is 0). */
  lemma {:induction false} RegroupAppend(prefix: seq<Article>, block: seq<Article>, y: int)
    requires y !in Regroup(prefix)
    requires forall i :: 0 <= i < |block| ==> block[i].searchYear == Some(y)
    ensures Regroup(prefix + block) ==
      if y != 0 && block != [] then Regroup(prefix)[y := block] else Regroup(prefix)
    decreases |block|
  {
    if block == [] {
      assert prefix + block == prefix;
    } else {
      var n := |block| - 1;
      RegroupAppend(prefix, block[..n], y);
      assert (prefix + block)[..|prefix + block| - 1] == prefix + block[..n];
      assert block[..n] + [block[n]] == block;
    }
  }

  /** The years saved with at least one article, each with its stamped list. */
  function NonEmptyStamped(m: map<int, seq<Article>>, ys: seq<int>): map<int, seq<Article>>
    requires forall i :: 0 <= i < |ys| ==> ys[i] in m
  {
    map y | y in ys && y != 0 && m[y] != [] :: Stamp(m[y], y)
  }

  /** Adding one more year to the saved years adds its stamped list when it
      is non-zero and has articles. */
  lemma NonEmptyStampedStep(m: map<int, seq<Article>>, ys: seq<int>)
    requires ys != []
    requires forall i :: 0 <= i < |ys| ==> ys[i] in m
    ensures var y := ys[|ys| - 1];
      NonEmptyStamped(m, ys) ==
        if y != 0 && m[y] != [] then NonEmptyStamped(m, ys[..|ys| - 1])[y := Stamp(m[y], y)]
        else NonEmptyStamped(m, ys[..|ys| - 1])
  {
    var n := |ys| - 1;
    assert forall z :: z in ys <==> z in ys[..n] || z == ys[n];
  }

  /** Regrouping the flattened list of distinct years gives back the stamped
      lists of the non-zero years that had articles. */
  lemma {:induction false} RegroupFlattenYears(m: map<int, seq<Article>>, ys: seq<int>)
    requires forall i :: 0 <= i < |ys| ==> ys[i] in m
    requires forall i, j :: 0 <= i < j < |ys| ==> ys[i] != ys[j]
    ensures Regroup(FlattenYears(m, ys)) == NonEmptyStamped(m, ys)
  {
    if ys != [] {
      var n := |ys| - 1;
      var y := ys[n];
      var prev := FlattenYears(m, ys[..n]);
      var block := Stamp(m[y], y);
      RegroupFlattenYears(m, ys[..n]);
      assert Regroup(prev) == NonEmptyStamped(m, ys[..n]);
      assert y !in ys[..n];
      assert y !in Regroup(prev);
      RegroupAppend(prev, block, y);
      assert FlattenYears(m, ys) == prev + block;
      assert block == [] <==> m[y] == [];
      NonEmptyStampedStep(m, ys);
    }
  }

  /** Saving and regrouping round-trip: the map rebuilt from a saved
      progress record holds, for every year that had articles, exactly that
      year's stamped articles; years without articles are not rebuilt. */
  lemma SaveRegroupRoundTrip(m: map<int, seq<Article>>, total: int)
    requires ProgressRecord(m, total).Some?
    ensures var p := ProgressRecord(m, total).value;
      Regroup(p.articles) == map y | y in m && y != 0 && m[y] != [] :: Stamp(m[y], y)
  {
    var ys := YearsDesc(m.Keys);
    YearsDescMembers(m.Keys);
    YearsDescSorted(m.Keys);
    RegroupFlattenYears(m, ys);
    NonEmptyStampedAllKeys(m, ys);
  }

  /** Over a list of all the keys, the non-empty stamped lists are those of
      the whole map. */
  lemma NonEmptyStampedAllKeys(m: map<int, seq<Article>>, ys: seq<int>)
    requires forall i :: 0 <= i < |ys| ==> ys[i] in m
    requires forall y :: y in m <==> y in ys
    ensures NonEmptyStamped(m, ys) == map y | y in m && y != 0 && m[y] != [] :: Stamp(m[y], y)
  {
  }

  /** `[y for y in range(end, start - 1, -1) if y not in completed]` */
  function PendingYears(startYear: int, endYear: int, completed: set<int>): (ys: seq<int>)
    ensures forall y :: y in ys <==> startYear <= y <= endYear && y !in completed
    ensures forall i, j :: 0 <= i < j < |ys| ==> ys[i] > ys[j]
    decreases endYear - startYear
  {
    if endYear < startYear then []
    else
      var rest := PendingYears(startYear, endYear - 1, completed);
      var ys := (if endYear in completed then [] else [endYear]) + rest;
      assert forall i :: 0 <= i < |rest| ==> rest[i] in rest;
      ys
  }

  /** load_progress: the saved completed years and articles, or nothing. */
  function LoadProgress(file: Option<Progress>): (set<int>, seq<Article>) {
    if file.Some? then (file.value.yearsCompleted, file.value.articles) else ({}, [])
  }

  /** Resuming from a record written by save_progress: the rebuilt map holds
      the stamped lists of the years that had articles, the running total is
      the number of saved articles, and the worklist is the descending range
      minus every saved key. */
  lemma ResumeFromSaved(m: map<int, seq<Article>>, total: int, startYear: int, endYear: int)
    requires ProgressRecord(m, total).Some?
    ensures var (completed, existing) := LoadProgress(ProgressRecord(m, total));
      && Regroup(existing) == (map y | y in m && y != 0 && m[y] != [] :: Stamp(m[y], y))
      && completed == m.Keys
      && |existing| == ArticleCount(m)
      && (forall y :: y in PendingYears(startYear, endYear, completed) <==>
            startYear <= y <= endYear && y !in m)
  {
    SaveRegroupRoundTrip(m, total);
    YearsDescMembers(m.Keys);
    FlattenYearsLength(m, YearsDesc(m.Keys));
  }

  /** The article count of each of the years `ys`. */
  function YearSizes(m: map<int, seq<Article>>, ys: seq<int>): (sizes: seq<int>)
    ensures |sizes| == |ys|
  {
    if ys == [] then []
    else
      var y := ys[|ys| - 1];
      YearSizes(m, ys[..|ys| - 1]) + [if y in m then |m[y]| else 0]
  }

  /** The number of articles held in the map, over all years. */
  ghost function ArticleCount(m: map<int, seq<Article>>): int {
    Sum(YearSizes(m, YearsDesc(m.Keys)))
  }

  /** The flattened list is as long as all the years' lists together. */
  lemma {:induction false} FlattenYearsLength(m: map<int, seq<Article>>, ys: seq<int>)
    requires forall i :: 0 <= i < |ys| ==> ys[i] in m
    ensures |FlattenYears(m, ys)| == Sum(YearSizes(m, ys))
  {
    if ys != [] {
      var n := |ys| - 1;
      FlattenYearsLength(m, ys[..n]);
      assert YearSizes(m, ys) == YearSizes(m, ys[..n]) + [|m[ys[n]]|];
      assert YearSizes(m, ys)[..n] == YearSizes(m, ys[..n]);
    }
  }

  /** A year that had no articles is listed as completed by a save, but it
      is not a key of the map rebuilt on resume; the next save of that map
      no longer lists it. */
  lemma ResumeForgetsEmptyYears(m: map<int, seq<Article>>, total: int, total2: int, y: int)
    requires ProgressRecord(m, total).Some?
    requires 0 !in m
    requires y in m && m[y] == []
    ensures y in ProgressRecord(m, total).value.yearsCompleted
    ensures var m2 := Regroup(ProgressRecord(m, total).value.articles);
      ProgressRecord(m2, total2).Some? && y !in ProgressRecord(m2, total2).value.yearsCompleted
  {
    SaveRegroupRoundTrip(m, total);
    ProgressRecordWritten(m, total);
    var m2 := Regroup(ProgressRecord(m, total).value.articles);
    ProgressRecordWritten(m2, total2);
    assert exists z :: z in m && m[z] != [];
    var z :| z in m && m[z] != [];
    assert z in m2 && m2[z] == Stamp(m[z], z);
  }

  // ---------------------------------------------------------------------
  // Session worklist (scrape_continuous_async)
  // ---------------------------------------------------------------------

  /** How one call of scrape_year_async ends: it returns the year's
      articles, raises an ordinary exception, or is interrupted. */
  datatype YearOutcome = Scraped(articles: seq<Article>) | Raised | Interrupted

  /** The request estimate charged for a year that returned `n` articles. */
  function YearCost(n: nat): (c: nat)
    ensures 1 <= c <= 100
    ensures c == 100 <==> n >= 990
  {
    Min(100, n / 10 + 1)
  }

  /** The state the crawl keeps across years and sessions, together with
      the two files it writes (progress record and complete dataset). */
  datatype Crawl = Crawl(
    byYear: map<int, seq<Article>>,
    pending: seq<int>,
    total: int,
    progress: Option<Progress>,
    final: Option<seq<Article>>)

  /** save_progress: the progress file afterwards. */
  ghost function AfterSaveProgress(c: Crawl): Crawl {
    var rec := ProgressRecord(c.byYear, c.total);
    if rec.Some? then c.(progress := rec) else c
  }

  /** save_final_results: nothing when there are no articles; otherwise the
      complete dataset is written and the progress file removed. */
  ghost function AfterSaveFinal(c: Crawl): Crawl {
    var all := Flatten(c.byYear);
    if all == [] then c else c.(final := Some(all), progress := None)
  }

  /** A year whose scrape returned: stored, removed from the worklist,
      counted, and saved. */
  ghost function RecordYear(c: Crawl, year: int, articles: seq<Article>): Crawl {
    AfterSaveProgress(c.(byYear := c.byYear[year := articles],
                         pending := RemoveFirst(c.pending, year),
                         total := c.total + |articles|))
  }

  /** How a session ends. */
  datatype SessionEnd = SessionEnd(crawl: Crawl, requests: int, interrupted: bool)

  /** One session over the worklist copy `years`, with `requests` already
      estimated: before each year, stop if the estimate has reached the
      limit; a returned year is recorded, a raised one skipped, an
      interruption saves the final results and ends everything. */
  ghost function SessionRun(c: Crawl, requests: int, years: seq<int>, limit: int,
                            outcome: int -> YearOutcome): SessionEnd
    decreases |years|
  {
    if years == [] || requests >= limit then SessionEnd(c, requests, false)
    else
      match outcome(years[0])
      case Scraped(articles) =>
        SessionRun(RecordYear(c, years[0], articles), requests + YearCost(|articles|),
                   years[1..], limit, outcome)
      case Raised => SessionRun(c, requests, years[1..], limit, outcome)
      case Interrupted => SessionEnd(AfterSaveFinal(c), requests, true)
  }

  /** No year joins the worklist during a session, and a year whose
      scrape does not return stays pending. */
  lemma {:induction false} SessionKeepsPending(c: Crawl, requests: int, years: seq<int>, limit: int,
                                               outcome: int -> YearOutcome)
    ensures var e := SessionRun(c, requests, years, limit, outcome);
      && (forall y :: y in e.crawl.pending ==> y in c.pending)
      && (forall y :: y in c.pending && !outcome(y).Scraped? ==> y in e.crawl.pending)
    decreases |years|
  {
    if years != [] && requests < limit {
      match outcome(years[0])
      case Scraped(articles) =>
        SessionKeepsPending(RecordYear(c, years[0], articles), requests + YearCost(|articles|),
                            years[1..], limit, outcome);
      case Raised =>
        SessionKeepsPending(c, requests, years[1..], limit, outcome);
      case Interrupted =>
    }
  }

  /** A year leaves the worklist only after its scrape returned, and it is
      then stored with exactly the returned articles. */
  lemma {:induction false} SessionRemovesScraped(c: Crawl, requests: int, years: seq<int>, limit: int,
                                                 outcome: int -> YearOutcome)
    ensures var e := SessionRun(c, requests, years, limit, outcome);
      forall y :: y in c.pending && y !in e.crawl.pending ==>
        y in years && outcome(y).Scraped? && y in e.crawl.byYear &&
        e.crawl.byYear[y] == outcome(y).articles
    decreases |years|
  {
    if years != [] && requests < limit {
      var y := years[0];
      match outcome(y)
      case Scraped(articles) =>
        var c' := RecordYear(c, y, articles);
        var r' := requests + YearCost(|articles|);
        SessionRemovesScraped(c', r', years[1..], limit, outcome);
        var e := SessionRun(c', r', years[1..], limit, outcome);
        assert SessionRun(c, requests, years, limit, outcome) == e;
        assert c'.pending == RemoveFirst(c.pending, y);
        forall z | z in c.pending && z !in e.crawl.pending
          ensures z in years && outcome(z).Scraped? && z in e.crawl.byYear &&
                  e.crawl.byYear[z] == outcome(z).articles
        {
          if z != y {
            assert z in c'.pending;
            assert z in years[1..];
          } else {
            ByYearKept(c', r', years[1..], limit, outcome, y);
          }
        }
      case Raised =>
        SessionRemovesScraped(c, requests, years[1..], limit, outcome);
        assert forall z :: z in years[1..] ==> z in years;
      case Interrupted =>
    }
  }

  /** Later steps of a session keep a returned year's articles. */
  lemma {:induction false} ByYearKept(c: Crawl, requests: int, years: seq<int>, limit: int,
                                      outcome: int -> YearOutcome, y: int)
    requires y in c.byYear && outcome(y).Scraped? && c.byYear[y] == outcome(y).articles
    ensures var e := SessionRun(c, requests, years, limit, outcome);
      y in e.crawl.byYear && e.crawl.byYear[y] == outcome(y).articles
    decreases |years|
  {
    if years != [] && requests < limit {
      match outcome(years[0])
      case Scraped(articles) =>
        ByYearKept(RecordYear(c, years[0], articles), requests + YearCost(|articles|),
                   years[1..], limit, outcome, y);
      case Raised =>
        ByYearKept(c, requests, years[1..], limit, outcome, y);
      case Interrupted =>
    }
  }

  /** The budget is checked before each year: a session that starts under
      the limit ends less than one year's maximum estimate past it, and one
      that ends under the limit without interruption went through every
      year of its worklist copy. */
  lemma {:induction false} SessionBudget(c: Crawl, requests: int, years: seq<int>, limit: int,
                                         outcome: int -> YearOutcome)
    requires requests < limit
    ensures var e := SessionRun(c, requests, years, limit, outcome);
      && requests <= e.requests < limit + 100
      && (!e.interrupted && e.requests < limit ==>
            forall y :: y in years && outcome(y).Scraped? ==>
              y in e.crawl.byYear && e.crawl.byYear[y] == outcome(y).articles)
    decreases |years|
  {
    if years != [] {
      var y := years[0];
      match outcome(y)
      case Scraped(articles) =>
        var c' := RecordYear(c, y, articles);
        var r' := requests + YearCost(|articles|);
        if r' < limit {
          SessionBudget(c', r', years[1..], limit, outcome);
        }
        ByYearKept(c', r', years[1..], limit, outcome, y);
        assert forall z :: z in years ==> z == y || z in years[1..];
      case Raised =>
        SessionBudget(c, requests, years[1..], limit, outcome);
        assert forall z :: z in years ==> z == y || z in years[1..];
      case Interrupted =>
    }
  }

  /** How the continuous crawl ends within the sessions it is given. */
  datatype Stop = AllDone | Stopped | SessionsUsed

  /** The `while years_to_scrape` loop, for at most `fuel` sessions: each
      session works through a copy of the worklist; an interruption ends
      the crawl; an empty worklist after a session saves the final results. */
  ghost function Continuous(c: Crawl, session: nat, fuel: nat, limit: int,
                            outcome: (nat, int) -> YearOutcome): (Crawl, Stop)
    decreases fuel
  {
    if c.pending == [] then (c, AllDone)
    else if fuel == 0 then (c, SessionsUsed)
    else
      var e := SessionRun(c, 0, c.pending, limit, y => outcome(session, y));
      if e.interrupted then (e.crawl, Stopped)
      else if e.crawl.pending == [] then (AfterSaveFinal(e.crawl), AllDone)
      else Continuous(e.crawl, session + 1, fuel - 1, limit, outcome)
  }

  /** The worklist only shrinks; a year whose scrape raises in every
      session is never dropped, so the crawl cannot finish; a finished crawl
      that had work has written its complete dataset when it has articles. */
  lemma {:induction false} ContinuousWorklist(c: Crawl, session: nat, fuel: nat, limit: int,
                                              outcome: (nat, int) -> YearOutcome)
    ensures var (r, stop) := Continuous(c, session, fuel, limit, outcome);
      && (forall y :: y in r.pending ==> y in c.pending)
      && (forall y :: y in c.pending && (forall s: nat :: s >= session ==> outcome(s, y).Raised?) ==>
            y in r.pending && stop != AllDone)
      && (stop == AllDone ==> r.pending == [])
      && (stop == AllDone && c.pending != [] && Flatten(r.byYear) != [] ==>
            r.final == Some(Flatten(r.byYear)) && r.progress == None)
    decreases fuel
  {
    if c.pending != [] && fuel > 0 {
      var o := y => outcome(session, y);
      var e := SessionRun(c, 0, c.pending, limit, o);
      SessionKeepsPending(c, 0, c.pending, limit, o);
      if !e.interrupted && e.crawl.pending != [] {
        ContinuousWorklist(e.crawl, session + 1, fuel - 1, limit, outcome);
      }
    }
  }

  /** The state at start-up: the saved articles regrouped by their stamp,
      their number as the running total, the years not yet completed as
      the worklist, and the files as found. */
  ghost function Resumed(startYear: int, endYear: int, saved: Option<Progress>): Crawl {
    var (completed, existing) := LoadProgress(saved);
    Crawl(Regroup(existing), PendingYears(startYear, endYear, completed), |existing|, saved, None)
  }

  /** The state scrape_continuous_async keeps (the year→articles map, the
      worklist, the running total) and the two files it writes. The
      synchronous scrape_continuous keeps the same state and files. */
  class Crawler {
    var byYear: map<int, seq<Article>>
    var pending: seq<int>
    var totalArticles: int
    var progressFile: Option<Progress>
    var finalFile: Option<seq<Article>>

    ghost function State(): Crawl
      reads this
    {
      Crawl(byYear, pending, totalArticles, progressFile, finalFile)
    }

    /** Start-up: load the progress file, regroup its articles by
        `search_year`, count them, and compute the pending years. */
    constructor Resume(startYear: int, endYear: int, saved: Option<Progress>)
      ensures byYear == Regroup(LoadProgress(saved).1)
      ensures totalArticles == |LoadProgress(saved).1|
      ensures pending == PendingYears(startYear, endYear, LoadProgress(saved).0)
      ensures progressFile == saved && finalFile == None
      ensures State() == Resumed(startYear, endYear, saved)
    {
      var (completed, existing) := LoadProgress(saved);
      var m := RegroupArticles(existing);
      byYear := m;
      totalArticles := |existing|;
      pending := PendingYears(startYear, endYear, completed);
      progressFile := saved;
      finalFile := None;
    }

    /** save_progress(articles_by_year, total_articles) */
    method SaveProgress()
      modifies this
      ensures State() == AfterSaveProgress(old(State()))
    {
      var all := FlattenByYear(byYear);
      if all != [] {
        progressFile := Some(Progress(totalArticles, byYear.Keys, all));
      }
    }

    /** A year whose scrape returned: store its articles, take it off the
        worklist, add them to the total, and save the progress file. */
    method Record(year: int, articles: seq<Article>)
      modifies this
      ensures State() == RecordYear(old(State()), year, articles)
    {
      byYear := byYear[year := articles];
      totalArticles := totalArticles + |articles|;
      pending := RemoveFirst(pending, year);
      SaveProgress();
    }

    /** save_final_results(articles_by_year, total_articles) */
    method SaveFinal()
      modifies this
      ensures State() == AfterSaveFinal(old(State()))
    {
      var all := FlattenByYear(byYear);
      if all == [] {
        return;
      }
      finalFile := Some(all);
      progressFile := None;
    }

    /** One session: `for year in years_to_scrape[:]` with the budget
        check before each year. */
    method Session(limit: int, outcome: int -> YearOutcome) returns (requests: int, interrupted: bool)
      modifies this
      ensures SessionRun(old(State()), 0, old(pending), limit, outcome) ==
        SessionEnd(State(), requests, interrupted)
    {
      requests := 0;
      interrupted := false;
      var years := pending;
      var i := 0;
      while i < |years|
        invariant 0 <= i <= |years|
        invariant SessionRun(old(State()), 0, years, limit, outcome) ==
          SessionRun(State(), requests, years[i..], limit, outcome)
        invariant !interrupted
      {
        if requests >= limit {
          break;
        }
        var year := years[i];
        assert years[i..][0] == year && years[i..][1..] == years[i + 1..];
        match outcome(year) {
          case Scraped(articles) =>
            Record(year, articles);
            requests := requests + YearCost(|articles|);
          case Raised =>
          case Interrupted =>
            SaveFinal();
            interrupted := true;
            return;
        }
        i := i + 1;
      }
    }

    /** The session loop, for at most `maxSessions` sessions; the 24-hour
        break between sessions is left out. */
    method Run(maxSessions: nat, limit: int, outcome: (nat, int) -> YearOutcome) returns (stop: Stop)
      modifies this
      ensures (State(), stop) == Continuous(old(State()), 1, maxSessions, limit, outcome)
    {
      var session: nat := 1;
      var fuel := maxSessions;
      while pending != []
        invariant session + fuel == 1 + maxSessions
        invariant Continuous(old(State()), 1, maxSessions, limit, outcome) ==
          Continuous(State(), session, fuel, limit, outcome)
        decreases fuel
      {
        if fuel == 0 {
          return SessionsUsed;
        }
        var o := y => outcome(session, y);
        var requests, interrupted := Session(limit, o);
        if interrupted {
          return Stopped;
        }
        if pending == [] {
          SaveFinal();
          return AllDone;
        }
        session := session + 1;
        fuel := fuel - 1;
      }
      return AllDone;
    }
  }

  /** scrape_continuous_async: resume from the progress file, then run the
      sessions. */
  method ContinueAsync(startYear: int, endYear: int, saved: Option<Progress>, maxSessions: nat, limit: int,
                       outcome: (nat, int) -> YearOutcome)
    returns (cr: Crawler, stop: Stop)
    ensures (cr.State(), stop) == Continuous(Resumed(startYear, endYear, saved), 1, maxSessions, limit, outcome)
  {
    cr := new Crawler.Resume(startYear, endYear, saved);
    stop := cr.Run(maxSessions, limit, outcome);
  }
}
