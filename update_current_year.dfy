/** The monthly update: probe the current year's total, scrape its pages,
    and append the articles whose URL the latest complete dataset does not
    have yet, logging the update. */
module UpdateCurrentYear {
  import opened Common
  import opened ScrapeAsync

  /** Pages scraped when no total is detected. */
  const FALLBACK_PAGES: nat := 10

  // ---------------------------------------------------------------------
  // Total detection (get_total_results) as written
  // ---------------------------------------------------------------------

  /** What the total probe saw: the status and the groups the two patterns
      captured (the first `div` whose text matches the page pattern, then
      the whole page for the "About" pattern), or a request that raised. */
  datatype TotalProbe = Probe(status: int, pageGroup: Option<string>, aboutGroup: Option<string>) | ProbeFailed

  /** get_total_results: 429 and error statuses (every status from 400
      up, as aiohttp's `raise_for_status` raises for them) give None; otherwise the
      captured group goes through int(), and a raising int() is caught and
      gives None. */
  function GetTotalResults(p: TotalProbe): Option<int> {
    match p
    case ProbeFailed => None
    case Probe(status, pageGroup, aboutGroup) =>
      if status == 429 || 400 <= status then None
      else TotalFromCaptures(pageGroup, aboutGroup)
  }

  /** Every character of `s` is in `cs`. */
  predicate OnlyChars(s: string, cs: set<char>) {
    forall i :: 0 <= i < |s| ==> s[i] in cs
  }

  /** The patterns are raw strings with doubled backslashes, so `\\s`,
      `\\d` stand for a literal backslash followed by the letter. The page
      pattern's group `(\\d+)` therefore captures a backslash followed by
      letters d (either case, the search ignores case). */
  predicate PageGroupAsWritten(g: string) {
    |g| >= 2 && g[0] == '\\' && OnlyChars(g[1..], {'d', 'D'})
  }

  /** The "About" pattern's group `([\\d,]+)` captures backslashes, letters
      d and commas. */
  predicate AboutGroupAsWritten(g: string) {
    |g| >= 1 && OnlyChars(g, {'\\', 'd', 'D', ','})
  }

  /** Removing the commas from text over backslash, d, D and comma leaves
      text over backslash, d and D. */
  lemma {:induction false} DropCommas(s: string)
    requires OnlyChars(s, {'\\', 'd', 'D', ','})
    ensures OnlyChars(ReplaceAll(s, ",", ""), {'\\', 'd', 'D'})
    decreases |s|
  {
    if |s| >= 1 {
      assert OnlyChars(s[1..], {'\\', 'd', 'D', ','}) by {
        forall i | 0 <= i < |s[1..]| ensures s[1..][i] in {'\\', 'd', 'D', ','} {
          assert s[1..][i] == s[i + 1];
        }
      }
      DropCommas(s[1..]);
      var rest := ReplaceAll(s[1..], ",", "");
      if StartsWith(s, ",") {
        assert ReplaceAll(s, ",", "") == "" + rest;
      } else {
        assert s[..1] == [s[0]];
        assert ReplaceAll(s, ",", "") == [s[0]] + rest;
        assert s[0] != ',';
      }
    }
  }

  /** int() raises on text over backslash, d and D: there is no digit and
      no whitespace to strip. */
  lemma IntRejects(s: string)
    requires OnlyChars(s, {'\\', 'd', 'D'})
    ensures PyInt(s) == None
  {
    if s != [] {
      assert s[0] in {'\\', 'd', 'D'} && s[|s| - 1] in {'\\', 'd', 'D'};
    }
    StripFixed(s);
    if s != [] {
      assert !DigitOrJoin(s, 0);
    }
  }

  /** The quirk: whatever the probed page holds, a total is never
      detected, since every group the patterns can capture makes int()
      raise. */
  lemma TotalNeverDetected(p: TotalProbe)
    requires p.Probe? && p.pageGroup.Some? ==> PageGroupAsWritten(p.pageGroup.value)
    requires p.Probe? && p.aboutGroup.Some? ==> AboutGroupAsWritten(p.aboutGroup.value)
    ensures GetTotalResults(p) == None
  {
    if p.Probe? && !(p.status == 429 || 400 <= p.status) {
      if p.pageGroup.Some? {
        var g := p.pageGroup.value;
        assert OnlyChars(g, {'\\', 'd', 'D'}) by {
          forall i | 0 <= i < |g| ensures g[i] in {'\\', 'd', 'D'} {
            if i > 0 { assert g[i] == g[1..][i - 1]; }
          }
        }
        IntRejects(g);
      } else if p.aboutGroup.Some? {
        DropCommas(p.aboutGroup.value);
        IntRejects(ReplaceAll(p.aboutGroup.value, ",", ""));
      }
    }
  }

  // ---------------------------------------------------------------------
  // Page count (scrape_current_year)
  // ---------------------------------------------------------------------

  /** `min((total + 9) // 10, 100)` for a truthy total, 10 otherwise. The
      divisor is positive, so Dafny's division is Python's floor division. */
  function PagesToScrape(total: Option<int>): int {
    if total.Some? && total.value != 0 then Min((total.value + 9) / RESULTS_PER_PAGE, PAGE_CAP)
    else FALLBACK_PAGES
  }

  /** A positive total gives between 1 and 100 pages: exactly enough pages
      for the total when that is at most 100; a missing or zero total gives
      10 pages. */
  lemma PagesToScrapeBounds(total: Option<int>)
    ensures var n := PagesToScrape(total);
      && (total.Some? && total.value > 0 ==>
            1 <= n <= PAGE_CAP &&
            (n < PAGE_CAP ==> (n - 1) * RESULTS_PER_PAGE < total.value <= n * RESULTS_PER_PAGE) &&
            (n == PAGE_CAP ==> total.value > (PAGE_CAP - 1) * RESULTS_PER_PAGE))
      && (total.None? || total.value == 0 ==> n == FALLBACK_PAGES)
  {
  }

  /** As written, the update always scrapes the 10 fallback pages. */
  lemma AlwaysFallbackPages(p: TotalProbe)
    requires p.Probe? && p.pageGroup.Some? ==> PageGroupAsWritten(p.pageGroup.value)
    requires p.Probe? && p.aboutGroup.Some? ==> AboutGroupAsWritten(p.aboutGroup.value)
    ensures PagesToScrape(GetTotalResults(p)) == FALLBACK_PAGES
  {
    TotalNeverDetected(p);
  }

  /** scrape_current_year after the probe: the page count, then the pages. */
  method ScrapeCurrentYear(base: string, total: Option<int>, server: string -> Response)
    returns (allArticles: seq<Article>)
    ensures allArticles == Concat(YearPages(base, Max(PagesToScrape(total), 0), server))
  {
    var pagesNeeded := PagesToScrape(total);
    allArticles := ScrapePages(base, pagesNeeded, server);
  }

  /** Pages 0 .. n-1 in order, each through scrape_page. */
  method ScrapePages(base: string, pagesNeeded: int, server: string -> Response)
    returns (allArticles: seq<Article>)
    ensures allArticles == Concat(YearPages(base, Max(pagesNeeded, 0), server))
  {
    allArticles := [];
    var page: nat := 0;
    while page < pagesNeeded
      invariant page <= Max(pagesNeeded, 0)
      invariant allArticles == Concat(YearPages(base, page, server))
    {
      var articles := ScrapePage(base, page, server);
      ghost var pages := YearPages(base, page, server);
      assert YearPages(base, page + 1, server) == pages + [articles];
      assert (pages + [articles])[..page] == pages;
      allArticles := allArticles + articles;
      page := page + 1;
    }
    assert page == Max(pagesNeeded, 0);
  }

  /** scrape_page: 429, any status from 400 up or a raised request gives no
      articles; otherwise the parsed results, with the footer optional. */
  method ScrapePage(base: string, page: nat, server: string -> Response) returns (articles: seq<Article>)
    ensures articles == SinglePage(server(PageUrl(base, page)), page)
  {
    var start := page * RESULTS_PER_PAGE;
    var url := if start == 0 then base else base + "&start=" + NatToString(start);
    var resp := server(url);
    articles := [];
    if resp.Response? && !(resp.status == 429 || 400 <= resp.status) {
      articles := ParsePage(resp.results, page, false);
    }
  }

  // ---------------------------------------------------------------------
  // The latest complete dataset (load_existing_data)
  // ---------------------------------------------------------------------

  /** `m` is `max(json_files)`: a listed name no other name follows. */
  predicate IsLatest(m: string, names: set<string>) {
    m in names && forall f :: f in names ==> LexLe(f, m)
  }

  /** There is one latest name in any non-empty listing. */
  lemma {:induction false} LatestExists(names: set<string>)
    requires names != {}
    ensures exists m :: IsLatest(m, names)
    decreases |names|
  {
    NonEmptyNamesHaveElement(names);
    var x :| x in names;
    if names == {x} {
      LexLeTotal(x, x);
      assert IsLatest(x, names);
    } else {
      var rest := names - {x};
      assert |rest| < |names|;
      assert rest != {} by {
        var y :| y in names && y != x;
      }
      LatestExists(rest);
      var m :| IsLatest(m, rest);
      LexLeTotal(x, m);
      if LexLe(x, m) {
        assert IsLatest(m, names);
      } else {
        forall f | f in names ensures LexLe(f, x) {
          if f == x { LexLeTotal(x, x); } else { LexLeTransitive(f, m, x); }
        }
        assert IsLatest(x, names);
      }
    }
  }

  lemma LatestUnique(a: string, b: string, names: set<string>)
    requires IsLatest(a, names) && IsLatest(b, names)
    ensures a == b
  {
    LexLeAntisymmetric(a, b);
  }

  /** What load_existing_data returns: the latest dataset, or nothing when
      there is none. */
  ghost function ExistingData(datasets: map<string, seq<Article>>): seq<Article> {
    if datasets.Keys == {} then [] else datasets[LatestName(datasets.Keys)]
  }

  /** The latest name of a non-empty listing. */
  ghost function LatestName(names: set<string>): (m: string)
    requires names != {}
    ensures IsLatest(m, names)
  {
    LatestExists(names);
    var m :| IsLatest(m, names);
    m
  }

  /** `max(json_files)`, by one pass over the listing. */
  method LatestFile(names: set<string>) returns (latest: Option<string>)
    ensures latest.None? <==> names == {}
    ensures latest.Some? ==> IsLatest(latest.value, names)
  {
    latest := None;
    var rest := names;
    while rest != {}
      invariant rest <= names
      invariant latest.None? <==> rest == names
      invariant latest.Some? ==>
        latest.value in names - rest && forall f :: f in names - rest ==> LexLe(f, latest.value)
      decreases |rest|
    {
      NonEmptyNamesHaveElement(rest);
      var x :| x in rest;
      if latest.None? || !LexLe(x, latest.value) {
        if latest.Some? {
          LexLeTotal(x, latest.value);
          forall f | f in names - rest ensures LexLe(f, x) {
            LexLeTransitive(f, latest.value, x);
          }
        }
        LexLeTotal(x, x);
        latest := Some(x);
      }
      rest := rest - {x};
    }
  }

  // ---------------------------------------------------------------------
  // Deduplication (merge_and_save)
  // ---------------------------------------------------------------------

  /** The truthy URLs of the existing collection. */
  function ExistingUrls(existing: seq<Article>): set<string> {
    set a | a in existing && a.fields.url != "" :: a.fields.url
  }

  /** The new articles whose URL is not among `urls`, in order. */
  function Unseen(arts: seq<Article>, urls: set<string>): seq<Article> {
    if arts == [] then []
    else
      var a := arts[|arts| - 1];
      Unseen(arts[..|arts| - 1], urls) + (if a.fields.url !in urls then [a] else [])
  }

  /** An article is kept iff it is one of the new articles and its URL is
      unseen; no more are kept than came in. */
  lemma {:induction false} UnseenMembers(arts: seq<Article>, urls: set<string>)
    ensures |Unseen(arts, urls)| <= |arts|
    ensures forall a :: a in Unseen(arts, urls) <==> a in arts && a.fields.url !in urls
  {
    if arts != [] {
      var n := |arts| - 1;
      UnseenMembers(arts[..n], urls);
      assert arts == arts[..n] + [arts[n]];
    }
  }

  /** Filtering a concatenation filters each part. */
  lemma {:induction false} UnseenAppend(xs: seq<Article>, ys: seq<Article>, urls: set<string>)
    ensures Unseen(xs + ys, urls) == Unseen(xs, urls) + Unseen(ys, urls)
    decreases |ys|
  {
    if ys == [] {
      assert xs + ys == xs;
    } else {
      var n := |ys| - 1;
      UnseenAppend(xs, ys[..n], urls);
      assert (xs + ys)[..|xs + ys| - 1] == xs + ys[..n];
    }
  }

  /** New articles are not deduplicated against each other: two new
      records with the same unseen URL are both kept. */
  lemma SameUnseenUrlBothKept(a: Article, b: Article, urls: set<string>)
    requires a.fields.url == b.fields.url && a.fields.url !in urls
    ensures Unseen([a, b], urls) == [a, b]
  {
    assert [a, b][..1] == [a];
    assert [a][..0] == [];
    assert Unseen([a], urls) == Unseen([], urls) + [a];
    assert Unseen([a, b], urls) == Unseen([a], urls) + [b];
  }

  /** The loop of merge_and_save: stamp every new article with the year
      (kept or not), keep the ones with an unseen URL, count the others. */
  method SplitNew(year: int, newArticles: seq<Article>, urls: set<string>)
    returns (stamped: seq<Article>, unique: seq<Article>, duplicates: nat)
    ensures stamped == Stamp(newArticles, year)
    ensures unique == Unseen(stamped, urls)
    ensures |unique| + duplicates == |newArticles|
  {
    stamped, unique, duplicates := [], [], 0;
    for i := 0 to |newArticles|
      invariant stamped == Stamp(newArticles[..i], year)
      invariant unique == Unseen(stamped, urls)
      invariant |unique| + duplicates == i
    {
      var article := newArticles[i].(searchYear := Some(year));
      assert newArticles[..i + 1][..i] == newArticles[..i];
      stamped := stamped + [article];
      if article.fields.url !in urls {
        unique := unique + [article];
      } else {
        duplicates := duplicates + 1;
      }
      assert stamped[..|stamped| - 1] == Stamp(newArticles[..i], year);
    }
    assert newArticles[..|newArticles|] == newArticles;
  }

  /** One entry of data/update_log.json. */
  datatype LogEntry = LogEntry(updateDate: string, yearChecked: int, newArticles: nat, totalArticles: nat,
                               duplicatesFound: nat)

  /** The name of the complete dataset saved at `timestamp`. */
  function DatasetName(timestamp: string): string {
    "data/mental_rotation_complete_" + timestamp + ".json"
  }

  /** The files merge_and_save leaves: unchanged when no new article is
      kept; otherwise a new dataset (the existing one followed by the kept
      articles) and one more log entry. */
  ghost function Merged(datasets: map<string, seq<Article>>, log: seq<LogEntry>, year: int,
                        newArticles: seq<Article>, timestamp: string): (map<string, seq<Article>>, seq<LogEntry>)
  {
    var existing := ExistingData(datasets);
    var unique := Unseen(Stamp(newArticles, year), ExistingUrls(existing));
    UnseenMembers(Stamp(newArticles, year), ExistingUrls(existing));
    if unique == [] then (datasets, log)
    else
      (datasets[DatasetName(timestamp) := existing + unique],
       log + [LogEntry(timestamp, year, |unique|, |existing + unique|, |newArticles| - |unique|)])
  }

  /** Nothing is written, neither dataset nor log entry, exactly when
      every new article's URL was already seen. */
  lemma MergeWritesIff(datasets: map<string, seq<Article>>, log: seq<LogEntry>, year: int,
                       newArticles: seq<Article>, timestamp: string)
    ensures Merged(datasets, log, year, newArticles, timestamp) == (datasets, log) <==>
      forall a :: a in newArticles ==> a.fields.url in ExistingUrls(ExistingData(datasets))
  {
    var urls := ExistingUrls(ExistingData(datasets));
    var stamped := Stamp(newArticles, year);
    var unique := Unseen(stamped, urls);
    UnseenMembers(stamped, urls);
    if unique == [] {
      assert Merged(datasets, log, year, newArticles, timestamp) == (datasets, log);
      forall a | a in newArticles ensures a.fields.url in urls {
        var i :| 0 <= i < |newArticles| && newArticles[i] == a;
        assert stamped[i] in stamped;
      }
    } else {
      assert |Merged(datasets, log, year, newArticles, timestamp).1| == |log| + 1;
      var a := unique[0];
      assert a in unique;
      var i :| 0 <= i < |stamped| && stamped[i] == a;
      assert newArticles[i] in newArticles && newArticles[i].fields.url == a.fields.url;
    }
  }

  /** A merge that writes keeps the existing collection first, unchanged
      and in order, followed by exactly the new articles with an unseen
      URL, each stamped with the year. */
  lemma MergedCollection(datasets: map<string, seq<Article>>, log: seq<LogEntry>, year: int,
                         newArticles: seq<Article>, timestamp: string)
    requires Merged(datasets, log, year, newArticles, timestamp).1 != log
    ensures var existing := ExistingData(datasets);
      var merged := Merged(datasets, log, year, newArticles, timestamp).0[DatasetName(timestamp)];
      && |existing| <= |merged| && merged[..|existing|] == existing
      && (forall a :: a in merged[|existing|..] <==>
            a in Stamp(newArticles, year) && a.fields.url !in ExistingUrls(existing))
      && (forall i :: |existing| <= i < |merged| ==> merged[i].searchYear == Some(year))
  {
    var existing := ExistingData(datasets);
    var stamped := Stamp(newArticles, year);
    var unique := Unseen(stamped, ExistingUrls(existing));
    UnseenMembers(stamped, ExistingUrls(existing));
    var merged := existing + unique;
    assert merged[|existing|..] == unique;
    assert merged[..|existing|] == existing;
    forall i | |existing| <= i < |merged| ensures merged[i].searchYear == Some(year) {
      assert merged[i] in unique;
    }
  }

  /** The log entry of a merge that writes counts the kept articles, the
      merged total and the skipped duplicates, which add up to the new
      articles; the earlier entries stay. */
  lemma MergedLog(datasets: map<string, seq<Article>>, log: seq<LogEntry>, year: int,
                  newArticles: seq<Article>, timestamp: string)
    requires Merged(datasets, log, year, newArticles, timestamp).1 != log
    ensures var lg := Merged(datasets, log, year, newArticles, timestamp).1;
      var entry := lg[|lg| - 1];
      && |lg| == |log| + 1 && lg[..|log|] == log
      && entry.updateDate == timestamp && entry.yearChecked == year
      && entry.newArticles > 0
      && entry.newArticles + entry.duplicatesFound == |newArticles|
      && entry.totalArticles == |ExistingData(datasets)| + entry.newArticles
  {
    var lg := Merged(datasets, log, year, newArticles, timestamp).1;
    assert lg[..|log|] == log;
  }

  /** Running the same merge again on the merged collection keeps only new
      articles whose URL is empty (an empty URL never enters the set of
      existing URLs): the merge is idempotent for articles with a URL. */
  lemma MergeAgainKeepsNothing(existing: seq<Article>, year: int, newArticles: seq<Article>)
    ensures var unique := Unseen(Stamp(newArticles, year), ExistingUrls(existing));
      forall a :: a in Unseen(Stamp(newArticles, year), ExistingUrls(existing + unique)) ==> a.fields.url == ""
  {
    var stamped := Stamp(newArticles, year);
    var unique := Unseen(stamped, ExistingUrls(existing));
    UnseenMembers(stamped, ExistingUrls(existing));
    UnseenMembers(stamped, ExistingUrls(existing + unique));
    forall a | a in stamped && a.fields.url != "" ensures a.fields.url in ExistingUrls(existing + unique) {
      if a.fields.url !in ExistingUrls(existing) {
        assert a in unique;
        assert a in existing + unique;
      } else {
        var b :| b in existing && b.fields.url != "" && b.fields.url == a.fields.url;
        assert b in existing + unique;
      }
    }
  }

  /** The collection files and the update log the monthly update works
      on: every complete dataset by file name, and the log's entries (an
      absent log reads as no entries). */
  class DataDir {
    var datasets: map<string, seq<Article>>
    var updateLog: seq<LogEntry>

    constructor(datasets: map<string, seq<Article>>, updateLog: seq<LogEntry>)
      ensures this.datasets == datasets && this.updateLog == updateLog
    {
      this.datasets := datasets;
      this.updateLog := updateLog;
    }

    /** load_existing_data */
    method LoadExistingData() returns (existing: seq<Article>)
      ensures existing == ExistingData(datasets)
    {
      var latest := LatestFile(datasets.Keys);
      if latest.None? {
        existing := [];
      } else {
        existing := datasets[latest.value];
        LatestUnique(LatestName(datasets.Keys), latest.value, datasets.Keys);
      }
    }

    /** merge_and_save(year, new_articles): returns the new articles as the
        loop leaves them, every one stamped with the year. */
    method MergeAndSave(year: int, newArticles: seq<Article>, timestamp: string)
      returns (stamped: seq<Article>)
      modifies this
      ensures stamped == Stamp(newArticles, year)
      ensures (datasets, updateLog) == Merged(old(datasets), old(updateLog), year, newArticles, timestamp)
    {
      var existing := LoadExistingData();
      var existingUrls := set a | a in existing && a.fields.url != "" :: a.fields.url;
      var unique, duplicates;
      stamped, unique, duplicates := SplitNew(year, newArticles, existingUrls);
      if unique == [] {
        return;
      }
      var allArticles := existing + unique;
      datasets := datasets[DatasetName(timestamp) := allArticles];
      updateLog := updateLog + [LogEntry(timestamp, year, |unique|, |allArticles|, duplicates)];
    }
  }

  /** main: scrape the current year and merge when anything was found. */
  method MonthlyUpdate(dir: DataDir, year: int, probe: TotalProbe, base: string, server: string -> Response,
                       timestamp: string)
    modifies dir
    ensures var articles := Concat(YearPages(base, Max(PagesToScrape(GetTotalResults(probe)), 0), server));
      (dir.datasets, dir.updateLog) ==
        if articles == [] then old((dir.datasets, dir.updateLog))
        else Merged(old(dir.datasets), old(dir.updateLog), year, articles, timestamp)
  {
    var total := GetTotalResults(probe);
    var articles := ScrapeCurrentYear(base, total, server);
    if articles != [] {
      var _ := dir.MergeAndSave(year, articles, timestamp);
    }
  }
}
