/** The one-pass year-by-year scraper: the same page loop as the
    continuous scraper, a request counter that defaults to one object
    shared by every call, and a single walk from the newest year to the
    oldest that stops for good once the budget is spent. */
module ScrapeByYear {
  import opened Common
  import opened ScrapeAsync
  import opened ScrapeContinuous
  import PipelineTasks

  // ---------------------------------------------------------------------
  // scrape_year and its default counter
  // ---------------------------------------------------------------------

  /** The function object scrape_year: its default `request_counter` is
      built once, when the function is defined, and every call that omits
      the argument updates that same object. */
  class YearScraper {
    const defaultCounter: RequestCounter

    constructor()
      ensures fresh(defaultCounter) && defaultCounter.count == 0
    {
      defaultCounter := new RequestCounter();
    }

    /** One call: the page loop of the continuous scraper, counting into
        the given counter or, when none is given, into the shared default,
        which is never reset between calls. */
    method Call(base: string, maxPages: int, counter: Option<RequestCounter>, server: string -> Response)
      returns (yearArticles: seq<Article>)
      modifies if counter.Some? then counter.value else defaultCounter
      ensures var r := CrawlFrom(YearListing(base, server), maxPages, 0, 0);
        && yearArticles == r.articles
        && (counter.Some? ==> counter.value.count == old(counter.value.count) + r.attempted)
        && (counter.None? ==> defaultCounter.count == old(defaultCounter.count) + r.attempted)
    {
      var c := if counter.Some? then counter.value else defaultCounter;
      yearArticles := ScrapeContinuous.ScrapeYear(base, c, maxPages, server);
    }
  }

  // ---------------------------------------------------------------------
  // scrape_all_years
  // ---------------------------------------------------------------------

  /** How the walk ended: every year visited, the budget reached before
      year `next`, or an interruption. */
  datatype Finish = Completed | BudgetReached(next: int) | UserInterrupt

  /** What the walk has done so far: the year→articles map it builds, the
      running total, the shared counter and the number of inter-year waits
      taken. */
  datatype Walk = Walk(byYear: map<int, seq<Article>>, total: int, requests: int, waits: nat)

  /** The outcome of the walk, and how it ended. */
  datatype ByYearEnd = ByYearEnd(walk: Walk, finish: Finish)

  /** A year that runs: its pages are requested and counted, it is stored
      and added to the total, and a wait follows unless it is
      `start_year`. */
  ghost function RunStep(w: Walk, year: int, startYear: int, crawls: int -> YearCrawl): Walk {
    var r := crawls(year);
    Walk(w.byYear[year := r.articles], w.total + |r.articles|, w.requests + r.attempted,
         if year > startYear then w.waits + 1 else w.waits)
  }

  /** Each year's page loop requests at least one page and at most
      MAX_PAGES. */
  ghost predicate Capped(crawls: int -> YearCrawl) {
    forall y :: 1 <= crawls(y).attempted <= MAX_PAGES
  }

  /** A year that runs costs at least one and at most MAX_PAGES requests. */
  lemma YearCrawlsCapped(listing: int -> (nat -> seq<Article>))
    ensures Capped(YearCrawls(listing))
  {
    forall y ensures 1 <= YearCrawls(listing)(y).attempted <= MAX_PAGES {
      CrawlPages(listing(y), MAX_PAGES, 0, 0);
    }
  }

  /** The loop `for year in range(end_year, start_year - 1, -1)` from
      `year` down: before each year, stop if the counter has reached the
      limit; a year that runs is recorded; a year that raises is skipped;
      an interruption ends the walk. Every ending saves the final results
      (see ScrapeAllYears). */
  ghost function AllYears(w: Walk, year: int, startYear: int, limit: int,
                          crawls: int -> YearCrawl, fault: int -> Fault): ByYearEnd
    decreases year - startYear + 1
  {
    if year < startYear then ByYearEnd(w, Completed)
    else if w.requests >= limit then ByYearEnd(w, BudgetReached(year))
    else
      match fault(year)
      case Interrupts => ByYearEnd(w, UserInterrupt)
      case Raises => AllYears(w, year - 1, startYear, limit, crawls, fault)
      case Runs => AllYears(RunStep(w, year, startYear, crawls), year - 1, startYear, limit, crawls, fault)
  }

  /** The years stored before are kept, with their articles unchanged. */
  lemma {:induction false} AllYearsKeeps(w: Walk, year: int, startYear: int, limit: int,
                                         crawls: int -> YearCrawl, fault: int -> Fault)
    requires forall y :: y in w.byYear ==> y > year
    ensures var e := AllYears(w, year, startYear, limit, crawls, fault);
      forall y :: y in w.byYear ==> y in e.walk.byYear && e.walk.byYear[y] == w.byYear[y]
    decreases year - startYear + 1
  {
    if year >= startYear && w.requests < limit {
      match fault(year)
      case Interrupts =>
      case Raises =>
        AllYearsKeeps(w, year - 1, startYear, limit, crawls, fault);
      case Runs =>
        var w' := RunStep(w, year, startYear, crawls);
        AllYearsKeeps(w', year - 1, startYear, limit, crawls, fault);
        var e := AllYears(w', year - 1, startYear, limit, crawls, fault);
        assert AllYears(w, year, startYear, limit, crawls, fault) == e;
        forall y | y in w.byYear
          ensures y in e.walk.byYear && e.walk.byYear[y] == w.byYear[y]
        {
          assert y in w'.byYear && w'.byYear[y] == w.byYear[y];
        }
    }
  }

  /** Every year stored was stored before or is a year of the walk whose
      scrape ran: a year that raises is never stored. */
  lemma {:induction false} AllYearsStored(w: Walk, year: int, startYear: int, limit: int,
                                          crawls: int -> YearCrawl, fault: int -> Fault)
    ensures var e := AllYears(w, year, startYear, limit, crawls, fault);
      forall y :: y in e.walk.byYear ==> y in w.byYear || (startYear <= y <= year && fault(y) == Runs)
    decreases year - startYear + 1, 1
  {
    if year >= startYear && w.requests < limit {
      match fault(year)
      case Interrupts =>
      case Raises =>
        AllYearsStored(w, year - 1, startYear, limit, crawls, fault);
      case Runs =>
        AllYearsStoredRun(w, year, startYear, limit, crawls, fault);
    }
  }

  /** The step of AllYearsStored for a year that runs. */
  lemma {:induction false} AllYearsStoredRun(w: Walk, year: int, startYear: int, limit: int,
                                             crawls: int -> YearCrawl, fault: int -> Fault)
    requires startYear <= year && w.requests < limit && fault(year) == Runs
    ensures var e := AllYears(w, year, startYear, limit, crawls, fault);
      forall y :: y in e.walk.byYear ==> y in w.byYear || (startYear <= y <= year && fault(y) == Runs)
    decreases year - startYear + 1, 0
  {
    var w' := RunStep(w, year, startYear, crawls);
    AllYearsStored(w', year - 1, startYear, limit, crawls, fault);
    var e := AllYears(w', year - 1, startYear, limit, crawls, fault);
    assert AllYears(w, year, startYear, limit, crawls, fault) == e;
    assert w'.byYear.Keys == w.byYear.Keys + {year};
    forall y | y in e.walk.byYear
      ensures y in w.byYear || (startYear <= y <= year && fault(y) == Runs)
    {
      if y !in w.byYear && y != year {
        assert startYear <= y <= year - 1 && fault(y) == Runs;
      }
    }
  }

  /** A walk that visits every year stores every year whose scrape ran. */
  lemma {:induction false} AllYearsCompleted(w: Walk, year: int, startYear: int, limit: int,
                                             crawls: int -> YearCrawl, fault: int -> Fault)
    requires forall y :: y in w.byYear ==> y > year
    ensures var e := AllYears(w, year, startYear, limit, crawls, fault);
      e.finish.Completed? ==>
        forall y :: startYear <= y <= year && fault(y) == Runs ==> y in e.walk.byYear
    decreases year - startYear + 1
  {
    if year >= startYear && w.requests < limit {
      match fault(year)
      case Interrupts =>
      case Raises =>
        AllYearsCompleted(w, year - 1, startYear, limit, crawls, fault);
      case Runs =>
        var w' := RunStep(w, year, startYear, crawls);
        AllYearsCompleted(w', year - 1, startYear, limit, crawls, fault);
        AllYearsKeeps(w', year - 1, startYear, limit, crawls, fault);
        var e := AllYears(w', year - 1, startYear, limit, crawls, fault);
        assert AllYears(w, year, startYear, limit, crawls, fault) == e;
        if e.finish.Completed? {
          forall y | startYear <= y <= year && fault(y) == Runs
            ensures y in e.walk.byYear
          {
            if y == year {
              assert y in w'.byYear;
            }
          }
        }
    }
  }

  /** A walk stopped by the budget before year `next` stopped with the
      counter at the limit or above, and stored neither `next` nor any
      older year. */
  lemma {:induction false} AllYearsBudgetStop(w: Walk, year: int, startYear: int, limit: int,
                                              crawls: int -> YearCrawl, fault: int -> Fault)
    ensures var e := AllYears(w, year, startYear, limit, crawls, fault);
      e.finish.BudgetReached? ==>
        && e.walk.requests >= limit && startYear <= e.finish.next <= year
        && (forall y :: y <= e.finish.next && y in e.walk.byYear ==> y in w.byYear)
    decreases year - startYear + 1
  {
    BudgetStopBounds(w, year, startYear, limit, crawls, fault);
    BudgetStopYears(w, year, startYear, limit, crawls, fault);
  }

  lemma {:induction false} BudgetStopBounds(w: Walk, year: int, startYear: int, limit: int,
                                            crawls: int -> YearCrawl, fault: int -> Fault)
    ensures var e := AllYears(w, year, startYear, limit, crawls, fault);
      e.finish.BudgetReached? ==> e.walk.requests >= limit && startYear <= e.finish.next <= year
    decreases year - startYear + 1
  {
    if year >= startYear && w.requests < limit {
      match fault(year)
      case Interrupts =>
      case Raises =>
        BudgetStopBounds(w, year - 1, startYear, limit, crawls, fault);
      case Runs =>
        BudgetStopBounds(RunStep(w, year, startYear, crawls), year - 1, startYear, limit, crawls, fault);
    }
  }

  lemma {:induction false} BudgetStopYears(w: Walk, year: int, startYear: int, limit: int,
                                           crawls: int -> YearCrawl, fault: int -> Fault)
    ensures var e := AllYears(w, year, startYear, limit, crawls, fault);
      e.finish.BudgetReached? ==> forall y :: y <= e.finish.next && y in e.walk.byYear ==> y in w.byYear
    decreases year - startYear + 1
  {
    if year >= startYear && w.requests < limit {
      match fault(year)
      case Interrupts =>
      case Raises =>
        BudgetStopYears(w, year - 1, startYear, limit, crawls, fault);
      case Runs =>
        var w' := RunStep(w, year, startYear, crawls);
        var e := AllYears(w', year - 1, startYear, limit, crawls, fault);
        BudgetStopYears(w', year - 1, startYear, limit, crawls, fault);
        BudgetStopBounds(w', year - 1, startYear, limit, crawls, fault);
        RunStepKeys(w, year, startYear, crawls);
        if e.finish.BudgetReached? {
          forall y | y <= e.finish.next && y in e.walk.byYear ensures y in w.byYear {
            assert y in w'.byYear && y != year;
          }
        }
    }
  }

  /** A year that runs is stored, next to the years stored before. */
  lemma RunStepKeys(w: Walk, year: int, startYear: int, crawls: int -> YearCrawl)
    ensures forall y :: y in RunStep(w, year, startYear, crawls).byYear <==> y in w.byYear || y == year
  {
  }

  /** The budget is checked before each year: starting under the limit,
      the counter ends below the limit plus one year's page cap, and it
      only grows. */
  lemma {:induction false} AllYearsBudget(w: Walk, year: int, startYear: int, limit: int,
                                          crawls: int -> YearCrawl, fault: int -> Fault)
    requires Capped(crawls) && w.requests < limit
    ensures var e := AllYears(w, year, startYear, limit, crawls, fault);
      w.requests <= e.walk.requests < limit + MAX_PAGES
    decreases year - startYear + 1
  {
    if year >= startYear {
      match fault(year)
      case Interrupts =>
      case Raises =>
        AllYearsBudget(w, year - 1, startYear, limit, crawls, fault);
      case Runs =>
        var w' := RunStep(w, year, startYear, crawls);
        if w'.requests < limit {
          AllYearsBudget(w', year - 1, startYear, limit, crawls, fault);
        }
    }
  }

  /** The wait between years follows every year that ran except
      `start_year`: starting from an empty map, the waits number the stored
      years other than `start_year`. */
  lemma {:induction false} AllYearsWaits(w: Walk, year: int, startYear: int, limit: int,
                                         crawls: int -> YearCrawl, fault: int -> Fault)
    requires forall y :: y in w.byYear ==> y > year
    requires startYear !in w.byYear
    requires w.waits == |w.byYear|
    ensures var e := AllYears(w, year, startYear, limit, crawls, fault);
      e.walk.waits == |e.walk.byYear| - (if startYear in e.walk.byYear then 1 else 0)
    decreases year - startYear + 1
  {
    if year >= startYear && w.requests < limit {
      match fault(year)
      case Interrupts =>
      case Raises =>
        AllYearsWaits(w, year - 1, startYear, limit, crawls, fault);
      case Runs =>
        var w' := RunStep(w, year, startYear, crawls);
        assert w'.byYear.Keys == w.byYear.Keys + {year};
        assert |w'.byYear| == |w.byYear| + 1;
        if year > startYear {
          AllYearsWaits(w', year - 1, startYear, limit, crawls, fault);
        }
    }
  }

  // ---------------------------------------------------------------------
  // The two files
  // ---------------------------------------------------------------------

  /** The progress file and the complete dataset. */
  datatype Files = Files(progress: Option<Progress>, final: Option<seq<Article>>)

  /** Storing a new year never empties the flattened list: once a save has
      written the progress file, every later save writes it too. */
  lemma FlattenGrows(m: map<int, seq<Article>>, y: int, articles: seq<Article>, total: int, total': int)
    requires y !in m
    requires ProgressRecord(m, total).Some?
    ensures ProgressRecord(m[y := articles], total').Some?
  {
    ProgressRecordWritten(m, total);
    ProgressRecordWritten(m[y := articles], total');
    var k :| k in m && m[k] != [];
    assert k in m[y := articles] && m[y := articles][k] != [];
  }

  /** save_progress(all_articles_by_year, total_articles): the progress
      file afterwards. */
  method SaveProgress(byYear: map<int, seq<Article>>, total: int, progress: Option<Progress>)
    returns (progress': Option<Progress>)
    ensures progress' == if ProgressRecord(byYear, total).Some? then ProgressRecord(byYear, total) else progress
  {
    var all := FlattenByYear(byYear);
    progress' := progress;
    if all != [] {
      progress' := Some(Progress(total, byYear.Keys, all));
    }
  }

  /** The progress file while scrape_all_years runs: the record of the
      current map once some year has an article, and until then the file
      found at the start (data/scraping_progress.json is shared with the
      continuous and asynchronous scrapers, so it may be left over from
      them, or absent). */
  ghost function ProgressFile(byYear: map<int, seq<Article>>, total: int, progress0: Option<Progress>): Option<Progress> {
    if ProgressRecord(byYear, total).Some? then ProgressRecord(byYear, total) else progress0
  }

  /** save_progress after a new year is stored: since a stored year never
      empties the flattened list, the file is still the record of the
      current map once it has been written, and the file found at the start
      otherwise. */
  method SaveProgressAfter(byYear: map<int, seq<Article>>, total: int, progress: Option<Progress>,
                           ghost progress0: Option<Progress>, year: int, articles: seq<Article>, total': int)
    returns (progress': Option<Progress>)
    requires year !in byYear
    requires progress == ProgressFile(byYear, total, progress0)
    ensures progress' == ProgressFile(byYear[year := articles], total', progress0)
  {
    if ProgressRecord(byYear, total).Some? {
      FlattenGrows(byYear, year, articles, total, total');
    }
    progress' := SaveProgress(byYear[year := articles], total', progress);
  }

  // ---------------------------------------------------------------------
  // The summary printed by save_final_results
  // ---------------------------------------------------------------------

  /** The summary lists this many of the most cited articles. */
  const TOP_CITED: nat := 10

  /** The sort key of `nlargest(10, 'citations')`. */
  function CitationsOf(a: Article): int {
    a.fields.citations
  }

  /** `pd.to_numeric(df['year'], errors='coerce')` leaves the article's
      year a number rather than NaN. */
  predicate YearNumeric(a: Article) {
    PipelineTasks.ToNumeric(PipelineTasks.TextValue(a.fields.year)).Some?
  }

  /** The rows of `df.nlargest(10, 'citations')`. */
  function TopCited(all: seq<Article>): seq<Article> {
    TopK(all, CitationsOf, TOP_CITED)
  }

  /** Some row among the ten most cited has a year that is not a number,
      so `int(row['year'])` meets NaN and raises ValueError. */
  predicate TopCitedYearless(all: seq<Article>) {
    exists i :: 0 <= i < |TopCited(all)| && !YearNumeric(TopCited(all)[i])
  }

  /** The loop printing the most cited rows: it raises at the first row
      whose year is not a number. */
  method PrintTopCited(top: seq<Article>) returns (raised: bool)
    ensures raised <==> exists i :: 0 <= i < |top| && !YearNumeric(top[i])
  {
    raised := false;
    var i := 0;
    while i < |top| && !raised
      invariant 0 <= i <= |top|
      invariant raised <==> exists j :: 0 <= j < i && !YearNumeric(top[j])
      decreases |top| - i
    {
      if !YearNumeric(top[i]) {
        raised := true;
      }
      i := i + 1;
    }
  }

  /** A four-digit year, as the result parser produces, is a number. */
  lemma DigitYearNumeric(a: Article)
    requires AllDigits(a.fields.year)
    ensures YearNumeric(a)
  {
    PyIntOfDigitString(a.fields.year);
  }

  /** When every article carries a digit year, the summary never raises. */
  lemma DatedNeverRaises(all: seq<Article>)
    requires forall i :: 0 <= i < |all| ==> AllDigits(all[i].fields.year)
    ensures !TopCitedYearless(all)
  {
    TopKProps(all, CitationsOf, TOP_CITED);
    forall i | 0 <= i < |TopCited(all)| ensures YearNumeric(TopCited(all)[i]) {
      var a := TopCited(all)[i];
      assert a in all;
      var k :| 0 <= k < |all| && all[k] == a;
      DigitYearNumeric(a);
    }
  }

  /** The parser's default year "N/A" is NaN to pandas: with at most ten
      articles, every one of them is printed, so one without a year makes
      the summary raise. */
  lemma UndatedFewRaises(all: seq<Article>, k: int)
    requires |all| <= TOP_CITED && 0 <= k < |all| && all[k].fields.year == "N/A"
    ensures TopCitedYearless(all)
  {
    TopKProps(all, CitationsOf, TOP_CITED);
    var top := TopCited(all);
    assert multiset(top) == multiset(all) by {
      assert |Passed(all, CitationsOf, TOP_CITED)| == 0;
    }
    assert all[k] in multiset(top);
    var i :| 0 <= i < |top| && top[i] == all[k];
    var y := all[k].fields.year;
    StripFixed(y);
    assert !IsDigit(y[0]) && y[0] != '_';
    assert !DigitOrJoin(y, 0);
    assert !PyDigits(y);
    assert !YearNumeric(top[i]);
  }

  /** save_final_results(all_articles_by_year, total_articles): nothing
      when there are no articles. Otherwise the complete dataset is
      written and the summary printed; the progress file is removed only
      when the summary gets through the most cited rows, and `raised` says
      that it met a row without a numeric year instead. */
  method SaveFinal(byYear: map<int, seq<Article>>, files: Files) returns (files': Files, raised: bool)
    ensures raised <==> Flatten(byYear) != [] && TopCitedYearless(Flatten(byYear))
    ensures files' ==
      if Flatten(byYear) == [] then files
      else if raised then Files(files.progress, Some(Flatten(byYear)))
      else Files(None, Some(Flatten(byYear)))
  {
    var all := FlattenByYear(byYear);
    files' := files;
    raised := false;
    if all != [] {
      files' := Files(files.progress, Some(all));
      raised := PrintTopCited(TopCited(all));
      if !raised {
        files' := Files(None, Some(all));
      }
    }
  }

  /** The final save that every way out of scrape_all_years makes: when
      some year has an article, the complete dataset is written, and the
      progress file is gone unless the summary raised, in which case it
      still holds the record of the map; otherwise nothing is written and
      the file found at the start is still there. */
  method SaveFinalAtExit(byYear: map<int, seq<Article>>, total: int, progress: Option<Progress>,
                         ghost progress0: Option<Progress>)
    returns (files: Files, raised: bool)
    requires progress == ProgressFile(byYear, total, progress0)
    ensures raised <==> Flatten(byYear) != [] && TopCitedYearless(Flatten(byYear))
    ensures files.progress ==
      if Flatten(byYear) == [] then progress0
      else if raised then ProgressRecord(byYear, total)
      else None
    ensures files.final == if Flatten(byYear) == [] then None else Some(Flatten(byYear))
  {
    files, raised := SaveFinal(byYear, Files(progress, None));
  }

  /** The body of the year loop for a year whose scrape runs: scrape it
      with the shared counter, store it, add it to the total, save the
      progress file, and take the wait unless it is `start_year`. */
  method RunOneYear(year: int, startYear: int, urlFor: int -> string, server: int -> (string -> Response),
                    counter: RequestCounter, byYear: map<int, seq<Article>>, total: int, ghost waits: nat)
    returns (byYear': map<int, seq<Article>>, total': int, ghost waits': nat)
    modifies counter
    ensures Walk(byYear', total', counter.count, waits') ==
      RunStep(Walk(byYear, total, old(counter.count), waits), year, startYear, YearCrawls(Listings(urlFor, server)))
  {
    var articles := ScrapeContinuous.ScrapeYear(urlFor(year), counter, MAX_PAGES, server(year));
    assert Listings(urlFor, server)(year) == YearListing(urlFor(year), server(year));
    byYear' := byYear[year := articles];
    total' := total + |articles|;
    waits' := if year > startYear then waits + 1 else waits;
  }

  /** scrape_all_years with the shared counter passed explicitly, starting
      from the progress file `progress0` as found. The progress file holds
      the record of the current map once some year has an article, and
      every way out ends with the final save: when some year has an article
      the complete dataset is written and the progress file is gone;
      otherwise nothing is written and the file found at the start stays.
      `crashed` says that the summary raised ValueError: the exception
      leaves scrape_all_years, and the progress file holds the record of
      the map. */
  method ScrapeAllYears(startYear: int, endYear: int, limit: int, urlFor: int -> string,
                        server: int -> (string -> Response), fault: int -> Fault, progress0: Option<Progress>)
    returns (byYear: map<int, seq<Article>>, total: int, requests: int, ghost waits: nat, finish: Finish,
             files: Files, crashed: bool)
    ensures AllYears(Walk(map[], 0, 0, 0), endYear, startYear, limit, YearCrawls(Listings(urlFor, server)), fault) ==
      ByYearEnd(Walk(byYear, total, requests, waits), finish)
    ensures crashed <==> Flatten(byYear) != [] && TopCitedYearless(Flatten(byYear))
    ensures files.progress ==
      if Flatten(byYear) == [] then progress0
      else if crashed then ProgressRecord(byYear, total)
      else None
    ensures files.final == if Flatten(byYear) == [] then None else Some(Flatten(byYear))
  {
    byYear := map[];
    total := 0;
    var progress := progress0;
    var counter := new RequestCounter();
    waits := 0;
    finish := Completed;
    var year := endYear;
    while year >= startYear
      invariant AllYears(Walk(map[], 0, 0, 0), endYear, startYear, limit, YearCrawls(Listings(urlFor, server)), fault) ==
        AllYears(Walk(byYear, total, counter.count, waits), year, startYear, limit, YearCrawls(Listings(urlFor, server)), fault)
      invariant forall y :: y in byYear ==> y > year
      invariant progress == ProgressFile(byYear, total, progress0)
      decreases year - startYear + 1
    {
      var stop;
      byYear, total, progress, waits, stop :=
        VisitYear(year, startYear, limit, urlFor, server, fault, counter, byYear, total, progress, progress0, waits);
      if stop.Some? {
        finish := stop.value;
        break;
      }
      year := year - 1;
    }
    files, crashed := SaveFinalAtExit(byYear, total, progress, progress0);
    requests := counter.count;
  }

  /** One turn of the year loop: the budget check, then the year's scrape,
      which runs, raises (the year is skipped) or is interrupted. `stop`
      says how the walk ended when it ends at this year. */
  method VisitYear(year: int, startYear: int, limit: int, urlFor: int -> string,
                   server: int -> (string -> Response), fault: int -> Fault, counter: RequestCounter,
                   byYear: map<int, seq<Article>>, total: int, progress: Option<Progress>,
                   ghost progress0: Option<Progress>, ghost waits: nat)
    returns (byYear': map<int, seq<Article>>, total': int, progress': Option<Progress>, ghost waits': nat,
             stop: Option<Finish>)
    requires startYear <= year
    requires forall y :: y in byYear ==> y > year
    requires progress == ProgressFile(byYear, total, progress0)
    modifies counter
    ensures stop.None? ==> forall y :: y in byYear' ==> y > year - 1
    ensures progress' == ProgressFile(byYear', total', progress0)
    ensures AllYears(Walk(byYear, total, old(counter.count), waits), year, startYear, limit,
                     YearCrawls(Listings(urlFor, server)), fault) ==
      if stop.Some? then ByYearEnd(Walk(byYear', total', counter.count, waits'), stop.value)
      else AllYears(Walk(byYear', total', counter.count, waits'), year - 1, startYear, limit,
                    YearCrawls(Listings(urlFor, server)), fault)
  {
    byYear', total', progress', waits' := byYear, total, progress, waits;
    if counter.count >= limit {
      return byYear', total', progress', waits', Some(BudgetReached(year));
    }
    match fault(year) {
      case Runs =>
        byYear', total', waits' := RunOneYear(year, startYear, urlFor, server, counter, byYear, total, waits);
        progress' := SaveProgressAfter(byYear, total, progress, progress0, year, byYear'[year], total');
        stop := None;
      case Raises =>
        stop := None;
      case Interrupts =>
        stop := Some(UserInterrupt);
    }
  }
}
