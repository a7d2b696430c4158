/** scripts/count_results_per_year.py: one count query per year, read from
    the "About X results" line, from any other "N results" text, or
    estimated from the pagination links, then a survey of all years with
    the total of the exact counts and a breakdown by decade. A request is
    an oracle from the year to what came back, with the markup already
    reduced to the texts the patterns captured. */
module CountResultsPerYear {
  import opened Common

  const RATE_LIMITED: string := "Rate limited"
  /** The text after the number of an estimated count. */
  const ESTIMATED_SUFFIX: string := "+ (estimated)"

  /** What the count request for one year came back with.
      RequestFailed: the request raised (connection error, timeout); its
      message. Response: the status; `errorText`, what the error raised by
      raise_for_status says (used for 4xx and 5xx statuses); `aboutGroup`,
      the digits and commas the "About X results" pattern captured in the
      statistics line, if that line exists and matches; `altGroups`, the
      numbers the "N results" pattern captured in the divs whose text
      mentions "result", in document order; `resultCount`, the number of
      result entries; `starts`, the numbers of the `start=N` links. */
  datatype CountResponse =
    | RequestFailed(message: string)
    | Response(status: int, errorText: string, aboutGroup: Option<string>,
               altGroups: seq<string>, resultCount: nat, starts: seq<nat>)

  /** The count of a year: none, an exact integer, or an estimate text. */
  datatype Count = NoCount | Exact(n: int) | Estimated(text: string)

  /** get_result_count either returns its triple or lets the ValueError of
      an unreadable "About" number escape. */
  datatype Outcome =
    | Returned(count: Count, hasResults: bool, error: Option<string>)
    | ValueErrorRaised

  /** `int(text.replace(',', ''))`, None where int() raises. */
  function ParseCount(g: string): Option<int> {
    PyInt(ReplaceAll(g, ",", ""))
  }

  // ---------------------------------------------------------------------
  // get_result_count
  // ---------------------------------------------------------------------

  /** The largest page a `start=N` link points to, at least 1. */
  function MaxPage(starts: seq<nat>): (m: nat)
    ensures m >= 1
    ensures forall i :: 0 <= i < |starts| ==> starts[i] / 10 + 1 <= m
    ensures m == 1 || exists i :: 0 <= i < |starts| && m == starts[i] / 10 + 1
  {
    if starts == [] then 1
    else
      var n := |starts| - 1;
      var before := MaxPage(starts[..n]);
      assert forall i :: 0 <= i < n ==> starts[..n][i] == starts[i];
      Max(before, starts[n] / 10 + 1)
  }

  /** The number of the first div whose number int() accepts. */
  function FirstInt(groups: seq<string>): Option<int> {
    if groups == [] then None
    else if ParseCount(groups[0]).Some? then ParseCount(groups[0])
    else FirstInt(groups[1..])
  }

  lemma {:induction false} FirstIntIsFirst(groups: seq<string>)
    ensures FirstInt(groups).Some? <==> exists i :: 0 <= i < |groups| && ParseCount(groups[i]).Some?
    ensures FirstInt(groups).Some? ==>
      exists i :: 0 <= i < |groups| && FirstInt(groups) == ParseCount(groups[i]) &&
        forall j :: 0 <= j < i ==> ParseCount(groups[j]).None?
  {
    if groups != [] && ParseCount(groups[0]).None? {
      var rest := groups[1..];
      FirstIntIsFirst(rest);
      assert forall i :: 0 <= i < |rest| ==> rest[i] == groups[i + 1];
      if FirstInt(groups).Some? {
        var i :| 0 <= i < |rest| && FirstInt(rest) == ParseCount(rest[i]) &&
          forall j :: 0 <= j < i ==> ParseCount(rest[j]).None?;
        assert FirstInt(groups) == ParseCount(groups[i + 1]);
        forall j | 0 <= j < i + 1 ensures ParseCount(groups[j]).None? {
          if j > 0 {
            assert ParseCount(rest[j - 1]).None?;
          }
        }
      } else {
        forall i | 0 <= i < |groups| ensures ParseCount(groups[i]).None? {
          if i > 0 {
            assert ParseCount(rest[i - 1]).None?;
          }
        }
      }
    }
  }

  /** The estimate text of a pagination reaching `maxPage`. */
  function EstimateText(maxPage: nat): string {
    "~" + NatToString(maxPage * 10) + ESTIMATED_SUFFIX
  }

  /** The count once the patterns are read: the number found, else, when
      there are results, an estimate from the pagination if it reaches past
      the first page. */
  function Estimate(hasResults: bool, found: Option<int>, starts: seq<nat>): Count {
    if found.Some? then Exact(found.value)
    else if hasResults && MaxPage(starts) > 1 then Estimated(EstimateText(MaxPage(starts)))
    else NoCount
  }

  /** get_result_count: 429 is reported as rate limiting, an error status
      or a failed request by its message, all with no count and no results;
      otherwise the "About" number, failing that the first "N results"
      number, failing that the pagination estimate. */
  function ResultCount(resp: CountResponse): (o: Outcome)
    ensures resp.RequestFailed? ==> o == Returned(NoCount, false, Some(resp.message))
    ensures resp.Response? && resp.status == 429 ==> o == Returned(NoCount, false, Some(RATE_LIMITED))
    ensures resp.Response? && resp.status != 429 && 400 <= resp.status < 600 ==>
      o == Returned(NoCount, false, Some(resp.errorText))
    ensures o.ValueErrorRaised? <==>
      resp.Response? && resp.status != 429 && !(400 <= resp.status < 600) &&
      resp.aboutGroup.Some? && ParseCount(resp.aboutGroup.value).None?
    ensures o.Returned? && o.error.None? ==> resp.Response? && (o.hasResults <==> resp.resultCount > 0)
    ensures o.Returned? && o.error.Some? ==> o.count == NoCount && !o.hasResults
  {
    match resp
    case RequestFailed(message) => Returned(NoCount, false, Some(message))
    case Response(status, errorText, aboutGroup, altGroups, resultCount, starts) =>
      if status == 429 then Returned(NoCount, false, Some(RATE_LIMITED))
      else if 400 <= status < 600 then Returned(NoCount, false, Some(errorText))
      else if aboutGroup.Some? && ParseCount(aboutGroup.value).None? then ValueErrorRaised
      else
        var about := if aboutGroup.Some? then ParseCount(aboutGroup.value) else None;
        var found := if about.Some? then about else FirstInt(altGroups);
        Returned(Estimate(resultCount > 0, found, starts), resultCount > 0, None)
  }

  /** An estimate is given only when there are results, neither pattern
      gave a number, and the pagination reaches past the first page; its
      number is ten times the largest page, at least 20, and reads back. */
  lemma EstimateOnlyWhenUncounted(resp: CountResponse)
    requires ResultCount(resp).Returned?
    ensures var o := ResultCount(resp);
      o.count.Estimated? <==>
        resp.Response? && o.error.None? && resp.resultCount > 0 &&
        (resp.aboutGroup.None? || ParseCount(resp.aboutGroup.value).None?) &&
        FirstInt(resp.altGroups).None? && MaxPage(resp.starts) > 1
    ensures var o := ResultCount(resp);
      o.count.Estimated? ==>
        var t := o.count.text;
        |t| > 1 + |ESTIMATED_SUFFIX| && t[0] == '~' &&
        t[|t| - |ESTIMATED_SUFFIX|..] == ESTIMATED_SUFFIX &&
        PyInt(t[1..|t| - |ESTIMATED_SUFFIX|]) == Some(10 * MaxPage(resp.starts)) &&
        10 * MaxPage(resp.starts) >= 20
  {
    if ResultCount(resp).count.Estimated? {
      assert ResultCount(resp).count.text == EstimateText(MaxPage(resp.starts));
      EstimateTextReadsBack(MaxPage(resp.starts));
    }
  }

  /** The estimate text of a pagination past page 1 is `~N+ (estimated)`
      whose N reads back as ten times the largest page, at least 20. */
  lemma EstimateTextReadsBack(maxPage: nat)
    requires maxPage > 1
    ensures var t := EstimateText(maxPage);
      |t| > 1 + |ESTIMATED_SUFFIX| && t[0] == '~' &&
      t[|t| - |ESTIMATED_SUFFIX|..] == ESTIMATED_SUFFIX &&
      PyInt(t[1..|t| - |ESTIMATED_SUFFIX|]) == Some(10 * maxPage) &&
      10 * maxPage >= 20
  {
    var digits := NatToString(maxPage * 10);
    var t := EstimateText(maxPage);
    assert t == "~" + digits + ESTIMATED_SUFFIX;
    assert t[1..|t| - |ESTIMATED_SUFFIX|] == digits;
    assert t[|t| - |ESTIMATED_SUFFIX|..] == ESTIMATED_SUFFIX;
    PyIntOfNat(maxPage * 10);
  }

  /** The pagination loop: the largest `start // 10 + 1`, at least 1. */
  method ScanPagination(starts: seq<nat>) returns (maxPage: nat)
    ensures maxPage == MaxPage(starts)
  {
    maxPage := 1;
    for i := 0 to |starts|
      invariant maxPage == MaxPage(starts[..i])
    {
      assert starts[..i + 1][..i] == starts[..i];
      var pageNum := starts[i] / 10 + 1;
      maxPage := Max(maxPage, pageNum);
    }
    assert starts[..|starts|] == starts;
  }

  /** The loop over the divs: the first number int() accepts. */
  method ScanDivs(groups: seq<string>) returns (count: Option<int>)
    ensures count == FirstInt(groups)
  {
    count := None;
    var i := 0;
    while i < |groups|
      invariant 0 <= i <= |groups|
      invariant FirstInt(groups[i..]) == FirstInt(groups)
    {
      var v := ParseCount(groups[i]);
      if v.Some? {
        count := v;
        return;
      }
      assert groups[i..][1..] == groups[i + 1..];
      i := i + 1;
    }
  }

  /** get_result_count with its loops. */
  method GetResultCount(resp: CountResponse) returns (o: Outcome)
    ensures o == ResultCount(resp)
  {
    if resp.RequestFailed? {
      return Returned(NoCount, false, Some(resp.message));
    }
    if resp.status == 429 {
      return Returned(NoCount, false, Some(RATE_LIMITED));
    }
    if 400 <= resp.status < 600 {
      return Returned(NoCount, false, Some(resp.errorText));
    }
    var resultCount: Option<int> := None;
    if resp.aboutGroup.Some? {
      resultCount := ParseCount(resp.aboutGroup.value);
      if resultCount.None? {
        return ValueErrorRaised;
      }
    }
    var hasResults := resp.resultCount > 0;
    if resultCount.None? {
      resultCount := ScanDivs(resp.altGroups);
    }
    var count: Count := if resultCount.Some? then Exact(resultCount.value) else NoCount;
    if hasResults && resultCount.None? {
      var maxPage := ScanPagination(resp.starts);
      if maxPage > 1 {
        count := Estimated(EstimateText(maxPage));
      }
    }
    return Returned(count, hasResults, None);
  }

  // ---------------------------------------------------------------------
  // survey_all_years
  // ---------------------------------------------------------------------

  /** The record kept for a year. */
  datatype YearEntry = YearEntry(count: Count, hasResults: bool, error: Option<string>)

  /** A returned triple with a non-empty error is recorded as an error; an
      empty message is falsy and the triple is recorded without it. */
  function EntryOf(count: Count, hasResults: bool, error: Option<string>): (e: YearEntry)
    ensures e.error.Some? <==> error.Some? && error.value != ""
    ensures e.error.Some? ==> e.count == NoCount && !e.hasResults && e.error == error
    ensures e.error.None? ==> e.count == count && e.hasResults == hasResults
  {
    if error.Some? && error.value != "" then YearEntry(NoCount, false, error)
    else YearEntry(count, hasResults, None)
  }

  /** The count of a year's entry that the totals add: exact counts only. */
  function IntCountAt(m: map<int, YearEntry>, y: int): int {
    if y in m && m[y].count.Exact? then m[y].count.n else 0
  }

  /** The sum of the exact counts of years lo .. hi. */
  function YearsTotal(m: map<int, YearEntry>, lo: int, hi: int): int
    decreases hi - lo
  {
    if lo > hi then 0 else IntCountAt(m, lo) + YearsTotal(m, lo + 1, hi)
  }

  /** Recording a year before `lo` leaves the total of lo .. hi alone. */
  lemma {:induction false} YearsTotalUpdate(m: map<int, YearEntry>, y: int, e: YearEntry, lo: int, hi: int)
    requires y < lo
    ensures YearsTotal(m[y := e], lo, hi) == YearsTotal(m, lo, hi)
    decreases hi - lo
  {
    if lo <= hi {
      YearsTotalUpdate(m, y, e, lo + 1, hi);
    }
  }

  /** The total of lo .. hi is the total of lo .. mid plus that of
      mid + 1 .. hi. */
  lemma {:induction false} YearsTotalSplit(m: map<int, YearEntry>, lo: int, mid: int, hi: int)
    requires lo - 1 <= mid <= hi
    ensures YearsTotal(m, lo, hi) == YearsTotal(m, lo, mid) + YearsTotal(m, mid + 1, hi)
    decreases mid - lo
  {
    if lo <= mid {
      YearsTotalSplit(m, lo + 1, mid, hi);
    }
  }

  /** The number of years lo .. hi whose entry has results. */
  function YearsWithResults(m: map<int, YearEntry>, lo: int, hi: int): nat
    decreases hi - lo
  {
    if lo > hi then 0
    else (if lo in m && m[lo].hasResults then 1 else 0) + YearsWithResults(m, lo + 1, hi)
  }

  /** The entries with results among the years lo .. hi. */
  function WithResults(m: map<int, YearEntry>, lo: int, hi: int): set<int> {
    set y | y in m && lo <= y <= hi && m[y].hasResults
  }

  /** years_with_results counts exactly the entries flagged as having
      results. */
  lemma {:induction false} YearsWithResultsCounts(m: map<int, YearEntry>, lo: int, hi: int)
    ensures YearsWithResults(m, lo, hi) == |WithResults(m, lo, hi)|
    decreases hi - lo
  {
    if lo > hi {
      assert WithResults(m, lo, hi) == {};
    } else {
      YearsWithResultsCounts(m, lo + 1, hi);
      var rest := WithResults(m, lo + 1, hi);
      assert lo !in rest;
      if lo in m && m[lo].hasResults {
        assert WithResults(m, lo, hi) == rest + {lo};
      } else {
        assert WithResults(m, lo, hi) == rest;
      }
    }
  }

  /** hi, hi - 1, ..., the first n years counting down from hi. */
  function Descending(hi: int, n: nat): (ys: seq<int>)
    ensures |ys| == n
    ensures forall i :: 0 <= i < n ==> ys[i] == hi - i
  {
    if n == 0 then [] else Descending(hi, n - 1) + [hi - (n - 1)]
  }

  /** One line of the decade breakdown: its years and their exact total. */
  datatype Decade = Decade(first: int, last: int, total: int)

  /** The number of decades of start .. end. */
  function NumDecades(startYear: int, endYear: int): nat {
    if startYear <= endYear then CeilDiv(endYear - startYear + 1, 10) else 0
  }

  /** Decade k starts at start_year + 10k and ends 9 years later or at
      end_year, whichever is first. */
  function DecadeAt(m: map<int, YearEntry>, startYear: int, endYear: int, k: nat): Decade {
    var first := startYear + 10 * k;
    var last := Min(first + 9, endYear);
    Decade(first, last, YearsTotal(m, first, last))
  }

  function TotalOf(ds: seq<Decade>): int {
    if ds == [] then 0 else TotalOf(ds[..|ds| - 1]) + ds[|ds| - 1].total
  }

  /** What the survey ends with. */
  datatype SurveyOutcome =
    | Completed(resultsByYear: map<int, YearEntry>, totalResults: int, queried: seq<int>,
                sleptAfter: seq<int>, yearsWithResults: nat, decades: seq<Decade>)
    | Crashed(year: int, queried: seq<int>)

  /** get_result_count over the responses of the year queries. */
  function Query(probe: int -> CountResponse): int -> Outcome {
    y => ResultCount(probe(y))
  }

  /** Whether the query for `y` lets a ValueError escape. */
  predicate Raises(probe: int -> CountResponse, y: int) {
    Query(probe)(y).ValueErrorRaised?
  }

  /** The decade breakdown loop. */
  method DecadeTotals(m: map<int, YearEntry>, startYear: int, endYear: int) returns (decades: seq<Decade>)
    ensures |decades| == NumDecades(startYear, endYear)
    ensures forall k :: 0 <= k < |decades| ==> decades[k] == DecadeAt(m, startYear, endYear, k)
  {
    decades := [];
    var decadeStart := startYear;
    while decadeStart <= endYear
      invariant decadeStart == startYear + 10 * |decades|
      invariant |decades| == 0 || startYear + 10 * (|decades| - 1) <= endYear
      invariant forall k :: 0 <= k < |decades| ==> decades[k] == DecadeAt(m, startYear, endYear, k)
      decreases endYear - decadeStart
    {
      var decadeEnd := Min(decadeStart + 9, endYear);
      decades := decades + [Decade(decadeStart, decadeEnd, YearsTotal(m, decadeStart, decadeEnd))];
      decadeStart := decadeStart + 10;
    }
    if startYear <= endYear {
      var n := endYear - startYear + 1;
      var q := CeilDiv(n, 10);
      assert |decades| * 10 >= n && (|decades| - 1) * 10 < n;
      assert q * 10 >= n && (q == 0 || (q - 1) * 10 < n);
    }
  }

  /** Decade k covers exactly the years of start .. end whose offset from
      start_year divided by 10 is k, so the decades partition the years. */
  lemma DecadesPartition(m: map<int, YearEntry>, startYear: int, endYear: int, k: nat, y: int)
    requires k < NumDecades(startYear, endYear)
    ensures var d := DecadeAt(m, startYear, endYear, k);
      d.first <= y <= d.last <==> startYear <= y <= endYear && (y - startYear) / 10 == k
  {
    var n := endYear - startYear + 1;
    assert (k - 1) * 10 < n by {
      assert k <= CeilDiv(n, 10) - 1;
    }
  }

  /** The decade totals add up to the total of all the years. */
  lemma {:induction false} DecadeTotalsSum(m: map<int, YearEntry>, startYear: int, endYear: int, ds: seq<Decade>)
    requires |ds| <= NumDecades(startYear, endYear)
    requires forall k :: 0 <= k < |ds| ==> ds[k] == DecadeAt(m, startYear, endYear, k)
    ensures TotalOf(ds) == YearsTotal(m, startYear, Min(startYear + 10 * |ds| - 1, endYear))
  {
    if ds != [] {
      var k := |ds| - 1;
      var p := ds[..k];
      assert forall j :: 0 <= j < k ==> p[j] == ds[j];
      DecadeTotalsSum(m, startYear, endYear, p);
      DecadesPartition(m, startYear, endYear, k, startYear + 10 * k);
      YearsTotalSplit(m, startYear, startYear + 10 * k - 1, Min(startYear + 10 * k + 9, endYear));
    }
  }

  /** Year `y` of `m` records what the query for it returned. */
  predicate Recorded(query: int -> Outcome, m: map<int, YearEntry>, y: int)
    requires y in m
  {
    query(y).Returned? && m[y] == EntryOf(query(y).count, query(y).hasResults, query(y).error)
  }

  /** The loop's record after querying years lo .. hi: exactly those
      years have entries, each the one its answer gives, and total is the
      sum of their exact counts. */
  ghost predicate QueriedDown(query: int -> Outcome, m: map<int, YearEntry>, total: int, lo: int, hi: int) {
    (forall y :: y in m <==> lo <= y <= hi) &&
    (forall y :: y in m ==> Recorded(query, m, y)) &&
    total == YearsTotal(m, lo, hi)
  }

  /** Every year of the record returned. */
  lemma QueriedReturned(query: int -> Outcome, m: map<int, YearEntry>, total: int, lo: int, hi: int)
    requires QueriedDown(query, m, total, lo, hi)
    ensures forall y :: lo <= y <= hi ==> query(y).Returned?
  {
    forall y | lo <= y <= hi ensures query(y).Returned? {
      assert y in m && Recorded(query, m, y);
    }
  }

  /** Recording year lo - 1, which returned, extends the record down to it. */
  lemma QueryStep(query: int -> Outcome, m: map<int, YearEntry>, total: int, year: int, hi: int,
                  entry: YearEntry, added: int)
    requires year <= hi && QueriedDown(query, m, total, year + 1, hi)
    requires query(year).Returned?
    requires entry == EntryOf(query(year).count, query(year).hasResults, query(year).error)
    requires added == if entry.count.Exact? then entry.count.n else 0
    ensures QueriedDown(query, m[year := entry], total + added, year, hi)
  {
    var m' := m[year := entry];
    YearsTotalUpdate(m, year, entry, year + 1, hi);
    assert IntCountAt(m', year) == added;
    assert YearsTotal(m', year, hi) == added + YearsTotal(m', year + 1, hi);
    forall y | y in m' ensures Recorded(query, m', y) {
      if y != year { assert Recorded(query, m, y); }
    }
  }

  /** The record and the sleeps once years lo .. endYear are queried: a
      sleep followed every one of them but start_year. */
  ghost predicate Surveyed(query: int -> Outcome, startYear: int, endYear: int, lo: int,
                           m: map<int, YearEntry>, total: int, sleptAfter: seq<int>) {
    lo <= endYear + 1 &&
    QueriedDown(query, m, total, lo, endYear) &&
    sleptAfter == Descending(endYear, Min(endYear - lo + 1, Max(endYear - startYear, 0)))
  }

  /** Once the loop has run down past start_year, every year of
      start .. end is recorded, every query returned, and a sleep followed
      every year but start_year. */
  lemma SurveyedAll(query: int -> Outcome, startYear: int, endYear: int,
                    m: map<int, YearEntry>, total: int, sleptAfter: seq<int>)
    requires Surveyed(query, startYear, endYear, endYear - Max(endYear - startYear + 1, 0) + 1, m, total, sleptAfter)
    ensures forall y :: y in m <==> startYear <= y <= endYear
    ensures forall y :: y in m ==> Recorded(query, m, y)
    ensures total == YearsTotal(m, startYear, endYear)
    ensures sleptAfter == Descending(endYear, Max(endYear - startYear, 0))
    ensures forall y :: startYear <= y <= endYear ==> query(y).Returned?
  {
    var lo := endYear - Max(endYear - startYear + 1, 0) + 1;
    QueriedReturned(query, m, total, lo, endYear);
    if startYear > endYear {
      assert YearsTotal(m, startYear, endYear) == 0 == YearsTotal(m, lo, endYear);
    }
  }

  /** One turn of the query loop, for year endYear - i: the query, then,
      unless it raises ValueError, the year's entry (an error without a
      count, anything else with its count), an exact count added to the
      total, and a sleep unless the year is start_year. */
  method QueryTurn(query: int -> Outcome, startYear: int, endYear: int, i: nat,
                   resultsByYear: map<int, YearEntry>, totalResults: int, queried: seq<int>,
                   sleptAfter: seq<int>)
    returns (resultsByYear': map<int, YearEntry>, totalResults': int, queried': seq<int>,
             sleptAfter': seq<int>, raised: bool)
    requires startYear <= endYear - i
    requires queried == Descending(endYear, i)
    requires Surveyed(query, startYear, endYear, endYear - i + 1, resultsByYear, totalResults, sleptAfter)
    ensures queried' == Descending(endYear, i + 1)
    ensures raised <==> query(endYear - i).ValueErrorRaised?
    ensures raised ==> forall y :: endYear - i < y <= endYear ==> query(y).Returned?
    ensures !raised ==>
      Surveyed(query, startYear, endYear, endYear - i, resultsByYear', totalResults', sleptAfter')
  {
    var year := endYear - i;
    queried' := queried + [year];
    resultsByYear', totalResults', sleptAfter' := resultsByYear, totalResults, sleptAfter;
    var o := query(year);
    if o.ValueErrorRaised? {
      QueriedReturned(query, resultsByYear, totalResults, year + 1, endYear);
      return resultsByYear', totalResults', queried', sleptAfter', true;
    }
    raised := false;
    var entry: YearEntry;
    if o.error.Some? && o.error.value != "" {
      entry := YearEntry(NoCount, false, o.error);
    } else {
      entry := YearEntry(o.count, o.hasResults, None);
      if o.count.Exact? {
        totalResults' := totalResults + o.count.n;
      }
    }
    QueryStep(query, resultsByYear, totalResults, year, endYear, entry, totalResults' - totalResults);
    resultsByYear' := resultsByYear[year := entry];
    if year > startYear {
      sleptAfter' := sleptAfter + [year];
    }
  }

  /** The query loop of survey_all_years, with `query(y)` what
      get_result_count returns for year y: from end_year down to
      start_year, one entry per year, the exact counts added up, a sleep
      after every year but the oldest; a ValueError ends the loop at its
      year. */
  method QueryYears(startYear: int, endYear: int, query: int -> Outcome)
    returns (resultsByYear: map<int, YearEntry>, totalResults: int, queried: seq<int>,
             sleptAfter: seq<int>, crashed: Option<int>)
    ensures crashed.Some? <==> exists y :: startYear <= y <= endYear && query(y).ValueErrorRaised?
    ensures crashed.Some? ==>
      startYear <= crashed.value <= endYear && query(crashed.value).ValueErrorRaised? &&
      (forall y :: crashed.value < y <= endYear ==> query(y).Returned?) &&
      queried == Descending(endYear, endYear - crashed.value + 1)
    ensures crashed.None? ==>
      (forall y :: y in resultsByYear <==> startYear <= y <= endYear) &&
      (forall y :: y in resultsByYear ==> Recorded(query, resultsByYear, y)) &&
      totalResults == YearsTotal(resultsByYear, startYear, endYear) &&
      queried == Descending(endYear, Max(endYear - startYear + 1, 0)) &&
      sleptAfter == Descending(endYear, Max(endYear - startYear, 0))
  {
    var n := Max(endYear - startYear + 1, 0);
    resultsByYear := map[];
    totalResults := 0;
    queried := [];
    sleptAfter := [];
    for i := 0 to n
      invariant queried == Descending(endYear, i)
      invariant Surveyed(query, startYear, endYear, endYear - i + 1, resultsByYear, totalResults, sleptAfter)
    {
      var raised;
      resultsByYear, totalResults, queried, sleptAfter, raised :=
        QueryTurn(query, startYear, endYear, i, resultsByYear, totalResults, queried, sleptAfter);
      if raised {
        crashed := Some(endYear - i);
        return;
      }
    }
    SurveyedAll(query, startYear, endYear, resultsByYear, totalResults, sleptAfter);
    crashed := None;
  }

  /** survey_all_years: the query loop over get_result_count, then the
      number of years with results and the breakdown by decade. */
  method SurveyAllYears(startYear: int, endYear: int, probe: int -> CountResponse)
    returns (outcome: SurveyOutcome)
    ensures outcome.Crashed? <==> exists y :: startYear <= y <= endYear && Raises(probe, y)
    ensures outcome.Crashed? ==>
      startYear <= outcome.year <= endYear && Raises(probe, outcome.year) &&
      (forall y :: outcome.year < y <= endYear ==> !Raises(probe, y)) &&
      outcome.queried == Descending(endYear, endYear - outcome.year + 1)
    ensures outcome.Completed? ==>
      var m := outcome.resultsByYear;
      (forall y :: y in m <==> startYear <= y <= endYear) &&
      (forall y :: y in m ==> Recorded(Query(probe), m, y)) &&
      outcome.totalResults == YearsTotal(m, startYear, endYear) &&
      outcome.queried == Descending(endYear, Max(endYear - startYear + 1, 0)) &&
      outcome.sleptAfter == Descending(endYear, Max(endYear - startYear, 0)) &&
      outcome.yearsWithResults == |WithResults(m, startYear, endYear)| &&
      |outcome.decades| == NumDecades(startYear, endYear) &&
      (forall k :: 0 <= k < |outcome.decades| ==> outcome.decades[k] == DecadeAt(m, startYear, endYear, k))
  {
    var resultsByYear, totalResults, queried, sleptAfter, crashed := QueryYears(startYear, endYear, Query(probe));
    if crashed.Some? {
      assert Raises(probe, crashed.value);
      return Crashed(crashed.value, queried);
    }
    var yearsWithResults := YearsWithResults(resultsByYear, startYear, endYear);
    YearsWithResultsCounts(resultsByYear, startYear, endYear);
    var decades := DecadeTotals(resultsByYear, startYear, endYear);
    return Completed(resultsByYear, totalResults, queried, sleptAfter, yearsWithResults, decades);
  }

  /** The decade totals of a survey add up to its total. */
  lemma SurveyDecadesAddUp(m: map<int, YearEntry>, startYear: int, endYear: int, decades: seq<Decade>)
    requires |decades| == NumDecades(startYear, endYear)
    requires forall k :: 0 <= k < |decades| ==> decades[k] == DecadeAt(m, startYear, endYear, k)
    ensures TotalOf(decades) == YearsTotal(m, startYear, endYear)
  {
    DecadeTotalsSum(m, startYear, endYear, decades);
    if startYear > endYear {
      assert decades == [];
    }
  }
}
