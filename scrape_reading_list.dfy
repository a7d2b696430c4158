/** scripts/scrape_reading_list.py: download every reading-list entry,
    saving it under a file name built from its year and a sanitised
    title, and log one record per entry. The HTTP exchange is a parameter:
    what the server answered, or that the request timed out or raised. */
module ScrapeReadingList {
  import opened Common

  /** At most this many characters of the title go into a file name. */
  const TITLE_LIMIT: nat := 100

  /** The directory the files are saved in. The script creates it and
      never creates anything below it but files. */
  const OUTPUT_DIR := "data/reading_list_papers"

  // ---------------------------------------------------------------------
  // File names
  // ---------------------------------------------------------------------

  /** The characters a title keeps: letters, digits, space, `-` and `_`. */
  predicate Allowed(c: char) {
    IsAlnum(c) || c == ' ' || c == '-' || c == '_'
  }

  /** `c if c.isalnum() or c in (' ', '-', '_') else '_'` over a text. */
  function SafeChars(s: string): (r: string)
    ensures |r| == |s|
    ensures forall k :: 0 <= k < |s| ==> Allowed(r[k])
    ensures forall k :: 0 <= k < |s| ==> (r[k] == s[k] <==> Allowed(s[k]) || s[k] == '_')
    ensures forall k :: 0 <= k < |s| ==> !Allowed(s[k]) ==> r[k] == '_'
  {
    if s == [] then ""
    else [if Allowed(s[0]) then s[0] else '_'] + SafeChars(s[1..])
  }

  /** The sanitised title, cut to its first hundred characters. */
  function SafeTitle(title: string): string {
    SafeChars(title)[..Min(|title|, TITLE_LIMIT)]
  }

  /** The safe title is as long as the title up to the limit; every
      character of it is allowed and is the title's own character where
      that one is allowed, `_` elsewhere. */
  lemma SafeTitleProps(title: string)
    ensures |SafeTitle(title)| == Min(|title|, TITLE_LIMIT)
    ensures forall k :: 0 <= k < |SafeTitle(title)| ==> Allowed(SafeTitle(title)[k])
    ensures forall k :: 0 <= k < |SafeTitle(title)| ==>
      SafeTitle(title)[k] == (if Allowed(title[k]) then title[k] else '_')
  {
  }

  /** Sanitising a safe title changes nothing. */
  lemma SafeTitleIdempotent(title: string)
    ensures SafeTitle(SafeTitle(title)) == SafeTitle(title)
  {
    var t := SafeTitle(title);
    assert SafeChars(t) == t;
  }

  /** `pdf` when the lower-cased Content-Type mentions it, else `html`. */
  function Extension(contentType: string): string {
    if Contains(LowerStr(contentType), "pdf") then "pdf" else "html"
  }

  /** "pdf" in any mix of upper and lower case starts at position i. */
  predicate PdfAt(contentType: string, i: int) {
    0 <= i <= |contentType| - 3 && LowerStr(contentType[i..i + 3]) == "pdf"
  }

  /** The extension is `pdf` exactly when "pdf" occurs in the header in
      any mix of upper and lower case. */
  lemma ExtensionPdf(contentType: string)
    ensures Extension(contentType) == "pdf" <==> exists i :: PdfAt(contentType, i)
    ensures Extension(contentType) != "pdf" ==> Extension(contentType) == "html"
  {
    var l := LowerStr(contentType);
    forall i | 0 <= i <= |contentType| - 3
      ensures OccursAt(l, "pdf", i) <==> PdfAt(contentType, i)
    {
      var w := LowerStr(contentType[i..i + 3]);
      assert forall k :: 0 <= k < 3 ==> l[i..i + 3][k] == w[k];
      assert l[i..i + 3] == w;
    }
  }

  /** `f"{year}_{safe_title}.{ext}"` */
  function Filename(year: string, title: string, ext: string): string {
    year + "_" + SafeTitle(title) + "." + ext
  }

  /** Splitting the file name at dots gives back the stem and the
      extension: the safe title holds no dot. */
  lemma FilenameParts(year: string, title: string, contentType: string)
    requires Lacks(year, '.')
    ensures Split(Filename(year, title, Extension(contentType)), ".") ==
      [year + "_" + SafeTitle(title), Extension(contentType)]
  {
    var stem := year + "_" + SafeTitle(title);
    var ext := Extension(contentType);
    SafeTitleProps(title);
    assert Lacks(stem, '.') by {
      forall k | 0 <= k < |stem| ensures stem[k] != '.' {
        if k > |year| {
          assert stem[k] == SafeTitle(title)[k - |year| - 1];
        }
      }
    }
    SplitAt(stem, '.', ext);
    SplitLacking(ext, '.');
  }

  /** The file lands in the output directory: nothing but the year can
      bring a `/` into its name. */
  lemma FilenameStaysInDirectory(year: string, title: string, contentType: string)
    requires Lacks(year, '/')
    ensures Lacks(Filename(year, title, Extension(contentType)), '/')
  {
    var f := Filename(year, title, Extension(contentType));
    SafeTitleProps(title);
    forall k | 0 <= k < |f| ensures f[k] != '/' {
      if |year| < k < |year| + 1 + |SafeTitle(title)| {
        assert f[k] == SafeTitle(title)[k - |year| - 1];
      }
    }
  }

  // ---------------------------------------------------------------------
  // download_paper
  // ---------------------------------------------------------------------

  /** A reading-list entry; the year is its text as the file name shows it. */
  datatype Paper = Paper(title: string, authors: string, year: string, url: string)

  /** What the request came to: an answer with its status, Content-Type
      header (empty when absent) and body size, a timeout, or another
      exception with its message. */
  datatype Response =
    | Answered(status: nat, contentType: string, size: nat)
    | TimedOut
    | Raised(message: string)

  /** A saved file, or the error of a failed download. */
  datatype Outcome =
    | Saved(filename: string, fileType: string, sizeBytes: nat)
    | Failed(error: string)

  /** One record of the download log. */
  datatype Record = Record(title: string, authors: string, year: string, url: string, outcome: Outcome)

  /** The record's `status` field. */
  function Status(r: Record): string {
    if r.outcome.Saved? then "success" else "failed"
  }

  /** The path the file is opened at: `output_dir / filename`. */
  function FilePath(filename: string): string {
    OUTPUT_DIR + "/" + filename
  }

  /** `str(e)` of the FileNotFoundError that `open(filepath, 'wb')` raises
      when the file name holds a `/`: its part before the last `/` names a
      directory below the output directory, and none exists. */
  function MissingDirectoryError(filename: string): string {
    "[Errno 2] No such file or directory: '" + FilePath(filename) + "'"
  }

  /** download_paper: a file for a 200 answer whose file name can be
      opened, otherwise the error. The year goes into the file name
      unsanitised, so a year holding `/` (the reading list's default
      "N/A") makes `open()` raise, and the handler for other exceptions
      records the failure. */
  function Download(p: Paper, response: Response): Record {
    var outcome :=
      match response
      case Answered(status, contentType, size) =>
        if status == 200 then
          var ext := Extension(contentType);
          var filename := Filename(p.year, p.title, ext);
          if Lacks(p.year, '/') then Saved(filename, ext, size)
          else Failed(MissingDirectoryError(filename))
        else Failed("HTTP " + NatToString(status))
      case TimedOut => Failed("Timeout")
      case Raised(message) => Failed(message);
    Record(p.title, p.authors, p.year, p.url, outcome)
  }

  /** A download succeeds exactly when the answer is a 200 and the year
      holds no `/`; a 200 answer for such a year fails at the file; every
      record carries its entry. */
  lemma DownloadStatus(p: Paper, response: Response)
    ensures Status(Download(p, response)) == "success" <==>
      response.Answered? && response.status == 200 && Lacks(p.year, '/')
    ensures response.Answered? && response.status == 200 && !Lacks(p.year, '/') ==>
      Download(p, response).outcome ==
        Failed(MissingDirectoryError(Filename(p.year, p.title, Extension(response.contentType))))
    ensures Status(Download(p, response)) != "success" ==> Status(Download(p, response)) == "failed"
    ensures var r := Download(p, response);
      r.title == p.title && r.authors == p.authors && r.year == p.year && r.url == p.url
  {
  }

  /** A saved file's type is `pdf` or `html` and is the extension of its
      name; a refused answer's error names the status it came with. */
  lemma DownloadFile(p: Paper, response: Response)
    requires Lacks(p.year, '.')
    ensures var o := Download(p, response).outcome;
      o.Saved? ==> ((o.fileType == "pdf" || o.fileType == "html") &&
        |Split(o.filename, ".")| == 2 && Split(o.filename, ".")[1] == o.fileType)
    ensures var o := Download(p, response).outcome;
      response.Answered? && response.status != 200 ==>
        (o.Failed? && o.error[..5] == "HTTP " && DigitsValue(o.error[5..]) == response.status)
  {
    if response.Answered? {
      if response.status == 200 {
        FilenameParts(p.year, p.title, response.contentType);
        ExtensionPdf(response.contentType);
      } else {
        var e := "HTTP " + NatToString(response.status);
        assert e[5..] == NatToString(response.status);
        NatToStringRoundTrip(response.status);
      }
    }
  }

  // ---------------------------------------------------------------------
  // scrape_reading_list
  // ---------------------------------------------------------------------

  /** The download loop: one record per entry, in order, from the answer
      to that entry's request. */
  method ScrapeAll(papers: seq<Paper>, responses: seq<Response>) returns (results: seq<Record>)
    requires |responses| == |papers|
    ensures |results| == |papers|
    ensures forall i :: 0 <= i < |papers| ==> results[i] == Download(papers[i], responses[i])
  {
    results := [];
    for i := 0 to |papers|
      invariant |results| == i
      invariant forall j :: 0 <= j < i ==> results[j] == Download(papers[j], responses[j])
    {
      var result := Download(papers[i], responses[i]);
      results := results + [result];
    }
  }

  /** `sum(1 for r in results if r['status'] == 'success')` */
  function SuccessCount(results: seq<Record>): (n: nat)
    ensures n <= |results|
  {
    if results == [] then 0
    else SuccessCount(results[..|results| - 1]) + (if Status(results[|results| - 1]) == "success" then 1 else 0)
  }

  /** `sum(1 for r in results if r.get('file_type') == fileType)` */
  function FileTypeCount(results: seq<Record>, fileType: string): nat {
    if results == [] then 0
    else
      var r := results[|results| - 1];
      FileTypeCount(results[..|results| - 1], fileType) + (if r.outcome.Saved? && r.outcome.fileType == fileType then 1 else 0)
  }

  /** The entry's answer is a 200 and its year gives a file name in the
      output directory. */
  predicate Savable(p: Paper, r: Response) {
    r.Answered? && r.status == 200 && Lacks(p.year, '/')
  }

  /** The number of entries whose answer is a 200 and whose year holds
      no `/`. */
  function SavableCount(papers: seq<Paper>, responses: seq<Response>): nat
    requires |responses| == |papers|
  {
    if responses == [] then 0
    else
      var n := |responses| - 1;
      SavableCount(papers[..n], responses[..n]) + (if Savable(papers[n], responses[n]) then 1 else 0)
  }

  /** The printed summary: totals, and the PDF and HTML counts only when
      something was saved. */
  datatype Summary = Summary(total: nat, successful: nat, failed: int, pdfs: Option<nat>, htmls: Option<nat>)

  function Summarise(results: seq<Record>): Summary {
    var success := SuccessCount(results);
    if success > 0 then
      Summary(|results|, success, |results| - success, Some(FileTypeCount(results, "pdf")), Some(FileTypeCount(results, "html")))
    else Summary(|results|, success, |results| - success, None, None)
  }

  /** Successful and failed add up to the records, the failed count is
      never negative, and every success is a PDF or an HTML page. */
  lemma {:induction false} SummaryAddsUp(results: seq<Record>)
    requires forall i :: 0 <= i < |results| ==>
      results[i].outcome.Saved? ==> results[i].outcome.fileType == "pdf" || results[i].outcome.fileType == "html"
    ensures var s := Summarise(results);
      s.successful + s.failed == s.total == |results| && s.failed >= 0
    ensures var s := Summarise(results);
      s.pdfs.Some? <==> s.successful > 0
    ensures var s := Summarise(results);
      s.pdfs.Some? ==> s.htmls.Some? && s.pdfs.value + s.htmls.value == s.successful
  {
    FileTypesAddUp(results);
  }

  lemma {:induction false} FileTypesAddUp(results: seq<Record>)
    requires forall i :: 0 <= i < |results| ==>
      results[i].outcome.Saved? ==> results[i].outcome.fileType == "pdf" || results[i].outcome.fileType == "html"
    ensures FileTypeCount(results, "pdf") + FileTypeCount(results, "html") == SuccessCount(results)
  {
    if results != [] {
      FileTypesAddUp(results[..|results| - 1]);
    }
  }

  /** The successes are exactly the 200 answers for entries whose year
      holds no `/`. */
  lemma {:induction false} SuccessesAreOkAnswers(papers: seq<Paper>, responses: seq<Response>, results: seq<Record>)
    requires |responses| == |papers| == |results|
    requires forall i :: 0 <= i < |papers| ==> results[i] == Download(papers[i], responses[i])
    ensures SuccessCount(results) == SavableCount(papers, responses)
  {
    if results != [] {
      var n := |results| - 1;
      SuccessesAreOkAnswers(papers[..n], responses[..n], results[..n]);
      DownloadStatus(papers[n], responses[n]);
    }
  }

  /** The records of one run satisfy the summary's requirement. */
  lemma DownloadedTypes(papers: seq<Paper>, responses: seq<Response>, results: seq<Record>)
    requires |responses| == |papers| == |results|
    requires forall i :: 0 <= i < |papers| ==> results[i] == Download(papers[i], responses[i])
    ensures forall i :: 0 <= i < |results| ==>
      results[i].outcome.Saved? ==> results[i].outcome.fileType == "pdf" || results[i].outcome.fileType == "html"
  {
    forall i | 0 <= i < |results|
      ensures results[i].outcome.Saved? ==> results[i].outcome.fileType == "pdf" || results[i].outcome.fileType == "html"
    {
      if responses[i].Answered? {
        ExtensionPdf(responses[i].contentType);
      }
    }
  }

  /** An entry added to the reading list without a year carries "N/A",
      and its download fails whatever the server answers. */
  lemma DefaultYearFails(p: Paper, response: Response)
    requires p.year == "N/A"
    ensures Status(Download(p, response)) == "failed"
  {
    assert p.year[1] == '/';
  }

  // ---------------------------------------------------------------------
  // scrape_single_paper
  // ---------------------------------------------------------------------

  /** `next(p for p in papers if p['url'] == url)` as a position. */
  function FirstWithUrl(papers: seq<Paper>, url: string): (k: Option<nat>)
    ensures k.Some? ==> k.value < |papers| && papers[k.value].url == url
    ensures k.Some? ==> forall j :: 0 <= j < k.value ==> papers[j].url != url
    ensures k.None? ==> forall j :: 0 <= j < |papers| ==> papers[j].url != url
  {
    if papers == [] then None
    else if papers[0].url == url then Some(0)
    else
      match FirstWithUrl(papers[1..], url)
      case None => None
      case Some(k) => Some(k + 1)
  }

  /** The entry to download: by index when one is given, else by url,
      else none. */
  function SelectPaper(papers: seq<Paper>, paperIndex: Option<int>, paperUrl: Option<string>): Option<Paper> {
    if paperIndex.Some? then
      if 0 <= paperIndex.value < |papers| then Some(papers[paperIndex.value]) else None
    else if paperUrl.Some? then
      match FirstWithUrl(papers, paperUrl.value)
      case None => None
      case Some(k) => Some(papers[k])
    else None
  }

  /** An index selects exactly when it is in range, and selects that
      entry; a url selects exactly when some entry has it, and selects
      the first such; with neither nothing is selected. */
  lemma SelectPaperProps(papers: seq<Paper>, paperIndex: Option<int>, paperUrl: Option<string>)
    ensures paperIndex.Some? ==>
      (SelectPaper(papers, paperIndex, paperUrl).Some? <==> 0 <= paperIndex.value < |papers|)
    ensures paperIndex.Some? && SelectPaper(papers, paperIndex, paperUrl).Some? ==>
      SelectPaper(papers, paperIndex, paperUrl).value == papers[paperIndex.value]
    ensures paperIndex.None? && paperUrl.Some? ==>
      (SelectPaper(papers, paperIndex, paperUrl).Some? <==> exists k :: 0 <= k < |papers| && papers[k].url == paperUrl.value)
    ensures paperIndex.None? && paperUrl.Some? && SelectPaper(papers, paperIndex, paperUrl).Some? ==>
      exists k :: 0 <= k < |papers| && papers[k] == SelectPaper(papers, paperIndex, paperUrl).value &&
        papers[k].url == paperUrl.value && forall j :: 0 <= j < k ==> papers[j].url != paperUrl.value
    ensures paperIndex.None? && paperUrl.None? ==> SelectPaper(papers, paperIndex, paperUrl).None?
  {
  }

  /** scrape_single_paper: the record of the selected entry, or None when
      nothing is selected. */
  function ScrapeSingle(papers: seq<Paper>, paperIndex: Option<int>, paperUrl: Option<string>, response: Response): (r: Option<Record>)
    ensures r.Some? <==> SelectPaper(papers, paperIndex, paperUrl).Some?
    ensures r.Some? ==> r.value.url == SelectPaper(papers, paperIndex, paperUrl).value.url
    ensures r.Some? ==> r.value == Download(SelectPaper(papers, paperIndex, paperUrl).value, response)
  {
    match SelectPaper(papers, paperIndex, paperUrl)
    case None => None
    case Some(p) => Some(Download(p, response))
  }
}
