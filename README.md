# Mental rotation literature toolkit — a Dafny model

This project models, in Dafny, the deterministic core of a small research
toolkit that collects and tidies publications on mental rotation. The toolkit
scrapes Google Scholar result pages, keeps a resumable progress checkpoint,
merges new results into a collection with the article URL as the key, plans
year ranges under a result budget, and keeps a reading list of papers. It also
formats citations, downloads papers and extracts their text, and runs a
pipeline that cleans the table and writes prompts for language-model analysis.

The HTTP layer and the HTML parser are replaced by oracles. A request becomes
a function from a URL (or a page number, or a year) to what came back: a
status with the results already reduced to the texts each field parser is
handed, a timeout, or a network error. Clocks and random delays are
parameters. Files become fields of classes (the reading list, the citations
file, the data directory) or values returned by methods (the progress
record, the complete dataset).

One module per source file:

- `ScrapeAsync`, `ScrapeContinuous`, `ScrapeByYear`, `ScrapeScholar`,
  `UpdateCurrentYear` and `TestScraper2025` model the scrapers. They cover
  the page-count arithmetic, the `&start=` offset URLs and the field parsers
  (the authors/venue/year line and the `Cited by N` count). They also cover
  the page loops: stop after two consecutive empty pages, count every
  request and respect the session budget. The year worklist sessions, the
  progress checkpoint with its resume round trip, and the merge that skips
  URLs already in the collection are modelled too.
- `CalculateRanges` and `CountResultsPerYear` model the planners. They cover
  the count parsers, the greedy grouping of years into contiguous ranges
  under a budget, and the decade totals.
- `ManageReadingList`, `AddCitations`, `AddGsUrls`, `ScrapeReadingList` and
  `ExtractPaperText` model the reading-list tools.
- `PipelineTasks` and `MlTasks` model the pipeline. They cover cleaning with
  keep-first deduplication and a sort on citations, keyword and first-author
  counts, the text cleaner, the simple features, and the choice and count of
  prompts.
- `Common` holds the Python string and ordering semantics the scripts rely
  on (`strip`, `split`, `join`, `count`, `replace`, `lower`, `int()`, string
  comparison, stable sorting and `nlargest`).

Loops in the source are methods with loop invariants. Each is proved equal to
a specification function, and the properties are proved as lemmas about that
function. Objects whose state the scripts update in place are classes.
Examples are the shared request counters, the rate limiters and the
checkpointing crawler.

The total-count patterns of scripts/update_current_year.py:152,157 are raw
strings with doubled backslashes. They therefore match only literal backslash
characters, and the model follows the code on this. The only text a group
can capture then consists of backslashes, the letters `d` and `D`, and commas,
and `int()` raises on all of it. So, as written, the monthly update *never*
detects a total and always scrapes its 10 fallback pages
(`UpdateCurrentYear.TotalNeverDetected`, `UpdateCurrentYear.AlwaysFallbackPages`).
This is stronger than "normally". The other scrapers use the intended
patterns.

## Model

| member | source | states |
|---|---|---|
| Common.LowerStr | pipeline/ml_tasks.py:58 | `str.lower()` keeps the length and lowers each ASCII capital, leaving every other character alone |
| Common.Strip | scripts/scrape_async.py:115-116 | `str.strip()` leaves no whitespace at either end and never lengthens the text |
| Common.Find | scripts/scrape_async.py:113 | the first occurrence of a separator: it occurs there and nowhere earlier |
| Common.SplitJoin | scripts/scrape_async.py:113 | joining the parts of `split(sep)` with `sep` gives back the text |
| Common.NatToStringRoundTrip | scripts/scrape_async.py:141-142 | a count printed and read back with int() is the count again |
| Common.NatToStringInjective | scripts/scrape_async.py:141-142 | different counts print differently |
| Common.PyIntOfNat | scripts/scrape_async.py:142 | int() accepts a printed count and gives it back |
| Common.PyIntUnderscore | scripts/manage_reading_list.py:137 | int() accepts a single underscore between two digit strings and reads the digits as one number, so the answer `1_2` reads as 12 and names the row at index 11 |
| Common.CeilDiv | scripts/scrape_async.py:259 | `(total + 9) // 10` is the least number of ten-result pages that hold every result |
| Common.LexLeTotal | scripts/update_current_year.py:218 | any two file names compare one way or the other under Python's string order |
| Common.LexLeTransitive | scripts/update_current_year.py:218 | the order is transitive |
| Common.LexLeAntisymmetric | scripts/update_current_year.py:218 | names that compare both ways are equal, so `max` is well defined |
| Common.RemoveFirst | scripts/scrape_continuous.py:327 | `list.remove(y)` drops one copy of a present y and keeps every other element |
| Common.FirstIndex | scripts/scrape_continuous.py:327 | the position of the first copy of y: it holds y and no earlier position does |
| Common.RemoveFirstSplits | scripts/scrape_continuous.py:327 | `list.remove(y)` takes out exactly the first copy of y and keeps the elements before and after it in order |
| Common.RemoveFirstDistinct | scripts/scrape_continuous.py:299-327 | on a list without repeats, y is gone afterwards and no repeat appears |
| Common.ConcatAppend | test/test_scraper_2025.py:216 | extending the collection page by page concatenates the pages |
| Common.SortDescProps | pipeline/ml_tasks.py:407-408 | sorting by citations, largest first, is a permutation, ordered, and keeps papers with equal counts in table order |
| Common.Take | pipeline/ml_tasks.py:552 | `head(k)` is the first min(k, n) elements, none for a count that is not positive |
| Common.TopKProps | pipeline/ml_tasks.py:407-408 | `nlargest(k)` picks min(k, n) of the rows, largest first, none cited less than a row it passes over, and together with those it passes over they are the whole table |
| Common.TopKHead | pipeline/ml_tasks.py:541-552 | the first five of the twenty most cited are the five most cited |
| Common.Words | pipeline/ml_tasks.py:62 | `split()` gives non-empty words without whitespace |
| Common.CollapseStrip | pipeline/ml_tasks.py:62 | collapsing whitespace runs and stripping the ends is `' '.join(text.split())` |
| Common.JoinSingleSpaced | pipeline/ml_tasks.py:62 | words joined with one space leave no leading, trailing or double space |
| Common.WordsOfJoin | pipeline/ml_tasks.py:62 | splitting words joined with a space gives back the words |
| AddCitations.ApaInjective | scripts/add_citations.py:10-24 | for authors without `(` and a year without `)`, an APA citation determines the authors, the year and the title |
| AddCitations.ChicagoInjective | scripts/add_citations.py:27-35 | for authors and a title without a double quote, a Chicago citation determines the authors, the title and the year |
| AddCitations.MarkdownInjective | scripts/add_citations.py:59-68 | for authors without `*`, a year without `)` and a title without `]`, a Markdown citation determines all four fields, the url included |
| AddCitations.MarkdownTail | scripts/add_citations.py:59-68 | the part of a Markdown citation after the authors determines the year, the title and the url |
| AddCitations.BibKeyProps | scripts/add_citations.py:41-43 | the key word is missing (the IndexError) exactly when the name part it comes from is blank; otherwise it is a non-empty word without spaces, and the key is that word lowercased followed by the year; the comma branch reads the text before the first comma |
| AddCitations.BibtexLayout | scripts/add_citations.py:38-56 | for single-line fields the entry splits into exactly six lines: `@article{key,`, then author, title, year and url fields, then `}` |
| AddCitations.BibtexLinesOneLine | scripts/add_citations.py:49-54 | each of the six lines of the entry is a single line when the key and the fields are |
| AddCitations.CiteProps | scripts/add_citations.py:78-87 | an entry can be cited exactly when its key can be made; citing sets the four formats, keeps every other field and every other key of an existing `citations_formatted`, and citing again gives the same entry |
| AddCitations.CiteAllProps | scripts/add_citations.py:78-87 | citing the whole list succeeds exactly when every entry has a key, and then entry i of the result is entry i cited |
| AddCitations.CiteAllIdempotent | scripts/add_citations.py:71-96 | running add_citations_to_all on its own output changes nothing |
| AddCitations.CitationsFile.constructor | scripts/add_citations.py:73-74 | the file holds the reading list as loaded |
| AddCitations.CitationsFile.AddCitationsToAll | scripts/add_citations.py:71-96 | the list is saved exactly when every entry can be cited, and then holds every entry cited; an entry without a key leaves the file as it was |
| AddCitations.ExportCitations | scripts/add_citations.py:99-116 | the text written is the export of the list: blocks in order, numbered from 1 unless BibTeX, stopping at the first entry lacking the format |
| AddCitations.ExportStops | scripts/add_citations.py:106-114 | once an entry lacks the format, nothing further is written |
| AddCitations.ExportComplete | scripts/add_citations.py:106-114 | when every entry has the format, the export is complete and is the blocks of their citations |
| AddCitations.LookupCited | scripts/add_citations.py:84-87 | a cited entry holds each of the four formats as generated |
| AddCitations.ExportAfterCite | scripts/add_citations.py:71-116 | after add_citations_to_all has saved, every one of the four formats exports completely: entry i's citation, numbered i + 1 unless BibTeX |
| AddGsUrls.Utf8 | scripts/add_gs_urls.py:36 | `quote` encodes a character as its one to four UTF-8 bytes, each below 256; ASCII characters are their own single byte |
| AddGsUrls.HexDigit | scripts/add_gs_urls.py:36 | the upper-case hexadecimal digit of a value below 16 reads back as that value |
| AddGsUrls.PercentByte | scripts/add_gs_urls.py:36 | a byte is encoded as `%` followed by two hexadecimal digits |
| AddGsUrls.QuoteAlphabet | scripts/add_gs_urls.py:36 | the encoded query consists only of unreserved characters, `/` and `%`, and is no shorter than the query |
| AddGsUrls.QuoteCharAlphabet | scripts/add_gs_urls.py:36 | one encoded character uses only safe characters and `%` |
| AddGsUrls.PercentBytesAlphabet | scripts/add_gs_urls.py:36 | percent-encoding n bytes gives 3n safe characters or `%` |
| AddGsUrls.UnquoteChar | scripts/add_gs_urls.py:36 | percent-decoding one encoded ASCII character gives the character back |
| AddGsUrls.QuoteRoundTrip | scripts/add_gs_urls.py:36 | percent-decoding undoes `quote` on ASCII text |
| AddGsUrls.LastNameIsLastWord | scripts/add_gs_urls.py:23-30 | the last name is the last word of the first author in both branches, non-empty and without spaces; it is missing (the IndexError) exactly when the first author is blank |
| AddGsUrls.GsUrlDecodes | scripts/add_gs_urls.py:11-41 | the url is the Scholar search prefix followed by the encoded query, and decoding the part after the prefix gives `last_name "title"` back for ASCII input |
| AddGsUrls.LastNameAscii | scripts/add_gs_urls.py:23-30 | the last name drawn from ASCII authors is ASCII |
| AddGsUrls.GsFile.AddGsUrls | scripts/add_gs_urls.py:44-80 | the list is saved exactly when every entry gets a url, and then each entry carries its url and the count is the number of entries; a raising entry leaves the file as it was |
| AddGsUrls.UpdateEntries | scripts/add_gs_urls.py:56-72 | the loop sets the url of every entry in turn; when an entry raises, the count is the number of entries done before it |
| AddGsUrls.DisplayAfterAdd | scripts/add_gs_urls.py:83-102 | before the urls are added an entry shows the generated url; afterwards it shows the same url as stored |
| AddGsUrls.AddGsUrlsIdempotent | scripts/add_gs_urls.py:44-76 | running the script a second time stores the same urls again |
| AddGsUrls.GsFile.constructor | scripts/add_gs_urls.py:48-49 | the file holds the reading list as loaded |
| ExtractPaperText.CleanTextIsJoinWords | scripts/extract_paper_text.py:12-18 | replacing every whitespace run by one space and stripping gives the words of the text joined by single spaces |
| ExtractPaperText.CleanTextSingleSpaced | scripts/extract_paper_text.py:12-18 | cleaned text has no whitespace at either end, no two whitespace characters side by side and no whitespace other than the space |
| ExtractPaperText.CleanTextKeepsText | scripts/extract_paper_text.py:12-18 | cleaning keeps every non-whitespace character, in order |
| ExtractPaperText.CleanTextIdempotent | scripts/extract_paper_text.py:12-18 | cleaning cleaned text changes nothing |
| ExtractPaperText.LastDot | scripts/extract_paper_text.py:73 | the position found is a dot with no dot after it; None exactly when the name has no dot |
| ExtractPaperText.TextFileName | scripts/extract_paper_text.py:55-73 | a page `stem.html` gets its text saved as `stem.txt` for every non-empty stem, including stems that hold dots such as `2020.0_Title` |
| ExtractPaperText.Preview | scripts/extract_paper_text.py:82 | text of at most 200 characters is its own preview; longer text gives its first 200 characters followed by three dots |
| ExtractPaperText.ExtractAll | scripts/extract_paper_text.py:64-90 | the summary entries are those of the pages with non-empty extracted text, in page order |
| ExtractPaperText.EntriesCount | scripts/extract_paper_text.py:71-83 | one entry per page with text, never more entries than pages; each entry counts at least one word and no more words than characters |
| ExtractPaperText.EntryBounds | scripts/extract_paper_text.py:77-83 | an entry's word count lies between one and its text length |
| ExtractPaperText.WordCountBounds | scripts/extract_paper_text.py:81 | a non-empty text that starts with a non-space has between one word and as many words as characters |
| ExtractPaperText.Main | scripts/extract_paper_text.py:46-101 | nothing is reported when no HTML page is found; otherwise the number of pages processed and at most that many successes |
| CalculateRanges.RateLimiter.constructor | scripts/calculate_ranges.py:17-22 | a limiter starts with the given delay bounds and no previous request |
| CalculateRanges.RateLimiter.Acquire | scripts/calculate_ranges.py:24-34 | the delay drawn lies between delay_min and delay_max; the limiter waits out what remains of it since the previous request, so the recorded request time is at least the previous one plus the delay |
| CalculateRanges.RangeTotal | scripts/calculate_ranges.py:40-75 | a 429 or a raised error gives no total; a "Page X of Y results" capture gives its number |
| CalculateRanges.CountOf | scripts/calculate_ranges.py:102 | a missing or zero total is recorded as 0; any other total is recorded as it is |
| CalculateRanges.DropCommasDigits | scripts/calculate_ranges.py:68-70 | removing the commas from the "About" capture leaves only digits |
| CalculateRanges.PyIntOfDigits | scripts/calculate_ranges.py:65-70 | int() of a digit string is its decimal value, and raises on the empty string |
| CalculateRanges.CountNonNegative | scripts/calculate_ranges.py:63-102 | since the patterns capture digits (and commas), a recorded count is never negative |
| CalculateRanges.ChainedSnoc | scripts/calculate_ranges.py:115-116 | closing a range that starts where the previous one ended extends the chain of ranges |
| CalculateRanges.ChainedTiles | scripts/calculate_ranges.py:107-123 | a chain of ranges covers its years without gap or overlap, in ascending order |
| CalculateRanges.AllClosedAt | scripts/calculate_ranges.py:114-117 | every range the loop has closed stays a closed range |
| CalculateRanges.OpenExtend | scripts/calculate_ranges.py:118-119 | a year that does not meet the closing condition keeps the range open |
| CalculateRanges.CloseKeeps | scripts/calculate_ranges.py:114-117 | a year that meets the closing condition closes the range before it and opens a new range holding its own count |
| CalculateRanges.JoinKeeps | scripts/calculate_ranges.py:118-119 | a year that joins the open range keeps it open and adds its count to the running total |
| CalculateRanges.GroupInvariant | scripts/calculate_ranges.py:107-119 | after each year the running total is the sum of the open range's counts and the closed ranges are closed ranges |
| CalculateRanges.OpenStart | scripts/calculate_ranges.py:108-116 | after at least one year the open range starts at a year already seen |
| CalculateRanges.StepKeeps | scripts/calculate_ranges.py:111-119 | one iteration of the grouping loop keeps its invariant |
| CalculateRanges.CloseStep | scripts/calculate_ranges.py:114-117 | the closing branch keeps the invariant |
| CalculateRanges.JoinStep | scripts/calculate_ranges.py:118-119 | the joining branch keeps the invariant |
| CalculateRanges.GroupChained | scripts/calculate_ranges.py:107-119 | the closed ranges chain from the first year to the start of the open range |
| CalculateRanges.GroupRangesTile | scripts/calculate_ranges.py:107-123 | the ranges cover start_year .. end_year exactly, in ascending order, without gap or overlap; no years give no ranges |
| CalculateRanges.GroupRangesClose | scripts/calculate_ranges.py:114-123 | every range but the last was closed because its positive total plus the next year's count exceeds the maximum; no range met that condition at a later year of its own |
| CalculateRanges.NoNonZeroSumsZero | scripts/calculate_ranges.py:127 | counts that are all zero sum to zero |
| CalculateRanges.NonZeroSumsPositive | scripts/calculate_ranges.py:127 | non-negative counts with a non-zero one sum to a positive total |
| CalculateRanges.OpenBound | scripts/calculate_ranges.py:114-119 | a range that never met the closing condition exceeds the maximum only if at most one of its years has a non-zero count |
| CalculateRanges.GroupRangesBound | scripts/calculate_ranges.py:107-128 | a range sums to more than max_results_per_range only when a single year in it has results |
| CalculateRanges.GroupYears | scripts/calculate_ranges.py:105-123 | the grouping loop computes the grouped ranges of the year counts |
| CalculateRanges.Check | scripts/calculate_ranges.py:137-145 | a missing or zero reported count leaves the range unverified; otherwise it is confirmed exactly when the reported and summed counts differ by less than 50 |
| CalculateRanges.YearCounts | scripts/calculate_ranges.py:95-103 | one recorded count per year from start_year to end_year, each the year's total or 0 |
| CalculateRanges.CheckRanges | scripts/calculate_ranges.py:134-145 | one verdict per range, in order, each the check of its reported count against its summed count |
| CalculateRanges.CalculateRangesPlan | scripts/calculate_ranges.py:80-149 | the plan: the year counts, their grouped ranges (which lie within the years) and a verdict for every range |
| CountResultsPerYear.MaxPage | scripts/count_results_per_year.py:74-80 | the largest page is at least 1, no smaller than any link's `start // 10 + 1`, and is one of them unless it is 1 |
| CountResultsPerYear.FirstIntIsFirst | scripts/count_results_per_year.py:59-69 | a number is found exactly when some div's number is accepted by int(), and it is the first such div's number |
| CountResultsPerYear.ResultCount | scripts/count_results_per_year.py:16-89 | a failed request, a 429 and an error status each return no count, no results and their message; an "About" number int() rejects raises the ValueError; otherwise has_results is whether any result div was found |
| CountResultsPerYear.EstimateOnlyWhenUncounted | scripts/count_results_per_year.py:72-84 | an estimate is given exactly when there are results, neither pattern gave a number and the pagination reaches past page 1; its text is `~N+ (estimated)` with N ten times the largest page, at least 20 |
| CountResultsPerYear.EstimateTextReadsBack | scripts/count_results_per_year.py:81-83 | the estimate for a pagination past page 1 is `~N+ (estimated)` whose N reads back as ten times the largest page, at least 20 |
| CountResultsPerYear.ScanPagination | scripts/count_results_per_year.py:74-80 | the pagination loop computes the largest page |
| CountResultsPerYear.ScanDivs | scripts/count_results_per_year.py:59-69 | the div loop yields the first number int() accepts |
| CountResultsPerYear.GetResultCount | scripts/count_results_per_year.py:16-89 | with its loops, get_result_count returns the outcome above |
| CountResultsPerYear.EntryOf | scripts/count_results_per_year.py:113-125 | a non-empty error is recorded with no count and no results; otherwise the count and has_results are recorded as returned |
| CountResultsPerYear.YearsTotalUpdate | scripts/count_results_per_year.py:115-129 | recording a year older than a span leaves the span's total alone |
| CountResultsPerYear.YearsTotalSplit | scripts/count_results_per_year.py:169-172 | the total of a span of years is the sum of the totals of its two halves |
| CountResultsPerYear.YearsWithResultsCounts | scripts/count_results_per_year.py:162 | years_with_results counts exactly the years whose entry has results |
| CountResultsPerYear.Descending | scripts/count_results_per_year.py:108 | the loop visits end_year, end_year - 1, ..., one year at a time |
| CountResultsPerYear.DecadeTotals | scripts/count_results_per_year.py:167-172 | one decade per ten years from start_year, each ending nine years later or at end_year, with the exact total of its years |
| CountResultsPerYear.DecadesPartition | scripts/count_results_per_year.py:167-171 | decade k holds exactly the years of start_year .. end_year whose offset from start_year divided by ten is k |
| CountResultsPerYear.DecadeTotalsSum | scripts/count_results_per_year.py:167-172 | the first decades' totals add up to the total of their years |
| CountResultsPerYear.QueryTurn | scripts/count_results_per_year.py:108-138 | one turn of the year loop queries end_year - i and logs it; a ValueError is reported with every later year having returned; otherwise the record is extended by that year (an error kept without a count, anything else with its count and has_results, an exact count added to total_results) and a sleep follows unless the year is start_year |
| CountResultsPerYear.QueryYears | scripts/count_results_per_year.py:105-140 | from end_year down to start_year, one entry per year recording what the query returned, total_results the sum of the exact counts, a sleep after every year but start_year; a ValueError ends the loop at the newest year that raises |
| CountResultsPerYear.SurveyAllYears | scripts/count_results_per_year.py:92-192 | the survey crashes exactly when some year's query raises, at the newest such year; otherwise it records every year, the total, the number of years with results and the decade breakdown |
| CountResultsPerYear.SurveyDecadesAddUp | scripts/count_results_per_year.py:160-172 | the decade totals of a survey add up to its total |
| ManageReadingList.MakeEntry | scripts/manage_reading_list.py:39-48 | the new entry keeps title, authors and url; a falsy year becomes "N/A", a falsy citation count 0, missing tags the empty list, missing notes the empty text; it is dated today |
| ManageReadingList.AddToProps | scripts/manage_reading_list.py:31-51 | adding keeps the urls distinct (no two compare equal under Python's `==`) and adds no other url; a url other than NaN is present afterwards and adding the same entry twice is adding it once; an entry whose url is NaN equals no entry and is always appended |
| ManageReadingList.AddAllProps | scripts/manage_reading_list.py:29-51 | any number of additions keep the urls distinct, only append, and append at most one entry each |
| ManageReadingList.RemoveAtProps | scripts/manage_reading_list.py:92 | popping an entry keeps the others in order, putting it back restores the list, and distinct urls stay distinct |
| ManageReadingList.ReadingListFile.constructor | scripts/manage_reading_list.py:11 | the file starts as given: present or not, and its list |
| ManageReadingList.ReadingListFile.Load | scripts/manage_reading_list.py:14-20 | a missing file loads as the empty list; a present one as its list |
| ManageReadingList.ReadingListFile.AddArticle | scripts/manage_reading_list.py:29-52 | the entry is appended and saved exactly when no entry has a url that compares equal to its url (a NaN url equals none); otherwise the file is untouched |
| ManageReadingList.ReadingListFile.RemoveArticle | scripts/manage_reading_list.py:87-96 | a 1-based index within the list pops and returns that entry and saves; any other index leaves the file untouched |
| ManageReadingList.ReadingListFile.ExportUrls | scripts/manage_reading_list.py:156-169 | nothing is written for an empty list; otherwise one line per entry holding its url, in order |
| ManageReadingList.TagFilterProps | scripts/manage_reading_list.py:60-61 | with a tag, an entry is shown exactly when its tags hold the tag, and never more entries than the list has |
| ManageReadingList.TagFilterAppend | scripts/manage_reading_list.py:61 | filtering a concatenation filters each part and keeps the order |
| ManageReadingList.NumberedAt | scripts/manage_reading_list.py:74-75 | the i-th shown entry is numbered i + 1 |
| ManageReadingList.LinesSnoc | scripts/manage_reading_list.py:166-167 | writing one more url appends it and a newline |
| ManageReadingList.LinesSplit | scripts/manage_reading_list.py:165-167 | reading the exported file back line by line gives the urls, followed by the empty text after the last newline |
| ManageReadingList.MatchPositions | scripts/manage_reading_list.py:114-116 | the matching rows are the positions of the rows whose title or abstract contains the term, case-insensitively |
| ManageReadingList.MatchIndicesAre | scripts/manage_reading_list.py:114-116 | a row index is a match exactly when its title or abstract contains the term |
| ManageReadingList.NumericPartition | scripts/manage_reading_list.py:111-117 | the rows with a numeric citation count and those with NaN together make up the matches |
| ManageReadingList.MatchOrder | scripts/manage_reading_list.py:117 | the display order is a permutation of the matches that lists the rows with a numeric citation count first, in non-increasing count, and then the rows whose count is NaN |
| ManageReadingList.MatchIndicesBounded | scripts/manage_reading_list.py:114-116 | every match is a row of the collection |
| ManageReadingList.MatchOrderProps | scripts/manage_reading_list.py:114-117 | the displayed matches are exactly the matching rows, each shown once |
| ManageReadingList.KeepMatchesAre | scripts/manage_reading_list.py:142-143 | an index is kept exactly when it was named and is a match; never more than were named |
| ManageReadingList.Selection | scripts/manage_reading_list.py:99-143 | every row add_from_collection adds is a match of the collection; none is added when some match has a title that is not a text, because the display raises before the prompt |
| ManageReadingList.SelectAll | scripts/manage_reading_list.py:133-134 | answering "all" adds every match, in display order, unless the display of the matches raised |
| ManageReadingList.KeepAll | scripts/manage_reading_list.py:142-143 | named indices that are all matches are all kept, in the order named |
| ManageReadingList.AddFromCollection | scripts/manage_reading_list.py:99-153 | the reading list afterwards is the old list with each selected match added through add_article, in the order named; with no selection the file is untouched; `raised` holds exactly when some match has a title that is not a text, and then the file is untouched |
| ManageReadingList.DisplayMatches | scripts/manage_reading_list.py:126-128 | the display loop raises exactly when a displayed row has a title that is not a text, so `[:60]` cannot slice it |
| ManageReadingList.DisplayRaisesInOrder | scripts/manage_reading_list.py:116-128 | the display order lists only rows of the collection, and it shows a non-text title exactly when some match of the search has one |
| ManageReadingList.AddChosen | scripts/manage_reading_list.py:142-153 | the adding loop adds the kept indices' rows in turn, each tagged with the term |
| ManageReadingList.AddIfChosen | scripts/manage_reading_list.py:142-153 | one turn of the loop adds the row of an index exactly when it is one of the matches, and otherwise leaves the file unchanged |
| ManageReadingList.AddRow | scripts/manage_reading_list.py:144-153 | one add_article call adds the row's entry unless its url is present |
| ManageReadingList.KeepMatchesStep | scripts/manage_reading_list.py:142-143 | one more named index is kept exactly when it is a match |
| ManageReadingList.AddEntryStep | scripts/manage_reading_list.py:145-153 | adding the entries of one more row is one more add_article |
| PipelineTasks.CoerceCitations | pipeline/tasks.py:126-129 | a numeric citation count or its decimal text keeps its value; a missing or non-numeric one becomes 0; url and title are unchanged |
| PipelineTasks.DedupUrls | pipeline/tasks.py:133 | dropping repeated urls keeps every url and leaves the urls pairwise different |
| PipelineTasks.DedupKeepsFirst | pipeline/tasks.py:133 | keep-first deduplication keeps exactly the first row of every url, in order |
| PipelineTasks.DistinctUrlsCount | pipeline/tasks.py:133-134 | rows with pairwise different urls are as many as their urls |
| PipelineTasks.DistinctPrefix | pipeline/tasks.py:133 | dropping the last of rows with distinct urls keeps them distinct, and its url is not among the others |
| PipelineTasks.UrlsSnoc | pipeline/tasks.py:133 | one more row adds its url to the urls |
| PipelineTasks.CleanArticlesProps | pipeline/tasks.py:115-144 | the cleaned table is a permutation of the first row of every url, sorted by citations largest first, with distinct urls and every input url; the run raises exactly when none of those rows has a numeric year; otherwise it records that table, duplicates_removed as the number of rows minus the number of urls, and year_range as the smallest and largest known year |
| PipelineTasks.PubYearRange | pipeline/tasks.py:143 | the year range is missing (int() of the NaN minimum raises) exactly when no year is known; otherwise its ends are known years and every known year lies between them |
| PipelineTasks.PubYearsSnoc | pipeline/tasks.py:143 | the known years of a longer table add the last row's year when it has one |
| PipelineTasks.PubYearRangeOfYears | pipeline/tasks.py:136-143 | the year range depends only on which years are known, so sorting and reindexing the table do not change it |
| PipelineTasks.DedupLength | pipeline/tasks.py:133-134 | deduplication never adds rows, so duplicates_removed is never negative |
| PipelineTasks.SortedDistinct | pipeline/tasks.py:137 | sorting rows with distinct urls keeps them distinct |
| PipelineTasks.CountOnce | pipeline/tasks.py:133-137 | a row of a table with distinct urls occurs once |
| PipelineTasks.KeptKeywordsAre | pipeline/tasks.py:253-257 | a keyword is kept with its count exactly when it is one of the listed keywords and its non-overlapping occurrences reach min_count |
| PipelineTasks.CountKeywords | pipeline/tasks.py:253-257 | the counting loop keeps the listed keywords counted at least min_count times, in list order |
| PipelineTasks.ExtractKeywords | pipeline/tasks.py:235-264 | the result is the kept keywords over the lowercased titles and abstracts, sorted by count, largest first |
| PipelineTasks.FirstCut | pipeline/tasks.py:293 | the cut of the first-author split lies within the text |
| PipelineTasks.FirstCutIsLeftmost | pipeline/tasks.py:293 | no `,` or `and` starts before the cut, one starts at it unless it is the end, and at the end there is none |
| PipelineTasks.FirstAuthorsNonEmpty | pipeline/tasks.py:290-295 | at most one first author per row, and none is empty |
| PipelineTasks.FirstAuthors | pipeline/tasks.py:290-295 | the loop collects the non-empty first authors of the present, non-"N/A" cells, in row order |
| PipelineTasks.IndexOf | pipeline/tasks.py:299 | the position found holds the name; none means no entry holds it |
| PipelineTasks.TallyListed | pipeline/tasks.py:299 | the Counter has an entry for exactly the names that occur |
| PipelineTasks.TallyDistinct | pipeline/tasks.py:299 | no name has two Counter entries |
| PipelineTasks.TallyCounts | pipeline/tasks.py:299 | each Counter entry counts the occurrences of its name |
| PipelineTasks.MostCommonProps | pipeline/tasks.py:301 | most_common(top_n) gives at most top_n entries of the Counter, largest count first, none smaller than an entry left out |
| PipelineTasks.MostCommonEmpty | pipeline/tasks.py:301 | most_common is empty exactly when top_n is not positive or no first author was counted |
| PipelineTasks.AnalyzeAuthors | pipeline/tasks.py:284-316 | the top authors are most_common over the first authors' Counter, and the unique count is the Counter's size; after saving, the run raises IndexError at `top_authors[0]` exactly when top_n is not positive or no first author was kept |
| ScrapeReadingList.SafeChars | scripts/scrape_reading_list.py:30 | every character is kept when it is a letter, digit, space, `-` or `_` and becomes `_` otherwise; the length is unchanged |
| ScrapeReadingList.SafeTitleProps | scripts/scrape_reading_list.py:30-31 | the safe title is as long as the title up to 100 characters, uses only allowed characters, and keeps each allowed character in place |
| ScrapeReadingList.SafeTitleIdempotent | scripts/scrape_reading_list.py:30-31 | sanitising a safe title changes nothing |
| ScrapeReadingList.ExtensionPdf | scripts/scrape_reading_list.py:49-57 | the extension is `pdf` exactly when "pdf" occurs in the Content-Type in any case, and `html` otherwise |
| ScrapeReadingList.FilenameParts | scripts/scrape_reading_list.py:60 | split at its dots, the file name gives back the year-and-title stem and the extension |
| ScrapeReadingList.FilenameStaysInDirectory | scripts/scrape_reading_list.py:60-61 | with a year free of `/`, the file name has no `/`, so the file lands in the output directory |
| ScrapeReadingList.DownloadStatus | scripts/scrape_reading_list.py:46-118 | a download succeeds exactly when the answer is a 200 and the year holds no `/`; a 200 answer for a year with `/` fails with the FileNotFoundError of `open()`; anything else is a failure; every record carries its entry's title, authors, year and url |
| ScrapeReadingList.DefaultYearFails | scripts/scrape_reading_list.py:60-118 | an entry stored with the default year "N/A" is never downloaded successfully, whatever the server answers |
| ScrapeReadingList.DownloadFile | scripts/scrape_reading_list.py:48-84 | a saved file's type is `pdf` or `html` and is its name's extension; a failure records `HTTP <status>`, `Timeout` or the error text |
| ScrapeReadingList.ScrapeAll | scripts/scrape_reading_list.py:141-146 | one record per entry, in order, each the download of that entry |
| ScrapeReadingList.SuccessCount | scripts/scrape_reading_list.py:158 | never more successes than records |
| ScrapeReadingList.SummaryAddsUp | scripts/scrape_reading_list.py:158-169 | successful and failed add up to the records, failed is never negative, and the PDF and HTML counts are shown exactly when something was saved and then add up to the successes |
| ScrapeReadingList.FileTypesAddUp | scripts/scrape_reading_list.py:166-167 | when every saved file is a PDF or an HTML page, their counts add up to the successes |
| ScrapeReadingList.SuccessesAreOkAnswers | scripts/scrape_reading_list.py:48-158 | the successes are exactly the 200 answers for entries whose year holds no `/` |
| ScrapeReadingList.DownloadedTypes | scripts/scrape_reading_list.py:52-80 | every file saved by a run is a PDF or an HTML page |
| ScrapeReadingList.FirstWithUrl | scripts/scrape_reading_list.py:197 | the entry found is the first with the url; none means no entry has it |
| ScrapeReadingList.SelectPaperProps | scripts/scrape_reading_list.py:190-203 | an index selects exactly when it is in range, and selects that entry; otherwise a url selects the first entry with it; with neither nothing is selected |
| ScrapeReadingList.ScrapeSingle | scripts/scrape_reading_list.py:175-229 | a record is returned exactly when an entry is selected, and it is that entry's download |
| ScrapeScholar.ScholarUrlShape | scripts/scrape_scholar.py:49-53 | every page after the first carries a query string, joined with `&` or `?` as the query requires, and its `start=` offset reads back as ten times the page number |
| ScrapeScholar.ScholarUrlsDistinct | scripts/scrape_scholar.py:49-53 | different pages get different urls |
| ScrapeScholar.CollectPages | scripts/scrape_scholar.py:36-73 | the loop requests no page past the page limit, returns the requested pages' articles in page order, and every page before the last one requested had articles |
| ScrapeScholar.CollectStopsOnEmpty | scripts/scrape_scholar.py:36-63 | a loop that stops before the page limit without reaching the article cap stopped on an empty page |
| ScrapeScholar.CollectUnderCap | scripts/scrape_scholar.py:43-45 | the cap is checked only between pages: the articles before the last page requested are under it, so the last page may pass it |
| ScrapeScholar.CollectStep | scripts/scrape_scholar.py:55-68 | one round that keeps a page appends its articles and requests one more page |
| ScrapeScholar.GetAllArticles | scripts/scrape_scholar.py:15-73 | get_all_articles returns the articles of its page loop with Google Scholar's limit of 100 pages |
| ScrapeScholar.CollectPagesUpTo | scripts/scrape_scholar.py:36-71 | the while loop computes the page loop: stop at the page limit, at a truthy cap reached, or at an empty page |
| ScrapeScholar.GoogleWaits | scripts/scrape_scholar.py:306-311 | at most max_pages pages are requested, and one wait follows each requested page but the last |
| ScrapeScholar.GoogleAnswered | scripts/scrape_scholar.py:218-232 | every page before the last one requested answered with results |
| ScrapeScholar.GoogleStops | scripts/scrape_scholar.py:205-315 | a loop that stops before max_pages stopped on a failed request or a page without results |
| ScrapeScholar.GoogleNumbering | scripts/scrape_scholar.py:237-300 | every article kept is a result with a footer block on a page of the range, numbered with that page and its position |
| ScrapeScholar.GoogleStep | scripts/scrape_scholar.py:237-311 | one round that keeps a page appends its parsed results, requests one page, and waits unless it is the last page of the range |
| ScrapeScholar.ScrapeGoogleScholar | scripts/scrape_scholar.py:183-317 | scrape_google_scholar returns the articles of its page loop over the query's pages |
| ScrapeScholar.GooglePageLoop | scripts/scrape_scholar.py:205-315 | the for loop computes the page loop: a failed or empty page ends it, other pages' parsed results are kept |
| ScrapeScholar.SaveResults | scripts/scrape_scholar.py:320-340 | nothing is saved for an empty list; otherwise the table holds the articles |
| ScrapeAsync.PagesNeeded | scripts/scrape_async.py:257-263 | with a detected non-zero total, the pages are enough to hold every result, capped by max_pages and by 100; with no total (or zero) the page count is max_pages |
| ScrapeAsync.PageUrlsDistinct | scripts/scrape_async.py:268-274 | different pages are requested with different urls |
| ScrapeAsync.PageUrlOffset | scripts/scrape_async.py:269-274 | every page after the first is the base url with `&start=` and an offset that reads back as ten times the page number |
| ScrapeAsync.PageUrls | scripts/scrape_async.py:266-277 | one url per page needed, in page order, all different |
| ScrapeAsync.YearTokenIsFourDigits | scripts/scrape_async.py:122 | a year token is exactly a run of four digits |
| ScrapeAsync.FirstYearToken | scripts/scrape_async.py:120-124 | the position found holds a year token and none comes before it; none means no token is a year |
| ScrapeAsync.FirstYearTokenAt | scripts/scrape_async.py:120-124 | a year token with none before it is the one found |
| ScrapeAsync.YearOf | scripts/scrape_async.py:118-125 | the year is "N/A" or four digits |
| ScrapeAsync.FindYear | scripts/scrape_async.py:119-125 | the year loop, stripping each comma-separated word, returns the first year token or "N/A" |
| ScrapeAsync.ParseInfo | scripts/scrape_async.py:110-129 | the year parsed from an info line is "N/A" or four digits |
| ScrapeAsync.ParseInfoSegments | scripts/scrape_async.py:112-118 | the authors are the text before the first " - "; the venue is the text between the first and the second separator, and the year is read from it; without a separator venue and year are "N/A" |
| ScrapeAsync.InfoParts | scripts/scrape_async.py:113 | splitting at " - " gives at least two pieces when the separator occurs, the text before it and the text up to the next one |
| ScrapeAsync.CitationCountRoundTrip | scripts/scrape_async.py:138-142 | the count in a "Cited by N" link is read back as N |
| ScrapeAsync.ReplaceNoOccurrence | scripts/scrape_async.py:141 | removing "Cited by " from digits changes nothing |
| ScrapeAsync.ResultFields | scripts/scrape_async.py:95-153 | a result's citation count is read from its footer block, 0 without one, and the related url is always set ("N/A" at worst) |
| ScrapeAsync.ParseResult | scripts/scrape_async.py:93-163 | a result fails to parse exactly when the footer is required and missing |
| ScrapeAsync.ParseAll | scripts/scrape_async.py:93-163 | one parse per result, in result order |
| ScrapeAsync.FromSlotExtend | scripts/scrape_async.py:155-157 | an article numbered from a prefix of the page keeps its slot in the whole page |
| ScrapeAsync.NumberedPositions | scripts/scrape_async.py:155-163 | each article of a page comes from the parsed result its position names, carries page number page + 1, and positions strictly increase; never more articles than results |
| ScrapeAsync.PageKeeps | scripts/scrape_async.py:93-163 | a page keeps all its results, or, with the footer required, exactly those that have a footer |
| ScrapeAsync.ParsePage | scripts/scrape_async.py:91-163 | the parsing loop gives the numbered articles of the page, skipping results that raised |
| ScrapeAsync.YearPages | scripts/scrape_async.py:266-281 | one page result per page requested |
| ScrapeAsync.ScrapeYear | scripts/scrape_async.py:255-289 | the year's articles are the pages' articles concatenated in page order, for the number of pages needed |
| ScrapeAsync.TotalFromPageGroup | scripts/scrape_async.py:211-214 | the "Page X of Y results" capture is digits, so the detected total is their value |
| ScrapeAsync.SessionDelay | scripts/scrape_async.py:249 | the per-year delay lies between 30 and 50 seconds |
| ScrapeAsync.RateLimiter.constructor | scripts/scrape_async.py:30-34 | a limiter starts with its delay and no previous request |
| ScrapeAsync.RateLimiter.Acquire | scripts/scrape_async.py:36-46 | the limiter sleeps out what remains of the delay since the previous request, so consecutive request times are at least the delay apart |
| ScrapeAsync.Stamp | scripts/scrape_async.py:308-309 | stamping sets search_year on every article and changes nothing else |
| ScrapeAsync.StampIdempotent | scripts/scrape_async.py:308-309 | stamping twice is stamping once |
| ScrapeAsync.MaxExists | scripts/scrape_async.py:307 | a non-empty set of years has a newest year |
| ScrapeAsync.YearsDescMembers | scripts/scrape_async.py:307 | the sorted keys are exactly the map's years, each once |
| ScrapeAsync.YearsDescSorted | scripts/scrape_async.py:307 | the sorted keys are strictly descending |
| ScrapeAsync.FlattenYearsStamps | scripts/scrape_async.py:306-310 | every flattened article is stamped with one of the years, and stamps never increase along the list |
| ScrapeAsync.FlattenYearsEmpty | scripts/scrape_async.py:312-333 | the flattened list is empty exactly when every year has no articles |
| ScrapeAsync.ProgressRecordWritten | scripts/scrape_async.py:302-320 | the progress file is written exactly when some year has articles, and then lists every key as completed, the running total and the flattened articles |
| ScrapeAsync.AppendStamped | scripts/scrape_async.py:308-310 | the inner loop appends the year's articles, each stamped |
| ScrapeAsync.FlattenYearsSnoc | scripts/scrape_async.py:307-310 | flattening one more year appends its stamped articles |
| ScrapeAsync.YearsDescHead | scripts/scrape_async.py:307 | the newest year heads the descending order |
| ScrapeAsync.Newest | scripts/scrape_async.py:307 | the year picked is in the set and no year in it is newer |
| ScrapeAsync.SortYearsDesc | scripts/scrape_async.py:307 | the years sorted newest first |
| ScrapeAsync.FlattenInOrder | scripts/scrape_async.py:307-310 | the outer loop flattens the years in the given order |
| ScrapeAsync.FlattenByYear | scripts/scrape_async.py:306-310 | the all_articles list is the articles of the years newest first, each stamped |
| ScrapeAsync.RegroupArticles | scripts/scrape_async.py:389-395 | the regrouping loop rebuilds the year map from the saved articles' stamps, skipping falsy stamps |
| ScrapeAsync.RegroupAppend | scripts/scrape_async.py:389-395 | regrouping a block of articles all stamped with a new, truthy year adds that year with the block |
| ScrapeAsync.NonEmptyStampedStep | scripts/scrape_async.py:389-395 | one more saved year adds its stamped list exactly when it is truthy and has articles |
| ScrapeAsync.RegroupFlattenYears | scripts/scrape_async.py:389-395 | regrouping the flattened list of distinct years gives back the stamped lists of the truthy years with articles |
| ScrapeAsync.SaveRegroupRoundTrip | scripts/scrape_async.py:302-395 | save then resume gives back every year that had articles, with its articles stamped; years without articles are lost |
| ScrapeAsync.NonEmptyStampedAllKeys | scripts/scrape_async.py:307-318 | over all the keys, the non-empty stamped lists are those of the map |
| ScrapeAsync.PendingYears | scripts/scrape_async.py:401 | the worklist holds exactly the years of the range not completed, newest first |
| ScrapeAsync.ResumeFromSaved | scripts/scrape_async.py:374-401 | resuming from a saved record rebuilds the years with articles, completes every saved key, restores the article count as the total, and leaves exactly the other years of the range to scrape |
| ScrapeAsync.YearSizes | scripts/scrape_async.py:424 | one article count per year |
| ScrapeAsync.FlattenYearsLength | scripts/scrape_async.py:306-310 | the flattened list is as long as the years' lists together |
| ScrapeAsync.ResumeForgetsEmptyYears | scripts/scrape_async.py:318-395 | a year saved with no articles is completed in the record but, after resuming, is no longer listed by the next save |
| ScrapeAsync.YearCost | scripts/scrape_async.py:428 | the request estimate of a year lies between 1 and 100 and is 100 exactly when it returned at least 990 articles |
| ScrapeAsync.SessionKeepsPending | scripts/scrape_async.py:412-442 | no year joins the worklist during a session, and a year whose scrape did not return stays on it |
| ScrapeAsync.SessionRemovesScraped | scripts/scrape_async.py:420-425 | a year leaves the worklist only after its scrape returned, and its articles are stored |
| ScrapeAsync.ByYearKept | scripts/scrape_async.py:423 | later years of a session keep a returned year's articles |
| ScrapeAsync.SessionBudget | scripts/scrape_async.py:409-428 | the budget is checked before each year, so a session ends below the limit plus 100; a session that ends under the limit without interruption stored every year that returned |
| ScrapeAsync.ContinuousWorklist | scripts/scrape_async.py:403-467 | the worklist only shrinks; a year that raises in every session never leaves it; when all years are done the final results are written and the progress file removed |
| ScrapeAsync.Crawler.Resume | scripts/scrape_async.py:374-401 | start-up regroups the saved articles, sets the total to their number, and builds the worklist from the saved completed years |
| ScrapeAsync.Crawler.SaveProgress | scripts/scrape_async.py:302-320 | the progress file afterwards is what save_progress writes |
| ScrapeAsync.Crawler.Record | scripts/scrape_async.py:423-425 | a returned year is stored, counted and taken off the worklist |
| ScrapeAsync.Crawler.SaveFinal | scripts/scrape_async.py:323-359 | nothing is written when there are no articles; otherwise the final results are written and the progress file removed |
| ScrapeAsync.Crawler.Session | scripts/scrape_async.py:409-442 | one session over a copy of the worklist, with the budget check before each year |
| ScrapeAsync.Crawler.Run | scripts/scrape_async.py:403-467 | the session loop, for at most the given number of sessions |
| ScrapeAsync.ContinueAsync | scripts/scrape_async.py:362-467 | scrape_continuous_async resumes from the progress file and then runs the session loop |
| ScrapeByYear.YearScraper.constructor | scripts/scrape_by_year.py:120 | the default `request_counter` is one object, created once with count 0 |
| ScrapeByYear.YearScraper.Call | scripts/scrape_by_year.py:120-178 | a call returns the articles of the page loop (stop after two empty pages in a row or at max_pages) and adds the pages it requested to the counter it was given, or to the shared default counter, which keeps its count from earlier calls |
| ScrapeByYear.YearCrawlsCapped | scripts/scrape_by_year.py:141-222 | a year that runs costs at least one and at most MAX_PAGES requests |
| ScrapeByYear.AllYearsKeeps | scripts/scrape_by_year.py:210-244 | years stored before the walk goes on keep their articles |
| ScrapeByYear.AllYearsStored | scripts/scrape_by_year.py:210-244 | every stored year was stored before or is a year of the walk whose scrape ran; a year that raises is skipped |
| ScrapeByYear.AllYearsStoredRun | scripts/scrape_by_year.py:222-229 | the same when the first year visited runs: a stored year was stored before or lies between start_year and that year and its scrape ran |
| ScrapeByYear.AllYearsCompleted | scripts/scrape_by_year.py:210-246 | when the walk visits every year, every year whose scrape ran is stored |
| ScrapeByYear.AllYearsBudgetStop | scripts/scrape_by_year.py:212-219 | a walk stopped by the budget stopped with the counter at or above the limit, at a year in range, with that year and every older one not scraped |
| ScrapeByYear.AllYearsBudget | scripts/scrape_by_year.py:212-222 | since the budget is checked before each year and a year costs at most MAX_PAGES requests (YearCrawlsCapped), the counter never passes the limit by MAX_PAGES or more |
| ScrapeByYear.AllYearsWaits | scripts/scrape_by_year.py:232-235 | the inter-year waits number the stored years other than start_year |
| ScrapeByYear.FlattenGrows | scripts/scrape_by_year.py:255-262 | once the progress record exists, storing another year keeps it existing |
| ScrapeByYear.SaveProgress | scripts/scrape_by_year.py:251-271 | the progress file is rewritten with the flattened record exactly when some year has an article, and left as it was otherwise |
| ScrapeByYear.SaveProgressAfter | scripts/scrape_by_year.py:224-271 | after a year is stored, the progress file holds the record of the new map once some year has an article, and is the file found at the start (possibly left by another scraper) until then |
| ScrapeByYear.PrintTopCited | scripts/scrape_by_year.py:324-326 | the loop over the ten most cited rows raises exactly when one of them has a year that is not a number |
| ScrapeByYear.DigitYearNumeric | scripts/scrape_by_year.py:75-81 | a digit year, as the result parser produces, stays a number under `pd.to_numeric(errors='coerce')` |
| ScrapeByYear.DatedNeverRaises | scripts/scrape_by_year.py:315-326 | when every article has a digit year, `int(row['year'])` never raises in the summary |
| ScrapeByYear.UndatedFewRaises | scripts/scrape_by_year.py:315-326 | with at most ten articles, one whose year is the parser's default "N/A" is among the printed rows, so the summary raises ValueError |
| ScrapeByYear.SaveFinal | scripts/scrape_by_year.py:274-330 | with no article nothing changes; otherwise the complete dataset is the newest-first flattening, and the progress file is removed exactly when no row among the ten most cited has a non-numeric year; otherwise the ValueError at line 326 is raised and the file stays |
| ScrapeByYear.SaveFinalAtExit | scripts/scrape_by_year.py:218-330 | at every exit the complete dataset is written exactly when some year has an article; then the progress file is gone unless the summary raised, in which case it still holds the record of the map; with no article the file found at the start is left in place |
| ScrapeByYear.RunOneYear | scripts/scrape_by_year.py:222-235 | the body for a year that runs is the walk's step: the year stored, the total and the shared counter increased, a wait unless it is start_year |
| ScrapeByYear.ScrapeAllYears | scripts/scrape_by_year.py:181-248 | the method follows the walk from end_year down to start_year from any progress file found at the start; every way out ends with the final save, which removes that file only when some article was collected and the summary does not raise; `crashed` says that the ValueError of line 326 escapes the function, and the progress file then keeps the record of the map |
| ScrapeByYear.VisitYear | scripts/scrape_by_year.py:210-244 | one turn of the year loop is one step of the walk; the progress file is the record of the current map once it has an article, and the file found at the start before that |
| ScrapeContinuous.SyncPage | scripts/scrape_continuous.py:17-109 | an error status, a timeout or a request error gives no articles; otherwise the page's results are parsed strictly, a result without a footer raising and being dropped |
| ScrapeContinuous.StrictPageNeedsFooter | scripts/scrape_continuous.py:41-104 | every article kept from a page comes from a result that had a footer, numbered by its page and slot |
| ScrapeContinuous.PagesFrom | scripts/scrape_continuous.py:122-157 | the pages of the listing from a given page on, one per page number, in order |
| ScrapeContinuous.CrawlPages | scripts/scrape_continuous.py:112-159 | the page loop requests at least one and at most the remaining pages before max_pages, and returns exactly the articles of the pages it requested, in page order |
| ScrapeContinuous.CrawlStopsAtEmptyPair | scripts/scrape_continuous.py:120-148 | no two consecutive empty pages occur before the last page requested, and a loop that ends before max_pages ended on two empty pages in a row |
| ScrapeContinuous.RequestCounter.constructor | scripts/scrape_continuous.py:308 | each session starts a counter at 0 |
| ScrapeContinuous.ScrapeYear | scripts/scrape_continuous.py:112-159 | scrape_year returns the articles of the page-loop walk over the year's pages, and adds one to the shared counter for each page it requested |
| ScrapeContinuous.PageLoop | scripts/scrape_continuous.py:118-157 | the `while page < max_pages` loop, for any page fetcher, returns the articles of the page-loop walk and adds one to the counter per request |
| ScrapeContinuous.CrawlPage | scripts/scrape_continuous.py:134-152 | one round either stops on the second empty page in a row after one request, or keeps the page's articles and leaves the rest of the walk one request shorter |
| ScrapeContinuous.RunYearFacts | scripts/scrape_continuous.py:323-340 | a year that runs costs one to MAX_PAGES requests, leaves the worklist, and is followed by a wait exactly when years remain and the counter is under the limit |
| ScrapeContinuous.SyncSessionBudget | scripts/scrape_continuous.py:313-321 | the budget is checked before each year, so a session overshoots the limit by less than one year's page cap |
| ScrapeContinuous.SyncSessionWorklist | scripts/scrape_continuous.py:313-348 | within a session no year joins the worklist, a year leaves it only when its scrape ran, and a year that raises stays |
| ScrapeContinuous.SyncSessionWaits | scripts/scrape_continuous.py:337-340 | the waits between years never outnumber the years completed, and are strictly fewer when the session ran out of years or budget |
| ScrapeContinuous.SyncSessionIdle | scripts/scrape_continuous.py:313-348 | a session that completes no year and is not interrupted changes neither the state nor the counter |
| ScrapeContinuous.RunYearOn | scripts/scrape_continuous.py:323-340 | the body for a year that runs is one step of the session: scrape with the shared counter, record and save, wait if years remain under the limit |
| ScrapeContinuous.Session | scripts/scrape_continuous.py:307-348 | one session over a copy of the worklist, with a fresh counter, is the session walk, including the final save on an interruption |
| ScrapeContinuous.SyncContinuousWorklist | scripts/scrape_continuous.py:301-380 | across sessions the worklist only shrinks; a year that raises in every session is never dropped, so the crawl cannot finish; a finished crawl has written the complete dataset and removed the progress file |
| ScrapeContinuous.Run | scripts/scrape_continuous.py:301-380 | the `while years_to_scrape` loop is the session walk, for at most the given number of sessions |
| ScrapeContinuous.Continue | scripts/scrape_continuous.py:256-380 | the crawl resumes from the progress file and then runs the sessions |
| TestScraper2025.TestTotal | test/test_scraper_2025.py:17-61 | a total is found only on a 200 answer; then the "Page X of Y results" group, when it is all digits, gives the total |
| TestScraper2025.TotalPages | test/test_scraper_2025.py:191 | the page count is at most 100; for a positive total it is at least 1, and below the cap it is the least number of ten-result pages that hold every result |
| TestScraper2025.Range | test/test_scraper_2025.py:197-201 | `range(lo, hi)` holds hi - lo (or no) consecutive integers starting at lo |
| TestScraper2025.Window | test/test_scraper_2025.py:196-201 | the pages scraped are consecutive, within 1 .. total_pages, at most ten of them, end at the last page, and start at page 1 when there are at most ten pages |
| TestScraper2025.OffsetUrls | test/test_scraper_2025.py:208-213 | 1-based page k is requested with offset 10(k - 1), the same URL as 0-based page k - 1 of the other scrapers; page 1 is the bare URL, and different pages get different URLs |
| TestScraper2025.TestArticles | test/test_scraper_2025.py:91-147 | every result of the page becomes one article |
| TestScraper2025.TestArticlesInOrder | test/test_scraper_2025.py:91-147 | article i is result i recorded with the page number |
| TestScraper2025.TestPage | test/test_scraper_2025.py:64-89 | a 200 answer gives one article per result; any other status (429 included), a timeout or an error gives none |
| TestScraper2025.TestPageNumbering | test/test_scraper_2025.py:146 | every article of a page carries that page's 1-based number and no position |
| TestScraper2025.ScrapeTestPage | test/test_scraper_2025.py:64-167 | the page's articles, and a wait of 30 to 50 seconds exactly when the answer was 200 with results |
| TestScraper2025.WindowUrls | test/test_scraper_2025.py:208-213 | one URL per page of the window |
| TestScraper2025.WindowUrlsAt | test/test_scraper_2025.py:208-213 | the i-th URL is the i-th page's offset URL |
| TestScraper2025.WindowStep | test/test_scraper_2025.py:208-218 | one more page appends its URL to the requests and its articles to the collection |
| TestScraper2025.ScrapeWindow | test/test_scraper_2025.py:204-218 | the pages are requested in window order and all_articles is the concatenation of their articles; every wait lies in 30 .. 50 seconds |
| TestScraper2025.TestLastTenPages | test/test_scraper_2025.py:170-218 | the run aborts without a page request exactly when no non-zero total was found; otherwise it requests the window's URLs in order and collects their articles |
| TestScraper2025.WindowArticlesFrom | test/test_scraper_2025.py:208-218 | every collected article comes from a page of the window and carries its number |
| TestScraper2025.WindowArticlesNumbered | test/test_scraper_2025.py:146-218 | the articles of a finished run carry the 1-based number of a window page and no position |
| UpdateCurrentYear.DropCommas | scripts/update_current_year.py:159 | removing the commas from a capture of the "About" pattern leaves only backslashes and the letters d and D |
| UpdateCurrentYear.IntRejects | scripts/update_current_year.py:154-159 | int() raises on text made of backslashes and the letters d and D, since it holds no digit |
| UpdateCurrentYear.TotalNeverDetected | scripts/update_current_year.py:131-165 | with the doubled backslashes the patterns can only capture such text, so whatever the page holds no total is ever detected |
| UpdateCurrentYear.PagesToScrapeBounds | scripts/update_current_year.py:183-189 | a positive total gives 1 to 100 pages, exactly enough for the total below the cap; a missing or zero total gives 10 pages |
| UpdateCurrentYear.AlwaysFallbackPages | scripts/update_current_year.py:152-189 | as written, the update always scrapes the 10 fallback pages |
| UpdateCurrentYear.ScrapeCurrentYear | scripts/update_current_year.py:168-205 | after the probe, the articles are those of pages 0 .. pages_needed - 1, in page order |
| UpdateCurrentYear.ScrapePages | scripts/update_current_year.py:192-203 | each page is requested in turn and its articles appended to all_articles |
| UpdateCurrentYear.ScrapePage | scripts/update_current_year.py:21-128 | a 429, an error status or a raised request gives no articles; otherwise the page's parsed results |
| UpdateCurrentYear.LatestExists | scripts/update_current_year.py:218 | a non-empty listing has a name that no other name follows (`max(json_files)`) |
| UpdateCurrentYear.LatestUnique | scripts/update_current_year.py:218 | that name is unique |
| UpdateCurrentYear.LatestName | scripts/update_current_year.py:218 | the latest name of a non-empty listing is the greatest |
| UpdateCurrentYear.LatestFile | scripts/update_current_year.py:213-218 | the pass over the listing finds nothing exactly when there is no dataset, and otherwise finds the greatest name |
| UpdateCurrentYear.UnseenMembers | scripts/update_current_year.py:236-241 | an article is kept if and only if it is a new article whose url is not among the existing urls; no more articles are kept than came in |
| UpdateCurrentYear.UnseenAppend | scripts/update_current_year.py:236-241 | filtering a concatenation filters each part, so the kept articles stay in their order |
| UpdateCurrentYear.SameUnseenUrlBothKept | scripts/update_current_year.py:236-241 | new articles are not deduplicated against each other: two with the same unseen url are both kept |
| UpdateCurrentYear.SplitNew | scripts/update_current_year.py:230-241 | every new article is stamped with the year, whether kept or not; the kept ones are those with an unseen url, and kept plus duplicates is the number of new articles |
| UpdateCurrentYear.MergeWritesIff | scripts/update_current_year.py:249-251 | no dataset and no log entry is written exactly when every new article's url was already in the collection |
| UpdateCurrentYear.MergedCollection | scripts/update_current_year.py:254-268 | a merge that writes saves the existing collection unchanged and in order, followed by exactly the kept new articles, each stamped with the year |
| UpdateCurrentYear.MergedLog | scripts/update_current_year.py:270-290 | the log gains one entry, after the earlier ones, counting the kept articles, the new total and the duplicates, which add up to the new articles |
| UpdateCurrentYear.MergeAgainKeepsNothing | scripts/update_current_year.py:230-241 | merging the same articles again keeps only those with an empty url, as an empty url never enters the set of existing urls |
| UpdateCurrentYear.DataDir.constructor | scripts/update_current_year.py:208-221 | the data directory holds the given datasets and update log |
| UpdateCurrentYear.DataDir.LoadExistingData | scripts/update_current_year.py:208-221 | the existing data is the latest dataset, or empty when there is none |
| UpdateCurrentYear.DataDir.MergeAndSave | scripts/update_current_year.py:224-292 | the new articles come back stamped and the files become the merge result |
| UpdateCurrentYear.MonthlyUpdate | scripts/update_current_year.py:295-302 | the year is scraped and merged only when some article was found; otherwise nothing changes |
| MlTasks.ScrubProps | pipeline/ml_tasks.py:60 | the substitution leaves only a-z, 0-9 and whitespace, keeps each such character in its place, and applying it again changes nothing |
| MlTasks.CleanTextAlphabet | pipeline/ml_tasks.py:56-63 | the cleaned text holds only a-z, 0-9 and single spaces between words, with none at either end |
| MlTasks.CleanTextIdempotent | pipeline/ml_tasks.py:56-63 | cleaning cleaned text changes nothing |
| MlTasks.CleanFullText | pipeline/ml_tasks.py:53-65 | the cleaned full text is the cleaned words of the title followed by those of the abstract, so the two never run into one word |
| MlTasks.FeatureFlags | pipeline/ml_tasks.py:124-141 | the flags are 0/1 indicators: has_citations of a positive count, is_recent of a year from 2020 on (at most 5 years since publication), has_abstract of a non-empty abstract; a missing year takes the median; n_authors is at least 1, and exactly 1 without a comma |
| MlTasks.CountCharLacking | pipeline/ml_tasks.py:141 | a text without commas counts none |
| MlTasks.CountCharAppend | pipeline/ml_tasks.py:141 | the comma count adds up over a concatenation |
| MlTasks.NAuthorsOfList | pipeline/ml_tasks.py:141 | names without commas listed with ", " count as that many authors |
| MlTasks.IndexedRows | pipeline/ml_tasks.py:413-465 | every indexed row is at its position in the table |
| MlTasks.RecentRows | pipeline/ml_tasks.py:408 | the recent rows are exactly the rows published from 2023 on |
| MlTasks.DropDuplicatesProps | pipeline/ml_tasks.py:409 | deduplication keeps a row of every article, no article twice, and nothing else |
| MlTasks.SelectPapersProps | pipeline/ml_tasks.py:407-409 | the selection holds at most 2 * (n // 2) distinct rows of the table, includes both the most cited and the most cited recent papers, and every row not among the most cited is recent |
| MlTasks.PromptAbstracts | pipeline/ml_tasks.py:423-438 | the summarization prompt quotes the whole abstract and the classification prompt a prefix of at most 500 characters; both say "Not available" when it is missing |
| MlTasks.PromptsFor | pipeline/ml_tasks.py:413-475 | one prompt entry per selected row, in order |
| MlTasks.GeneratePaperSummaryPrompts | pipeline/ml_tasks.py:401-482 | n_prompts is the number of selected papers, at most 2 * (n // 2); each entry names its row of the table and no paper appears twice |
| MlTasks.ClusterRows | pipeline/ml_tasks.py:512 | the rows of a cluster are exactly the rows with that label |
| MlTasks.ClusterPromptProps | pipeline/ml_tasks.py:511-538 | a cluster prompt lists min(10, size) papers of that cluster, most cited first, none cited less than a paper of the cluster left out |
| MlTasks.MetaPromptTop | pipeline/ml_tasks.py:541-552 | the meta prompt shows the five most cited papers |
| MlTasks.GenerateResearchSynthesisPrompt | pipeline/ml_tasks.py:503-581 | one prompt per cluster in label order, then the meta prompt; the run raises exactly when no year is known |
| MlTasks.ReportPrompts | pipeline/ml_tasks.py:620-646 | the report counts the paper prompts and the cluster prompts plus one |

## Left out

- HTTP requests, HTML parsing and the markup selectors are not modelled. A response is an oracle value carrying the texts the parser would have extracted. The `lambda x: 'Cited by' in x` link search is likewise part of that oracle.
- Concurrency is not modelled. That covers asyncio tasks, `gather`, the semaphores and the locks of the rate limiters. Requests are modelled one after another, in the order the sequential loops issue them.
- Sleeping, the clock and timestamps are parameters or are left out. The 24-hour break between sessions only waits, so it is not modelled.
- Random delays are bounded parameters, for example `30 + randbelow(21)`, `5 + randbelow(6)` and `uniform(15, 25)`. The floating-point delays are not modelled beyond their bounds.
- File I/O is modelled as values and class fields: JSON, CSV and parquet reads and writes, `glob`, `os.path.exists` and `os.remove`. Write failures are not modelled.
- Printing and the summary tables are left out, including the citation statistics of `save_final_results`. Two effects of printing on the files are modelled: in scripts/scrape_by_year.py the `int(row['year'])` of the top-ten list raises for a yearless row before the progress file is removed, and in scripts/manage_reading_list.py the `row['title'][:60]` of the match display raises TypeError for a title that is not a text, before anything is added.
- Floating-point and numerical code is left out: means, medians, `log1p`, TF-IDF, LDA, k-means, random forests, scalers, t-SNE and plots. The median year that `EngineerFeatures` fills in is an integer parameter. Cluster labels come in as data.
- The pipeline wiring (d6tflow and luigi parameters, `requires`, `save`/`load`) is not modelled. The command-line parsing of the scripts is also left out; it only selects which modelled operation runs.
- Character classes are modelled on ASCII only: `isalnum`, `isdigit`, `lower`, `split()`, the digits `int()` accepts and the regular-expression `\s`. Unicode letters, digits and case rules are not modelled.
- The `str.contains(..., case=False)` search of `add_from_collection` is modelled as a case-insensitive substring test. A search term holding regular-expression metacharacters is not modelled.
- PipelineTasks.CleanArticles: pandas' `sort_values` is not stable. The model sorts stably, which is one of the orders pandas may produce.
- PipelineTasks.ToNumeric: only integer texts are read as numbers. Texts with a decimal point or an exponent, which `pd.to_numeric` also reads, are not modelled.
- ManageReadingList.MatchOrder: the `sort_values` at scripts/manage_reading_list.py:117 is not stable either. The model orders rows with equal citation counts by position, which is one of the orders pandas may produce; the NaN rows keep their position order, as pandas places them.
- MlTasks.GenerateResearchSynthesisPrompt: prompt wording and the per-paper text excerpts are not modelled. Only which papers each prompt lists and how many prompts there are.
- ScrapeContinuous.Run: the `while years_to_scrape` loop is modelled for at most the given number of sessions, since an unbounded number of 24-hour sessions has no termination measure. The same bound applies to ScrapeAsync.Crawler.Run.
- ScrapeScholar.GooglePageLoop: the number of requests and of waits is returned as ghost state. That state describes the run and is not a value the script returns.
- ScrapeReadingList.Download: a year holding `/` is modelled as naming a missing directory below the output directory. A year that starts with `/` would make pathlib drop the output directory and open an absolute path instead; that case is not modelled. The error text assumes a path without quotes or backslashes, which Python's `repr` would escape.
- AddGsUrls.QuoteRoundTrip: the `quote`/unquote round trip is proved for ASCII text only. The UTF-8 encoding of other characters is modelled but not inverted.
- CalculateRanges.CalculateRangesPlan: the rate limiter's delays are not threaded into the plan. The limiter is modelled on its own (`CalculateRanges.RateLimiter`), and its delays only sleep.
- The rest of the repository is not part of this model. That covers the `mental_rotation` package and its command line, scripts/analyze_data.py, scripts/collect_articles.py, scripts/test_scholar_pagination.py, examples/example_usage.py and setup.py.
