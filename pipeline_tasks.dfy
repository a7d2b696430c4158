/** pipeline/tasks.py: the table rules of the analysis pipeline. Cleaning
    coerces citation counts and years to integers, keeps the first row of
    every url and sorts by citations; keyword extraction counts fixed
    keywords in the lowercased titles and abstracts; author analysis takes
    the first author of every row and tallies them. The file reads and
    writes, the d6tflow wiring and the printing are left out. */
module PipelineTasks {
  import opened Common

  // ---------------------------------------------------------------------
  // CleanArticles
  // ---------------------------------------------------------------------

  /** A cell as it came from the scraped JSON: a number, a text or absent. */
  datatype RawValue = NumberValue(n: int) | TextValue(s: string) | NoValue

  datatype RawArticle = RawArticle(url: Option<string>, title: Option<string>, authors: Option<string>,
                                   summary: Option<string>, citations: RawValue, year: RawValue)

  /** A cleaned row: integer citations, and the year when it is numeric. */
  datatype Article = Article(url: Option<string>, title: Option<string>, authors: Option<string>,
                             summary: Option<string>, citations: int, pubYear: Option<int>)

  /** `pd.to_numeric(errors='coerce')` on integers and integer texts: a
      value that is not a number becomes missing. Unlike int(), pandas'
      number parser does not accept underscores between digits. */
  function ToNumeric(v: RawValue): Option<int> {
    match v
    case NumberValue(n) => Some(n)
    case TextValue(s) => if Lacks(s, '_') then PyInt(s) else None
    case NoValue => None
  }

  /** The coercions of one row: citations `.fillna(0).astype(int)`, the
      year as a number or missing. */
  function Coerce(r: RawArticle): Article {
    var c := ToNumeric(r.citations);
    Article(r.url, r.title, r.authors, r.summary, if c.Some? then c.value else 0, ToNumeric(r.year))
  }

  /** Numbers and their decimal texts keep their value; other texts and
      absent values become 0 citations. */
  lemma CoerceCitations(r: RawArticle, n: nat)
    ensures r.citations == NumberValue(n) ==> Coerce(r).citations == n
    ensures r.citations == TextValue(NatToString(n)) ==> Coerce(r).citations == n
    ensures r.citations == NoValue ==> Coerce(r).citations == 0
    ensures r.citations.TextValue? && PyInt(r.citations.s).None? ==> Coerce(r).citations == 0
    ensures Coerce(r).url == r.url && Coerce(r).title == r.title
  {
    PyIntOfNat(n);
  }

  function CoerceAll(raw: seq<RawArticle>): (rows: seq<Article>)
    ensures |rows| == |raw|
    ensures forall i :: 0 <= i < |raw| ==> rows[i] == Coerce(raw[i])
  {
    seq(|raw|, i requires 0 <= i < |raw| => Coerce(raw[i]))
  }

  /** The urls of the rows. */
  function Urls(rows: seq<Article>): set<Option<string>> {
    set r | r in rows :: r.url
  }

  /** `drop_duplicates(subset=['url'], keep='first')`: a row is kept when no
      row before it has its url (missing urls count as equal). */
  function Dedup(rows: seq<Article>): seq<Article> {
    if rows == [] then []
    else
      var kept := Dedup(rows[..|rows| - 1]);
      var r := rows[|rows| - 1];
      if r.url in Urls(kept) then kept else kept + [r]
  }

  /** Row i is the first with its url. */
  predicate IsFirst(rows: seq<Article>, i: int)
    requires 0 <= i < |rows|
  {
    forall j :: 0 <= j < i ==> rows[j].url != rows[i].url
  }

  /** The reference definition: the rows that are first with their url,
      in order. */
  function FirstOccurrences(rows: seq<Article>): seq<Article> {
    if rows == [] then []
    else
      var n := |rows| - 1;
      FirstOccurrences(rows[..n]) + (if IsFirst(rows, n) then [rows[n]] else [])
  }

  /** The urls are pairwise different. */
  predicate DistinctUrls(rows: seq<Article>) {
    forall i, j :: 0 <= i < j < |rows| ==> rows[i].url != rows[j].url
  }

  lemma {:induction false} DedupUrls(rows: seq<Article>)
    ensures Urls(Dedup(rows)) == Urls(rows)
    ensures DistinctUrls(Dedup(rows))
  {
    if rows != [] {
      var n := |rows| - 1;
      var p := rows[..n];
      DedupUrls(p);
      var kept := Dedup(p);
      assert rows == p + [rows[n]];
      assert Urls(rows) == Urls(p) + {rows[n].url};
      if rows[n].url !in Urls(kept) {
        assert Urls(kept + [rows[n]]) == Urls(kept) + {rows[n].url};
        var d := kept + [rows[n]];
        forall i, j | 0 <= i < j < |d| ensures d[i].url != d[j].url {
          if j == |d| - 1 {
            assert d[i] in kept;
          } else {
            assert d[i] == kept[i] && d[j] == kept[j];
          }
        }
      }
    }
  }

  /** Keep-first deduplication keeps exactly the first row of every url. */
  lemma {:induction false} DedupKeepsFirst(rows: seq<Article>)
    ensures Dedup(rows) == FirstOccurrences(rows)
  {
    if rows != [] {
      var n := |rows| - 1;
      var p := rows[..n];
      DedupKeepsFirst(p);
      DedupUrls(p);
      assert rows[n].url in Urls(p) <==> !IsFirst(rows, n) by {
        if rows[n].url in Urls(p) {
          var r :| r in p && r.url == rows[n].url;
          var j :| 0 <= j < n && p[j] == r;
          assert rows[j] == p[j];
        }
        if !IsFirst(rows, n) {
          var j :| 0 <= j < n && rows[j].url == rows[n].url;
          assert p[j] == rows[j];
          assert p[j] in p;
        }
      }
    }
  }

  /** Rows with pairwise different urls are as many as their urls. */
  lemma {:induction false} DistinctUrlsCount(rows: seq<Article>)
    requires DistinctUrls(rows)
    ensures |Urls(rows)| == |rows|
  {
    if rows != [] {
      var n := |rows| - 1;
      var p := rows[..n];
      DistinctPrefix(rows);
      DistinctUrlsCount(p);
      assert rows == p + [rows[n]];
      UrlsSnoc(p, rows[n]);
      assert |Urls(p) + {rows[n].url}| == |Urls(p)| + 1;
    }
  }

  /** Dropping the last row keeps the urls distinct, and the last url is
      not among the others. */
  lemma DistinctPrefix(rows: seq<Article>)
    requires DistinctUrls(rows) && rows != []
    ensures DistinctUrls(rows[..|rows| - 1])
    ensures rows[|rows| - 1].url !in Urls(rows[..|rows| - 1])
  {
    var n := |rows| - 1;
    var p := rows[..n];
    forall i, j | 0 <= i < j < |p| ensures p[i].url != p[j].url {
      assert p[i] == rows[i] && p[j] == rows[j];
    }
    forall r | r in p ensures r.url != rows[n].url {
      var j :| 0 <= j < n && p[j] == r;
      assert rows[j] == p[j];
    }
  }

  lemma UrlsSnoc(p: seq<Article>, r: Article)
    ensures Urls(p + [r]) == Urls(p) + {r.url}
  {
    assert forall a :: a in p + [r] <==> a in p || a == r;
  }

  /** The cleaned table and what CleanArticles records about it. */
  datatype CleanResult = CleanResult(articles: seq<Article>, duplicatesRemoved: int, yearRange: (int, int),
                                     totalCitations: int)

  function Citations(a: Article): int { a.citations }

  function TotalCitations(rows: seq<Article>): int {
    if rows == [] then 0 else TotalCitations(rows[..|rows| - 1]) + rows[|rows| - 1].citations
  }

  /** The known publication years of the rows. */
  function PubYears(rows: seq<Article>): set<int> {
    set a | a in rows && a.pubYear.Some? :: a.pubYear.value
  }

  /** `(int(pub_year.min()), int(pub_year.max()))`, the missing years
      skipped; None when no year is known, where int() of the NaN minimum
      raises. */
  function PubYearRange(rows: seq<Article>): (r: Option<(int, int)>)
    ensures r.None? <==> PubYears(rows) == {}
    ensures r.Some? ==> r.value.0 in PubYears(rows) && r.value.1 in PubYears(rows)
    ensures r.Some? ==> forall y :: y in PubYears(rows) ==> r.value.0 <= y <= r.value.1
  {
    if rows == [] then None
    else
      var n := |rows| - 1;
      var prev := PubYearRange(rows[..n]);
      PubYearsSnoc(rows);
      match rows[n].pubYear
      case None => prev
      case Some(y) =>
        if prev.None? then Some((y, y)) else Some((Min(prev.value.0, y), Max(prev.value.1, y)))
  }

  /** The known years of a longer table add the last row's year. */
  lemma PubYearsSnoc(rows: seq<Article>)
    requires rows != []
    ensures var last := rows[|rows| - 1].pubYear;
      PubYears(rows) == PubYears(rows[..|rows| - 1]) + (if last.Some? then {last.value} else {})
  {
    assert rows == rows[..|rows| - 1] + [rows[|rows| - 1]];
  }

  /** The year range depends only on which years are known, not on the
      order or number of the rows. */
  lemma PubYearRangeOfYears(a: seq<Article>, b: seq<Article>)
    requires PubYears(a) == PubYears(b)
    ensures PubYearRange(a) == PubYearRange(b)
  {
    var ra, rb := PubYearRange(a), PubYearRange(b);
    if ra.Some? {
      assert ra.value.0 <= rb.value.0 && rb.value.0 <= ra.value.0;
      assert ra.value.1 <= rb.value.1 && rb.value.1 <= ra.value.1;
    }
  }

  /** The cleaned table: coerced, the first row of every url kept, sorted
      by citations, largest first. The pandas sort is not stable; the
      model sorts stably, one of the orders it may produce. */
  function CleanTable(raw: seq<RawArticle>): seq<Article> {
    SortDesc(Dedup(CoerceAll(raw)), Citations)
  }

  /** CleanArticles.run: the cleaned table and its metadata; None when the
      run raises because no row of the cleaned table has a numeric year
      (an empty input included). */
  function CleanArticles(raw: seq<RawArticle>): Option<CleanResult> {
    var rows := CoerceAll(raw);
    var sorted := CleanTable(raw);
    match PubYearRange(sorted)
    case None => None
    case Some(range) => Some(CleanResult(sorted, |rows| - |Dedup(rows)|, range, TotalCitations(sorted)))
  }

  /** The cleaned table holds exactly the first row of every url, with
      distinct urls and the same urls as the input, sorted by citations
      largest first. The run raises exactly when none of those rows has a
      numeric year; otherwise it records that table, the number of rows
      minus the number of urls as duplicates_removed, and the smallest and
      largest known year of the first rows. */
  lemma CleanArticlesProps(raw: seq<RawArticle>)
    ensures var t := CleanTable(raw);
      multiset(t) == multiset(FirstOccurrences(CoerceAll(raw))) &&
      NonIncreasing(t, Citations) &&
      DistinctUrls(t) &&
      Urls(t) == Urls(CoerceAll(raw))
    ensures CleanArticles(raw).None? <==> PubYears(FirstOccurrences(CoerceAll(raw))) == {}
    ensures CleanArticles(raw).Some? ==> var r := CleanArticles(raw).value;
      r.articles == CleanTable(raw) &&
      Some(r.yearRange) == PubYearRange(FirstOccurrences(CoerceAll(raw))) &&
      r.duplicatesRemoved == |raw| - |Urls(CoerceAll(raw))| &&
      r.duplicatesRemoved >= 0
  {
    var rows := CoerceAll(raw);
    var clean := Dedup(rows);
    var sorted := SortDesc(clean, Citations);
    DedupKeepsFirst(rows);
    DedupUrls(rows);
    DistinctUrlsCount(clean);
    SortDescProps(clean, Citations, 0);
    PermutedRows(clean, sorted);
    PubYearRangeOfYears(sorted, FirstOccurrences(rows));
    assert |Urls(rows)| <= |rows| by {
      DedupLength(rows);
    }
  }

  /** Reordering rows keeps their urls, their years and the distinctness
      of their urls. */
  lemma PermutedRows(clean: seq<Article>, sorted: seq<Article>)
    requires multiset(sorted) == multiset(clean)
    ensures Urls(sorted) == Urls(clean) && PubYears(sorted) == PubYears(clean)
    ensures DistinctUrls(clean) ==> DistinctUrls(sorted)
  {
    assert forall a :: a in sorted <==> a in clean by {
      forall a ensures a in sorted <==> a in clean {
        assert a in multiset(sorted) <==> a in multiset(clean);
      }
    }
    if DistinctUrls(clean) {
      forall i, j | 0 <= i < j < |sorted| ensures sorted[i].url != sorted[j].url {
        SortedDistinct(clean, sorted, i, j);
      }
    }
  }

  lemma {:induction false} DedupLength(rows: seq<Article>)
    ensures |Dedup(rows)| <= |rows|
  {
    if rows != [] {
      DedupLength(rows[..|rows| - 1]);
    }
  }

  /** A permutation of rows with distinct urls has distinct urls. */
  lemma SortedDistinct(clean: seq<Article>, sorted: seq<Article>, i: int, j: int)
    requires DistinctUrls(clean) && multiset(sorted) == multiset(clean)
    requires 0 <= i < j < |sorted|
    ensures sorted[i].url != sorted[j].url
  {
    assert sorted[i] in multiset(clean) && sorted[j] in multiset(clean);
    var a :| 0 <= a < |clean| && clean[a] == sorted[i];
    var b :| 0 <= b < |clean| && clean[b] == sorted[j];
    CountOnce(clean, b);
    assert sorted == sorted[..j] + [sorted[j]] + sorted[j + 1..];
    assert sorted[i] in multiset(sorted[..j]) by {
      assert sorted[..j][i] == sorted[i];
    }
    assert sorted[i] != sorted[j];
    assert a != b;
  }

  /** A row of a table with distinct urls occurs once. */
  lemma {:induction false} CountOnce(rows: seq<Article>, a: int)
    requires DistinctUrls(rows) && 0 <= a < |rows|
    ensures multiset(rows)[rows[a]] == 1
  {
    var n := |rows| - 1;
    var p := rows[..n];
    assert rows == p + [rows[n]];
    DistinctPrefix(rows);
    if a < n {
      CountOnce(p, a);
      assert rows[n] != rows[a];
    } else {
      forall j | 0 <= j < n ensures p[j] != rows[n] {
        assert rows[j] == p[j];
      }
    }
  }

  // ---------------------------------------------------------------------
  // ExtractKeywords
  // ---------------------------------------------------------------------

  const KEYWORDS: seq<string> := [
    "spatial", "cognitive", "rotation", "mental", "imagery",
    "visuospatial", "task", "performance", "gender", "sex",
    "brain", "fmri", "neural", "training", "ability",
    "object", "3d", "three-dimensional", "parietal",
    "working memory", "age", "children", "development",
    "aphantasia", "attention", "capacity", "perception"
  ]

  const DEFAULT_MIN_COUNT: int := 5

  /** A missing cell read as "" (`fillna('')`). */
  function OrEmpty(s: Option<string>): string {
    if s.Some? then s.value else ""
  }

  /** `' '.join(title.fillna('') + ' ' + abstract.fillna('')).lower()` */
  function AllText(rows: seq<Article>): string {
    LowerStr(Join(seq(|rows|, i requires 0 <= i < |rows| => OrEmpty(rows[i].title) + " " + OrEmpty(rows[i].summary)), " "))
  }

  /** `text.count(p)`: non-overlapping occurrences; the empty text is
      found at every position. */
  function StrCount(text: string, p: string): nat {
    if p == [] then |text| + 1 else Count(text, p)
  }

  /** The keywords of `kws` counted at least `minCount` times in `text`,
      with their counts, in keyword order. */
  function KeptKeywords(text: string, kws: seq<string>, minCount: int): seq<(string, nat)> {
    if kws == [] then []
    else
      var n := |kws| - 1;
      var kept := KeptKeywords(text, kws[..n], minCount);
      var count := StrCount(text, kws[n]);
      if count >= minCount then kept + [(kws[n], count)] else kept
  }

  function PairCount(p: (string, nat)): int { p.1 }

  /** A keyword is kept with its count of non-overlapping occurrences
      exactly when that count reaches the threshold. */
  lemma {:induction false} KeptKeywordsAre(text: string, kws: seq<string>, minCount: int, kw: string, c: nat)
    ensures (kw, c) in KeptKeywords(text, kws, minCount) <==>
      kw in kws && c == StrCount(text, kw) && c >= minCount
  {
    if kws != [] {
      var n := |kws| - 1;
      var p := kws[..n];
      KeptKeywordsAre(text, p, minCount, kw, c);
      assert kws == p + [kws[n]];
      assert kw in kws <==> kw in p || kw == kws[n];
    }
  }

  /** The counting loop of ExtractKeywords.run over the keyword list. */
  method CountKeywords(allText: string, kws: seq<string>, minCount: int) returns (keywordCounts: seq<(string, nat)>)
    ensures keywordCounts == KeptKeywords(allText, kws, minCount)
  {
    keywordCounts := [];
    for i := 0 to |kws|
      invariant keywordCounts == KeptKeywords(allText, kws[..i], minCount)
    {
      assert kws[..i + 1][..i] == kws[..i];
      var kw := kws[i];
      var count := StrCount(allText, kw);
      if count >= minCount {
        keywordCounts := keywordCounts + [(kw, count)];
      }
    }
    assert kws[..|kws|] == kws;
  }

  /** ExtractKeywords.run: the kept keywords sorted by count, largest
      first, ties in keyword order. */
  method ExtractKeywords(rows: seq<Article>, minCount: int) returns (sortedKeywords: seq<(string, nat)>)
    ensures sortedKeywords == SortDesc(KeptKeywords(AllText(rows), KEYWORDS, minCount), PairCount)
  {
    var keywordCounts := CountKeywords(AllText(rows), KEYWORDS, minCount);
    sortedKeywords := SortDesc(keywordCounts, PairCount);
  }

  // ---------------------------------------------------------------------
  // AnalyzeAuthors
  // ---------------------------------------------------------------------

  /** Where `re.split(r',|and', s)` makes its first cut: the first index at
      which "," or "and" starts, or the end. */
  function FirstCut(s: string): (i: nat)
    ensures i <= |s|
  {
    var comma := Find(s, ",");
    var conj := Find(s, "and");
    if comma.Some? && (conj.None? || comma.value <= conj.value) then comma.value
    else if conj.Some? then conj.value
    else |s|
  }

  /** Neither separator starts before the cut, and one starts at it
      unless the cut is the end. */
  lemma FirstCutIsLeftmost(s: string)
    ensures forall j :: 0 <= j < FirstCut(s) ==> !OccursAt(s, ",", j) && !OccursAt(s, "and", j)
    ensures FirstCut(s) < |s| ==> OccursAt(s, ",", FirstCut(s)) || OccursAt(s, "and", FirstCut(s))
    ensures FirstCut(s) == |s| ==> forall j :: !OccursAt(s, ",", j) && !OccursAt(s, "and", j)
  {
    var comma := Find(s, ",");
    var conj := Find(s, "and");
    if comma.None? && conj.Some? {
      assert forall j :: !OccursAt(s, ",", j);
    }
  }

  /** `re.split(r',|and', str(authors))[0].strip()` */
  function FirstAuthor(authors: string): string {
    Strip(authors[..FirstCut(authors)])
  }

  /** Whether the loop keeps a first author for this cell: a present,
      non-empty value other than "N/A" whose first author is not empty. */
  predicate HasFirstAuthor(authors: Option<string>) {
    authors.Some? && authors.value != "" && authors.value != "N/A" && FirstAuthor(authors.value) != ""
  }

  /** The first authors of the column, in row order. */
  function FirstAuthorsOf(column: seq<Option<string>>): seq<string> {
    if column == [] then []
    else
      var n := |column| - 1;
      FirstAuthorsOf(column[..n]) +
        (if HasFirstAuthor(column[n]) then [FirstAuthor(column[n].value)] else [])
  }

  /** Every first author is non-empty and comes from a row that had one. */
  lemma {:induction false} FirstAuthorsNonEmpty(column: seq<Option<string>>)
    ensures |FirstAuthorsOf(column)| <= |column|
    ensures forall k :: 0 <= k < |FirstAuthorsOf(column)| ==> FirstAuthorsOf(column)[k] != ""
  {
    if column != [] {
      FirstAuthorsNonEmpty(column[..|column| - 1]);
    }
  }

  /** The first-author loop of AnalyzeAuthors.run. */
  method FirstAuthors(column: seq<Option<string>>) returns (firstAuthors: seq<string>)
    ensures firstAuthors == FirstAuthorsOf(column)
  {
    firstAuthors := [];
    for i := 0 to |column|
      invariant firstAuthors == FirstAuthorsOf(column[..i])
    {
      assert column[..i + 1][..i] == column[..i];
      var authors := column[i];
      if authors.Some? && authors.value != "" && authors.value != "N/A" {
        var first := FirstAuthor(authors.value);
        if first != "" {
          firstAuthors := firstAuthors + [first];
        }
      }
    }
    assert column[..|column|] == column;
  }

  /** The position of `name` in a tally, if it is there. */
  function IndexOf(tally: seq<(string, nat)>, name: string): (r: Option<nat>)
    ensures r.Some? ==> r.value < |tally| && tally[r.value].0 == name
    ensures r.None? ==> forall i :: 0 <= i < |tally| ==> tally[i].0 != name
  {
    if tally == [] then None
    else if tally[|tally| - 1].0 == name then Some(|tally| - 1)
    else IndexOf(tally[..|tally| - 1], name)
  }

  /** `Counter(names)`: each name with its number of occurrences, in order
      of first occurrence. */
  function Tally(names: seq<string>): seq<(string, nat)> {
    if names == [] then []
    else Bump(Tally(names[..|names| - 1]), names[|names| - 1])
  }

  /** Counting one more occurrence of `name`: its entry goes up by one, or
      a new entry with count 1 is appended. */
  function Bump(tally: seq<(string, nat)>, name: string): seq<(string, nat)> {
    match IndexOf(tally, name)
    case Some(i) => tally[i := (name, tally[i].1 + 1)]
    case None => tally + [(name, 1)]
  }

  /** Some entry of the tally is for `name`. */
  predicate Listed(tally: seq<(string, nat)>, name: string) {
    exists i :: 0 <= i < |tally| && tally[i].0 == name
  }

  /** The tally has an entry for exactly the names that occur. */
  lemma {:induction false} TallyListed(names: seq<string>, x: string)
    ensures Listed(Tally(names), x) <==> x in names
  {
    if names != [] {
      var p := names[..|names| - 1];
      var name := names[|names| - 1];
      assert names == p + [name];
      calc {
        Listed(Tally(names), x);
        Listed(Bump(Tally(p), name), x);
        { BumpListed(Tally(p), name, x); }
        Listed(Tally(p), x) || x == name;
        { TallyListed(p, x); }
        x in p || x == name;
        x in names;
      }
    }
  }

  /** After a bump, the names listed are those listed before plus `name`. */
  lemma BumpListed(t: seq<(string, nat)>, name: string, x: string)
    ensures Listed(Bump(t, name), x) <==> Listed(t, x) || x == name
  {
    var r := Bump(t, name);
    match IndexOf(t, name)
    case Some(k) =>
      assert forall i :: 0 <= i < |t| ==> r[i].0 == t[i].0;
      assert Listed(t, name);
      if Listed(r, x) {
        var i :| 0 <= i < |r| && r[i].0 == x;
        assert t[i].0 == x;
      }
      if Listed(t, x) {
        var i :| 0 <= i < |t| && t[i].0 == x;
        assert r[i].0 == x;
      }
    case None =>
      assert r == t + [(name, 1)];
      if Listed(r, x) && x != name {
        var i :| 0 <= i < |r| && r[i].0 == x;
        assert t[i].0 == x;
      }
      if Listed(t, x) {
        var i :| 0 <= i < |t| && t[i].0 == x;
        assert r[i].0 == x;
      }
      if x == name {
        assert r[|t|].0 == x;
      }
  }

  /** No name has two entries in the tally. */
  lemma {:induction false} TallyDistinct(names: seq<string>)
    ensures forall i, j :: 0 <= i < j < |Tally(names)| ==> Tally(names)[i].0 != Tally(names)[j].0
  {
    if names != [] {
      var n := |names| - 1;
      var p := names[..n];
      TallyDistinct(p);
      var t := Tally(p);
      var name := names[n];
      var r := Tally(names);
      match IndexOf(t, name)
      case Some(k) =>
        assert forall i :: 0 <= i < |t| ==> r[i].0 == t[i].0;
      case None =>
        assert r == t + [(name, 1)];
    }
  }

  /** Each entry of the tally counts the occurrences of its name. */
  lemma {:induction false} TallyCounts(names: seq<string>)
    ensures forall i :: 0 <= i < |Tally(names)| ==> Tally(names)[i].1 == multiset(names)[Tally(names)[i].0]
  {
    if names != [] {
      var n := |names| - 1;
      var p := names[..n];
      TallyCounts(p);
      var t := Tally(p);
      var name := names[n];
      assert names == p + [name];
      assert multiset(names) == multiset(p) + multiset{name};
      match IndexOf(t, name)
      case Some(k) =>
        TallyDistinct(p);
      case None =>
        TallyListed(p, name);
    }
  }

  /** `author_counts.most_common(top_n)`: the `top_n` largest counts,
      ties in order of first occurrence; nothing for `top_n <= 0`. */
  function MostCommon(tally: seq<(string, nat)>, topN: int): seq<(string, nat)> {
    if topN <= 0 then []
    else
      var sorted := SortDesc(tally, PairCount);
      sorted[..Min(topN, |sorted|)]
  }

  /** most_common gives at most top_n entries of the tally, largest count
      first, and no entry left out has a larger count than one kept. */
  lemma MostCommonProps(tally: seq<(string, nat)>, topN: int)
    ensures |MostCommon(tally, topN)| <= Max(topN, 0) && |MostCommon(tally, topN)| <= |tally|
    ensures NonIncreasing(MostCommon(tally, topN), PairCount)
    ensures forall e :: e in MostCommon(tally, topN) ==> e in tally
    ensures forall e, k :: e in tally && e !in MostCommon(tally, topN) && 0 <= k < |MostCommon(tally, topN)| ==>
      e.1 <= MostCommon(tally, topN)[k].1
  {
    if topN > 0 {
      var sorted := SortDesc(tally, PairCount);
      SortDescProps(tally, PairCount, 0);
      var top := sorted[..Min(topN, |sorted|)];
      assert |sorted| == |tally| by {
        assert |multiset(sorted)| == |multiset(tally)|;
      }
      forall e | e in top ensures e in tally {
        assert e in multiset(sorted);
      }
      forall e, k | e in tally && e !in top && 0 <= k < |top| ensures e.1 <= top[k].1 {
        assert e in multiset(sorted);
        var m :| 0 <= m < |sorted| && sorted[m] == e;
        assert m >= |top|;
        assert top[k] == sorted[k];
        assert PairCount(sorted[k]) >= PairCount(sorted[m]);
      }
      forall i, j | 0 <= i < j < |top| ensures PairCount(top[i]) >= PairCount(top[j]) {
        assert top[i] == sorted[i] && top[j] == sorted[j];
      }
    }
  }

  /** What AnalyzeAuthors records. */
  datatype AuthorReport = AuthorReport(topAuthors: seq<(string, nat)>, totalUniqueAuthors: nat)

  /** most_common is empty exactly when nothing is asked for or nothing
      was counted. */
  lemma MostCommonEmpty(names: seq<string>, topN: int)
    ensures MostCommon(Tally(names), topN) == [] <==> topN <= 0 || names == []
  {
    var tally := Tally(names);
    if names != [] {
      TallyListed(names, names[0]);
      assert tally != [];
    }
    if topN > 0 && tally != [] {
      var sorted := SortDesc(tally, PairCount);
      SortDescProps(tally, PairCount, 0);
      assert |multiset(sorted)| == |multiset(tally)|;
      assert |sorted[..Min(topN, |sorted|)]| > 0;
    }
  }

  /** AnalyzeAuthors.run over the authors column. The report (and the
      CSV) is saved before the summary line reads `top_authors[0]`, which
      raises IndexError when no author was kept or top_n is not positive:
      `raised` says so. */
  method AnalyzeAuthors(column: seq<Option<string>>, topN: int) returns (report: AuthorReport, raised: bool)
    ensures report.topAuthors == MostCommon(Tally(FirstAuthorsOf(column)), topN)
    ensures report.totalUniqueAuthors == |Tally(FirstAuthorsOf(column))|
    ensures raised <==> topN <= 0 || FirstAuthorsOf(column) == []
  {
    var firstAuthors := FirstAuthors(column);
    var authorCounts := Tally(firstAuthors);
    report := AuthorReport(MostCommon(authorCounts, topN), |authorCounts|);
    MostCommonEmpty(firstAuthors, topN);
    raised := report.topAuthors == [];
  }
}
