/** pipeline/ml_tasks.py: the rules of the machine-learning pipeline that
    are not numerical. These are the text cleaner applied before
    vectorising, the simple per-paper features, the choice of papers that
    get analysis prompts, and the prompt counts the final report gives.
    The vectoriser, topic model, regression, clustering and projection are
    foreign numerical code; the cluster labels come in as data. */
module MlTasks {
  import opened Common
  import opened PipelineTasks

  // ---------------------------------------------------------------------
  // PreprocessText: full_text and clean_text
  // ---------------------------------------------------------------------

  /** `title.fillna('') + ' ' + abstract.fillna('')` */
  function FullText(a: Article): string {
    OrEmpty(a.title) + " " + OrEmpty(a.summary)
  }

  /** A character the pattern `[^a-z0-9\s]` does not match. */
  predicate Kept(c: char) {
    IsLowerAscii(c) || IsDigit(c) || IsSpace(c)
  }

  /** `re.sub(r'[^a-z0-9\s]', ' ', text)` */
  function Scrub(s: string): (r: string)
    ensures |r| == |s|
    ensures forall i :: 0 <= i < |s| ==> r[i] == (if Kept(s[i]) then s[i] else ' ')
  {
    seq(|s|, i requires 0 <= i < |s| => if Kept(s[i]) then s[i] else ' ')
  }

  /** The substitution leaves only a-z, 0-9 and whitespace, keeps every
      such character in place, and a second substitution changes nothing. */
  lemma ScrubProps(s: string)
    ensures forall i :: 0 <= i < |Scrub(s)| ==> Kept(Scrub(s)[i])
    ensures forall i :: 0 <= i < |s| && Kept(s[i]) ==> Scrub(s)[i] == s[i]
    ensures (forall i :: 0 <= i < |s| ==> Kept(s[i])) ==> Scrub(s) == s
    ensures Scrub(Scrub(s)) == Scrub(s)
  {
  }

  /** clean_text: lower-case, every character other than a-z, 0-9 and
      whitespace becomes a space, then the words are joined by single
      spaces. */
  function CleanText(text: string): string {
    JoinWords(Scrub(LowerStr(text)))
  }

  /** A character clean_text may produce. */
  predicate CleanChar(c: char) {
    IsLowerAscii(c) || IsDigit(c) || c == ' '
  }

  /** The cleaned text holds only a-z, 0-9 and spaces, and every space
      stands alone between two other characters. */
  lemma CleanTextAlphabet(text: string)
    ensures forall k :: 0 <= k < |CleanText(text)| ==> CleanChar(CleanText(text)[k])
    ensures SingleSpaced(CleanText(text))
  {
    var s := Scrub(LowerStr(text));
    var r := CleanText(text);
    JoinWordsFrom(s);
    JoinWordsSingleSpaced(s);
    forall k | 0 <= k < |r| ensures CleanChar(r[k]) {
      if r[k] != ' ' {
        var i :| 0 <= i < |s| && s[i] == r[k];
        assert Kept(s[i]);
      }
    }
  }

  /** Cleaning clean text changes nothing. */
  lemma CleanTextIdempotent(text: string)
    ensures CleanText(CleanText(text)) == CleanText(text)
  {
    var r := CleanText(text);
    CleanTextAlphabet(text);
    assert LowerStr(r) == r;
    assert Scrub(r) == r;
    JoinWordsIdempotent(Scrub(LowerStr(text)));
  }

  /** The words clean_text keeps of one field. */
  function CleanWords(s: string): seq<string> {
    Words(Scrub(LowerStr(s)))
  }

  /** Title and abstract never run into one word: the cleaned full text is
      the title's cleaned words followed by the abstract's, a missing
      field contributing none. */
  lemma CleanFullText(a: Article)
    ensures CleanText(FullText(a)) == Join(CleanWords(OrEmpty(a.title)) + CleanWords(OrEmpty(a.summary)), " ")
  {
    var t := OrEmpty(a.title);
    var b := OrEmpty(a.summary);
    var full := FullText(a);
    var st := Scrub(LowerStr(t));
    var sb := Scrub(LowerStr(b));
    var lhs := Scrub(LowerStr(full));
    var rhs := st + (" " + sb);
    forall i | 0 <= i < |lhs| ensures lhs[i] == rhs[i] {
      if i < |t| {
        assert full[i] == t[i];
      } else if i > |t| {
        assert full[i] == b[i - |t| - 1];
      }
    }
    assert lhs == rhs;
    WordsAppend(st, " " + sb);
    WordsAfterSpace(" ", sb);
  }

  // ---------------------------------------------------------------------
  // EngineerFeatures: the integer features
  // ---------------------------------------------------------------------

  /** The year `years_since_pub` counts from. */
  const CURRENT_YEAR: int := 2025
  /** A paper from this year on is recent. */
  const RECENT_FROM: int := 2020

  /** The feature columns that are not floating point. */
  datatype Features = Features(citations: int, hasCitations: int, pubYear: int, yearsSincePub: int,
                               isRecent: int, titleLength: nat, abstractLength: nat, hasAbstract: int,
                               nAuthors: nat)

  /** `.astype(int)` of a boolean column. */
  function Indicator(b: bool): int {
    if b then 1 else 0
  }

  /** `authors.fillna('').str.count(',') + 1` */
  function NAuthors(authors: Option<string>): nat {
    Count(OrEmpty(authors), ",") + 1
  }

  /** One row of the features; a missing year is filled with the median
      year of the table, which comes in as a parameter. */
  function FeaturesOf(a: Article, medianYear: int): Features {
    var year := if a.pubYear.Some? then a.pubYear.value else medianYear;
    Features(a.citations, Indicator(a.citations > 0), year, CURRENT_YEAR - year,
             Indicator(year >= RECENT_FROM), |OrEmpty(a.title)|, |OrEmpty(a.summary)|,
             Indicator(|OrEmpty(a.summary)| > 0), NAuthors(a.authors))
  }

  /** The flags are 0/1 indicators of what they name, recent means at most
      five years old, a paper has an abstract exactly when the field is
      present and not empty, and there is always at least one author. */
  lemma FeatureFlags(a: Article, medianYear: int)
    ensures var f := FeaturesOf(a, medianYear);
      0 <= f.hasCitations <= 1 && 0 <= f.isRecent <= 1 && 0 <= f.hasAbstract <= 1
    ensures FeaturesOf(a, medianYear).hasCitations == 1 <==> a.citations > 0
    ensures FeaturesOf(a, medianYear).isRecent == 1 <==> FeaturesOf(a, medianYear).yearsSincePub <= 5
    ensures a.pubYear.Some? ==> (FeaturesOf(a, medianYear).isRecent == 1 <==> a.pubYear.value >= RECENT_FROM)
    ensures a.pubYear.None? ==> FeaturesOf(a, medianYear).pubYear == medianYear
    ensures FeaturesOf(a, medianYear).hasAbstract == 1 <==> a.summary.Some? && a.summary.value != []
    ensures FeaturesOf(a, medianYear).nAuthors >= 1
    ensures a.authors.None? || Lacks(a.authors.value, ',') ==> FeaturesOf(a, medianYear).nAuthors == 1
  {
    if a.authors.Some? && Lacks(a.authors.value, ',') {
      CountCharLacking(a.authors.value, ',');
    }
  }

  /** A text without the character holds none of it. */
  lemma {:induction false} CountCharLacking(s: string, c: char)
    requires Lacks(s, c)
    ensures Count(s, [c]) == 0
    decreases |s|
  {
    if s != [] {
      assert s[..1] != [c] by {
        assert s[..1][0] == s[0];
      }
      CountCharLacking(s[1..], c);
    }
  }

  /** Counting a character adds up over a concatenation. */
  lemma {:induction false} CountCharAppend(a: string, b: string, c: char)
    ensures Count(a + b, [c]) == Count(a, [c]) + Count(b, [c])
    decreases |a|
  {
    if a == [] {
      assert a + b == b;
    } else {
      assert (a + b)[1..] == a[1..] + b;
      assert (a + b)[..1] == a[..1];
      CountCharAppend(a[1..], b, c);
    }
  }

  /** Names without commas listed with ", " count as that many authors. */
  lemma {:induction false} NAuthorsOfList(names: seq<string>)
    requires names != []
    requires forall i :: 0 <= i < |names| ==> Lacks(names[i], ',')
    ensures NAuthors(Some(Join(names, ", "))) == |names|
  {
    CountCharLacking(names[0], ',');
    if |names| > 1 {
      var rest := Join(names[1..], ", ");
      NAuthorsOfList(names[1..]);
      assert Count(", ", ",") == 1 by {
        CountCharLacking(" ", ',');
        assert ","[..1] == "," && ","[1..] == [];
        assert ", " == "," + " ";
        CountCharAppend(",", " ", ',');
      }
      CountCharAppend(names[0], ", ", ',');
      CountCharAppend(names[0] + ", ", rest, ',');
    }
  }

  // ---------------------------------------------------------------------
  // GeneratePaperSummaryPrompts
  // ---------------------------------------------------------------------

  /** A row of the cleaned table and its position in it (`df.index`). */
  datatype Row = Row(index: nat, article: Article)

  function Indexed(df: seq<Article>): (rows: seq<Row>)
    ensures |rows| == |df|
    ensures forall i :: 0 <= i < |df| ==> rows[i] == Row(i, df[i])
  {
    seq(|df|, i requires 0 <= i < |df| => Row(i, df[i]))
  }

  /** The row is at its position in the table. */
  predicate RowOf(df: seq<Article>, r: Row) {
    r.index < |df| && df[r.index] == r.article
  }

  function RowCitations(r: Row): int {
    r.article.citations
  }

  /** Papers from this year on count as recent when choosing prompts. */
  const PROMPT_RECENT_FROM: int := 2023

  /** `pub_year >= 2023`; a missing year compares false. */
  predicate RecentRow(r: Row) {
    r.article.pubYear.Some? && r.article.pubYear.value >= PROMPT_RECENT_FROM
  }

  /** `df[df['pub_year'] >= 2023]`: the recent rows, in order. */
  function RecentRows(rows: seq<Row>): (r: seq<Row>)
    ensures forall x :: x in r <==> x in rows && RecentRow(x)
  {
    if rows == [] then []
    else
      var n := |rows| - 1;
      var prev := RecentRows(rows[..n]);
      assert rows == rows[..n] + [rows[n]];
      prev + (if RecentRow(rows[n]) then [rows[n]] else [])
  }

  /** The articles of some rows. */
  function ArticlesOf(rows: seq<Row>): set<Article> {
    set r | r in rows :: r.article
  }

  /** `drop_duplicates()`: a row is dropped when an earlier row has the
      same value in every column; the position is not a column. */
  function DropDuplicates(rows: seq<Row>): seq<Row> {
    if rows == [] then []
    else
      var kept := DropDuplicates(rows[..|rows| - 1]);
      var r := rows[|rows| - 1];
      if r.article in ArticlesOf(kept) then kept else kept + [r]
  }

  /** No two rows hold the same article. */
  predicate DistinctArticles(rows: seq<Row>) {
    forall i, j :: 0 <= i < j < |rows| ==> rows[i].article != rows[j].article
  }

  /** Deduplication keeps a row of every article, one each, and no more
      rows than it was given. */
  lemma {:induction false} DropDuplicatesProps(rows: seq<Row>)
    ensures ArticlesOf(DropDuplicates(rows)) == ArticlesOf(rows)
    ensures DistinctArticles(DropDuplicates(rows))
    ensures forall r :: r in DropDuplicates(rows) ==> r in rows
    ensures |DropDuplicates(rows)| <= |rows|
  {
    if rows != [] {
      var n := |rows| - 1;
      var p := rows[..n];
      DropDuplicatesProps(p);
      var kept := DropDuplicates(p);
      var r := rows[n];
      assert rows == p + [r];
      assert ArticlesOf(rows) == ArticlesOf(p) + {r.article};
      if r.article !in ArticlesOf(kept) {
        var d := kept + [r];
        assert ArticlesOf(d) == ArticlesOf(kept) + {r.article};
        forall i, j | 0 <= i < j < |d| ensures d[i].article != d[j].article {
          if j == |d| - 1 {
            assert d[i] in kept;
          } else {
            assert d[i] == kept[i] && d[j] == kept[j];
          }
        }
      }
    }
  }

  /** `df.nlargest(n_papers // 2, 'citations')` */
  function TopCited(df: seq<Article>, n: int): seq<Row> {
    TopK(Indexed(df), RowCitations, n / 2)
  }

  /** `df[df['pub_year'] >= 2023].nlargest(n_papers // 2, 'citations')` */
  function RecentCited(df: seq<Article>, n: int): seq<Row> {
    TopK(RecentRows(Indexed(df)), RowCitations, n / 2)
  }

  /** `pd.concat([top_cited, recent]).drop_duplicates()` */
  function SelectPapers(df: seq<Article>, n: int): seq<Row> {
    DropDuplicates(TopCited(df, n) + RecentCited(df, n))
  }

  /** The selection holds at most `2 * (n // 2)` rows of the table, each
      article once. Every top-cited article is in it, every recent
      top-cited article too, and a selected row that is not top-cited is
      recent. */
  lemma SelectPapersProps(df: seq<Article>, n: int)
    ensures |SelectPapers(df, n)| <= 2 * Max(n / 2, 0)
    ensures DistinctArticles(SelectPapers(df, n))
    ensures forall r :: r in SelectPapers(df, n) ==> RowOf(df, r)
    ensures forall r :: r in SelectPapers(df, n) && r !in TopCited(df, n) ==> RecentRow(r)
    ensures ArticlesOf(TopCited(df, n)) <= ArticlesOf(SelectPapers(df, n))
    ensures ArticlesOf(RecentCited(df, n)) <= ArticlesOf(SelectPapers(df, n))
  {
    var all := Indexed(df);
    var top := TopCited(df, n);
    var recent := RecentCited(df, n);
    TopKProps(all, RowCitations, n / 2);
    TopKProps(RecentRows(all), RowCitations, n / 2);
    DropDuplicatesProps(top + recent);
    assert ArticlesOf(top + recent) == ArticlesOf(top) + ArticlesOf(recent);
    IndexedRows(df);
    assert forall r :: r in top + recent <==> r in top || r in recent;
  }

  /** Every row of `Indexed(df)` is at its position. */
  lemma IndexedRows(df: seq<Article>)
    ensures forall r :: r in Indexed(df) ==> RowOf(df, r)
  {
    forall r | r in Indexed(df) ensures RowOf(df, r) {
      var i :| 0 <= i < |df| && Indexed(df)[i] == r;
    }
  }

  /** Where a prompt quotes the abstract: the whole of it, or its first
      `limit` characters, or the placeholder when it is missing. */
  function AbstractText(abs: Option<string>, limit: int, missing: string): string {
    if abs.Some? then Take(abs.value, limit) else missing
  }

  /** The classification prompt quotes this much of the abstract. */
  const CLASSIFICATION_EXCERPT: nat := 500

  /** The values one prompt entry carries: the row's identity and the parts
      of the three prompt texts that vary with the paper. The fixed wording
      of the templates is not modelled. */
  datatype PaperPrompt = PaperPrompt(paperId: nat, title: Option<string>, year: Option<int>, citations: int,
                                     authors: Option<string>, summaryAbstract: string,
                                     classificationAbstract: string)

  /** The prompt entry of one selected row. */
  function PromptFor(r: Row): PaperPrompt {
    var a := r.article;
    PaperPrompt(r.index, a.title, a.pubYear, a.citations, a.authors,
                if a.summary.Some? then a.summary.value else "Not available",
                AbstractText(a.summary, CLASSIFICATION_EXCERPT, "Not available"))
  }

  /** The summarization prompt quotes the whole abstract, the
      classification prompt its first 500 characters, and both say "Not
      available" when it is missing. */
  lemma PromptAbstracts(r: Row)
    ensures var a := r.article;
      a.summary.Some? ==> (
        PromptFor(r).summaryAbstract == a.summary.value &&
        |PromptFor(r).classificationAbstract| <= CLASSIFICATION_EXCERPT &&
        a.summary.value[..|PromptFor(r).classificationAbstract|] == PromptFor(r).classificationAbstract &&
        (|a.summary.value| <= CLASSIFICATION_EXCERPT ==> PromptFor(r).classificationAbstract == a.summary.value))
    ensures r.article.summary.None? ==>
      PromptFor(r).summaryAbstract == "Not available" == PromptFor(r).classificationAbstract
  {
  }

  /** The prompt loop: one entry per selected row, in order. */
  method PromptsFor(selected: seq<Row>) returns (prompts: seq<PaperPrompt>)
    ensures |prompts| == |selected|
    ensures forall i :: 0 <= i < |selected| ==> prompts[i] == PromptFor(selected[i])
  {
    prompts := [];
    for i := 0 to |selected|
      invariant |prompts| == i
      invariant forall j :: 0 <= j < i ==> prompts[j] == PromptFor(selected[j])
    {
      prompts := prompts + [PromptFor(selected[i])];
    }
  }

  /** GeneratePaperSummaryPrompts.run: at most `2 * (n // 2)` entries,
      none for the same paper twice, each naming its row of the table. */
  method GeneratePaperSummaryPrompts(df: seq<Article>, n: int) returns (prompts: seq<PaperPrompt>, nPrompts: nat)
    ensures nPrompts == |prompts| == |SelectPapers(df, n)| <= 2 * Max(n / 2, 0)
    ensures forall i :: 0 <= i < |prompts| ==>
      prompts[i].paperId < |df| && prompts[i].title == df[prompts[i].paperId].title
    ensures forall i, j :: 0 <= i < j < |prompts| ==> prompts[i].paperId != prompts[j].paperId
  {
    var selected := SelectPapers(df, n);
    SelectPapersProps(df, n);
    prompts := PromptsFor(selected);
    nPrompts := |prompts|;
    forall i | 0 <= i < |prompts|
      ensures prompts[i].paperId < |df| && prompts[i].title == df[prompts[i].paperId].title
    {
      assert selected[i] in selected;
    }
    forall i, j | 0 <= i < j < |prompts| ensures prompts[i].paperId != prompts[j].paperId {
      assert selected[i] in selected && selected[j] in selected;
      assert selected[i].article != selected[j].article;
    }
  }

  // ---------------------------------------------------------------------
  // GenerateResearchSynthesisPrompt
  // ---------------------------------------------------------------------

  /** A row of articles_clustered: the article and its cluster label. */
  datatype Clustered = Clustered(article: Article, cluster: int)

  function ClusteredCitations(r: Clustered): int {
    r.article.citations
  }

  /** `df[df['cluster'] == c]`, in order. */
  function ClusterRows(df: seq<Clustered>, c: int): (r: seq<Clustered>)
    ensures forall x :: x in r <==> x in df && x.cluster == c
  {
    if df == [] then []
    else
      var n := |df| - 1;
      var prev := ClusterRows(df[..n], c);
      assert df == df[..n] + [df[n]];
      prev + (if df[n].cluster == c then [df[n]] else [])
  }

  /** A cluster prompt lists this many of the cluster's papers at most. */
  const CLUSTER_TOP: nat := 10
  /** The meta prompt considers this many papers ... */
  const META_TOP: nat := 20
  /** ... and lists the first five of them. */
  const META_SHOWN: nat := 5

  /** The synthesis prompts: one per cluster, with the papers it lists,
      and the meta-analysis prompt over the whole table, with its
      statistics. The fixed wording and the number formatting are not
      modelled. */
  datatype SynthesisPrompt =
    | ClusterSynthesis(clusterId: nat, nPapers: nat, papers: seq<Clustered>)
    | MetaAnalysis(totalPapers: nat, yearMin: int, yearMax: int, totalCitations: int, nClusters: nat,
                   topPapers: seq<Clustered>)

  /** The prompt of cluster `c`: its ten most cited papers. */
  function ClusterPrompt(df: seq<Clustered>, c: nat): SynthesisPrompt {
    var top := TopK(ClusterRows(df, c), ClusteredCitations, CLUSTER_TOP);
    ClusterSynthesis(c, |top|, top)
  }

  /** A cluster prompt lists `min(10, size)` papers of its cluster, most
      cited first, and no paper of the cluster left out has more citations
      than one listed. */
  lemma ClusterPromptProps(df: seq<Clustered>, c: nat)
    ensures var p := ClusterPrompt(df, c);
      p.clusterId == c && p.nPapers == |p.papers| == Min(CLUSTER_TOP, |ClusterRows(df, c)|)
    ensures forall x :: x in ClusterPrompt(df, c).papers ==> x in df && x.cluster == c
    ensures NonIncreasing(ClusterPrompt(df, c).papers, ClusteredCitations)
    ensures forall x, y :: x in ClusterPrompt(df, c).papers && y in Passed(ClusterRows(df, c), ClusteredCitations, CLUSTER_TOP) ==>
      x.article.citations >= y.article.citations
  {
    var rows := ClusterRows(df, c);
    var top := TopK(rows, ClusteredCitations, CLUSTER_TOP);
    var passed := Passed(rows, ClusteredCitations, CLUSTER_TOP);
    TopKProps(rows, ClusteredCitations, CLUSTER_TOP);
    forall x, y | x in top && y in passed ensures x.article.citations >= y.article.citations {
      var i :| 0 <= i < |top| && top[i] == x;
      var j :| 0 <= j < |passed| && passed[j] == y;
    }
  }

  /** The articles of the clustered table, in order. */
  function Plain(df: seq<Clustered>): seq<Article> {
    seq(|df|, i requires 0 <= i < |df| => df[i].article)
  }

  /** The meta-analysis prompt, given the year range. */
  function MetaPrompt(df: seq<Clustered>, nClusters: nat, lo: int, hi: int): SynthesisPrompt {
    MetaAnalysis(|df|, lo, hi, TotalCitations(Plain(df)), nClusters,
                 Take(TopK(df, ClusteredCitations, META_TOP), META_SHOWN))
  }

  /** The papers the meta prompt shows are the five most cited. */
  lemma MetaPromptTop(df: seq<Clustered>, nClusters: nat, lo: int, hi: int)
    ensures MetaPrompt(df, nClusters, lo, hi).topPapers == TopK(df, ClusteredCitations, META_SHOWN)
    ensures |MetaPrompt(df, nClusters, lo, hi).topPapers| == Min(META_SHOWN, |df|)
  {
    TopKHead(df, ClusteredCitations, META_TOP, META_SHOWN);
    TopKProps(df, ClusteredCitations, META_SHOWN);
  }

  /** What GenerateResearchSynthesisPrompt saves: the prompts and the cluster-prompt count. */
  datatype SynthesisOutput = SynthesisOutput(prompts: seq<SynthesisPrompt>, nClusterPrompts: nat)

  /** GenerateResearchSynthesisPrompt.run: one prompt per cluster in label
      order, then the meta prompt; None when the run raises because no
      year is known. */
  method GenerateResearchSynthesisPrompt(df: seq<Clustered>, nClusters: nat) returns (out: Option<SynthesisOutput>)
    ensures out.None? <==> PubYears(Plain(df)) == {}
    ensures out.Some? ==> |out.value.prompts| == nClusters + 1 == out.value.nClusterPrompts + 1
    ensures out.Some? ==> forall c :: 0 <= c < nClusters ==> out.value.prompts[c] == ClusterPrompt(df, c)
    ensures out.Some? ==>
      out.value.prompts[nClusters] == MetaPrompt(df, nClusters, PubYearRange(Plain(df)).value.0, PubYearRange(Plain(df)).value.1)
  {
    var synthesisPrompts: seq<SynthesisPrompt> := [];
    for c := 0 to nClusters
      invariant |synthesisPrompts| == c
      invariant forall j :: 0 <= j < c ==> synthesisPrompts[j] == ClusterPrompt(df, j)
    {
      synthesisPrompts := synthesisPrompts + [ClusterPrompt(df, c)];
    }
    var range := PubYearRange(Plain(df));
    if range.None? {
      return None;
    }
    synthesisPrompts := synthesisPrompts + [MetaPrompt(df, nClusters, range.value.0, range.value.1)];
    out := Some(SynthesisOutput(synthesisPrompts, nClusters));
  }

  // ---------------------------------------------------------------------
  // RunMLPipeline: the prompt counts of the report
  // ---------------------------------------------------------------------

  /** The `prompts` part of the pipeline report. */
  datatype PromptReport = PromptReport(paperPrompts: nat, synthesisPrompts: nat)

  /** The report's prompt counts are the numbers of prompts the two tasks
      produced: the paper prompts, and the cluster prompts plus the meta
      prompt. */
  method ReportPrompts(df: seq<Article>, n: int, clustered: seq<Clustered>, nClusters: nat)
    returns (report: Option<PromptReport>)
    ensures report.None? <==> PubYears(Plain(clustered)) == {}
    ensures report.Some? ==> report.value.paperPrompts == |SelectPapers(df, n)| <= 2 * Max(n / 2, 0)
    ensures report.Some? ==> report.value.synthesisPrompts == nClusters + 1
  {
    var prompts, nPrompts := GeneratePaperSummaryPrompts(df, n);
    var synthesis := GenerateResearchSynthesisPrompt(clustered, nClusters);
    if synthesis.None? {
      return None;
    }
    assert |synthesis.value.prompts| == synthesis.value.nClusterPrompts + 1;
    report := Some(PromptReport(nPrompts, synthesis.value.nClusterPrompts + 1));
  }
}
