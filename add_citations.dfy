/** scripts/add_citations.py: APA, Chicago, BibTeX and Markdown citations
    for the reading list, stored under each entry's `citations_formatted`
    and exported one format at a time. Field values are their displayed
    texts; the file reads and writes are the class's field and the
    methods' results. */
module AddCitations {
  import opened Common

  /** A reading-list entry as the citation script sees it. `formatted` is
      `citations_formatted`, None when the entry has none. */
  datatype Article = Article(title: string, authors: string, year: string, url: string,
                             formatted: Option<map<string, string>>)

  // ---------------------------------------------------------------------
  // The four formats
  // ---------------------------------------------------------------------

  /** APA: `{authors} ({year}). {title}.` */
  function Apa(a: Article): string {
    a.authors + " (" + a.year + "). " + a.title + "."
  }

  /** Chicago: `{authors}. "{title}." {year}.` */
  function Chicago(a: Article): string {
    a.authors + ". \"" + a.title + ".\" " + a.year + "."
  }

  /** Markdown: `**{authors}** ({year}). [{title}]({url}).` */
  function Markdown(a: Article): string {
    "**" + a.authors + "** (" + a.year + "). [" + a.title + "](" + a.url + ")."
  }

  /** An APA citation cut at the parenthesis that opens the year. */
  lemma ApaShape(a: Article)
    ensures Apa(a) == (a.authors + " ") + "(" + (a.year + ")" + (". " + a.title + "."))
  {
  }

  /** Authors free of `(` and a year free of `)` can be read back from an
      APA citation: it determines the authors, the year and the title. */
  lemma ApaInjective(a: Article, b: Article)
    requires Lacks(a.authors, '(') && Lacks(b.authors, '(') && Lacks(a.year, ')') && Lacks(b.year, ')')
    ensures Apa(a) == Apa(b) ==> a.authors == b.authors && a.year == b.year && a.title == b.title
  {
    if Apa(a) == Apa(b) {
      ApaShape(a);
      ApaShape(b);
      assert Lacks(a.authors + " ", '(') && Lacks(b.authors + " ", '(');
      CutAtFirst(a.authors + " ", a.year + ")" + (". " + a.title + "."),
                 b.authors + " ", b.year + ")" + (". " + b.title + "."), '(');
      ConcatCancel(a.authors, " ", b.authors, " ");
      CutAtFirst(a.year, ". " + a.title + ".", b.year, ". " + b.title + ".", ')');
      ConcatCancel(". " + a.title, ".", ". " + b.title, ".");
      ConcatCancel(". ", a.title, ". ", b.title);
    }
  }

  /** A Chicago citation cut at the quotes around the title. */
  lemma ChicagoShape(a: Article)
    ensures Chicago(a) == (a.authors + ". ") + "\"" + ((a.title + ".") + "\"" + (" " + a.year + "."))
  {
  }

  /** Authors and a title free of the double quote can be read back from
      a Chicago citation: it determines the authors, the title and the
      year. */
  lemma ChicagoInjective(a: Article, b: Article)
    requires Lacks(a.authors, '"') && Lacks(b.authors, '"') && Lacks(a.title, '"') && Lacks(b.title, '"')
    ensures Chicago(a) == Chicago(b) ==> a.authors == b.authors && a.year == b.year && a.title == b.title
  {
    if Chicago(a) == Chicago(b) {
      ChicagoShape(a);
      ChicagoShape(b);
      assert Lacks(a.authors + ". ", '"') && Lacks(b.authors + ". ", '"');
      CutAtFirst(a.authors + ". ", (a.title + ".") + "\"" + (" " + a.year + "."),
                 b.authors + ". ", (b.title + ".") + "\"" + (" " + b.year + "."), '"');
      ConcatCancel(a.authors, ". ", b.authors, ". ");
      assert Lacks(a.title + ".", '"') && Lacks(b.title + ".", '"');
      CutAtFirst(a.title + ".", " " + a.year + ".", b.title + ".", " " + b.year + ".", '"');
      ConcatCancel(a.title, ".", b.title, ".");
      ConcatCancel(" " + a.year, ".", " " + b.year, ".");
      ConcatCancel(" ", a.year, " ", b.year);
    }
  }

  /** A Markdown citation is the bold marker, the authors, then the rest
      from the year on. */
  lemma MarkdownHead(a: Article)
    ensures Markdown(a) ==
      "**" + (a.authors + "*" + ("* (" + (a.year + "). [" + a.title + "](" + a.url + ").")))
  {
  }

  /** Authors free of `*`, a year free of `)` and a title free of `]` can
      be read back from a Markdown citation: it determines all four
      fields, the url included. */
  lemma MarkdownInjective(a: Article, b: Article)
    requires Lacks(a.authors, '*') && Lacks(b.authors, '*') && Lacks(a.year, ')') && Lacks(b.year, ')')
    requires Lacks(a.title, ']') && Lacks(b.title, ']')
    ensures Markdown(a) == Markdown(b) ==>
      a.authors == b.authors && a.year == b.year && a.title == b.title && a.url == b.url
  {
    if Markdown(a) == Markdown(b) {
      var ta := a.year + "). [" + a.title + "](" + a.url + ").";
      var tb := b.year + "). [" + b.title + "](" + b.url + ").";
      MarkdownHead(a);
      MarkdownHead(b);
      ConcatCancel("**", a.authors + "*" + ("* (" + ta), "**", b.authors + "*" + ("* (" + tb));
      CutAtFirst(a.authors, "* (" + ta, b.authors, "* (" + tb, '*');
      ConcatCancel("* (", ta, "* (", tb);
      MarkdownTail(a.year, a.title, a.url, b.year, b.title, b.url);
    }
  }

  /** The part of a Markdown citation after the authors determines the
      year, the title and the url. */
  lemma MarkdownTail(ya: string, ta: string, ua: string, yb: string, tb: string, ub: string)
    requires Lacks(ya, ')') && Lacks(yb, ')') && Lacks(ta, ']') && Lacks(tb, ']')
    requires ya + "). [" + ta + "](" + ua + ")." == yb + "). [" + tb + "](" + ub + ")."
    ensures ya == yb && ta == tb && ua == ub
  {
    var ra := ". [" + ta + "](" + ua + ").";
    var rb := ". [" + tb + "](" + ub + ").";
    assert ya + "). [" + ta + "](" + ua + ")." == ya + ")" + ra;
    assert yb + "). [" + tb + "](" + ub + ")." == yb + ")" + rb;
    CutAtFirst(ya, ra, yb, rb, ')');
    assert ra == ". [" + (ta + "]" + ("(" + ua + ")."));
    assert rb == ". [" + (tb + "]" + ("(" + ub + ")."));
    ConcatCancel(". [", ta + "]" + ("(" + ua + ")."), ". [", tb + "]" + ("(" + ub + ")."));
    CutAtFirst(ta, "(" + ua + ").", tb, "(" + ub + ").", ']');
    ConcatCancel("(" + ua, ").", "(" + ub, ").");
    ConcatCancel("(", ua, "(", ub);
  }

  // ---------------------------------------------------------------------
  // BibTeX
  // ---------------------------------------------------------------------

  /** The word the BibTeX key starts with: with a comma in the authors,
      the last word before the first comma, else the first word. None is
      the IndexError of a blank name. */
  function KeyWord(authors: string): Option<string> {
    if Contains(authors, ",") then
      var ws := Words(Split(authors, ",")[0]);
      if ws == [] then None else Some(ws[|ws| - 1])
    else
      var ws := Words(authors);
      if ws == [] then None else Some(ws[0])
  }

  /** The citation key: the key word lowercased, spaces deleted, then the
      year. */
  function BibKey(a: Article): Option<string> {
    match KeyWord(a.authors)
    case None => None
    case Some(w) => Some(ReplaceAll(LowerStr(w), " ", "") + a.year)
  }

  /** The key word exists unless the name part it comes from is blank; it
      is a non-empty run without whitespace, and since it holds no space
      the key is simply the lowercased word followed by the year. */
  lemma BibKeyProps(a: Article)
    ensures KeyWord(a.authors).None? <==>
      (if Contains(a.authors, ",") then Words(Split(a.authors, ",")[0]) == [] else Words(a.authors) == [])
    ensures KeyWord(a.authors).Some? ==>
      |KeyWord(a.authors).value| > 0 && NoSpace(KeyWord(a.authors).value) &&
      BibKey(a) == Some(LowerStr(KeyWord(a.authors).value) + a.year)
    ensures Contains(a.authors, ",") ==>
      Split(a.authors, ",")[0] == a.authors[..Find(a.authors, ",").value]
  {
    if KeyWord(a.authors).Some? {
      var w := KeyWord(a.authors).value;
      var lw := LowerStr(w);
      forall k | 0 <= k < |lw| ensures lw[k] != ' ' {
        assert !IsSpace(w[k]);
      }
      ReplaceAbsent(lw, ' ');
    }
    if Contains(a.authors, ",") {
      SplitHead(a.authors, ",");
    }
  }

  /** The lines of a BibTeX entry. */
  function BibtexLines(key: string, a: Article): seq<string> {
    ["@article{" + key + ",",
     "  author = {" + a.authors + "},",
     "  title = {" + a.title + "},",
     "  year = {" + a.year + "},",
     "  url = {" + a.url + "}",
     "}"]
  }

  /** The BibTeX entry, the six lines joined with newlines; None when the
      key cannot be made. */
  function Bibtex(a: Article): Option<string> {
    match BibKey(a)
    case None => None
    case Some(key) => Some(Join(BibtexLines(key, a), "\n"))
  }

  /** Read back line by line, the entry is `@article{key,`, then the
      author, title, year and url fields in that order, then `}`. */
  lemma BibtexLayout(a: Article)
    requires OneLine(a.authors) && OneLine(a.title) && OneLine(a.year) && OneLine(a.url)
    requires BibKey(a).Some?
    ensures Bibtex(a).Some?
    ensures Split(Bibtex(a).value, "\n") == BibtexLines(BibKey(a).value, a)
  {
    BibKeyProps(a);
    var w := KeyWord(a.authors).value;
    assert OneLine(LowerStr(w)) by {
      forall k | 0 <= k < |w| ensures LowerStr(w)[k] != '\n' {
        assert !IsSpace(w[k]);
      }
    }
    var key := BibKey(a).value;
    OneLineConcat(LowerStr(w), a.year);
    BibtexLinesOneLine(key, a);
    JoinLinesSplit(BibtexLines(key, a));
  }

  /** Each line of the entry is one line when the key and fields are. */
  lemma BibtexLinesOneLine(key: string, a: Article)
    requires OneLine(key) && OneLine(a.authors) && OneLine(a.title) && OneLine(a.year) && OneLine(a.url)
    ensures forall i :: 0 <= i < 6 ==> OneLine(BibtexLines(key, a)[i])
  {
    OneLineConcat("@article{", key);
    OneLineConcat("@article{" + key, ",");
    OneLineConcat("  author = {", a.authors);
    OneLineConcat("  author = {" + a.authors, "},");
    OneLineConcat("  title = {", a.title);
    OneLineConcat("  title = {" + a.title, "},");
    OneLineConcat("  year = {", a.year);
    OneLineConcat("  year = {" + a.year, "},");
    OneLineConcat("  url = {", a.url);
    OneLineConcat("  url = {" + a.url, "}");
  }

  // ---------------------------------------------------------------------
  // add_citations_to_all
  // ---------------------------------------------------------------------

  /** The entry after its four formats are set: an existing
      `citations_formatted` keeps its other keys. None when the BibTeX key
      cannot be made. */
  function Cite(a: Article): Option<Article> {
    match Bibtex(a)
    case None => None
    case Some(bib) =>
      var m := if a.formatted.Some? then a.formatted.value else map[];
      Some(a.(formatted := Some(m["apa" := Apa(a)]["chicago" := Chicago(a)]["bibtex" := bib]["markdown" := Markdown(a)])))
  }

  /** Setting the formats changes no other field and no other key, and
      doing it twice is doing it once. */
  lemma CiteProps(a: Article)
    ensures Cite(a).Some? <==> BibKey(a).Some?
    ensures Cite(a).Some? ==> (
      var c := Cite(a).value;
      c.title == a.title && c.authors == a.authors && c.year == a.year && c.url == a.url &&
      c.formatted.Some? &&
      c.formatted.value["apa"] == Apa(a) && c.formatted.value["chicago"] == Chicago(a) &&
      c.formatted.value["bibtex"] == Bibtex(a).value && c.formatted.value["markdown"] == Markdown(a) &&
      (forall k :: a.formatted.Some? && k in a.formatted.value && k !in Formats ==>
         k in c.formatted.value && c.formatted.value[k] == a.formatted.value[k]) &&
      Cite(c) == Cite(a))
  {
    if Cite(a).Some? {
      var c := Cite(a).value;
      assert Apa(c) == Apa(a) && Chicago(c) == Chicago(a) && Markdown(c) == Markdown(a);
      assert BibKey(c) == BibKey(a) && Bibtex(c) == Bibtex(a);
      var m := c.formatted.value;
      assert m["apa" := Apa(a)]["chicago" := Chicago(a)]["bibtex" := Bibtex(a).value]["markdown" := Markdown(a)] == m;
    }
  }

  /** The keys the script sets. */
  const Formats: set<string> := {"apa", "chicago", "bibtex", "markdown"}

  /** Every entry cited, in order, or None when one of them has no key. */
  function CiteAll(list: seq<Article>): Option<seq<Article>> {
    MapAll(Cite, list)
  }

  /** Citing succeeds exactly when every entry has a key; then entry i of
      the result is entry i cited. */
  lemma CiteAllProps(list: seq<Article>)
    ensures CiteAll(list).Some? <==> forall i :: 0 <= i < |list| ==> BibKey(list[i]).Some?
    ensures CiteAll(list).Some? ==>
      |CiteAll(list).value| == |list| &&
      forall i :: 0 <= i < |list| ==> Cite(list[i]).Some? && CiteAll(list).value[i] == Cite(list[i]).value
  {
    MapAllSome(Cite, list);
    forall i | 0 <= i < |list| ensures Cite(list[i]).Some? <==> BibKey(list[i]).Some? {
      CiteProps(list[i]);
    }
    if CiteAll(list).Some? {
      MapAllEntries(Cite, list);
    }
  }

  /** Citing the cited list again changes nothing: add_citations_to_all is
      idempotent. */
  lemma CiteAllIdempotent(list: seq<Article>)
    requires CiteAll(list).Some?
    ensures CiteAll(CiteAll(list).value) == CiteAll(list)
  {
    forall x | Cite(x).Some? ensures Cite(Cite(x).value) == Cite(x) {
      CiteProps(x);
    }
    MapAllIdempotent(Cite, list);
  }

  /** reading_list.json as the citation script reads and writes it. */
  class CitationsFile {
    var readingList: seq<Article>

    constructor (readingList: seq<Article>)
      ensures this.readingList == readingList
    {
      this.readingList := readingList;
    }

    /** add_citations_to_all: set the four formats on every entry, then
        save. An entry without a key raises before the save, so then the
        file keeps its old contents. */
    method AddCitationsToAll() returns (saved: bool)
      modifies this
      ensures saved <==> CiteAll(old(readingList)).Some?
      ensures saved ==> readingList == CiteAll(old(readingList)).value
      ensures !saved ==> readingList == old(readingList)
    {
      var data := readingList;
      for i := 0 to |data|
        invariant readingList == old(readingList) && |data| == |readingList|
        invariant data[i..] == readingList[i..]
        invariant CiteAll(readingList[..i]) == Some(data[..i])
      {
        assert data[i] == readingList[i];
        var cited := Cite(data[i]);
        if cited.None? {
          MapAllStops(Cite, readingList, i);
          return false;
        }
        MapAllStep(Cite, readingList, data, i);
        data := data[i := cited.value];
      }
      assert readingList[..|data|] == readingList;
      assert data[..|data|] == data;
      readingList := data;
      saved := true;
    }
  }

  // ---------------------------------------------------------------------
  // export_citations
  // ---------------------------------------------------------------------

  /** One exported block: BibTeX entries as they are, other formats
      numbered from 1; each followed by a blank line. */
  function Block(i: nat, citation: string, format: string): string {
    if format == "bibtex" then citation + "\n\n" else NatToString(i + 1) + ". " + citation + "\n\n"
  }

  /** `article['citations_formatted'][format]`, None for a KeyError. */
  function Lookup(a: Article, format: string): Option<string> {
    if a.formatted.Some? && format in a.formatted.value then Some(a.formatted.value[format]) else None
  }

  /** What export_citations has written to the output file, and whether
      it got to the end: a missing format stops it after the blocks
      already written. */
  datatype Export = Export(written: string, complete: bool)

  function ExportOf(list: seq<Article>, format: string): Export {
    if list == [] then Export("", true)
    else
      var n := |list| - 1;
      var e := ExportOf(list[..n], format);
      if !e.complete then e
      else
        match Lookup(list[n], format)
        case None => Export(e.written, false)
        case Some(c) => Export(e.written + Block(n, c, format), true)
  }

  /** export_citations over the loaded list. */
  method ExportCitations(list: seq<Article>, format: string) returns (result: Export)
    ensures result == ExportOf(list, format)
  {
    var out := "";
    for i := 0 to |list|
      invariant ExportOf(list[..i], format) == Export(out, true)
    {
      assert list[..i + 1][..i] == list[..i];
      var c := Lookup(list[i], format);
      if c.None? {
        ExportStops(list, format, i + 1);
        return Export(out, false);
      }
      out := out + Block(i, c.value, format);
    }
    assert list[..|list|] == list;
    result := Export(out, true);
  }

  /** Once the export has stopped it stays stopped with the same text. */
  lemma {:induction false} ExportStops(list: seq<Article>, format: string, i: int)
    requires 0 <= i <= |list|
    requires !ExportOf(list[..i], format).complete
    ensures ExportOf(list, format) == ExportOf(list[..i], format)
    decreases |list| - i
  {
    if i < |list| {
      assert list[..i + 1][..i] == list[..i];
      ExportStops(list, format, i + 1);
    } else {
      assert list[..i] == list;
    }
  }

  /** The blocks of the given citations, in order. */
  function BlocksOf(texts: seq<string>, format: string): string {
    if texts == [] then ""
    else
      var n := |texts| - 1;
      BlocksOf(texts[..n], format) + Block(n, texts[n], format)
  }

  /** When every entry has the format, the export is complete and writes
      the blocks of their citations. */
  lemma {:induction false} ExportComplete(cs: seq<Article>, texts: seq<string>, format: string)
    requires |cs| == |texts|
    requires forall i :: 0 <= i < |cs| ==> Lookup(cs[i], format) == Some(texts[i])
    ensures ExportOf(cs, format) == Export(BlocksOf(texts, format), true)
  {
    if cs != [] {
      var n := |cs| - 1;
      assert forall i :: 0 <= i < n ==> cs[..n][i] == cs[i] && texts[..n][i] == texts[i];
      ExportComplete(cs[..n], texts[..n], format);
    }
  }

  /** The citation of one format, as Cite computes it. */
  function FormatOf(a: Article, format: string): string
    requires format in Formats
  {
    if format == "apa" then Apa(a)
    else if format == "chicago" then Chicago(a)
    else if format == "markdown" then Markdown(a)
    else match Bibtex(a) case Some(b) => b case None => ""
  }

  function FormatsOf(list: seq<Article>, format: string): seq<string>
    requires format in Formats
  {
    seq(|list|, i requires 0 <= i < |list| => FormatOf(list[i], format))
  }

  /** A cited entry holds each format as FormatOf computes it. */
  lemma LookupCited(a: Article, format: string)
    requires format in Formats && Cite(a).Some?
    ensures Lookup(Cite(a).value, format) == Some(FormatOf(a, format))
  {
  }

  /** After add_citations_to_all has saved, every format exports
      completely: entry i's citation, numbered i + 1 unless BibTeX. */
  lemma ExportAfterCite(list: seq<Article>, format: string)
    requires format in Formats
    requires CiteAll(list).Some?
    ensures ExportOf(CiteAll(list).value, format) == Export(BlocksOf(FormatsOf(list, format), format), true)
  {
    CiteAllProps(list);
    var cited := CiteAll(list).value;
    var texts := FormatsOf(list, format);
    forall i | 0 <= i < |cited| ensures Lookup(cited[i], format) == Some(texts[i]) {
      LookupCited(list[i], format);
    }
    ExportComplete(cited, texts, format);
  }
}
