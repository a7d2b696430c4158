/** scripts/extract_paper_text.py: the text of every downloaded HTML
    page, with whitespace normalised, saved beside it, and a summary entry
    for each page that yielded text. Parsing the HTML is outside the
    model: each page comes with the text the parser produced, or None
    when extraction raised. */
module ExtractPaperText {
  import opened Common

  /** At most this many characters of the text go into a preview. */
  const PREVIEW_LIMIT: nat := 200

  // ---------------------------------------------------------------------
  // clean_text
  // ---------------------------------------------------------------------

  /** clean_text: whitespace runs become one space, then the ends are
      stripped. */
  function CleanText(text: string): string {
    Strip(Collapse(text))
  }

  /** clean_text is `' '.join(text.split())`. */
  lemma CleanTextIsJoinWords(text: string)
    ensures CleanText(text) == JoinWords(text)
  {
    CollapseStrip(text);
  }

  /** The cleaned text has no whitespace at either end, no two whitespace
      characters side by side, and no whitespace but the space. */
  lemma CleanTextSingleSpaced(text: string)
    ensures SingleSpaced(CleanText(text))
    ensures CleanText(text) == [] || (!IsSpace(CleanText(text)[0]) && !IsSpace(CleanText(text)[|CleanText(text)| - 1]))
  {
    CleanTextIsJoinWords(text);
    JoinWordsSingleSpaced(text);
  }

  /** Cleaning keeps every other character, in order. */
  lemma CleanTextKeepsText(text: string)
    ensures NonSpace(CleanText(text)) == NonSpace(text)
  {
    CleanTextIsJoinWords(text);
    JoinWordsKeepsText(text);
  }

  /** Cleaning clean text changes nothing. */
  lemma CleanTextIdempotent(text: string)
    ensures CleanText(CleanText(text)) == CleanText(text)
  {
    CleanTextIsJoinWords(text);
    CleanTextIsJoinWords(CleanText(text));
    JoinWordsIdempotent(text);
  }

  // ---------------------------------------------------------------------
  // main
  // ---------------------------------------------------------------------

  /** `path.with_suffix(suffix)` on a file name: the part from the last dot
      is replaced when it is a suffix (a dot neither first nor last),
      otherwise the suffix is appended. */
  function WithSuffix(name: string, suffix: string): string {
    match LastDot(name)
    case Some(i) =>
      if 0 < i < |name| - 1 then name[..i] + suffix else name + suffix
    case None => name + suffix
  }

  /** `name.rfind('.')` */
  function LastDot(name: string): (r: Option<nat>)
    ensures r.Some? ==> r.value < |name| && name[r.value] == '.'
    ensures r.Some? ==> forall k :: r.value < k < |name| ==> name[k] != '.'
    ensures r.None? ==> Lacks(name, '.')
  {
    if name == [] then None
    else if name[|name| - 1] == '.' then Some(|name| - 1)
    else LastDot(name[..|name| - 1])
  }

  /** A page found by `*.html` gets its text saved under the same name
      ending in `.txt`. */
  lemma TextFileName(stem: string)
    requires stem != []
    ensures WithSuffix(stem + ".html", ".txt") == stem + ".txt"
  {
    var name := stem + ".html";
    assert name[..|stem|] == stem;
    assert LastDot(name) == Some(|stem|) by {
      assert name[|stem|] == '.';
      assert name[..|name| - 4] == stem + ".";
      assert name[..|name| - 1][..|name| - 2] == name[..|name| - 2];
    }
  }

  /** `text[:200] + '...' if len(text) > 200 else text` */
  function Preview(text: string): (p: string)
    ensures |text| <= PREVIEW_LIMIT ==> p == text
    ensures |text| > PREVIEW_LIMIT ==> |p| == PREVIEW_LIMIT + 3 && p[..PREVIEW_LIMIT] == text[..PREVIEW_LIMIT]
    ensures |p| <= PREVIEW_LIMIT + 3
  {
    if |text| > PREVIEW_LIMIT then text[..PREVIEW_LIMIT] + "..." else text
  }

  /** A page found on disk: its file name and the text the parser got
      from it, None when extraction raised. */
  datatype HtmlFile = HtmlFile(name: string, extracted: Option<string>)

  /** One entry of extraction_summary.json. */
  datatype Entry = Entry(htmlFile: string, textFile: string, textLength: nat, wordCount: nat, preview: string)

  /** extract_text_from_html: the cleaned text, or None. */
  function ExtractText(f: HtmlFile): Option<string> {
    match f.extracted
    case None => None
    case Some(raw) => Some(CleanText(raw))
  }

  /** The summary entry of a page with text. */
  function EntryOf(name: string, text: string): Entry {
    Entry(name, WithSuffix(name, ".txt"), |text|, |Words(text)|, Preview(text))
  }

  /** `if text:` — the page yields an entry when its text is not None and
      not empty. */
  function EntryFor(f: HtmlFile): Option<Entry> {
    match ExtractText(f)
    case None => None
    case Some(text) => if text == [] then None else Some(EntryOf(f.name, text))
  }

  /** The entries of the pages in order, skipping those without text. */
  function Entries(files: seq<HtmlFile>): seq<Entry> {
    if files == [] then []
    else
      var prev := Entries(files[..|files| - 1]);
      match EntryFor(files[|files| - 1])
      case None => prev
      case Some(e) => prev + [e]
  }

  /** The extraction loop of main. */
  method ExtractAll(files: seq<HtmlFile>) returns (results: seq<Entry>)
    ensures results == Entries(files)
  {
    results := [];
    for i := 0 to |files|
      invariant results == Entries(files[..i])
    {
      assert files[..i + 1][..i] == files[..i];
      var text := ExtractText(files[i]);
      if text.Some? && text.value != [] {
        results := results + [EntryOf(files[i].name, text.value)];
      }
    }
    assert files[..|files|] == files;
  }

  /** The pages that yield text. */
  function WithText(files: seq<HtmlFile>): nat {
    if files == [] then 0
    else WithText(files[..|files| - 1]) + (if EntryFor(files[|files| - 1]).Some? then 1 else 0)
  }

  /** There is one entry per page with text, so never more entries than
      pages, and every entry is of a non-empty text of at least one word,
      no more words than characters. */
  lemma {:induction false} EntriesCount(files: seq<HtmlFile>)
    ensures |Entries(files)| == WithText(files) <= |files|
    ensures forall i :: 0 <= i < |Entries(files)| ==>
      1 <= Entries(files)[i].wordCount <= Entries(files)[i].textLength
  {
    if files != [] {
      var n := |files| - 1;
      EntriesCount(files[..n]);
      EntryBounds(files[n]);
      var prev := Entries(files[..n]);
      var last := EntryFor(files[n]);
      EntriesSnoc(files);
      if last.Some? {
        forall i | 0 <= i < |prev + [last.value]|
          ensures 1 <= (prev + [last.value])[i].wordCount <= (prev + [last.value])[i].textLength
        {
          if i < |prev| {
            assert (prev + [last.value])[i] == prev[i];
          }
        }
      }
    }
  }

  /** One more page adds its entry, if it has one, at the end. */
  lemma EntriesSnoc(files: seq<HtmlFile>)
    requires files != []
    ensures var last := EntryFor(files[|files| - 1]);
      Entries(files) == Entries(files[..|files| - 1]) + (if last.Some? then [last.value] else []) &&
      WithText(files) == WithText(files[..|files| - 1]) + (if last.Some? then 1 else 0)
  {
  }

  lemma EntryBounds(f: HtmlFile)
    ensures EntryFor(f).Some? ==> 1 <= EntryFor(f).value.wordCount <= EntryFor(f).value.textLength
  {
    if EntryFor(f).Some? {
      CleanTextSingleSpaced(f.extracted.value);
      WordCountBounds(ExtractText(f).value);
    }
  }

  /** Non-empty text has between one word and as many words as
      characters. */
  lemma WordCountBounds(text: string)
    requires text != [] && !IsSpace(text[0])
    ensures 1 <= |Words(text)| <= |text|
  {
    WordsEmpty(text);
    NonSpaceWords(text);
    ConcatLength(Words(text));
  }

  /** What main reports: pages processed and the entries, or None when
      no HTML page was found and nothing is written. */
  function Main(files: seq<HtmlFile>): (r: Option<(nat, seq<Entry>)>)
    ensures r.None? <==> files == []
    ensures r.Some? ==> r.value.0 == |files| && |r.value.1| <= r.value.0
  {
    EntriesCount(files);
    if files == [] then None else Some((|files|, Entries(files)))
  }
}
