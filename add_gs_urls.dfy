/** scripts/add_gs_urls.py: a Google Scholar search url for every
    reading-list entry, built from the first author's last name and the
    title, percent-encoded as section 2.1 of RFC 3986 describes. */
module AddGsUrls {
  import opened Common

  const SCHOLAR_PREFIX: string := "https://scholar.google.com/scholar?q="

  // ---------------------------------------------------------------------
  // Percent-encoding
  // ---------------------------------------------------------------------

  /** The unreserved characters of section 2.3 of RFC 3986: ASCII letters,
      digits and `_ . - ~`. */
  predicate Unreserved(c: char) {
    IsAlnum(c) || c == '_' || c == '.' || c == '-' || c == '~'
  }

  /** What `quote` leaves as it is: the unreserved characters and the
      default safe character `/`. */
  predicate Safe(c: char) {
    Unreserved(c) || c == '/'
  }

  /** The UTF-8 bytes of a character. */
  function Utf8(c: char): (bytes: seq<nat>)
    ensures 1 <= |bytes| <= 4
    ensures forall i :: 0 <= i < |bytes| ==> bytes[i] < 256
    ensures (c as int < 0x80) <==> |bytes| == 1
    ensures c as int < 0x80 ==> bytes == [c as int]
  {
    var cp := c as int;
    if cp < 0x80 then [cp]
    else if cp < 0x800 then [0xC0 + cp / 64, 0x80 + cp % 64]
    else if cp < 0x10000 then [0xE0 + cp / 4096, 0x80 + (cp / 64) % 64, 0x80 + cp % 64]
    else [0xF0 + cp / 262144, 0x80 + (cp / 4096) % 64, 0x80 + (cp / 64) % 64, 0x80 + cp % 64]
  }

  /** The upper-case hexadecimal digit of `d`. */
  function HexDigit(d: nat): (c: char)
    requires d < 16
    ensures IsHex(c) && HexValue(c) == d
    ensures IsAlnum(c)
  {
    if d < 10 then ('0' as int + d) as char else ('A' as int + d - 10) as char
  }

  /** `%XY` for one byte, upper-case hexadecimal. */
  function PercentByte(b: nat): (e: string)
    requires b < 256
    ensures |e| == 3 && e[0] == '%'
  {
    ['%', HexDigit(b / 16), HexDigit(b % 16)]
  }

  function PercentBytes(bytes: seq<nat>): string
    requires forall i :: 0 <= i < |bytes| ==> bytes[i] < 256
  {
    if bytes == [] then "" else PercentByte(bytes[0]) + PercentBytes(bytes[1..])
  }

  /** One character of `quote`'s output: itself when safe, else its
      UTF-8 bytes percent-encoded. */
  function QuoteChar(c: char): string {
    if Safe(c) then [c] else PercentBytes(Utf8(c))
  }

  /** `urllib.parse.quote(s)` */
  function Quote(s: string): string {
    if s == [] then "" else QuoteChar(s[0]) + Quote(s[1..])
  }

  /** An upper-case hexadecimal digit. */
  predicate IsHex(c: char) {
    IsDigit(c) || 'A' <= c <= 'F'
  }

  /** The encoded text uses only safe characters, `%` and hex digits, and
      it is no shorter than the text. */
  lemma {:induction false} QuoteAlphabet(s: string)
    ensures forall k :: 0 <= k < |Quote(s)| ==> Safe(Quote(s)[k]) || Quote(s)[k] == '%'
    ensures |Quote(s)| >= |s|
  {
    if s != [] {
      QuoteAlphabet(s[1..]);
      QuoteCharAlphabet(s[0]);
    }
  }

  lemma QuoteCharAlphabet(c: char)
    ensures forall k :: 0 <= k < |QuoteChar(c)| ==> Safe(QuoteChar(c)[k]) || QuoteChar(c)[k] == '%'
    ensures |QuoteChar(c)| >= 1
  {
    if !Safe(c) {
      PercentBytesAlphabet(Utf8(c));
    }
  }

  lemma {:induction false} PercentBytesAlphabet(bytes: seq<nat>)
    requires forall i :: 0 <= i < |bytes| ==> bytes[i] < 256
    ensures |PercentBytes(bytes)| == 3 * |bytes|
    ensures forall k :: 0 <= k < |PercentBytes(bytes)| ==> Safe(PercentBytes(bytes)[k]) || PercentBytes(bytes)[k] == '%'
  {
    if bytes != [] {
      PercentBytesAlphabet(bytes[1..]);
      var e := PercentByte(bytes[0]);
      assert forall k :: 0 <= k < 3 ==> Safe(e[k]) || e[k] == '%';
    }
  }

  /** The value of a hexadecimal digit. */
  function HexValue(c: char): nat
    requires IsHex(c)
  {
    if IsDigit(c) then c as int - '0' as int else c as int - 'A' as int + 10
  }

  /** Percent-decoding: `%XY` becomes the character with code XY, every
      other character stays. */
  function Unquote(t: string): string {
    if t == [] then ""
    else if |t| >= 3 && t[0] == '%' && IsHex(t[1]) && IsHex(t[2]) then
      [(HexValue(t[1]) * 16 + HexValue(t[2])) as char] + Unquote(t[3..])
    else [t[0]] + Unquote(t[1..])
  }

  /** Decoding one encoded ASCII character gives the character back. */
  lemma UnquoteChar(c: char, t: string)
    requires c as int < 0x80
    ensures Unquote(QuoteChar(c) + t) == [c] + Unquote(t)
  {
    if Safe(c) {
      assert (QuoteChar(c) + t)[1..] == t;
    } else {
      var b := c as int;
      var e := PercentByte(b);
      assert PercentBytes([b]) == e + PercentBytes([]);
      assert QuoteChar(c) == e;
      assert (b / 16) * 16 + b % 16 == b;
      assert (e + t)[3..] == t;
    }
  }

  /** Percent-decoding undoes `quote` on ASCII text. */
  lemma {:induction false} QuoteRoundTrip(s: string)
    requires forall k :: 0 <= k < |s| ==> s[k] as int < 0x80
    ensures Unquote(Quote(s)) == s
  {
    if s != [] {
      UnquoteChar(s[0], Quote(s[1..]));
      QuoteRoundTrip(s[1..]);
      assert s == [s[0]] + s[1..];
    }
  }

  // ---------------------------------------------------------------------
  // construct_gs_url
  // ---------------------------------------------------------------------

  /** `authors.split(',')[0].strip()` */
  function FirstAuthor(authors: string): string {
    Strip(Split(authors, ",")[0])
  }

  /** The last name: the last of several words, or the only word; None is
      the IndexError of a blank first author. */
  function LastName(firstAuthor: string): Option<string> {
    var parts := Words(firstAuthor);
    if |parts| > 1 then Some(parts[|parts| - 1])
    else if parts == [] then None
    else Some(parts[0])
  }

  /** In both branches the last name is the last word of the first
      author; it exists exactly when the first author is not blank. */
  lemma LastNameIsLastWord(firstAuthor: string)
    ensures LastName(firstAuthor).None? <==> forall k :: 0 <= k < |firstAuthor| ==> IsSpace(firstAuthor[k])
    ensures LastName(firstAuthor).Some? ==>
      var parts := Words(firstAuthor);
      LastName(firstAuthor).value == parts[|parts| - 1] &&
      |LastName(firstAuthor).value| > 0 && NoSpace(LastName(firstAuthor).value)
  {
    WordsEmpty(firstAuthor);
  }

  /** The search: `{last_name} "{title}"` */
  function Query(lastName: string, title: string): string {
    lastName + " \"" + title + "\""
  }

  /** construct_gs_url, None for the IndexError. */
  function GsUrl(authors: string, title: string): Option<string> {
    match LastName(FirstAuthor(authors))
    case None => None
    case Some(lastName) => Some(SCHOLAR_PREFIX + Quote(Query(lastName, title)))
  }

  /** The url is the search page followed by the encoded query, and
      decoding the part after the prefix gives back the query when it is
      ASCII. */
  lemma GsUrlDecodes(authors: string, title: string)
    requires GsUrl(authors, title).Some?
    requires forall k :: 0 <= k < |authors| ==> authors[k] as int < 0x80
    requires forall k :: 0 <= k < |title| ==> title[k] as int < 0x80
    ensures var url := GsUrl(authors, title).value;
      url[..|SCHOLAR_PREFIX|] == SCHOLAR_PREFIX &&
      Unquote(url[|SCHOLAR_PREFIX|..]) == Query(LastName(FirstAuthor(authors)).value, title)
  {
    var lastName := LastName(FirstAuthor(authors)).value;
    var q := Query(lastName, title);
    LastNameAscii(authors);
    assert forall k :: 0 <= k < |q| ==> q[k] as int < 0x80;
    QuoteRoundTrip(q);
    var url := GsUrl(authors, title).value;
    assert url[|SCHOLAR_PREFIX|..] == Quote(q);
  }

  /** The last name of ASCII authors is ASCII. */
  lemma LastNameAscii(authors: string)
    requires forall k :: 0 <= k < |authors| ==> authors[k] as int < 0x80
    requires LastName(FirstAuthor(authors)).Some?
    ensures forall k :: 0 <= k < |LastName(FirstAuthor(authors)).value| ==> LastName(FirstAuthor(authors)).value[k] as int < 0x80
  {
    var f := FirstAuthor(authors);
    SplitHead(authors, ",");
    var head := Split(authors, ",")[0];
    assert forall k :: 0 <= k < |head| ==> head[k] as int < 0x80;
    StripPart(head);
    WordsPart(f);
  }

  /** Every character of a strip comes from the text. */
  lemma StripPart(s: string)
    ensures forall k :: 0 <= k < |Strip(s)| ==> Strip(s)[k] in s
  {
    LStripPart(s);
    var l := LStrip(s);
    assert forall k :: 0 <= k < |RStrip(l)| ==> RStrip(l)[k] == l[k];
  }

  // ---------------------------------------------------------------------
  // add_gs_urls_to_reading_list and display_gs_urls
  // ---------------------------------------------------------------------

  /** An entry: its title, its authors and `google_scholar_url` if set. */
  datatype Paper = Paper(title: string, authors: string, gsUrl: Option<string>)

  /** The entry with its url set; None for the IndexError. */
  function WithGsUrl(p: Paper): Option<Paper> {
    match GsUrl(p.authors, p.title)
    case None => None
    case Some(url) => Some(p.(gsUrl := Some(url)))
  }

  /** reading_list.json as the script reads and writes it. */
  class GsFile {
    var readingList: seq<Paper>

    constructor (readingList: seq<Paper>)
      ensures this.readingList == readingList
    {
      this.readingList := readingList;
    }

    /** add_gs_urls_to_reading_list: set the url on every entry and save;
        a blank first author raises before the save. */
    method AddGsUrls() returns (saved: bool, updatedCount: nat)
      modifies this
      ensures saved <==> MapAll(WithGsUrl, old(readingList)).Some?
      ensures saved ==> readingList == MapAll(WithGsUrl, old(readingList)).value && updatedCount == |old(readingList)|
      ensures !saved ==> readingList == old(readingList)
    {
      var updated;
      updated, updatedCount := UpdateEntries(readingList);
      if updated.Some? {
        readingList := updated.value;
        saved := true;
      } else {
        saved := false;
      }
    }
  }

  /** The loop of add_gs_urls_to_reading_list: each entry gets its url in
      turn, counting the entries done, until an entry raises. */
  method UpdateEntries(list: seq<Paper>) returns (updated: Option<seq<Paper>>, updatedCount: nat)
    ensures updated == MapAll(WithGsUrl, list)
    ensures updated.Some? ==> updatedCount == |list|
    ensures updated.None? ==> updatedCount < |list| && WithGsUrl(list[updatedCount]).None?
  {
    var data := list;
    var n := |data|;
    updatedCount := 0;
    for i := 0 to n
      invariant |data| == n == |list| && updatedCount == i
      invariant data[i..] == list[i..]
      invariant MapAll(WithGsUrl, list[..i]) == Some(data[..i])
    {
      var paper := data[i];
      assert paper == list[i] by {
        assert data[i..][0] == list[i..][0];
      }
      var withUrl := WithGsUrl(paper);
      if withUrl.None? {
        MapAllStops(WithGsUrl, list, i);
        return None, updatedCount;
      }
      MapAllStep(WithGsUrl, list, data, i);
      data := data[i := withUrl.value];
      updatedCount := updatedCount + 1;
    }
    assert list[..n] == list;
    assert data[..n] == data;
    updated := Some(data);
  }

  /** What display_gs_urls shows for an entry: the stored url, marked
      not generated, or else the url computed the same way, marked
      generated; None for the IndexError. */
  function DisplayUrl(p: Paper): Option<(string, bool)> {
    if p.gsUrl.Some? then Some((p.gsUrl.value, false))
    else match GsUrl(p.authors, p.title)
      case None => None
      case Some(url) => Some((url, true))
  }

  /** Before the urls are added an entry shows the generated url; after,
      the same url is shown as stored. */
  lemma DisplayAfterAdd(p: Paper)
    requires p.gsUrl.None? && WithGsUrl(p).Some?
    ensures DisplayUrl(p) == Some((GsUrl(p.authors, p.title).value, true))
    ensures DisplayUrl(WithGsUrl(p).value) == Some((GsUrl(p.authors, p.title).value, false))
  {
  }

  /** Running the script a second time stores the same urls again: the
      url depends only on the authors and the title, which it keeps. */
  lemma AddGsUrlsIdempotent(list: seq<Paper>)
    requires MapAll(WithGsUrl, list).Some?
    ensures MapAll(WithGsUrl, MapAll(WithGsUrl, list).value) == MapAll(WithGsUrl, list)
  {
    forall p: Paper | WithGsUrl(p).Some?
      ensures WithGsUrl(WithGsUrl(p).value) == WithGsUrl(p)
    {
    }
    MapAllIdempotent(WithGsUrl, list);
  }
}
