/** scripts/manage_reading_list.py: the reading list kept in a JSON file.
    Every command loads the file (a missing file is an empty list), then
    appends to it, pops from it, filters it or writes its urls out. The
    file is modelled as a class whose fields are what the file holds; the
    clock is a parameter and the printing is left out. */
module ManageReadingList {
  import opened Common

  /** A JSON scalar as the entries hold it; `NotANumber` is pandas' NaN. */
  datatype Value = Null | Num(n: int) | Text(s: string) | NotANumber

  /** Python truthiness of a scalar: NaN is true, 0, "" and None are false. */
  predicate Truthy(v: Value) {
    match v
    case Null => false
    case Num(n) => n != 0
    case Text(s) => s != ""
    case NotANumber => true
  }

  /** The text `f"{v}"` writes for a scalar. */
  function ValueText(v: Value): string {
    match v
    case Null => "None"
    case Num(n) => if n < 0 then "-" + NatToString(-n) else NatToString(n)
    case Text(s) => s
    case NotANumber => "nan"
  }

  datatype Entry = Entry(title: Value, authors: Value, year: Value, url: Value, citations: Value,
                         tags: seq<string>, notes: string, dateAdded: string)

  /** The entry add_article builds: a falsy year, citation count, tag list
      or note becomes "N/A", 0, [] or "". */
  function MakeEntry(title: Value, authors: Value, url: Value, year: Value, citations: Value,
                     tags: Option<seq<string>>, notes: Option<string>, today: string): (e: Entry)
    ensures e.title == title && e.authors == authors && e.url == url && e.dateAdded == today
    ensures e.year == (if Truthy(year) then year else Text("N/A"))
    ensures e.citations == (if Truthy(citations) then citations else Num(0))
    ensures tags.Some? && tags.value != [] ==> e.tags == tags.value
    ensures tags.None? || tags.value == [] ==> e.tags == []
    ensures notes.Some? && notes.value != "" ==> e.notes == notes.value
    ensures notes.None? || notes.value == "" ==> e.notes == ""
  {
    Entry(title, authors,
          if Truthy(year) then year else Text("N/A"),
          url,
          if Truthy(citations) then citations else Num(0),
          if tags.Some? && tags.value != [] then tags.value else [],
          if notes.Some? && notes.value != "" then notes.value else "",
          today)
  }

  /** Python's `==` on scalars: equal values compare equal, except that
      NaN equals nothing, not even NaN. */
  predicate PyEq(a: Value, b: Value) {
    a == b && a != NotANumber
  }

  /** Some entry of the list has a url that compares equal to this one. */
  predicate HasUrl(list: seq<Entry>, url: Value) {
    exists i :: 0 <= i < |list| && PyEq(list[i].url, url)
  }

  /** No two entries of the list have urls that compare equal. */
  predicate DistinctUrls(list: seq<Entry>) {
    forall i, j :: 0 <= i < j < |list| ==> !PyEq(list[i].url, list[j].url)
  }

  /** The list after add_article: unchanged when the url is already
      there, else the entry appended at the end. */
  function AddTo(list: seq<Entry>, e: Entry): seq<Entry> {
    if HasUrl(list, e.url) then list else list + [e]
  }

  /** Adding keeps the urls distinct and adds exactly the new url to the
      ones present; a url other than NaN is present afterwards, and adding
      it again changes nothing. A NaN url compares equal to nothing, so its
      entry is always appended. */
  lemma AddToProps(list: seq<Entry>, e: Entry)
    ensures DistinctUrls(list) ==> DistinctUrls(AddTo(list, e))
    ensures e.url != NotANumber ==> HasUrl(AddTo(list, e), e.url)
    ensures forall u :: HasUrl(AddTo(list, e), u) <==> HasUrl(list, u) || PyEq(u, e.url)
    ensures e.url != NotANumber ==> AddTo(AddTo(list, e), e) == AddTo(list, e)
    ensures e.url == NotANumber ==> AddTo(list, e) == list + [e]
  {
    var r := AddTo(list, e);
    if !HasUrl(list, e.url) {
      assert r[|list|].url == e.url;
      forall u | HasUrl(r, u) ensures HasUrl(list, u) || PyEq(u, e.url) {
        var i :| 0 <= i < |r| && PyEq(r[i].url, u);
        if i < |list| {
          assert PyEq(list[i].url, u);
        }
      }
      forall u | HasUrl(list, u) ensures HasUrl(r, u) {
        var i :| 0 <= i < |list| && PyEq(list[i].url, u);
        assert PyEq(r[i].url, u);
      }
    }
  }

  /** The reading_list after a sequence of add_article calls. */
  function AddAll(list: seq<Entry>, es: seq<Entry>): seq<Entry> {
    if es == [] then list else AddTo(AddAll(list, es[..|es| - 1]), es[|es| - 1])
  }

  /** Any number of additions keeps the urls distinct and only appends. */
  lemma {:induction false} AddAllProps(list: seq<Entry>, es: seq<Entry>)
    ensures DistinctUrls(list) ==> DistinctUrls(AddAll(list, es))
    ensures |list| <= |AddAll(list, es)| <= |list| + |es|
    ensures AddAll(list, es)[..|list|] == list
  {
    if es != [] {
      var n := |es| - 1;
      AddAllProps(list, es[..n]);
      var prev := AddAll(list, es[..n]);
      AddToProps(prev, es[n]);
      assert AddAll(list, es)[..|prev|] == prev;
      assert AddAll(list, es)[..|list|] == AddAll(list, es)[..|prev|][..|list|];
    }
  }

  /** The list after pop(k). */
  function RemoveAt(list: seq<Entry>, k: int): seq<Entry>
    requires 0 <= k < |list|
  {
    list[..k] + list[k + 1..]
  }

  /** Popping keeps the others in order, and putting the popped entry
      back in its place restores the list. */
  lemma RemoveAtProps(list: seq<Entry>, k: int)
    requires 0 <= k < |list|
    ensures |RemoveAt(list, k)| == |list| - 1
    ensures forall i :: 0 <= i < k ==> RemoveAt(list, k)[i] == list[i]
    ensures forall i :: k <= i < |list| - 1 ==> RemoveAt(list, k)[i] == list[i + 1]
    ensures RemoveAt(list, k)[..k] + [list[k]] + RemoveAt(list, k)[k..] == list
    ensures DistinctUrls(list) ==> DistinctUrls(RemoveAt(list, k))
  {
    var r := RemoveAt(list, k);
    assert r[..k] == list[..k] && r[k..] == list[k + 1..];
    assert list == list[..k] + [list[k]] + list[k + 1..];
  }

  /** reading_list.json: whether it exists and the list it holds. */
  class ReadingListFile {
    var present: bool
    var readingList: seq<Entry>

    constructor (present: bool, readingList: seq<Entry>)
      ensures this.present == present && this.readingList == readingList
    {
      this.present := present;
      this.readingList := readingList;
    }

    /** load_reading_list: a missing file loads as the empty list. */
    function Load(): (list: seq<Entry>)
      reads this
      ensures !present ==> list == []
      ensures present ==> list == readingList
    {
      if present then readingList else []
    }

    /** add_article: when no entry has the url, append the new entry and
        save; otherwise change nothing and do not save. */
    method AddArticle(title: Value, authors: Value, url: Value, year: Value, citations: Value,
                      tags: Option<seq<string>>, notes: Option<string>, today: string) returns (added: bool)
      modifies this
      ensures added <==> !HasUrl(old(Load()), url)
      ensures added ==> (present &&
        readingList == old(Load()) + [MakeEntry(title, authors, url, year, citations, tags, notes, today)])
      ensures !added ==> present == old(present) && readingList == old(readingList)
      ensures Load() == AddTo(old(Load()), MakeEntry(title, authors, url, year, citations, tags, notes, today))
    {
      var data := Load();
      var i := 0;
      while i < |data|
        invariant 0 <= i <= |data|
        invariant forall j :: 0 <= j < i ==> !PyEq(data[j].url, url)
      {
        if PyEq(data[i].url, url) {
          return false;
        }
        i := i + 1;
      }
      var article := MakeEntry(title, authors, url, year, citations, tags, notes, today);
      readingList := data + [article];
      present := true;
      added := true;
    }

    /** remove_article: a 1-based index within the list pops that entry
        and saves; any other index changes nothing and does not save. */
    method RemoveArticle(index: int) returns (removed: Option<Entry>)
      modifies this
      ensures removed.Some? <==> 0 < index <= |old(Load())|
      ensures removed.Some? ==> (removed.value == old(Load())[index - 1] && present &&
        readingList == RemoveAt(old(Load()), index - 1))
      ensures removed.None? ==> present == old(present) && readingList == old(readingList)
    {
      var data := Load();
      if 0 < index <= |data| {
        removed := Some(data[index - 1]);
        readingList := data[..index - 1] + data[index..];
        present := true;
      } else {
        removed := None;
      }
    }

    /** export_urls: nothing is written for an empty list, else one line
        per url in list order. */
    method ExportUrls() returns (written: Option<string>)
      ensures Load() == [] ==> written.None?
      ensures Load() != [] ==> written == Some(Lines(UrlTexts(Load())))
    {
      var data := Load();
      if data == [] {
        return None;
      }
      var out := "";
      for i := 0 to |data|
        invariant out == Lines(UrlTexts(data[..i]))
      {
        LinesSnoc(UrlTexts(data[..i]), ValueText(data[i].url));
        assert UrlTexts(data[..i + 1]) == UrlTexts(data[..i]) + [ValueText(data[i].url)];
        out := out + ValueText(data[i].url) + "\n";
      }
      assert data[..|data|] == data;
      written := Some(out);
    }
  }

  // ---------------------------------------------------------------------
  // Listing
  // ---------------------------------------------------------------------

  /** The entries list_articles shows: all of them for a falsy tag, else
      those whose tags contain it, in list order. */
  function TagFilter(list: seq<Entry>, tag: Option<string>): seq<Entry> {
    if tag.None? || tag.value == "" || list == [] then list
    else
      var rest := TagFilter(list[..|list| - 1], tag);
      if tag.value in list[|list| - 1].tags then rest + [list[|list| - 1]] else rest
  }

  /** An entry is shown exactly when its tags hold the tag, and filtering
      a concatenation filters each part in order. */
  lemma {:induction false} TagFilterProps(list: seq<Entry>, tag: string, e: Entry)
    requires tag != ""
    ensures e in TagFilter(list, Some(tag)) <==> e in list && tag in e.tags
    ensures |TagFilter(list, Some(tag))| <= |list|
  {
    if list != [] {
      var n := |list| - 1;
      TagFilterProps(list[..n], tag, e);
      assert list == list[..n] + [list[n]];
    }
  }

  lemma {:induction false} TagFilterAppend(a: seq<Entry>, b: seq<Entry>, tag: string)
    requires tag != ""
    ensures TagFilter(a + b, Some(tag)) == TagFilter(a, Some(tag)) + TagFilter(b, Some(tag))
  {
    if b != [] {
      var n := |b| - 1;
      TagFilterAppend(a, b[..n], tag);
      assert (a + b)[..|a + b| - 1] == a + b[..n];
    } else {
      assert a + b == a;
    }
  }

  /** `enumerate(articles, 1)`: each shown entry with its number. */
  function Numbered(entries: seq<Entry>, first: nat): seq<(nat, Entry)> {
    if entries == [] then [] else [(first, entries[0])] + Numbered(entries[1..], first + 1)
  }

  /** The i-th line shows number first + i and the i-th entry. */
  lemma {:induction false} NumberedAt(entries: seq<Entry>, first: nat)
    ensures |Numbered(entries, first)| == |entries|
    ensures forall i :: 0 <= i < |entries| ==> Numbered(entries, first)[i] == (first + i, entries[i])
  {
    if entries != [] {
      NumberedAt(entries[1..], first + 1);
    }
  }

  /** list_articles without the printing: the shown entries numbered from 1. */
  function ListArticles(list: seq<Entry>, tag: Option<string>): seq<(nat, Entry)> {
    Numbered(TagFilter(list, tag), 1)
  }

  // ---------------------------------------------------------------------
  // Export
  // ---------------------------------------------------------------------

  function UrlTexts(list: seq<Entry>): (urls: seq<string>)
    ensures |urls| == |list|
    ensures forall i :: 0 <= i < |list| ==> urls[i] == ValueText(list[i].url)
  {
    seq(|list|, i requires 0 <= i < |list| => ValueText(list[i].url))
  }

  /** Each text followed by a newline. */
  function Lines(xs: seq<string>): string {
    if xs == [] then "" else xs[0] + "\n" + Lines(xs[1..])
  }

  lemma {:induction false} LinesSnoc(xs: seq<string>, x: string)
    ensures Lines(xs + [x]) == Lines(xs) + x + "\n"
  {
    if xs != [] {
      assert (xs + [x])[1..] == xs[1..] + [x];
      LinesSnoc(xs[1..], x);
    } else {
      assert [x][1..] == [];
    }
  }

  /** Reading the exported file back line by line gives the urls, as long
      as no url spans lines. */
  lemma {:induction false} LinesSplit(xs: seq<string>)
    requires forall i :: 0 <= i < |xs| ==> OneLine(xs[i])
    ensures Split(Lines(xs), "\n") == xs + [""]
  {
    if xs == [] {
      assert Find("", "\n").None?;
    } else {
      SplitLine(xs[0], Lines(xs[1..]));
      LinesSplit(xs[1..]);
      assert xs == [xs[0]] + xs[1..];
    }
  }

  // ---------------------------------------------------------------------
  // add_from_collection
  // ---------------------------------------------------------------------

  /** A row of the collection file, citations after `to_numeric`
      (None is NaN). */
  datatype CollectionRow = CollectionRow(title: Value, authors: Value, url: Value, year: Value,
                                         citations: Option<int>, summary: Value)

  /** `str.contains(term, case=False, na=False)` on one cell: only a
      text can match. */
  predicate CellMatches(v: Value, term: string) {
    v.Text? && Contains(LowerStr(v.s), LowerStr(term))
  }

  predicate RowMatches(r: CollectionRow, term: string) {
    CellMatches(r.title, term) || CellMatches(r.summary, term)
  }

  /** The indices of the first n rows whose title or abstract matches, in
      row order. */
  function MatchIndices(rows: seq<CollectionRow>, term: string, n: nat): seq<nat>
    requires n <= |rows|
  {
    if n == 0 then []
    else MatchIndices(rows, term, n - 1) + (if RowMatches(rows[n - 1], term) then [n - 1] else [])
  }

  /** The match indices are the positions of the matching rows. */
  lemma {:induction false} MatchPositions(rows: seq<CollectionRow>, term: string, n: nat)
    requires n <= |rows|
    ensures MatchIndices(rows, term, n) == Positions(rows, (r: CollectionRow) => RowMatches(r, term), n)
  {
    if n > 0 {
      MatchPositions(rows, term, n - 1);
    }
  }

  /** The positions below n whose element satisfies `p`, in order. */
  function Positions<T>(xs: seq<T>, p: T -> bool, n: nat): seq<int>
    requires n <= |xs|
  {
    if n == 0 then []
    else Positions(xs, p, n - 1) + (if p(xs[n - 1]) then [n - 1] else [])
  }

  lemma {:induction false} PositionsAre<T>(xs: seq<T>, p: T -> bool, n: nat, k: int)
    requires n <= |xs|
    ensures k in Positions(xs, p, n) <==> 0 <= k < n && p(xs[k])
  {
    if n > 0 {
      PositionsAre(xs, p, n - 1, k);
    }
  }

  /** Positions come in increasing order. */
  lemma {:induction false} PositionsIncreasing<T>(xs: seq<T>, p: T -> bool, n: nat)
    requires n <= |xs|
    ensures Increasing(Positions(xs, p, n))
  {
    if n > 0 {
      var prev := Positions(xs, p, n - 1);
      PositionsIncreasing(xs, p, n - 1);
      if p(xs[n - 1]) {
        forall i | 0 <= i < |prev| ensures prev[i] < n - 1 {
          PositionsAre(xs, p, n - 1, prev[i]);
        }
        AppendIncreasing(prev, n - 1);
      }
    }
  }

  predicate Increasing(s: seq<int>) {
    forall i, j :: 0 <= i < j < |s| ==> s[i] < s[j]
  }

  lemma AppendIncreasing(s: seq<int>, x: int)
    requires Increasing(s) && forall i :: 0 <= i < |s| ==> s[i] < x
    ensures Increasing(s + [x])
  {
    var t := s + [x];
    forall i, j | 0 <= i < j < |t| ensures t[i] < t[j] {
      assert t[i] == s[i];
    }
  }

  /** A value occurs at most once in an increasing sequence. */
  lemma {:induction false} IncreasingOnce(s: seq<int>, k: int)
    requires Increasing(s)
    ensures multiset(s)[k] <= 1
  {
    if s != [] {
      var n := |s| - 1;
      var prev := s[..n];
      assert Increasing(prev) by {
        forall i, j | 0 <= i < j < |prev| ensures prev[i] < prev[j] {
          assert prev[i] == s[i] && prev[j] == s[j];
        }
      }
      IncreasingOnce(prev, k);
      assert s == prev + [s[n]];
      assert s[n] !in prev by {
        forall i | 0 <= i < |prev| ensures prev[i] != s[n] {
          assert prev[i] == s[i];
        }
      }
      assert multiset(s) == multiset(prev) + multiset{s[n]};
    }
  }

  lemma {:induction false} MatchIndicesAre(rows: seq<CollectionRow>, term: string, n: nat, k: int)
    requires n <= |rows|
    ensures k in MatchIndices(rows, term, n) <==> 0 <= k < n && RowMatches(rows[k], term)
  {
    if n > 0 {
      MatchIndicesAre(rows, term, n - 1, k);
    }
  }

  /** The indices of `ix` whose citations are a number (`numeric`) or
      NaN (`!numeric`), in order. */
  function Numeric(rows: seq<CollectionRow>, ix: seq<nat>, numeric: bool): seq<nat>
    requires forall i :: 0 <= i < |ix| ==> ix[i] < |rows|
  {
    if ix == [] then []
    else
      var rest := Numeric(rows, ix[1..], numeric);
      if rows[ix[0]].citations.Some? == numeric then [ix[0]] + rest else rest
  }

  /** The two filters split the indices between them. */
  lemma {:induction false} NumericPartition(rows: seq<CollectionRow>, ix: seq<nat>)
    requires forall i :: 0 <= i < |ix| ==> ix[i] < |rows|
    ensures multiset(Numeric(rows, ix, true)) + multiset(Numeric(rows, ix, false)) == multiset(ix)
  {
    if ix != [] {
      NumericPartition(rows, ix[1..]);
      assert ix == [ix[0]] + ix[1..];
    }
  }

  /** The sort key: the citation count, 0 for NaN and out-of-range indices. */
  function CitationKey(rows: seq<CollectionRow>): nat -> int {
    (i: nat) => if i < |rows| && rows[i].citations.Some? then rows[i].citations.value else 0
  }

  /** Row `k` exists and its citation count is a number. */
  predicate Counted(rows: seq<CollectionRow>, k: nat) {
    k < |rows| && rows[k].citations.Some?
  }

  /** Row `k` exists and its citation count is NaN. */
  predicate Uncounted(rows: seq<CollectionRow>, k: nat) {
    k < |rows| && rows[k].citations.None?
  }

  /** `order` lists rows with a numeric count first, largest count first,
      and then the rows whose count is NaN. */
  predicate CountsThenNaN(rows: seq<CollectionRow>, order: seq<nat>) {
    exists p :: 0 <= p <= |order| && NonIncreasing(order[..p], CitationKey(rows)) &&
      (forall i :: 0 <= i < p ==> Counted(rows, order[i])) &&
      (forall i :: p <= i < |order| ==> Uncounted(rows, order[i]))
  }

  /** The numeric filter keeps rows whose count is a number, the other
      filter rows whose count is NaN. */
  lemma {:induction false} NumericKinds(rows: seq<CollectionRow>, ix: seq<nat>, numeric: bool)
    requires forall i :: 0 <= i < |ix| ==> ix[i] < |rows|
    ensures forall k :: k in Numeric(rows, ix, numeric) ==> k < |rows| && rows[k].citations.Some? == numeric
  {
    if ix != [] {
      NumericKinds(rows, ix[1..], numeric);
    }
  }

  /** A sorted arrangement of the numeric rows followed by the NaN rows
      puts the counts first, largest first. */
  lemma SortedThenNaN(rows: seq<CollectionRow>, numeric: seq<nat>, sorted: seq<nat>, nan: seq<nat>)
    requires multiset(sorted) == multiset(numeric)
    requires NonIncreasing(sorted, CitationKey(rows))
    requires forall k :: k in numeric ==> Counted(rows, k)
    requires forall k :: k in nan ==> Uncounted(rows, k)
    ensures CountsThenNaN(rows, sorted + nan)
  {
    var order := sorted + nan;
    var p := |sorted|;
    assert order[..p] == sorted;
    forall i | 0 <= i < p ensures Counted(rows, order[i]) {
      assert order[i] == sorted[i] && sorted[i] in multiset(numeric);
    }
    forall i | p <= i < |order| ensures Uncounted(rows, order[i]) {
      assert order[i] == nan[i - p];
    }
  }

  /** The order of `sort_values('citations', ascending=False)`: the
      matching rows, numeric counts largest first, NaN last. */
  function MatchOrder(rows: seq<CollectionRow>, term: string): (order: seq<nat>)
    ensures multiset(order) == multiset(MatchIndices(rows, term, |rows|))
    ensures CountsThenNaN(rows, order)
  {
    var ms := MatchIndices(rows, term, |rows|);
    MatchIndicesBounded(rows, term);
    var numeric := Numeric(rows, ms, true);
    NumericPartition(rows, ms);
    SortDescProps(numeric, CitationKey(rows), 0);
    NumericKinds(rows, ms, true);
    NumericKinds(rows, ms, false);
    SortedThenNaN(rows, numeric, SortDesc(numeric, CitationKey(rows)), Numeric(rows, ms, false));
    SortDesc(numeric, CitationKey(rows)) + Numeric(rows, ms, false)
  }

  lemma MatchIndicesBounded(rows: seq<CollectionRow>, term: string)
    ensures forall i :: 0 <= i < |MatchIndices(rows, term, |rows|)| ==> MatchIndices(rows, term, |rows|)[i] < |rows|
  {
    var ms := MatchIndices(rows, term, |rows|);
    forall i | 0 <= i < |ms| ensures ms[i] < |rows| {
      MatchIndicesAre(rows, term, |rows|, ms[i]);
    }
  }

  /** The displayed matches are exactly the matching rows, each once, the
      numeric counts first and largest first. */
  lemma MatchOrderProps(rows: seq<CollectionRow>, term: string, k: int)
    ensures k in MatchOrder(rows, term) <==> 0 <= k < |rows| && RowMatches(rows[k], term)
    ensures multiset(MatchOrder(rows, term))[k] <= 1
  {
    var ms := MatchIndices(rows, term, |rows|);
    MatchIndicesAre(rows, term, |rows|, k);
    assert k in MatchOrder(rows, term) <==> k in multiset(ms);
    MatchPositions(rows, term, |rows|);
    PositionsIncreasing(rows, (r: CollectionRow) => RowMatches(r, term), |rows|);
    IncreasingOnce(Positions(rows, (r: CollectionRow) => RowMatches(r, term), |rows|), k);
  }

  /** `[int(x.strip()) - 1 for x in parts]`, or None when one part is not
      an integer. */
  function ParseNumbers(parts: seq<string>): Option<seq<int>> {
    if parts == [] then Some([])
    else
      match PyInt(parts[0])
      case None => None
      case Some(v) =>
        match ParseNumbers(parts[1..])
        case None => None
        case Some(rest) => Some([v - 1] + rest)
  }

  /** The indices the answer names: every match for "all", else the
      comma-separated numbers minus one; None for an answer that does not
      parse. */
  function ChosenIndices(choice: string, order: seq<nat>): Option<seq<int>> {
    var c := Strip(choice);
    if LowerStr(c) == "all" then Some(order) else ParseNumbers(Split(c, ","))
  }

  /** The chosen indices that are matches, in the order named. */
  function KeepMatches(indices: seq<int>, order: seq<nat>): seq<nat> {
    if indices == [] then []
    else
      var n := |indices| - 1;
      KeepMatches(indices[..n], order) + (if indices[n] in order then [indices[n] as nat] else [])
  }

  lemma {:induction false} KeepMatchesAre(indices: seq<int>, order: seq<nat>)
    ensures forall k :: k in KeepMatches(indices, order) <==> k in indices && k in order
    ensures |KeepMatches(indices, order)| <= |indices|
  {
    if indices != [] {
      var n := |indices| - 1;
      KeepMatchesAre(indices[..n], order);
      assert indices == indices[..n] + [indices[n]];
    }
  }

  /** The entry add_from_collection adds for row k, tagged with the search term. */
  function CollectionEntry(r: CollectionRow, term: string, today: string): Entry {
    MakeEntry(r.title, r.authors, r.url, r.year,
              Num(if r.citations.Some? then r.citations.value else 0),
              Some([term]), Some("Found via search: " + term), today)
  }

  function EntriesOf(rows: seq<CollectionRow>, ks: seq<nat>, term: string, today: string): seq<Entry>
    requires forall i :: 0 <= i < |ks| ==> ks[i] < |rows|
  {
    seq(|ks|, i requires 0 <= i < |ks| => CollectionEntry(rows[ks[i]], term, today))
  }

  /** Some matching row has a title that is not a text (null, a number or
      NaN), so the display loop's `row['title'][:60]` raises TypeError
      before the prompt. A row can match through its abstract alone. */
  predicate DisplayRaises(rows: seq<CollectionRow>, term: string) {
    exists k :: 0 <= k < |rows| && RowMatches(rows[k], term) && !rows[k].title.Text?
  }

  /** The display loop over the matches in display order: it raises at
      the first row whose title cannot be sliced. */
  method DisplayMatches(rows: seq<CollectionRow>, order: seq<nat>) returns (raised: bool)
    requires forall i :: 0 <= i < |order| ==> order[i] < |rows|
    ensures raised <==> exists i :: 0 <= i < |order| && !rows[order[i]].title.Text?
  {
    raised := false;
    var i := 0;
    while i < |order| && !raised
      invariant 0 <= i <= |order|
      invariant raised <==> exists j :: 0 <= j < i && !rows[order[j]].title.Text?
      decreases |order| - i
    {
      if !rows[order[i]].title.Text? {
        raised := true;
      }
      i := i + 1;
    }
  }

  /** The display loop raises exactly when some match has a title that is
      not a text: the display order lists every match. */
  lemma DisplayRaisesInOrder(rows: seq<CollectionRow>, term: string)
    ensures forall i :: 0 <= i < |MatchOrder(rows, term)| ==> MatchOrder(rows, term)[i] < |rows|
    ensures DisplayRaises(rows, term) <==>
      exists i :: 0 <= i < |MatchOrder(rows, term)| && !rows[MatchOrder(rows, term)[i]].title.Text?
  {
    var order := MatchOrder(rows, term);
    forall i | 0 <= i < |order| ensures order[i] < |rows| && RowMatches(rows[order[i]], term) {
      MatchOrderProps(rows, term, order[i]);
    }
    if DisplayRaises(rows, term) {
      var k :| 0 <= k < |rows| && RowMatches(rows[k], term) && !rows[k].title.Text?;
      MatchOrderProps(rows, term, k);
      var i :| 0 <= i < |order| && order[i] == k;
      assert !rows[order[i]].title.Text?;
    }
  }

  /** The match indices add_from_collection adds, in order: none when the
      collection is missing, nothing matches, the display of the matches
      raises or the answer does not parse. */
  function Selection(collection: Option<seq<CollectionRow>>, term: string, choice: string): (ks: seq<nat>)
    ensures collection.Some? ==> forall i :: 0 <= i < |ks| ==> ks[i] < |collection.value| && RowMatches(collection.value[ks[i]], term)
    ensures collection.Some? && DisplayRaises(collection.value, term) ==> ks == []
  {
    if collection.None? then []
    else
      var rows := collection.value;
      var order := MatchOrder(rows, term);
      if order == [] || DisplayRaises(rows, term) then []
      else
        match ChosenIndices(choice, order)
        case None => []
        case Some(indices) =>
          var ks := KeepMatches(indices, order);
          KeptAreMatches(rows, term, indices, ks);
          ks
  }

  /** Every chosen index that is kept names a matching row. */
  lemma KeptAreMatches(rows: seq<CollectionRow>, term: string, indices: seq<int>, ks: seq<nat>)
    requires ks == KeepMatches(indices, MatchOrder(rows, term))
    ensures forall i :: 0 <= i < |ks| ==> ks[i] < |rows| && RowMatches(rows[ks[i]], term)
  {
    KeepMatchesAre(indices, MatchOrder(rows, term));
    forall i | 0 <= i < |ks| ensures ks[i] < |rows| && RowMatches(rows[ks[i]], term) {
      assert ks[i] in ks;
      MatchOrderProps(rows, term, ks[i]);
    }
  }

  /** With "all" every match is added, in display order, unless the
      display of the matches raised. */
  lemma SelectAll(rows: seq<CollectionRow>, term: string, choice: string)
    requires LowerStr(Strip(choice)) == "all"
    ensures Selection(Some(rows), term, choice) ==
      if DisplayRaises(rows, term) then [] else MatchOrder(rows, term)
  {
    var order := MatchOrder(rows, term);
    if order != [] && !DisplayRaises(rows, term) {
      assert ChosenIndices(choice, order) == Some(order);
      KeepAll(order, order);
    }
  }

  lemma {:induction false} KeepAll(indices: seq<nat>, order: seq<nat>)
    requires forall i :: 0 <= i < |indices| ==> indices[i] in order
    ensures KeepMatches(indices, order) == indices
  {
    if indices != [] {
      var n := |indices| - 1;
      KeepAll(indices[..n], order);
      assert indices == indices[..n] + [indices[n]];
    }
  }

  /** add_from_collection over a loaded collection and the user's answer:
      each chosen index that is a match goes through add_article, in the
      order named. `raised` says that displaying the matches raised
      TypeError, which ends the call before anything is added. */
  method AddFromCollection(file: ReadingListFile, collection: Option<seq<CollectionRow>>,
                           term: string, choice: string, today: string)
    returns (raised: bool)
    modifies file
    ensures raised <==> collection.Some? && DisplayRaises(collection.value, term)
    ensures raised ==> file.present == old(file.present) && file.readingList == old(file.readingList)
    ensures collection.Some? ==>
      file.Load() == AddAll(old(file.Load()), EntriesOf(collection.value, Selection(collection, term, choice), term, today))
    ensures Selection(collection, term, choice) == [] ==>
      file.present == old(file.present) && file.readingList == old(file.readingList)
  {
    raised := false;
    if collection.None? {
      return;
    }
    var rows := collection.value;
    var order := MatchOrder(rows, term);
    DisplayRaisesInOrder(rows, term);
    if order == [] {
      return;
    }
    raised := DisplayMatches(rows, order);
    if raised {
      return;
    }
    var chosen := ChosenIndices(choice, order);
    if chosen.None? {
      return;
    }
    forall k | k in order ensures 0 <= k < |rows| {
      MatchOrderProps(rows, term, k);
    }
    AddChosen(file, rows, chosen.value, order, term, today);
  }

  /** The adding loop of add_from_collection. */
  method AddChosen(file: ReadingListFile, rows: seq<CollectionRow>, indices: seq<int>, order: seq<nat>,
                   term: string, today: string)
    requires forall k :: k in order ==> k < |rows|
    modifies file
    ensures KeepMatchesBounded(rows, indices, order)
    ensures file.Load() == AddAll(old(file.Load()), EntriesOf(rows, KeepMatches(indices, order), term, today))
    ensures KeepMatches(indices, order) == [] ==>
      file.present == old(file.present) && file.readingList == old(file.readingList)
  {
    ghost var start := file.Load();
    ghost var ks: seq<nat> := [];
    for i := 0 to |indices|
      invariant ks == KeepMatches(indices[..i], order)
      invariant forall j :: 0 <= j < |ks| ==> ks[j] < |rows|
      invariant file.Load() == AddAll(start, EntriesOf(rows, ks, term, today))
      invariant ks == [] ==> file.present == old(file.present) && file.readingList == old(file.readingList)
    {
      KeepMatchesStep(indices, order, i);
      ks := AddIfChosen(file, rows, start, ks, indices[i], order, term, today);
    }
    assert indices[..|indices|] == indices;
  }

  /** One turn of the adding loop: `idx` is added when it is one of the
      matches. */
  method AddIfChosen(file: ReadingListFile, rows: seq<CollectionRow>, ghost start: seq<Entry>, ghost ks: seq<nat>,
                     idx: int, order: seq<nat>, term: string, today: string)
    returns (ghost ks': seq<nat>)
    requires forall k :: k in order ==> k < |rows|
    requires forall j :: 0 <= j < |ks| ==> ks[j] < |rows|
    requires file.Load() == AddAll(start, EntriesOf(rows, ks, term, today))
    modifies file
    ensures ks' == ks + (if idx in order then [idx as nat] else [])
    ensures forall j :: 0 <= j < |ks'| ==> ks'[j] < |rows|
    ensures file.Load() == AddAll(start, EntriesOf(rows, ks', term, today))
    ensures idx !in order ==> file.present == old(file.present) && file.readingList == old(file.readingList)
  {
    ks' := ks;
    if idx in order {
      AddEntryStep(start, rows, ks, idx, term, today);
      AddRow(file, rows[idx], term, today);
      ks' := ks + [idx];
    }
  }

  /** One `add_article` call of the adding loop. */
  method AddRow(file: ReadingListFile, r: CollectionRow, term: string, today: string)
    modifies file
    ensures file.Load() == AddTo(old(file.Load()), CollectionEntry(r, term, today))
  {
    var _ := file.AddArticle(r.title, r.authors, r.url, r.year,
                             Num(if r.citations.Some? then r.citations.value else 0),
                             Some([term]), Some("Found via search: " + term), today);
  }

  lemma KeepMatchesStep(indices: seq<int>, order: seq<nat>, i: int)
    requires 0 <= i < |indices|
    ensures KeepMatches(indices[..i + 1], order) ==
      KeepMatches(indices[..i], order) + (if indices[i] in order then [indices[i] as nat] else [])
  {
    assert indices[..i + 1][..i] == indices[..i];
  }

  lemma AddEntryStep(list: seq<Entry>, rows: seq<CollectionRow>, ks: seq<nat>, k: nat, term: string, today: string)
    requires forall i :: 0 <= i < |ks| ==> ks[i] < |rows|
    requires k < |rows|
    ensures AddAll(list, EntriesOf(rows, ks + [k], term, today)) ==
      AddTo(AddAll(list, EntriesOf(rows, ks, term, today)), CollectionEntry(rows[k], term, today))
  {
    var es := EntriesOf(rows, ks + [k], term, today);
    assert es[..|es| - 1] == EntriesOf(rows, ks, term, today);
  }

  /** Every kept index is a row of the collection. */
  predicate KeepMatchesBounded(rows: seq<CollectionRow>, indices: seq<int>, order: seq<nat>) {
    forall i :: 0 <= i < |KeepMatches(indices, order)| ==> KeepMatches(indices, order)[i] < |rows|
  }
}
